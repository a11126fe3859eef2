# OAUTHBEARER server mechanism, modelled in Dafny

This project models the server side of the SASL OAUTHBEARER mechanism (RFC 7628) in `OAuth2Server`. That covers three things:

- how the client's initial message is parsed: the GS2 header of section 4 of RFC 5801, then the key-value pairs;
- how the `auth` value is extracted;
- how the answer is built once an external verifier has judged the bearer token.

Modules:

- `Options` (`options.dfy`): `Option`, which stands for Java's nullable references.
- `JavaString` (`java_string.dfy`): the parts of `java.lang.String` the server relies on. `IndexOf` models `indexOf`. `Split` models `split` with limit 0 and a literal pattern: when the pattern does not occur the result is `[s]`, and otherwise trailing empty pieces are dropped. `Join` and `SplitAll`, with their lemmas, serve as the reference these are checked against.
- `ByteCursor` (`byte_cursor.dfy`): the byte iterator the parser advances. It is a class `Cursor` with an immutable copy of the bytes and a `pos` field. Its methods `Next`, `DelimitedBy` and `Drain` update `pos`. `Next` returns `None` where the iterator throws `NoSuchElementException`.
- `OAuth2Server` (`oauth2_server.dfy`): the server itself.
  - `ParseInitialClientMessage` is a method that walks a cursor over its own copy of the input array, as the source does. The header is read by the method `ReadHeader`. The method is proved equal to the function `Parse`, and lemmas state the properties of `Parse`.
  - `GetValue` is the search loop of `getValue`. It is proved equal to the recursive `FindValue` over `Split(keyValuesPart, "%x01")`.
  - `EvaluateInitialResponse`, `BearerToken` and `CreateErrorMessage` are functions.
- `OAuth2Examples` (`oauth2_examples.dfy`): the standard exchanges on ASCII text, that is characters below 0x80. Their stand-in decoder reads each byte as the character with the same code, which is what UTF-8 does for bytes below 0x80. Every example feeds it only such bytes, so the examples say nothing about other characters.
- `OAuth2Findings` (`oauth2_findings.dfy`): the two findings below.

Outcomes are `Success(value)` or `Failed(failure)`. A failure is one of two kinds:

- `Mechanism(kind)`, for the mechanism's own errors: `ChannelBindingNotSupported`, `InvalidClientMessage`, `InvalidMessageReceived` and `AuthorizationUnsupported`.
- `ArrayIndexOutOfBounds`, for the `ArrayIndexOutOfBoundsException` that `getValue` can throw and that the parser does not catch.

The model follows the code where it differs from the protocol's description:

- Pairs are separated by the four characters `%x01`, not by the byte 0x01.
- `split("=")` cuts a value at its second `=`. So `auth=abc=def` gives `abc` (`ParseTruncatedValueExample`).
- `auth==x` gives the empty value `""`, so a parsed `auth` can be empty (`LookupEmptyValue`).
- The check at `OAuth2Server.java:78-79` that the byte after the authorization identity is `,` can never fail. `delimitedBy(',')` stops right before a `,` or at the end, and at the end the `next()` call throws first. The method keeps the branch. `ParseHeaderInvalidIff` proves that `InvalidClientMessage` comes from the header only when `n,a` is followed by something other than `=`.
- The byte after the channel-binding flag is always consumed, whatever it is. So `nXauth=...` parses with the pairs starting at `auth` (`ParseWithoutAuthorizationId`).

## Model

| member | source | states |
|---|---|---|
| `JavaString.IndexOf` | src/main/java/org/wildfly/security/mechanism/oauth2/OAuth2Server.java:111 | the result is -1 exactly when the delimiter occurs nowhere; otherwise it is an occurrence and no earlier index is one |
| `JavaString.Split` | src/main/java/org/wildfly/security/mechanism/oauth2/OAuth2Server.java:97-98 | `split` with limit 0 on a literal pattern: the result is a prefix of the pieces between occurrences, only empty pieces are dropped after it, and no piece contains the pattern; when the pattern does not occur the result is `[s]`, and otherwise no empty piece is left last. `SplitAllJoin` and `SplitEmptyIff` relate it to the input |
| `JavaString.SplitAllJoin` | src/main/java/org/wildfly/security/mechanism/oauth2/OAuth2Server.java:97-98 | joining the split pieces with the delimiter gives back the original string |
| `JavaString.SplitAllPiecesFree` | src/main/java/org/wildfly/security/mechanism/oauth2/OAuth2Server.java:97-98 | no piece of a split contains the delimiter |
| `JavaString.TrimTrailingEmpty` | src/main/java/org/wildfly/security/mechanism/oauth2/OAuth2Server.java:97-98 | limit-0 trimming keeps a prefix, drops only empty pieces, and leaves no empty piece last |
| `JavaString.SplitEmptyIff` | src/main/java/org/wildfly/security/mechanism/oauth2/OAuth2Server.java:98-100 | `split` on one character returns no piece exactly when the string is non-empty and made only of that character |
| `JavaString.SplitKeyOnlyIff` | src/main/java/org/wildfly/security/mechanism/oauth2/OAuth2Server.java:98-101 | `split` returns just the key exactly when the string is the key followed only by delimiter characters |
| `JavaString.SplitKeyValue` | src/main/java/org/wildfly/security/mechanism/oauth2/OAuth2Server.java:98-101 | for `key=value` followed by nothing or by `=`, the first two pieces are the key and the value |
| `JavaString.SplitEmptyMiddle` | src/main/java/org/wildfly/security/mechanism/oauth2/OAuth2Server.java:98 | two delimiters in a row give an empty middle piece, which is kept when a non-empty piece follows |
| `ByteCursor.TakeUntil` | src/main/java/org/wildfly/security/mechanism/oauth2/OAuth2Server.java:77 | the result is a prefix without the delimiter, followed in the input by the delimiter or by nothing |
| `ByteCursor.TakeUntilUnique` | src/main/java/org/wildfly/security/mechanism/oauth2/OAuth2Server.java:77 | any delimiter-free prefix followed by the delimiter or the end is the one `TakeUntil` takes |
| `ByteCursor.Cursor.constructor` | src/main/java/org/wildfly/security/mechanism/oauth2/OAuth2Server.java:59 | `ByteIterator.ofBytes(fromBytes.clone())`: a cursor over its own copy of the bytes, positioned at the first one |
| `ByteCursor.Cursor.Next` | src/main/java/org/wildfly/security/mechanism/oauth2/OAuth2Server.java:62 | hands out the byte at `pos` and advances, or gives `None` without moving at the end |
| `ByteCursor.Cursor.DelimitedBy` | src/main/java/org/wildfly/security/mechanism/oauth2/OAuth2Server.java:77 | returns the bytes up to the delimiter and advances past them, leaving the delimiter unread |
| `ByteCursor.Cursor.Drain` | src/main/java/org/wildfly/security/mechanism/oauth2/OAuth2Server.java:84 | returns every unread byte and exhausts the cursor |
| `OAuth2Server.KeyValue` | src/main/java/org/wildfly/security/mechanism/oauth2/OAuth2Server.java:98 | `current.split("=")`: no field contains `=`, and a pair without `=` is its own single field |
| `OAuth2Server.LookupValue` | src/main/java/org/wildfly/security/mechanism/oauth2/OAuth2Server.java:96-106 | `getValue` as a value: the search over `split("%x01")`; a text without `%x01` is one pair |
| `OAuth2Server.GetValue` | src/main/java/org/wildfly/security/mechanism/oauth2/OAuth2Server.java:96-106 | the loop's outcome is the recursive search over the `%x01`-separated pairs |
| `OAuth2Server.FindValueNotFound` | src/main/java/org/wildfly/security/mechanism/oauth2/OAuth2Server.java:96-106 | the search returns none exactly when every pair has a first field and that field is not the key |
| `OAuth2Server.FindValueFirstStop` | src/main/java/org/wildfly/security/mechanism/oauth2/OAuth2Server.java:97-103 | the first pair not passed over decides: its second field if its first is the key and a second exists, an index failure otherwise |
| `OAuth2Server.FindValue` | src/main/java/org/wildfly/security/mechanism/oauth2/OAuth2Server.java:97-106 | the loop body over the pairs in order. It has no ensures of its own: `FindValueNotFound`, `FindValueFirstStop` and `FindValueFound` characterise it on every input |
| `OAuth2Server.FindValueFound` | src/main/java/org/wildfly/security/mechanism/oauth2/OAuth2Server.java:100-101 | a found value is the second field of some pair whose first field is the key |
| `OAuth2Server.LookupKeyWithoutValue` | src/main/java/org/wildfly/security/mechanism/oauth2/OAuth2Server.java:98-101 | `auth`, `auth=`, `auth==`, ... make `keyValue[1]` fail |
| `OAuth2Server.LookupOnlyEqualSigns` | src/main/java/org/wildfly/security/mechanism/oauth2/OAuth2Server.java:98-100 | a pair made only of `=` makes `keyValue[0]` fail |
| `OAuth2Server.LookupKeyValue` | src/main/java/org/wildfly/security/mechanism/oauth2/OAuth2Server.java:97-101 | `key=value` gives `value`, cut at a second `=` |
| `OAuth2Server.LookupEmptyValue` | src/main/java/org/wildfly/security/mechanism/oauth2/OAuth2Server.java:98-101 | `key==value` gives the empty value |
| `OAuth2Server.ParseHeader` | src/main/java/org/wildfly/security/mechanism/oauth2/OAuth2Server.java:62-82 | the pairs start within the message, and header failures are always mechanism errors |
| `OAuth2Server.ReadHeader` | src/main/java/org/wildfly/security/mechanism/oauth2/OAuth2Server.java:62-82 | reading the header off a fresh cursor gives exactly `ParseHeader` of its bytes, and on success leaves the cursor where the pairs start |
| `OAuth2Server.ParsePairs` | src/main/java/org/wildfly/security/mechanism/oauth2/OAuth2Server.java:84-93 | the message is built exactly when `getValue` finds `auth`, with the header's identity and the input bytes; a missing `auth` gives `InvalidClientMessage`, and an index failure inside `getValue` stays `ArrayIndexOutOfBounds`, because the catch handles only `NoSuchElementException` |
| `OAuth2Server.Parse` | src/main/java/org/wildfly/security/mechanism/oauth2/OAuth2Server.java:57-94 | `parseInitialClientMessage` as a value: a parsed message keeps the input bytes, the index exception only arises after a well-formed header, and every failure of the header is the parser's failure. With that clause, `ParseChannelBindingIff`, `ParseMessageReceivedIff` and `ParseHeaderInvalidIff` (about the header) and `ParseAuthorizationId` and `ParseWithoutAuthorizationId` (about the pairs) between them decide its outcome on every input |
| `OAuth2Server.ParseInitialClientMessage` | src/main/java/org/wildfly/security/mechanism/oauth2/OAuth2Server.java:57-94 | the cursor-driven method computes exactly `Parse` of the input bytes |
| `OAuth2Server.ParseKeepsMessageBytes` | src/main/java/org/wildfly/security/mechanism/oauth2/OAuth2Server.java:57-90 | a parsed message's bytes equal the input, and its `auth` is the value found in the decoded pairs |
| `OAuth2Server.ParseChannelBindingIff` | src/main/java/org/wildfly/security/mechanism/oauth2/OAuth2Server.java:62-66 | channel binding is refused exactly when the first byte exists and is not `n` |
| `OAuth2Server.ParseMessageReceivedIff` | src/main/java/org/wildfly/security/mechanism/oauth2/OAuth2Server.java:61-93 | `InvalidMessageReceived` happens exactly for `""`, `n`, `n,`, `n,a` and `n,a=` with no later `,` |
| `OAuth2Server.ParseHeaderInvalidIff` | src/main/java/org/wildfly/security/mechanism/oauth2/OAuth2Server.java:73-80 | the header is invalid exactly when `n,a` is followed by a byte other than `=` |
| `OAuth2Server.ParseAuthorizationId` | src/main/java/org/wildfly/security/mechanism/oauth2/OAuth2Server.java:73-84 | for `n,a=<id>,<rest>` with no `,` in `id`, the authorization identity is `id` decoded and the pairs are `rest` |
| `OAuth2Server.ParseWithoutAuthorizationId` | src/main/java/org/wildfly/security/mechanism/oauth2/OAuth2Server.java:68-84 | a second byte other than `,`, or a third other than `a`, is consumed; there is then no identity and the pairs follow |
| `OAuth2Server.BearerToken` | src/main/java/org/wildfly/security/mechanism/oauth2/OAuth2Server.java:110-111 | the token is the suffix after the first space, or all of `auth` when it has no space |
| `OAuth2Server.CreateErrorMessage` | src/main/java/org/wildfly/security/mechanism/oauth2/OAuth2Server.java:132-144 | the fields are `status=invalid_token`, then `openid-configuration=<value>` exactly when the config has that key |
| `OAuth2Server.EvaluateInitialResponse` | src/main/java/org/wildfly/security/mechanism/oauth2/OAuth2Server.java:108-130 | without a bearer credential the outcome is an invalid message; otherwise verified, not verified and unsupported give the empty answer, the error object and `AuthorizationUnsupported` |
| `OAuth2Examples.AsciiRoundTrip` | src/main/java/org/wildfly/security/mechanism/oauth2/OAuth2Server.java:84 | the stand-in decoder inverts the UTF-8 encoding of ASCII text |
| `OAuth2Examples.ParseWithoutAuthorizationIdExample` | src/main/java/org/wildfly/security/mechanism/oauth2/OAuth2Server.java:57-90 | `n,,auth=Bearer <token>` parses with no identity and `auth` `Bearer <token>` |
| `OAuth2Examples.ParseAuthorizationIdExample` | src/main/java/org/wildfly/security/mechanism/oauth2/OAuth2Server.java:57-90 | `n,a=<id>,auth=Bearer <token>` parses with identity `id` |
| `OAuth2Examples.ParseMissingAuthExample` | src/main/java/org/wildfly/security/mechanism/oauth2/OAuth2Server.java:84-88 | `n,,<key>=<value>` with a key other than `auth` is an invalid message |
| `OAuth2Examples.ParseTruncatedValueExample` | src/main/java/org/wildfly/security/mechanism/oauth2/OAuth2Server.java:98-101 | `auth=Bearer <token>=<tail>` gives `Bearer <token>` |
| `OAuth2Examples.ParseTruncatedExamples` | src/main/java/org/wildfly/security/mechanism/oauth2/OAuth2Server.java:62-92 | `n`, `n,` and `n,a=<id>` without a closing `,` give `InvalidMessageReceived` |
| `OAuth2Examples.BearerTokenExample` | src/main/java/org/wildfly/security/mechanism/oauth2/OAuth2Server.java:111 | for `Bearer <token>` the verifier is given `<token>` |
| `OAuth2Examples.EvaluateExamples` | src/main/java/org/wildfly/security/mechanism/oauth2/OAuth2Server.java:108-144 | the four answers for a bearer credential, with and without a discovery URL |
| `OAuth2Findings.RfcFramedMessageRejected` | src/main/java/org/wildfly/security/mechanism/oauth2/OAuth2Server.java:45-97 | a message framed with the byte 0x01 is rejected as invalid |
| `OAuth2Findings.KeyWithoutValueEscapes` | src/main/java/org/wildfly/security/mechanism/oauth2/OAuth2Server.java:98-101 | `n,,auth` followed only by `=` ends in an uncaught index failure |
| `OAuth2Findings.LookupValueCorrected` | src/main/java/org/wildfly/security/mechanism/oauth2/OAuth2Server.java:96-106 | the corrected lookup never ends in an index failure |
| `OAuth2Findings.ParseCorrected` | src/main/java/org/wildfly/security/mechanism/oauth2/OAuth2Server.java:57-94 | the corrected parser fails only with mechanism errors and keeps the input bytes |
| `OAuth2Findings.RfcFramedMessageAccepted` | src/main/java/org/wildfly/security/mechanism/oauth2/OAuth2Server.java:45-97 | the corrected parser accepts the 0x01-framed message and finds its credential |
| `OAuth2Findings.KeyWithoutValueRejected` | src/main/java/org/wildfly/security/mechanism/oauth2/OAuth2Server.java:98-101 | the corrected parser reports `n,,auth` without a value as an invalid message |

## Left out

- UTF-8 decoding (`asUtf8String().drainToString()`) is the `Decoder` parameter. It is not modelled how the library treats malformed sequences. The examples use a byte-to-same-code decoder on ASCII text only, where it agrees with UTF-8.
- `isBearerToken()` belongs to `OAuth2InitialClientMessage`, which is not part of this model. It is the `isBearerToken` parameter, a predicate on `auth`.
- The callback handler, `MechanismUtil.handleCallbacks` and `EvidenceVerifyCallback` are the `verify` parameter. It answers verified, not verified or unsupported. Other exceptions that `handleCallbacks` may raise are not modelled.
- JSON building, `String.getBytes()` with the platform charset, and base64 encoding are library calls. The error answer is given as its ordered field list, and its bytes are not modelled.
- CreateErrorMessage: the configuration is a `map<string, string>` of each value's `toString()`. So a key that maps to `null` in Java, which Java treats like an absent key, cannot be expressed.
- Logging, the exception factories and `mechanismName`, which appears only in error messages, are left out. Only the error kinds are kept.
- `MechanismRealmConfiguration.java` is not part of this model. It only holds configuration objects and has no behaviour to verify.
- Concurrency and sharing of the mechanism's final fields are not modelled. Each call is independent and holds no mutable shared state.
- The defensive copies of the input array are a snapshot `fromBytes[..]`. A Dafny sequence is a value, so later changes to the array cannot reach the parsed message. Aliasing is therefore not modelled separately.
- Java strings are UTF-16 code units, while Dafny strings are sequences of characters. The model splits and searches character sequences and does not model surrogate pairs.

## Findings

| source | as written | input that shows it | evidently intended | confidence | as-written member | corrected member |
|---|---|---|---|---|---|---|
| src/main/java/org/wildfly/security/mechanism/oauth2/OAuth2Server.java:45 | pairs are split on the four-character text `%x01`, the ABNF spelling of the separator | `n,,` 0x01 `auth=Bearer abc` 0x01 0x01, the framing of section 3.1 of RFC 7628: rejected as an invalid message | split on the single byte 0x01 (`kvsep`), so the message gives `auth` = `Bearer abc` | high; not executed | `OAuth2Findings.RfcFramedMessageRejected` | `OAuth2Findings.RfcFramedMessageAccepted` (about `OAuth2Findings.ParseCorrected`) |
| src/main/java/org/wildfly/security/mechanism/oauth2/OAuth2Server.java:98-101 | `keyValue[0]` and `keyValue[1]` are read unchecked, and only `NoSuchElementException` is converted | `n,,auth` (also `n,,auth=` and `n,,=`): an `ArrayIndexOutOfBoundsException` escapes the mechanism | report a malformed pair as an invalid client message | medium; not executed | `OAuth2Findings.KeyWithoutValueEscapes` | `OAuth2Findings.KeyWithoutValueRejected` (about `OAuth2Findings.LookupValueCorrected`) |
