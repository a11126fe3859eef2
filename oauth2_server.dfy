/**
 * The server side of the SASL OAUTHBEARER mechanism (RFC 7628): parsing the
 * client's initial message (a GS2 header, section 4 of RFC 5801, followed by
 * key-value pairs), finding its `auth` value, and answering it after an
 * external verifier has judged the bearer token.
 *
 * UTF-8 decoding, the bearer-scheme test and the token verifier belong to
 * code outside this class; they enter as function parameters.
 */
module OAuth2Server {
  import opened Options
  import opened ByteCursor
  import opened JavaString

  /** Key of the server configuration entry advertised in an error response. */
  const CONFIG_OPENID_CONFIGURATION_URL: string := "openid-configuration"
  /** Separator between key-value pairs: the four characters `%`, `x`, `0`, `1`. */
  const KV_DELIMITER: string := "%x01"
  /** Separator between a key and its value. */
  const KV_SEPARATOR: string := "="
  /** The key whose value carries the credential. */
  const AUTH_KEY: string := "auth"

  /** `'n'`: the client does not support channel binding. */
  const CBIND_FLAG_NONE: byte := 0x6E
  /** `','` */
  const COMMA: byte := 0x2C
  /** `'a'`: start of an `a=` authorization-identity field. */
  const AUTHZID_MARK: byte := 0x61
  /** `'='` */
  const EQUALS: byte := 0x3D

  /** Text decoding of a byte sequence (`asUtf8String().drainToString()`). */
  type Decoder = seq<byte> -> string

  /** The authentication-mechanism errors the server raises. */
  datatype ErrorKind =
    | ChannelBindingNotSupported
    | InvalidClientMessage
    | InvalidMessageReceived
    | AuthorizationUnsupported

  /**
   * How an operation can fail: with a mechanism error, or with an
   * `ArrayIndexOutOfBoundsException` that escapes the server unconverted.
   */
  datatype Failure = Mechanism(kind: ErrorKind) | ArrayIndexOutOfBounds

  datatype Outcome<+T> = Success(value: T) | Failed(failure: Failure)

  /** The parsed initial client message. */
  datatype InitialClientMessage =
    InitialClientMessage(authorizationId: Option<string>, auth: string, messageBytes: seq<byte>)

  // ---------------------------------------------------------------------------
  // Key-value extraction (getValue)
  // ---------------------------------------------------------------------------

  /** What `getValue` does: return a value, return null, or throw on an array index. */
  datatype Lookup = Found(value: string) | NotFound | IndexOutOfBounds

  /** `pair.split("=")`, the `keyValue` array of one pair. */
  function KeyValue(pair: string): (keyValue: seq<string>)
    ensures forall k :: 0 <= k < |keyValue| ==> IndexOf(keyValue[k], KV_SEPARATOR) == -1
    ensures IndexOf(pair, KV_SEPARATOR) == -1 ==> keyValue == [pair]
  {
    Split(pair, KV_SEPARATOR)
  }

  /** The search loop of `getValue` over the pairs, one pair at a time. */
  function FindValue(key: string, pairs: seq<string>): Lookup
    decreases |pairs|
  {
    if |pairs| == 0 then NotFound
    else
      var keyValue := KeyValue(pairs[0]);
      if |keyValue| == 0 then IndexOutOfBounds
      else if keyValue[0] == key then (if |keyValue| < 2 then IndexOutOfBounds else Found(keyValue[1]))
      else FindValue(key, pairs[1..])
  }

  /** `getValue(key, keyValuesPart)` as a function. */
  function LookupValue(key: string, keyValuesPart: string): (r: Lookup)
    ensures IndexOf(keyValuesPart, KV_DELIMITER) == -1 ==> r == FindValue(key, [keyValuesPart])
  {
    FindValue(key, Split(keyValuesPart, KV_DELIMITER))
  }

  /** `getValue`: the for-each loop with its early returns. */
  method GetValue(key: string, keyValuesPart: string) returns (r: Lookup)
    ensures r == LookupValue(key, keyValuesPart)
  {
    var pairs := Split(keyValuesPart, KV_DELIMITER);
    var i := 0;
    while i < |pairs|
      invariant 0 <= i <= |pairs|
      invariant FindValue(key, pairs[i..]) == FindValue(key, pairs)
    {
      assert pairs[i..][1..] == pairs[i + 1..];
      var keyValue := KeyValue(pairs[i]);
      if |keyValue| == 0 {
        return IndexOutOfBounds;
      }
      if keyValue[0] == key {
        if |keyValue| < 2 {
          return IndexOutOfBounds;
        }
        return Found(keyValue[1]);
      }
      i := i + 1;
    }
    return NotFound;
  }

  /** A pair the search passes over: it has a first field and that field is not `key`. */
  ghost predicate Skipped(key: string, pair: string) {
    |KeyValue(pair)| > 0 && KeyValue(pair)[0] != key
  }

  /** The search finds nothing exactly when it passes over every pair. */
  lemma {:induction false} FindValueNotFound(key: string, pairs: seq<string>)
    ensures FindValue(key, pairs) == NotFound <==> forall j :: 0 <= j < |pairs| ==> Skipped(key, pairs[j])
    decreases |pairs|
  {
    if |pairs| > 0 {
      FindValueNotFound(key, pairs[1..]);
      assert forall j :: 1 <= j < |pairs| ==> pairs[j] == pairs[1..][j - 1];
    }
  }

  /**
   * The first pair the search does not pass over decides: the second field
   * when its first field is `key` and it has a second one, an index failure
   * otherwise (no first field, or no second field).
   */
  lemma {:induction false} FindValueFirstStop(key: string, pairs: seq<string>, i: nat)
    requires i < |pairs| && !Skipped(key, pairs[i])
    requires forall j :: 0 <= j < i ==> Skipped(key, pairs[j])
    ensures FindValue(key, pairs) ==
      if |KeyValue(pairs[i])| >= 2 && KeyValue(pairs[i])[0] == key then Found(KeyValue(pairs[i])[1])
      else IndexOutOfBounds
    decreases i
  {
    if i > 0 {
      assert Skipped(key, pairs[0]);
      assert pairs[1..][i - 1] == pairs[i];
      FindValueFirstStop(key, pairs[1..], i - 1);
    }
  }

  /** A found value is the second field of a pair whose first field is `key`. */
  lemma {:induction false} FindValueFound(key: string, pairs: seq<string>)
    requires FindValue(key, pairs).Found?
    ensures exists i :: 0 <= i < |pairs| && |KeyValue(pairs[i])| >= 2 && KeyValue(pairs[i])[0] == key
                   && KeyValue(pairs[i])[1] == FindValue(key, pairs).value
    decreases |pairs|
  {
    var keyValue := KeyValue(pairs[0]);
    if keyValue[0] != key {
      FindValueFound(key, pairs[1..]);
      var i :| 0 <= i < |pairs[1..]| && |KeyValue(pairs[1..][i])| >= 2 && KeyValue(pairs[1..][i])[0] == key
        && KeyValue(pairs[1..][i])[1] == FindValue(key, pairs[1..]).value;
      assert pairs[1..][i] == pairs[i + 1];
    }
  }

  /**
   * `"auth"`, `"auth="`, `"auth=="`, ...: the key without a value makes
   * `keyValue[1]` fail.
   */
  lemma LookupKeyWithoutValue(key: string, equalSigns: string)
    requires |key| > 0 && '=' !in key && '%' !in key
    requires AllChar(equalSigns, '=')
    ensures LookupValue(key, key + equalSigns) == IndexOutOfBounds
  {
    var pair := key + equalSigns;
    IndexOfAbsent(pair, KV_DELIMITER);
    assert pair[..|key|] == key && pair[|key|..] == equalSigns;
    SplitKeyOnlyIff(pair, key, '=');
  }

  /** A pair made only of `=` has no fields, so `keyValue[0]` fails. */
  lemma LookupOnlyEqualSigns(key: string, equalSigns: string)
    requires |equalSigns| > 0 && AllChar(equalSigns, '=')
    ensures LookupValue(key, equalSigns) == IndexOutOfBounds
  {
    IndexOfAbsent(equalSigns, KV_DELIMITER);
    SplitEmptyIff(equalSigns, '=');
  }

  /**
   * `key=value` gives `value`; anything after a second `=` is cut off, so
   * `auth=abc=def` gives `abc`.
   */
  lemma LookupKeyValue(key: string, value: string, rest: string)
    requires '=' !in key && '=' !in value && |value| > 0
    requires rest == [] || rest[0] == '='
    requires '%' !in key && '%' !in value && '%' !in rest
    ensures LookupValue(key, key + "=" + value + rest) == Found(value)
  {
    var pair := key + "=" + value + rest;
    assert forall k :: 0 <= k < |pair| ==> pair[k] != '%';
    IndexOfAbsent(pair, KV_DELIMITER);
    SplitKeyValue(key, value, rest, '=');
  }

  /**
   * `key==value` gives the empty string: the empty piece between the two `=`
   * is kept because a non-empty one follows it, so a found value may be empty.
   */
  lemma LookupEmptyValue(key: string, value: string)
    requires '=' !in key && '=' !in value && |value| > 0
    requires '%' !in key && '%' !in value
    ensures LookupValue(key, key + "==" + value) == Found("")
  {
    var pair := key + "==" + value;
    assert '%' !in pair;
    IndexOfAbsent(pair, KV_DELIMITER);
    assert pair == key + ['=', '='] + value;
    SplitEmptyMiddle(key, value, '=');
  }

  // ---------------------------------------------------------------------------
  // Initial client message (parseInitialClientMessage)
  // ---------------------------------------------------------------------------

  /** The GS2 header read: the authorization-identity bytes, if any, and where the pairs start. */
  datatype Header = Header(authorizationId: Option<seq<byte>>, pairsStart: nat)

  /** The GS2 header part of `parseInitialClientMessage`, on the message as a value. */
  function ParseHeader(m: seq<byte>): (r: Outcome<Header>)
    ensures r.Success? ==> r.value.pairsStart <= |m|
    ensures r.Failed? ==> r.failure.Mechanism?
  {
    if |m| == 0 then Failed(Mechanism(InvalidMessageReceived))
    else if m[0] != CBIND_FLAG_NONE then Failed(Mechanism(ChannelBindingNotSupported))
    else if |m| == 1 then Failed(Mechanism(InvalidMessageReceived))
    else if m[1] != COMMA then Success(Header(None, 2))
    else if |m| == 2 then Failed(Mechanism(InvalidMessageReceived))
    else if m[2] != AUTHZID_MARK then Success(Header(None, 3))
    else if |m| == 3 then Failed(Mechanism(InvalidMessageReceived))
    else if m[3] != EQUALS then Failed(Mechanism(InvalidClientMessage))
    else
      var id := TakeUntil(m[4..], COMMA);
      if 4 + |id| == |m| then Failed(Mechanism(InvalidMessageReceived))
      else Success(Header(Some(id), 5 + |id|))
  }

  /** The message built from the header's result and the decoded key-value text. */
  function ParsePairs(authorizationId: Option<string>, keyValuesPart: string, m: seq<byte>): (r: Outcome<InitialClientMessage>)
    ensures r.Success? <==> LookupValue(AUTH_KEY, keyValuesPart).Found?
    ensures r.Success? ==>
      r.value.authorizationId == authorizationId && r.value.messageBytes == m && LookupValue(AUTH_KEY, keyValuesPart) == Found(r.value.auth)
    ensures LookupValue(AUTH_KEY, keyValuesPart) == NotFound ==> r == Failed(Mechanism(InvalidClientMessage))
    ensures LookupValue(AUTH_KEY, keyValuesPart) == IndexOutOfBounds ==> r == Failed(ArrayIndexOutOfBounds)
  {
    match LookupValue(AUTH_KEY, keyValuesPart)
    case Found(auth) => Success(InitialClientMessage(authorizationId, auth, m))
    case NotFound => Failed(Mechanism(InvalidClientMessage))
    case IndexOutOfBounds => Failed(ArrayIndexOutOfBounds)
  }

  /** `parseInitialClientMessage` on the message as a value. */
  function Parse(m: seq<byte>, decode: Decoder): (r: Outcome<InitialClientMessage>)
    ensures r.Success? ==> r.value.messageBytes == m
    ensures r.Failed? && !r.failure.Mechanism? ==> ParseHeader(m).Success?
    ensures ParseHeader(m).Failed? ==> r == Failed(ParseHeader(m).failure)
  {
    match ParseHeader(m)
    case Failed(f) => Failed(f)
    case Success(h) =>
      var authorizationId := if h.authorizationId.Some? then Some(decode(h.authorizationId.value)) else None;
      ParsePairs(authorizationId, decode(m[h.pairsStart..]), m)
  }

  /**
   * The GS2 header of `parseInitialClientMessage`, read off the cursor: the
   * channel-binding flag, the byte after it and, after `"n,a="`, the
   * authorization identity and the `,` that closes it.
   */
  method ReadHeader(cursor: Cursor) returns (r: Outcome<Header>)
    requires cursor.Valid() && cursor.pos == 0
    modifies cursor
    ensures cursor.Valid()
    ensures r == ParseHeader(cursor.bytes)
    ensures r.Success? ==> cursor.pos == r.value.pairsStart
  {
    var cbindFlag := cursor.Next();
    if cbindFlag == None {
      return Failed(Mechanism(InvalidMessageReceived));
    }
    if cbindFlag.value != CBIND_FLAG_NONE {
      return Failed(Mechanism(ChannelBindingNotSupported));
    }
    var b := cursor.Next();
    if b == None {
      return Failed(Mechanism(InvalidMessageReceived));
    }
    if b.value != COMMA {
      return Success(Header(None, 2));
    }
    var c := cursor.Next();
    if c == None {
      return Failed(Mechanism(InvalidMessageReceived));
    }
    if c.value != AUTHZID_MARK {
      return Success(Header(None, 3));
    }
    var e := cursor.Next();
    if e == None {
      return Failed(Mechanism(InvalidMessageReceived));
    }
    if e.value != EQUALS {
      return Failed(Mechanism(InvalidClientMessage));
    }
    assert cursor.Remaining() == cursor.bytes[4..];
    var idBytes := cursor.DelimitedBy(COMMA);
    var separator := cursor.Next();
    if separator == None {
      return Failed(Mechanism(InvalidMessageReceived));
    }
    if separator.value != COMMA {
      return Failed(Mechanism(InvalidClientMessage));
    }
    r := Success(Header(Some(idBytes), cursor.pos));
  }

  /**
   * `parseInitialClientMessage`: a cursor over its own copy of the bytes is
   * read byte by byte; running out of bytes anywhere gives
   * `InvalidMessageReceived`.
   */
  method ParseInitialClientMessage(fromBytes: array<byte>, decode: Decoder) returns (r: Outcome<InitialClientMessage>)
    ensures r == Parse(fromBytes[..], decode)
  {
    var messageBytes := fromBytes[..];
    var cursor := new Cursor(fromBytes[..]);
    var header := ReadHeader(cursor);
    if header.Failed? {
      return Failed(header.failure);
    }
    var authorizationId: Option<string> := None;
    if header.value.authorizationId.Some? {
      authorizationId := Some(decode(header.value.authorizationId.value));
    }
    var rest := cursor.Drain();
    var auth := GetValue(AUTH_KEY, decode(rest));
    match auth
    case Found(value) =>
      r := Success(InitialClientMessage(authorizationId, value, messageBytes));
    case NotFound =>
      r := Failed(Mechanism(InvalidClientMessage));
    case IndexOutOfBounds =>
      r := Failed(ArrayIndexOutOfBounds);
  }

  /** A parsed message keeps the input bytes unchanged, and its `auth` is the value found. */
  lemma ParseKeepsMessageBytes(m: seq<byte>, decode: Decoder)
    requires Parse(m, decode).Success?
    ensures Parse(m, decode).value.messageBytes == m
    ensures ParseHeader(m).Success?
    ensures LookupValue(AUTH_KEY, decode(m[ParseHeader(m).value.pairsStart..])) == Found(Parse(m, decode).value.auth)
  {
  }

  /** Channel binding is refused exactly when the first byte is there and is not `'n'`. */
  lemma ParseChannelBindingIff(m: seq<byte>, decode: Decoder)
    ensures Parse(m, decode) == Failed(Mechanism(ChannelBindingNotSupported)) <==> |m| > 0 && m[0] != CBIND_FLAG_NONE
  {
  }

  /** The messages that end while a byte or the closing `,` is still to be read. */
  ghost predicate Truncated(m: seq<byte>) {
    || m == []
    || m == [CBIND_FLAG_NONE]
    || m == [CBIND_FLAG_NONE, COMMA]
    || m == [CBIND_FLAG_NONE, COMMA, AUTHZID_MARK]
    || (|m| >= 4 && m[..4] == [CBIND_FLAG_NONE, COMMA, AUTHZID_MARK, EQUALS] && COMMA !in m[4..])
  }

  /**
   * Reading past the end of the message is reported as
   * `InvalidMessageReceived`, and nothing else is: `""`, `"n"`, `"n,"`,
   * `"n,a"` and `"n,a=..."` without a closing `,`.
   */
  lemma ParseMessageReceivedIff(m: seq<byte>, decode: Decoder)
    ensures Parse(m, decode) == Failed(Mechanism(InvalidMessageReceived)) <==> Truncated(m)
  {
    if |m| >= 4 && m[0] == CBIND_FLAG_NONE && m[1] == COMMA && m[2] == AUTHZID_MARK && m[3] == EQUALS {
      var id := TakeUntil(m[4..], COMMA);
      assert m[..4] == [CBIND_FLAG_NONE, COMMA, AUTHZID_MARK, EQUALS];
      if 4 + |id| == |m| {
        assert id == m[4..];
      } else {
        assert COMMA in m[4..] by { assert m[4..][|id|] == COMMA; }
      }
    }
  }

  /**
   * The header is rejected as invalid only when `"n,a"` is followed by a byte
   * other than `'='`: the check of the `,` after the authorization identity
   * can never fail, because the identity ends right before a `,` or at the end.
   */
  lemma ParseHeaderInvalidIff(m: seq<byte>)
    ensures ParseHeader(m) == Failed(Mechanism(InvalidClientMessage))
        <==> |m| >= 4 && m[..3] == [CBIND_FLAG_NONE, COMMA, AUTHZID_MARK] && m[3] != EQUALS
  {
    if |m| >= 3 && m[..3] == [CBIND_FLAG_NONE, COMMA, AUTHZID_MARK] {
      assert m[0] == CBIND_FLAG_NONE && m[1] == COMMA && m[2] == AUTHZID_MARK;
    }
  }

  /**
   * `"n,a=" + id + "," + rest` with no `,` in `id`: the authorization identity
   * is `id` decoded and the pairs are `rest` decoded.
   */
  lemma ParseAuthorizationId(id: seq<byte>, rest: seq<byte>, decode: Decoder)
    requires COMMA !in id
    ensures var m := [CBIND_FLAG_NONE, COMMA, AUTHZID_MARK, EQUALS] + id + [COMMA] + rest;
      Parse(m, decode) == ParsePairs(Some(decode(id)), decode(rest), m)
  {
    var m := [CBIND_FLAG_NONE, COMMA, AUTHZID_MARK, EQUALS] + id + [COMMA] + rest;
    assert m[4..] == id + [COMMA] + rest;
    assert TakeUntil(m[4..], COMMA) == id by {
      var tail := id + [COMMA] + rest;
      assert tail[..|id|] == id && tail[|id|] == COMMA;
      TakeUntilUnique(tail, COMMA, id);
    }
    assert ParseHeader(m) == Success(Header(Some(id), 5 + |id|));
    assert m[5 + |id|..] == rest;
  }

  /**
   * The byte after the flag is always read, and after a `,` one more: when
   * the second byte is not `,`, or the third is not `'a'`, there is no
   * authorization identity and the pairs start right after it.
   */
  lemma ParseWithoutAuthorizationId(second: byte, third: byte, rest: seq<byte>, decode: Decoder)
    ensures second != COMMA ==>
      Parse([CBIND_FLAG_NONE, second] + rest, decode) == ParsePairs(None, decode(rest), [CBIND_FLAG_NONE, second] + rest)
    ensures third != AUTHZID_MARK ==>
      var m := [CBIND_FLAG_NONE, COMMA, third] + rest;
      Parse(m, decode) == ParsePairs(None, decode(rest), m)
  {
    if second != COMMA {
      var m := [CBIND_FLAG_NONE, second] + rest;
      assert ParseHeader(m) == Success(Header(None, 2));
      assert m[2..] == rest;
    }
    if third != AUTHZID_MARK {
      var m := [CBIND_FLAG_NONE, COMMA, third] + rest;
      assert ParseHeader(m) == Success(Header(None, 3));
      assert m[3..] == rest;
    }
  }

  // ---------------------------------------------------------------------------
  // Response evaluation (evaluateInitialResponse, createErrorMessage)
  // ---------------------------------------------------------------------------

  /** What the evidence-verification callback reports. */
  datatype Verification = Verified | NotVerified | CallbackUnsupported

  /** A JSON member: name and text value. */
  type Field = (string, string)

  /** The mechanism's answer: empty, or the error object given as its ordered member list. */
  datatype Response = EmptyResponse | ErrorResponse(fields: seq<Field>)

  /**
   * `auth.substring(auth.indexOf(" ") + 1)`: what follows the first space, or
   * all of `auth` when it has none.
   */
  function BearerToken(auth: string): (token: string)
    ensures |token| <= |auth| && token == auth[|auth| - |token|..]
    ensures ' ' !in auth ==> token == auth
    ensures ' ' in auth ==>
      |token| < |auth| && auth[|auth| - |token| - 1] == ' ' && ' ' !in auth[..|auth| - |token| - 1]
  {
    OccursAtCharEverywhere(auth, ' ');
    var i := IndexOf(auth, " ");
    assert i >= 0 ==> forall k :: 0 <= k < i ==> auth[k] != ' ' by {
      if i >= 0 {
        forall k | 0 <= k < i ensures auth[k] != ' ' {
          assert !OccursAt(auth, [' '], k);
        }
      }
    }
    auth[i + 1..]
  }

  /**
   * `createErrorMessage`: `status` is `invalid_token`, followed by the
   * configured `openid-configuration` value when there is one.
   */
  function CreateErrorMessage(serverConfig: map<string, string>): (fields: seq<Field>)
    ensures |fields| == if CONFIG_OPENID_CONFIGURATION_URL in serverConfig then 2 else 1
    ensures fields[0] == ("status", "invalid_token")
    ensures CONFIG_OPENID_CONFIGURATION_URL in serverConfig ==>
      fields[1] == (CONFIG_OPENID_CONFIGURATION_URL, serverConfig[CONFIG_OPENID_CONFIGURATION_URL])
  {
    var status := [("status", "invalid_token")];
    if CONFIG_OPENID_CONFIGURATION_URL in serverConfig then
      status + [(CONFIG_OPENID_CONFIGURATION_URL, serverConfig[CONFIG_OPENID_CONFIGURATION_URL])]
    else status
  }

  /**
   * `evaluateInitialResponse`: a bearer credential's token goes to the
   * verifier; verified gives the empty answer, not verified the error
   * object, an unsupported callback `AuthorizationUnsupported`; any other
   * credential is an invalid message.
   */
  function EvaluateInitialResponse(
    message: InitialClientMessage,
    isBearerToken: string -> bool,
    verify: string -> Verification,
    serverConfig: map<string, string>): (r: Outcome<Response>)
    ensures !isBearerToken(message.auth) ==> r == Failed(Mechanism(InvalidClientMessage))
    ensures isBearerToken(message.auth) ==>
      (r == Success(EmptyResponse) <==> verify(BearerToken(message.auth)) == Verified)
    ensures isBearerToken(message.auth) ==>
      (r == Failed(Mechanism(AuthorizationUnsupported)) <==> verify(BearerToken(message.auth)) == CallbackUnsupported)
    ensures isBearerToken(message.auth) && verify(BearerToken(message.auth)) == NotVerified ==>
      r == Success(ErrorResponse(CreateErrorMessage(serverConfig)))
  {
    if isBearerToken(message.auth) then
      match verify(BearerToken(message.auth))
      case Verified => Success(EmptyResponse)
      case NotVerified => Success(ErrorResponse(CreateErrorMessage(serverConfig)))
      case CallbackUnsupported => Failed(Mechanism(AuthorizationUnsupported))
    else
      Failed(Mechanism(InvalidClientMessage))
  }
}
