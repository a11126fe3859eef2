/**
 * Two places where the server departs from what RFC 7628 and its own error
 * handling evidently intend: each shown on the code as written, beside a
 * corrected parser with the intended property proved.
 */
module OAuth2Findings {
  import opened Options
  import opened ByteCursor
  import opened JavaString
  import opened OAuth2Server
  import opened OAuth2Examples

  /** `kvsep` of section 3.1 of RFC 7628: the single character 0x01. */
  const KVSEP: char := 1 as char

  /**
   * The RFC 7628 framing of a bearer credential after the header `"n,,"`:
   * `kvsep "auth=Bearer " token kvsep kvsep`.
   */
  function RfcPairs(token: string): string {
    [KVSEP] + "auth=Bearer " + token + [KVSEP, KVSEP]
  }

  /** The whole RFC 7628 initial client response. */
  function RfcMessage(token: string): seq<byte>
    requires PlainToken(token)
  {
    PlainCredential(token);
    [CBIND_FLAG_NONE, COMMA, COMMA] + [1] + AsciiBytes("auth=Bearer " + token) + [1, 1]
  }

  /** The 0x01 byte decodes to the 0x01 character, around any text. */
  lemma FramedText(bytes: seq<byte>)
    ensures AsciiText([1] + bytes + [1, 1]) == [KVSEP] + AsciiText(bytes) + [KVSEP, KVSEP]
  {
    var framed := [1] + bytes + [1, 1];
    assert forall i :: 1 <= i <= |bytes| ==> framed[i] == bytes[i - 1];
  }

  lemma RfcMessageText(token: string)
    requires PlainToken(token)
    ensures var m := RfcMessage(token);
      |m| >= 3 && m[..3] == [CBIND_FLAG_NONE, COMMA, COMMA] && AsciiText(m[3..]) == RfcPairs(token)
  {
    PlainCredential(token);
    var credential := "auth=Bearer " + token;
    assert IsAsciiText(credential) && AsciiText(AsciiBytes(credential)) == credential by {
      AsciiBytesConcat("auth=", "Bearer " + token);
      assert "auth=" + ("Bearer " + token) == credential;
      AsciiRoundTrip(credential);
    }
    var m := RfcMessage(token);
    assert m[3..] == [1] + AsciiBytes(credential) + [1, 1];
    FramedText(AsciiBytes(credential));
  }

  /** The credential itself holds neither `=` nor `%` nor 0x01. */
  lemma CredentialChars(token: string)
    requires PlainToken(token) && KVSEP !in token
    ensures var credential := "Bearer " + token;
      '=' !in credential && '%' !in credential && KVSEP !in credential && |credential| > 0
  {
    PlainCredential(token);
    assert forall i :: 0 <= i < |"Bearer " + token| ==>
      ("Bearer " + token)[i] == if i < 7 then "Bearer "[i] else token[i - 7];
  }

  /** `RfcPairs` as one key, `=`, and one value. */
  lemma RfcPairsShape(token: string)
    requires PlainToken(token) && KVSEP !in token
    ensures RfcPairs(token) == [KVSEP] + AUTH_KEY + "=" + ("Bearer " + token + [KVSEP, KVSEP]) + ""
  {
  }

  /** Split on the text `%x01`, the RFC 7628 pairs are one pair keyed `"\x01auth"`. */
  lemma RfcPairsLookup(token: string)
    requires PlainToken(token) && KVSEP !in token
    ensures LookupValue(AUTH_KEY, RfcPairs(token)) == NotFound
  {
    var kv := RfcPairs(token);
    CredentialChars(token);
    var key := [KVSEP] + AUTH_KEY;
    var value := "Bearer " + token + [KVSEP, KVSEP];
    RfcPairsShape(token);
    assert '%' !in value && '=' !in value;
    assert '%' !in kv;
    IndexOfAbsent(kv, KV_DELIMITER);
    SplitKeyValue(key, value, "", '=');
    assert key != AUTH_KEY by { assert key[0] != AUTH_KEY[0]; }
    assert Skipped(AUTH_KEY, kv);
    FindValueNotFound(AUTH_KEY, [kv]);
  }

  /**
   * As written: the pairs are split on the text `%x01`, so a message framed
   * as RFC 7628 prescribes, with the byte 0x01, has one pair whose key is
   * `"\x01auth"`, and it is rejected as invalid.
   */
  lemma RfcFramedMessageRejected(token: string)
    requires PlainToken(token) && KVSEP !in token
    ensures Parse(RfcMessage(token), AsciiText) == Failed(Mechanism(InvalidClientMessage))
  {
    var m := RfcMessage(token);
    RfcMessageText(token);
    assert m == [CBIND_FLAG_NONE, COMMA, COMMA] + m[3..];
    ParseWithoutAuthorizationId(COMMA, COMMA, m[3..], AsciiText);
    RfcPairsLookup(token);
  }

  /**
   * As written: a pair `auth` with no value (`"auth"`, `"auth="`, ...) makes
   * `keyValue[1]` throw, and the exception escapes the mechanism instead of
   * being reported as an invalid message.
   */
  lemma KeyWithoutValueEscapes(equalSigns: string)
    requires AllChar(equalSigns, '=')
    requires IsAsciiText(AUTH_KEY + equalSigns)
    ensures Parse([CBIND_FLAG_NONE, COMMA, COMMA] + AsciiBytes(AUTH_KEY + equalSigns), AsciiText)
         == Failed(ArrayIndexOutOfBounds)
  {
    var pair := AUTH_KEY + equalSigns;
    ParseWithoutAuthorizationId(COMMA, COMMA, AsciiBytes(pair), AsciiText);
    AsciiRoundTrip(pair);
    LookupKeyWithoutValue(AUTH_KEY, equalSigns);
  }

  /**
   * Corrected: pairs are separated by the single character 0x01, and a pair
   * that lacks its key or its value no longer throws; the message is then
   * invalid.
   */
  function LookupValueCorrected(key: string, keyValuesPart: string): (r: Lookup)
    ensures r != IndexOutOfBounds
  {
    match FindValue(key, Split(keyValuesPart, [KVSEP]))
    case IndexOutOfBounds => NotFound
    case found => found
  }

  /** Corrected `parseInitialClientMessage`: the header as before, the pairs as RFC 7628 frames them. */
  function ParseCorrected(m: seq<byte>, decode: Decoder): (r: Outcome<InitialClientMessage>)
    ensures r.Failed? ==> r.failure.Mechanism?
    ensures r.Success? ==> r.value.messageBytes == m
  {
    match ParseHeader(m)
    case Failed(f) => Failed(f)
    case Success(h) =>
      var authorizationId := if h.authorizationId.Some? then Some(decode(h.authorizationId.value)) else None;
      match LookupValueCorrected(AUTH_KEY, decode(m[h.pairsStart..]))
      case Found(auth) => Success(InitialClientMessage(authorizationId, auth, m))
      case _ => Failed(Mechanism(InvalidClientMessage))
  }

  /** A pair framed as section 3.1 of RFC 7628 frames it, split on 0x01: an empty piece and the pair. */
  lemma FramedPairSplit(pair: string)
    requires KVSEP !in pair && pair != []
    ensures Split([KVSEP] + pair + [KVSEP, KVSEP], [KVSEP]) == [[], pair]
  {
    var last := [] + [KVSEP] + [];
    var middle := pair + [KVSEP] + last;
    var kv := [] + [KVSEP] + middle;
    assert [KVSEP] + pair + [KVSEP, KVSEP] == kv;
    assert IndexOf(kv, [KVSEP]) != -1 by {
      IndexOfChar([], KVSEP, middle);
    }
    assert SplitAll(kv, [KVSEP]) == [[], pair, [], []] by {
      SplitAllChar([], KVSEP, middle);
      SplitAllChar(pair, KVSEP, last);
      SplitAllChar([], KVSEP, []);
      SplitAllNoChar([], KVSEP);
    }
    TrimEmptyPair([], pair);
  }

  /** Split on 0x01, the RFC 7628 pairs are an empty piece and the `auth` pair. */
  lemma RfcPairsSplit(token: string)
    requires PlainToken(token) && KVSEP !in token
    ensures Split(RfcPairs(token), [KVSEP]) == [[], AUTH_KEY + "=" + ("Bearer " + token)]
  {
    var credential := "Bearer " + token;
    var pair := AUTH_KEY + "=" + credential;
    assert KVSEP !in pair && pair != [] by {
      CredentialChars(token);
      assert forall i :: 0 <= i < |pair| ==> pair[i] == if i < 5 then "auth="[i] else credential[i - 5];
    }
    assert RfcPairs(token) == [KVSEP] + pair + [KVSEP, KVSEP];
    FramedPairSplit(pair);
  }

  /** An empty pair is passed over; the `auth` pair then gives the credential. */
  lemma EmptyThenAuthPair(credential: string)
    requires '=' !in credential && |credential| > 0
    ensures FindValue(AUTH_KEY, [[], AUTH_KEY + "=" + credential]) == Found(credential)
  {
    var pairs := [[], AUTH_KEY + "=" + credential];
    IndexOfAbsent([], KV_SEPARATOR);
    assert KeyValue([]) == [[]];
    assert Skipped(AUTH_KEY, pairs[0]);
    SplitKeyValue(AUTH_KEY, credential, "", '=');
    assert AUTH_KEY + "=" + credential + "" == pairs[1];
    FindValueFirstStop(AUTH_KEY, pairs, 1);
  }

  /** Corrected: the RFC 7628 message is accepted and its credential found. */
  lemma RfcFramedMessageAccepted(token: string)
    requires PlainToken(token) && KVSEP !in token
    ensures ParseCorrected(RfcMessage(token), AsciiText)
         == Success(InitialClientMessage(None, "Bearer " + token, RfcMessage(token)))
  {
    var m := RfcMessage(token);
    RfcMessageText(token);
    assert ParseHeader(m) == Success(Header(None, 3)) by {
      assert m[0] == CBIND_FLAG_NONE && m[1] == COMMA && m[2] == COMMA by {
        assert m[..3] == [CBIND_FLAG_NONE, COMMA, COMMA];
      }
    }
    CredentialChars(token);
    RfcPairsSplit(token);
    EmptyThenAuthPair("Bearer " + token);
    assert m[3..] == m[ParseHeader(m).value.pairsStart..];
    assert LookupValueCorrected(AUTH_KEY, RfcPairs(token)) == Found("Bearer " + token);
  }

  /** Corrected: the pair `auth` without a value is reported as an invalid message. */
  lemma KeyWithoutValueRejected(equalSigns: string)
    requires AllChar(equalSigns, '=')
    requires IsAsciiText(AUTH_KEY + equalSigns)
    ensures ParseCorrected([CBIND_FLAG_NONE, COMMA, COMMA] + AsciiBytes(AUTH_KEY + equalSigns), AsciiText)
         == Failed(Mechanism(InvalidClientMessage))
  {
    var pair := AUTH_KEY + equalSigns;
    var m := [CBIND_FLAG_NONE, COMMA, COMMA] + AsciiBytes(pair);
    assert LookupValueCorrected(AUTH_KEY, pair) == NotFound by {
      assert forall i :: 0 <= i < |pair| ==> pair[i] != KVSEP by {
        assert forall i :: 0 <= i < |pair| ==> pair[i] == if i < 4 then AUTH_KEY[i] else equalSigns[i - 4];
      }
      IndexOfAbsent(pair, [KVSEP]);
      assert pair[..4] == AUTH_KEY && pair[4..] == equalSigns;
      SplitKeyOnlyIff(pair, AUTH_KEY, '=');
    }
    assert ParseHeader(m) == Success(Header(None, 3));
    assert m[3..] == AsciiBytes(pair);
    AsciiRoundTrip(pair);
  }
}
