/**
 * Concrete OAUTHBEARER exchanges on ASCII text. The stand-in decoder reads
 * each byte as the character with the same code; it agrees with UTF-8 on
 * bytes below 0x80, and every example feeds it only such bytes.
 */
module OAuth2Examples {
  import opened Options
  import opened ByteCursor
  import opened JavaString
  import opened OAuth2Server

  /**
   * Each byte read as the character with the same code: UTF-8 decoding on
   * bytes below 0x80 (bytes from 0x80 up, which UTF-8 decodes differently,
   * never reach it in these examples).
   */
  function AsciiText(bytes: seq<byte>): (s: string)
    ensures |s| == |bytes|
  {
    seq(|bytes|, i requires 0 <= i < |bytes| => bytes[i] as int as char)
  }

  /** A text of ASCII characters, each encoded by UTF-8 as the one byte with its code. */
  ghost predicate IsAsciiText(s: string) {
    forall i :: 0 <= i < |s| ==> s[i] as int < 0x80
  }

  /** The UTF-8 bytes of an ASCII text. */
  function AsciiBytes(s: string): (bytes: seq<byte>)
    requires IsAsciiText(s)
    ensures |bytes| == |s|
  {
    seq(|s|, i requires 0 <= i < |s| => s[i] as int as byte)
  }

  /** Decoding the bytes of a text gives the text back. */
  lemma AsciiRoundTrip(s: string)
    requires IsAsciiText(s)
    ensures AsciiText(AsciiBytes(s)) == s
  {
    var t := AsciiText(AsciiBytes(s));
    forall i | 0 <= i < |s| ensures t[i] == s[i] {
      assert AsciiBytes(s)[i] as int == s[i] as int;
    }
  }

  lemma AsciiBytesConcat(a: string, b: string)
    requires IsAsciiText(a) && IsAsciiText(b)
    ensures IsAsciiText(a + b) && AsciiBytes(a + b) == AsciiBytes(a) + AsciiBytes(b)
  {
    assert forall i :: 0 <= i < |a + b| ==> (a + b)[i] == if i < |a| then a[i] else b[i - |a|];
  }

  /** A non-empty token in the RFC 6750 form, without `=`, `%`, `,` or space. */
  ghost predicate PlainToken(token: string) {
    && |token| > 0
    && IsAsciiText(token)
    && '=' !in token && '%' !in token && ',' !in token && ' ' !in token
  }

  lemma PlainCredential(token: string)
    requires PlainToken(token)
    ensures IsAsciiText("Bearer " + token)
    ensures '=' !in "Bearer " + token && '%' !in "Bearer " + token && |"Bearer " + token| > 0
  {
    assert forall i :: 0 <= i < |"Bearer " + token| ==>
      ("Bearer " + token)[i] == if i < 7 then "Bearer "[i] else token[i - 7];
  }

  /** The pair `auth=Bearer <token>` as text and as bytes, and the value found in it. */
  lemma CredentialPair(token: string)
    requires PlainToken(token)
    ensures IsAsciiText("auth=Bearer " + token)
    ensures AsciiText(AsciiBytes("auth=Bearer " + token)) == "auth=Bearer " + token
    ensures LookupValue(AUTH_KEY, "auth=Bearer " + token) == Found("Bearer " + token)
  {
    PlainCredential(token);
    var credential := "Bearer " + token;
    var kv := "auth=" + credential;
    AsciiBytesConcat("auth=", credential);
    assert kv == "auth=Bearer " + token;
    AsciiRoundTrip(kv);
    assert AUTH_KEY + "=" + credential + "" == kv;
    LookupKeyValue(AUTH_KEY, credential, "");
  }

  /** The bytes of `"n,," + kv`: the header without identity, then `kv`. */
  lemma NoIdentityBytes(kv: string)
    requires IsAsciiText(kv)
    ensures IsAsciiText("n,," + kv)
    ensures AsciiBytes("n,," + kv) == [CBIND_FLAG_NONE, COMMA, COMMA] + AsciiBytes(kv)
  {
    AsciiBytesConcat("n,,", kv);
    assert AsciiBytes("n,,") == [CBIND_FLAG_NONE, COMMA, COMMA];
  }

  /** The bytes of `"n,a=" + id + "," + kv`. */
  lemma IdentityBytes(id: string, kv: string)
    requires IsAsciiText(id) && IsAsciiText(kv)
    ensures IsAsciiText("n,a=" + id + "," + kv)
    ensures AsciiBytes("n,a=" + id + "," + kv)
         == [CBIND_FLAG_NONE, COMMA, AUTHZID_MARK, EQUALS] + AsciiBytes(id) + [COMMA] + AsciiBytes(kv)
  {
    AsciiBytesConcat("n,a=", id);
    AsciiBytesConcat("n,a=" + id, ",");
    AsciiBytesConcat("n,a=" + id + ",", kv);
    assert AsciiBytes("n,a=") == [CBIND_FLAG_NONE, COMMA, AUTHZID_MARK, EQUALS];
    assert AsciiBytes(",") == [COMMA];
  }

  /** A text without `,` has no comma byte. */
  lemma NoCommaBytes(id: string)
    requires IsAsciiText(id) && ',' !in id
    ensures COMMA !in AsciiBytes(id)
  {
    var idBytes := AsciiBytes(id);
    forall i | 0 <= i < |id| ensures idBytes[i] != COMMA {
      assert id[i] != ',';
    }
  }

  /** `"n,," + kv` parses to the value found in `kv`, with no authorization identity. */
  lemma ParseNoIdentity(kv: string, value: string)
    requires IsAsciiText(kv) && LookupValue(AUTH_KEY, kv) == Found(value)
    ensures IsAsciiText("n,," + kv)
    ensures var m := AsciiBytes("n,," + kv);
      Parse(m, AsciiText) == Success(InitialClientMessage(None, value, m))
  {
    NoIdentityBytes(kv);
    AsciiRoundTrip(kv);
    ParseWithoutAuthorizationId(COMMA, COMMA, AsciiBytes(kv), AsciiText);
  }

  /** `"n,a=" + id + "," + kv` parses to identity `id` and the value found in `kv`. */
  lemma ParseIdentity(id: string, kv: string, value: string)
    requires IsAsciiText(id) && ',' !in id
    requires IsAsciiText(kv) && LookupValue(AUTH_KEY, kv) == Found(value)
    ensures IsAsciiText("n,a=" + id + "," + kv)
    ensures var m := AsciiBytes("n,a=" + id + "," + kv);
      Parse(m, AsciiText) == Success(InitialClientMessage(Some(id), value, m))
  {
    IdentityBytes(id, kv);
    NoCommaBytes(id);
    AsciiRoundTrip(id);
    AsciiRoundTrip(kv);
    ParseAuthorizationId(AsciiBytes(id), AsciiBytes(kv), AsciiText);
  }

  /** `"n,,auth=Bearer abc123"`: no authorization identity, `auth` is `"Bearer abc123"`. */
  lemma ParseWithoutAuthorizationIdExample(token: string)
    requires PlainToken(token)
    ensures IsAsciiText("n,," + ("auth=Bearer " + token))
    ensures var m := AsciiBytes("n,," + ("auth=Bearer " + token));
      Parse(m, AsciiText) == Success(InitialClientMessage(None, "Bearer " + token, m))
  {
    var kv := "auth=Bearer " + token;
    CredentialPair(token);
    ParseNoIdentity(kv, "Bearer " + token);
  }

  /** `"n,a=admin,auth=Bearer abc123"`: authorization identity `"admin"`. */
  lemma ParseAuthorizationIdExample(id: string, token: string)
    requires IsAsciiText(id) && ',' !in id
    requires PlainToken(token)
    ensures IsAsciiText("n,a=" + id + "," + ("auth=Bearer " + token))
    ensures var m := AsciiBytes("n,a=" + id + "," + ("auth=Bearer " + token));
      Parse(m, AsciiText) == Success(InitialClientMessage(Some(id), "Bearer " + token, m))
  {
    var kv := "auth=Bearer " + token;
    CredentialPair(token);
    ParseIdentity(id, kv, "Bearer " + token);
  }

  /** `"n,,foo=bar"`: no `auth` key, so an invalid message. */
  lemma ParseMissingAuthExample(key: string, value: string)
    requires IsAsciiText(key) && IsAsciiText(value)
    requires key != AUTH_KEY && '=' !in key && '%' !in key
    requires '=' !in value && '%' !in value && |value| > 0
    ensures IsAsciiText("n,," + (key + "=" + value))
    ensures Parse(AsciiBytes("n,," + (key + "=" + value)), AsciiText) == Failed(Mechanism(InvalidClientMessage))
  {
    var kv := key + "=" + value;
    assert IsAsciiText(kv) && AsciiText(AsciiBytes(kv)) == kv by {
      AsciiBytesConcat(key, "=");
      AsciiBytesConcat(key + "=", value);
      AsciiRoundTrip(kv);
    }
    assert LookupValue(AUTH_KEY, kv) == NotFound by {
      assert forall i :: 0 <= i < |kv| ==> kv[i] != '%';
      IndexOfAbsent(kv, KV_DELIMITER);
      assert key + ['='] + value + "" == kv;
      SplitKeyValue(key, value, "", '=');
      assert Skipped(AUTH_KEY, kv);
      FindValueNotFound(AUTH_KEY, [kv]);
    }
    NoIdentityBytes(kv);
    ParseWithoutAuthorizationId(COMMA, COMMA, AsciiBytes(kv), AsciiText);
  }

  /** The pair `auth=Bearer <token>=<tail>` and the value found in it, cut at the second `=`. */
  lemma TruncatedPair(token: string, tail: string)
    requires PlainToken(token) && IsAsciiText(tail) && '%' !in tail
    ensures IsAsciiText("auth=Bearer " + token + "=" + tail)
    ensures AsciiText(AsciiBytes("auth=Bearer " + token + "=" + tail)) == "auth=Bearer " + token + "=" + tail
    ensures LookupValue(AUTH_KEY, "auth=Bearer " + token + "=" + tail) == Found("Bearer " + token)
  {
    PlainCredential(token);
    var credential := "Bearer " + token;
    var rest := "=" + tail;
    var kv := AUTH_KEY + "=" + credential + rest;
    assert kv == "auth=Bearer " + token + "=" + tail;
    AsciiBytesConcat("=", tail);
    AsciiBytesConcat("auth=", credential);
    AsciiBytesConcat("auth=" + credential, rest);
    AsciiRoundTrip(kv);
    assert '%' !in rest by {
      assert forall i :: 0 <= i < |rest| ==> rest[i] == if i == 0 then '=' else tail[i - 1];
    }
    LookupKeyValue(AUTH_KEY, credential, rest);
  }

  /** `"auth=Bearer abc=def"` is cut at its second `=`: `auth` is `"Bearer abc"`. */
  lemma ParseTruncatedValueExample(token: string, tail: string)
    requires PlainToken(token) && IsAsciiText(tail) && '%' !in tail
    ensures IsAsciiText("n,," + ("auth=Bearer " + token + "=" + tail))
    ensures var m := AsciiBytes("n,," + ("auth=Bearer " + token + "=" + tail));
      Parse(m, AsciiText) == Success(InitialClientMessage(None, "Bearer " + token, m))
  {
    var kv := "auth=Bearer " + token + "=" + tail;
    TruncatedPair(token, tail);
    ParseNoIdentity(kv, "Bearer " + token);
  }

  /** `"n"`, `"n,"` and `"n,a=admin"` run out of bytes. */
  lemma ParseTruncatedExamples(id: string, decode: Decoder)
    requires IsAsciiText(id) && ',' !in id
    ensures IsAsciiText("n,a=" + id)
    ensures Parse(AsciiBytes("n"), decode) == Failed(Mechanism(InvalidMessageReceived))
    ensures Parse(AsciiBytes("n,"), decode) == Failed(Mechanism(InvalidMessageReceived))
    ensures Parse(AsciiBytes("n,a=" + id), decode) == Failed(Mechanism(InvalidMessageReceived))
  {
    assert AsciiBytes("n") == [CBIND_FLAG_NONE];
    assert AsciiBytes("n,") == [CBIND_FLAG_NONE, COMMA];
    AsciiBytesConcat("n,a=", id);
    var m := AsciiBytes("n,a=" + id);
    assert m[..4] == AsciiBytes("n,a=") == [CBIND_FLAG_NONE, COMMA, AUTHZID_MARK, EQUALS];
    assert COMMA !in m[4..] by {
      assert m[4..] == AsciiBytes(id);
      forall i | 0 <= i < |id| ensures AsciiBytes(id)[i] != COMMA {
        assert id[i] != ',';
      }
    }
    ParseMessageReceivedIff(AsciiBytes("n"), decode);
    ParseMessageReceivedIff(AsciiBytes("n,"), decode);
    ParseMessageReceivedIff(m, decode);
  }

  /** `auth` is `"Bearer abc123"`: the verifier sees `"abc123"`. */
  lemma BearerTokenExample(token: string)
    requires ' ' !in token
    ensures BearerToken("Bearer " + token) == token
  {
    var auth := "Bearer " + token;
    var t := BearerToken(auth);
    assert auth[6] == ' ';
    var n := |auth| - |t| - 1;
    assert auth[n] == ' ' && ' ' !in auth[..n];
    assert auth[7..] == token;
  }

  /**
   * The three verifier answers for a bearer credential: the empty answer, the
   * error object (with and without a discovery URL), and
   * `AuthorizationUnsupported`.
   */
  lemma EvaluateExamples(credential: string, isBearerToken: string -> bool, url: string)
    requires isBearerToken(credential)
    ensures var message := InitialClientMessage(None, credential, []);
      && EvaluateInitialResponse(message, isBearerToken, _ => Verified, map[]) == Success(EmptyResponse)
      && EvaluateInitialResponse(message, isBearerToken, _ => NotVerified, map[])
         == Success(ErrorResponse([("status", "invalid_token")]))
      && EvaluateInitialResponse(message, isBearerToken, _ => NotVerified, map[CONFIG_OPENID_CONFIGURATION_URL := url])
         == Success(ErrorResponse([("status", "invalid_token"), (CONFIG_OPENID_CONFIGURATION_URL, url)]))
      && EvaluateInitialResponse(message, isBearerToken, _ => CallbackUnsupported, map[])
         == Failed(Mechanism(AuthorizationUnsupported))
  {
    var config := map[CONFIG_OPENID_CONFIGURATION_URL := url];
    var fields := CreateErrorMessage(config);
    assert fields == [("status", "invalid_token"), (CONFIG_OPENID_CONFIGURATION_URL, url)];
  }
}
