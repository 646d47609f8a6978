/**
 * The user-info header: three base64 encodings tried in turn, then the user id
 * picked from the claims.  JSON parsing is a parameter.
 */
module UserInfo {
  import opened Prelude
  import opened Text
  import opened Base64

  const DECODERS: seq<Encoding> := [RAW_URL, URL, STD]

  datatype Failure = NotBase64 | NotJson

  /** A JSON value of the claims: a string or anything else. */
  datatype Claim = Text(text: string) | Other

  type Claims = map<string, Claim>

  const PRECEDENCE: seq<string> := ["sub", "user_id", "uid"]

  predicate Usable(claims: Claims, key: string) {
    key in claims && claims[key].Text? && TrimSpace(claims[key].text) != ""
  }

  /** The first usable claim, as it stands in the claims; "" when there is none. */
  function FirstClaim(claims: Claims, keys: seq<string>): string {
    if keys == [] then ""
    else if Usable(claims, keys[0]) then claims[keys[0]].text
    else FirstClaim(claims, keys[1..])
  }

  /**
   * What the decoders together may answer, whatever order they are tried in: all but the one for the
   * unpadded standard encoding take part.
   */
  ghost predicate Decodes(raw: string, r: Result<seq<Byte>, Failure>) {
    && (r.Err? <==> forall enc: Encoding :: enc.url || enc.padded ==> DecodeString(enc, raw).None?)
    && (forall enc: Encoding :: (enc.url || enc.padded) && DecodeString(enc, raw).Some? ==>
          r == Ok(DecodeString(enc, raw).value))
    && (r.Err? ==> r.error == NotBase64)
  }

  /** What the whole extraction may answer. */
  ghost predicate Extracts(unmarshal: seq<Byte> -> Option<Claims>, raw: string, r: Result<string, Failure>) {
    var token := TrimSpace(raw);
    if token == "" then r == Ok("")
    else exists payload :: Decodes(token, payload) && r == Identify(unmarshal, payload)
  }

  function Identify(unmarshal: seq<Byte> -> Option<Claims>, payload: Result<seq<Byte>, Failure>):
    Result<string, Failure>
  {
    match payload
    case Err(e) => Err(e)
    case Ok(bytes) =>
      match unmarshal(bytes)
      case None => Err(NotJson)
      case Some(claims) => Ok(FirstClaim(claims, PRECEDENCE))
  }

  method DecodeUserInfo(raw: string) returns (r: Result<seq<Byte>, Failure>)
    ensures Decodes(raw, r)
  {
    forall enc: Encoding | enc.url || enc.padded
      ensures enc == DECODERS[0] || enc == DECODERS[1] || enc == DECODERS[2]
    {
    }
    var i := 0;
    while i < |DECODERS|
      invariant 0 <= i <= |DECODERS|
      invariant forall k :: 0 <= k < i ==> DecodeString(DECODERS[k], raw).None?
    {
      var payload := DecodeString(DECODERS[i], raw);
      if payload.Some? {
        forall enc | DecodeString(enc, raw).Some?
          ensures DecodeString(enc, raw) == payload
        {
          Unambiguous(enc, DECODERS[i], Unfold(raw));
        }
        return Ok(payload.value);
      }
      i := i + 1;
    }
    return Err(NotBase64);
  }

  method ExtractUserIDFromUserInfo(unmarshal: seq<Byte> -> Option<Claims>, raw: string)
    returns (r: Result<string, Failure>)
    ensures Extracts(unmarshal, raw, r)
  {
    var token := TrimSpace(raw);
    if token == "" {
      return Ok("");
    }
    var payload := DecodeUserInfo(token);
    if payload.Err? {
      return Err(payload.error);
    }
    var parsed := unmarshal(payload.value);
    if parsed.None? {
      return Err(NotJson);
    }
    var claims := parsed.value;
    if Usable(claims, "sub") {
      FirstClaimIsEarliest(claims, PRECEDENCE, 0);
      return Ok(claims["sub"].text);
    }
    if Usable(claims, "user_id") {
      FirstClaimIsEarliest(claims, PRECEDENCE, 1);
      return Ok(claims["user_id"].text);
    }
    if Usable(claims, "uid") {
      FirstClaimIsEarliest(claims, PRECEDENCE, 2);
      return Ok(claims["uid"].text);
    }
    FirstClaimIsEarliest(claims, PRECEDENCE, 3);
    return Ok("");
  }

  /** The earliest usable claim wins. */
  lemma {:induction false} FirstClaimIsEarliest(claims: Claims, keys: seq<string>, k: nat)
    requires k <= |keys|
    requires forall j :: 0 <= j < k ==> !Usable(claims, keys[j])
    requires k < |keys| ==> Usable(claims, keys[k])
    ensures FirstClaim(claims, keys) == if k < |keys| then claims[keys[k]].text else ""
  {
    if 0 < k {
      assert forall j :: 0 <= j < k - 1 ==> keys[1..][j] == keys[j + 1];
      FirstClaimIsEarliest(claims, keys[1..], k - 1);
    }
  }

  /** The chain answers one thing: no two answers are possible for one header. */
  lemma DecodesIsFunctional(raw: string, r: Result<seq<Byte>, Failure>, t: Result<seq<Byte>, Failure>)
    requires Decodes(raw, r) && Decodes(raw, t)
    ensures r == t
  {
    if r.Ok? {
      var enc: Encoding :| (enc.url || enc.padded) && DecodeString(enc, raw).Some?;
    }
  }

  /** Whichever of the three encodings a client used, folded over lines or not, it is read back. */
  lemma FallbackIsUnambiguous(enc: Encoding, bytes: seq<Byte>, raw: string, r: Result<seq<Byte>, Failure>)
    requires enc.url || enc.padded
    requires Unfold(raw) == Encode(enc, bytes)
    ensures Decodes(raw, r) <==> r == Ok(bytes)
  {
    DecodeEncode(enc, bytes);
    forall other | DecodeString(other, raw).Some?
      ensures DecodeString(other, raw) == Some(bytes)
    {
      Unambiguous(other, enc, Unfold(raw));
    }
  }

  /** Encoded text is not touched by trimming or by skipping line breaks. */
  lemma TextIsBare(enc: Encoding, s: string)
    requires IsText(enc, s)
    ensures Bare(s)
    ensures Unfold(s) == s
  {
    NothingToUnfold(s);
    if s != [] {
      assert s[0] in s && s[|s| - 1] in s;
    }
  }

  /** From the claims a client encoded to the user id, through white space and any of the encodings. */
  lemma HeaderYieldsItsClaims(unmarshal: seq<Byte> -> Option<Claims>, before: string, enc: Encoding,
                              bytes: seq<Byte>, after: string, r: Result<string, Failure>)
    requires AllSpace(before) && AllSpace(after)
    requires enc.url || enc.padded
    ensures Extracts(unmarshal, before + Encode(enc, bytes) + after, r)
       <==> r == if bytes == [] then Ok("") else Identify(unmarshal, Ok(bytes))
  {
    var token := Encode(enc, bytes);
    EncodedIsText(enc, bytes);
    TextIsBare(enc, token);
    TrimRemovesTheSurroundings(before, token, after);
    FallbackIsUnambiguous(enc, bytes, token, Ok(bytes));
    forall payload | Decodes(token, payload)
      ensures payload == Ok(bytes)
    {
      FallbackIsUnambiguous(enc, bytes, token, payload);
    }
  }

  /** A text is refused exactly when raw-URL, padded-URL and standard decoding all refuse it. */
  lemma RefusedIffAllRefuse(raw: string, r: Result<seq<Byte>, Failure>)
    requires Decodes(raw, r)
    ensures r == Err(NotBase64)
            <==> && DecodeString(Encoding(true, false), raw).None? && DecodeString(Encoding(true, true), raw).None?
                 && DecodeString(Encoding(false, true), raw).None?
  {
    forall enc: Encoding | enc.url || enc.padded
      ensures enc == Encoding(true, false) || enc == Encoding(true, true) || enc == Encoding(false, true)
    {
    }
  }

  /** The claim is text with a character that is not white space. */
  predicate HasText(claims: Claims, key: string) {
    && key in claims && claims[key].Text?
    && exists i :: 0 <= i < |claims[key].text| && !IsSpace(claims[key].text[i])
  }

  lemma UsableIsHavingText(claims: Claims, key: string)
    ensures Usable(claims, key) <==> HasText(claims, key)
  {
    if key in claims && claims[key].Text? {
      NothingLeftIff(claims[key].text);
    }
  }

  /**
   * Whose request it is. A header that carries claims, in any of the encodings and with any white space
   * around it, yields the claim "sub" if that has text, whatever else is there; else "user_id", else "uid",
   * else nothing. The text is returned as it stands.
   */
  lemma SubjectComesFirst(unmarshal: seq<Byte> -> Option<Claims>, before: string, enc: Encoding,
                          bytes: seq<Byte>, after: string, claims: Claims, r: Result<string, Failure>)
    requires AllSpace(before) && AllSpace(after) && (enc.url || enc.padded)
    requires bytes != [] && unmarshal(bytes) == Some(claims)
    ensures Extracts(unmarshal, before + Encode(enc, bytes) + after, r)
            <==> r == Ok(if HasText(claims, "sub") then claims["sub"].text
                         else if HasText(claims, "user_id") then claims["user_id"].text
                         else if HasText(claims, "uid") then claims["uid"].text
                         else "")
  {
    UsableIsHavingText(claims, "sub");
    UsableIsHavingText(claims, "user_id");
    UsableIsHavingText(claims, "uid");
    var k := if HasText(claims, "sub") then 0 else if HasText(claims, "user_id") then 1
             else if HasText(claims, "uid") then 2 else 3;
    FirstClaimIsEarliest(claims, PRECEDENCE, k);
    HeaderYieldsItsClaims(unmarshal, before, enc, bytes, after, r);
  }

  /** A blank header is no error; text that no decoder reads and claims that do not parse are. */
  lemma OtherHeaders(unmarshal: seq<Byte> -> Option<Claims>, raw: string, r: Result<string, Failure>)
    requires Extracts(unmarshal, raw, r)
    ensures AllSpace(raw) ==> r == Ok("")
    ensures var token := TrimSpace(raw);
            !AllSpace(raw) && DecodeString(Encoding(true, false), token).None?
            && DecodeString(Encoding(true, true), token).None? && DecodeString(Encoding(false, true), token).None? ==>
              r == Err(NotBase64)
  {
    NothingLeftIff(raw);
    if !AllSpace(raw) {
      var payload :| Decodes(TrimSpace(raw), payload) && r == Identify(unmarshal, payload);
      RefusedIffAllRefuse(TrimSpace(raw), payload);
    }
  }

  lemma BadClaims(unmarshal: seq<Byte> -> Option<Claims>, before: string, enc: Encoding, bytes: seq<Byte>,
                  after: string, r: Result<string, Failure>)
    requires AllSpace(before) && AllSpace(after) && (enc.url || enc.padded)
    requires bytes != [] && unmarshal(bytes).None?
    ensures Extracts(unmarshal, before + Encode(enc, bytes) + after, r) <==> r == Err(NotJson)
  {
    HeaderYieldsItsClaims(unmarshal, before, enc, bytes, after, r);
  }

  predicate OnlyCommonDigits(s: string) {
    '+' !in s && '/' !in s
  }

  lemma CommonDigit(n: Sextet)
    requires Digit(RAW_STD, n) != '+' && Digit(RAW_STD, n) != '/'
    ensures Digit(RAW_STD, n) == Digit(RAW_URL, n)
  {
  }

  /** The two unpadded alphabets give the same text when '+' and '/' do not occur in it. */
  lemma {:induction false} CommonText(bytes: seq<Byte>)
    requires OnlyCommonDigits(Encode(RAW_STD, bytes))
    ensures Encode(RAW_STD, bytes) == Encode(RAW_URL, bytes)
  {
    var s := Encode(RAW_STD, bytes);
    if |bytes| >= 3 {
      assert s[4..] == Encode(RAW_STD, bytes[3..]);
      CommonText(bytes[3..]);
      assert s[0] != '+' && s[1] != '+' && s[2] != '+' && s[3] != '+';
      CommonDigit(bytes[0] / 4);
      CommonDigit(bytes[0] % 4 * 16 + bytes[1] / 16);
      CommonDigit(bytes[1] % 16 * 4 + bytes[2] / 64);
      CommonDigit(bytes[2] % 64);
    } else if |bytes| == 2 {
      assert s[0] != '+' && s[1] != '+' && s[2] != '+';
      CommonDigit(bytes[0] / 4);
      CommonDigit(bytes[0] % 4 * 16 + bytes[1] / 16);
      CommonDigit(bytes[1] % 16 * 4);
    } else if |bytes| == 1 {
      assert s[0] != '+' && s[1] != '+';
      CommonDigit(bytes[0] / 4);
      CommonDigit(bytes[0] % 4 * 16);
    }
  }

  lemma OneMoreGroup(n: nat)
    ensures (n + 3) % 3 == n % 3
  {
  }

  /** Whole groups of three bytes fill whole quanta, and nothing else does. */
  lemma {:induction false} WholeGroups(bytes: seq<Byte>)
    ensures |bytes| % 3 == 0 <==> |Encode(RAW_STD, bytes)| % 4 == 0
  {
    if |bytes| >= 3 {
      var more := Encode(RAW_STD, bytes[3..]);
      WholeGroups(bytes[3..]);
      OneMoreGroup(|bytes[3..]|);
      OneMoreQuantum(|more|);
      assert |Encode(RAW_STD, bytes)| == |more| + 4;
    }
  }

  /** They need no padding. */
  lemma {:induction false} NoPaddingNeeded(bytes: seq<Byte>)
    requires |bytes| % 3 == 0
    ensures Encode(RAW_STD, bytes) == Encode(STD, bytes)
  {
    if |bytes| >= 3 {
      NoPaddingNeeded(bytes[3..]);
      QuantumIgnoresPadding(bytes[0], bytes[1], bytes[2]);
    }
  }

  /** The digits of three bytes depend on the alphabet alone. */
  lemma QuantumIgnoresPadding(a: Byte, b: Byte, c: Byte)
    ensures Quantum(RAW_STD, a, b, c) == Quantum(STD, a, b, c)
  {
  }

  /** Text with a digit only the standard alphabet has, and without its padding, is read by no decoder. */
  lemma Refused(s: string, enc: Encoding)
    requires enc.url || enc.padded
    requires |s| % 4 != 0 && !OnlyCommonDigits(s)
    ensures Decode(enc, s).None?
  {
    assert !IsDigit(RAW_URL, '+') && !IsDigit(RAW_URL, '/');
    if Decode(enc, s).Some? {
      AcceptedIsText(enc, s);
      if enc.padded {
        AcceptedFillsQuanta(enc, s);
      }
    }
  }

  /**
   * The limit of the chain: the unpadded standard encoding is not among the
   * decoders, and it is read back exactly when it coincides with one of them.
   */
  lemma RawStandardIsReadBackIff(bytes: seq<Byte>)
    ensures var s := Encode(RAW_STD, bytes);
            if |bytes| % 3 == 0 || OnlyCommonDigits(s) then Decodes(s, Ok(bytes)) else Decodes(s, Err(NotBase64))
  {
    var s := Encode(RAW_STD, bytes);
    EncodedIsText(RAW_STD, bytes);
    TextIsBare(RAW_STD, s);
    WholeGroups(bytes);
    if |bytes| % 3 == 0 {
      NoPaddingNeeded(bytes);
      FallbackIsUnambiguous(STD, bytes, s, Ok(bytes));
    } else if OnlyCommonDigits(s) {
      CommonText(bytes);
      FallbackIsUnambiguous(RAW_URL, bytes, s, Ok(bytes));
    } else {
      forall enc: Encoding | enc.url || enc.padded
        ensures DecodeString(enc, s).None?
      {
        Refused(s, enc);
      }
    }
  }

  /** One byte is enough to see it fail. */
  lemma RawStandardCanFail()
    ensures Decodes(Encode(RAW_STD, [0xfb]), Err(NotBase64))
  {
    RawStandardIsReadBackIff([0xfb]);
    assert Encode(RAW_STD, [0xfb]) == ['+', 'w'];
    assert Encode(RAW_STD, [0xfb])[0] == '+';
  }
}
