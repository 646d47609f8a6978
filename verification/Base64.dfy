/**
 * Base64 as RFC 4648 defines it (sections 3.2, 4 and 5), decoded the way Go's
 * `encoding/base64` does: line breaks are skipped, the unused bits of the last
 * quantum may be anything, and nothing may follow the padding.
 */
module Base64 {
  import opened Prelude

  type Byte = n: int | 0 <= n < 256
  type Sextet = n: int | 0 <= n < 64

  /** The alphabet of section 5 or of section 4, with or without padding. */
  datatype Encoding = Encoding(url: bool, padded: bool)

  const RAW_URL := Encoding(true, false)
  const URL := Encoding(true, true)
  const STD := Encoding(false, true)
  const RAW_STD := Encoding(false, false)

  const PAD := '='

  function Digit(enc: Encoding, n: Sextet): char {
    if n < 26 then ('A' as int + n) as char
    else if n < 52 then ('a' as int + n - 26) as char
    else if n < 62 then ('0' as int + n - 52) as char
    else if n == 62 then (if enc.url then '-' else '+')
    else (if enc.url then '_' else '/')
  }

  function Value(enc: Encoding, c: char): Option<Sextet> {
    if 'A' <= c <= 'Z' then Some(c as int - 'A' as int)
    else if 'a' <= c <= 'z' then Some(c as int - 'a' as int + 26)
    else if '0' <= c <= '9' then Some(c as int - '0' as int + 52)
    else if c == (if enc.url then '-' else '+') then Some(62)
    else if c == (if enc.url then '_' else '/') then Some(63)
    else None
  }

  predicate IsDigit(enc: Encoding, c: char) {
    Value(enc, c).Some?
  }

  function First(p: Sextet, q: Sextet): Byte {
    p * 4 + q / 16
  }

  function Second(q: Sextet, r: Sextet): Byte {
    q % 16 * 16 + r / 4
  }

  function Third(r: Sextet, s: Sextet): Byte {
    r % 4 * 64 + s
  }

  function Padding(enc: Encoding, n: nat): string {
    if enc.padded then seq(n, _ => PAD) else []
  }

  /** Three bytes in four digits. */
  function Quantum(enc: Encoding, a: Byte, b: Byte, c: Byte): string {
    [Digit(enc, a / 4), Digit(enc, a % 4 * 16 + b / 16), Digit(enc, b % 16 * 4 + c / 64), Digit(enc, c % 64)]
  }

  function Encode(enc: Encoding, b: seq<Byte>): string {
    if b == [] then []
    else if |b| == 1 then
      [Digit(enc, b[0] / 4), Digit(enc, b[0] % 4 * 16)] + Padding(enc, 2)
    else if |b| == 2 then
      [Digit(enc, b[0] / 4), Digit(enc, b[0] % 4 * 16 + b[1] / 16), Digit(enc, b[1] % 16 * 4)] + Padding(enc, 1)
    else
      Quantum(enc, b[0], b[1], b[2]) + Encode(enc, b[3..])
  }

  predicate FullQuantum(enc: Encoding, s: string) {
    |s| >= 4 && forall i :: 0 <= i < 4 ==> IsDigit(enc, s[i])
  }

  /** What a last quantum of fewer than four digits holds: one byte or two. */
  function Rest(enc: Encoding, s: string): Option<seq<Byte>> {
    if |s| < 2 || !IsDigit(enc, s[0]) || !IsDigit(enc, s[1]) then None
    else if s[2..] == Padding(enc, 2) then
      Some([First(Value(enc, s[0]).value, Value(enc, s[1]).value)])
    else if |s| < 3 || !IsDigit(enc, s[2]) || s[3..] != Padding(enc, 1) then None
    else
      Some([First(Value(enc, s[0]).value, Value(enc, s[1]).value),
            Second(Value(enc, s[1]).value, Value(enc, s[2]).value)])
  }

  function Decode(enc: Encoding, s: string): Option<seq<Byte>> {
    if s == [] then Some([])
    else if FullQuantum(enc, s) then
      var p, q := Value(enc, s[0]).value, Value(enc, s[1]).value;
      var r, t := Value(enc, s[2]).value, Value(enc, s[3]).value;
      match Decode(enc, s[4..])
      case None => None
      case Some(more) => Some([First(p, q), Second(q, r), Third(r, t)] + more)
    else Rest(enc, s)
  }

  /** The decoder skips line breaks. */
  function Kept(c: char): string {
    if c == '\r' || c == '\n' then [] else [c]
  }

  /** The text without the line breaks. */
  function Unfold(s: string): string {
    if s == [] then [] else Kept(s[0]) + Unfold(s[1..])
  }

  function DecodeString(enc: Encoding, s: string): Option<seq<Byte>> {
    Decode(enc, Unfold(s))
  }

  /** The alphabets of sections 4 and 5: where each run of consecutive characters begins and ends. */
  lemma DigitsAreTheAlphabet(enc: Encoding, n: Sextet)
    ensures Digit(enc, 0) == 'A' && Digit(enc, 25) == 'Z' && Digit(enc, 26) == 'a' && Digit(enc, 51) == 'z'
    ensures Digit(enc, 52) == '0' && Digit(enc, 61) == '9'
    ensures Digit(enc, 62) == (if enc.url then '-' else '+') && Digit(enc, 63) == (if enc.url then '_' else '/')
    ensures n < 61 && n != 25 && n != 51 ==> Digit(enc, n + 1) as int == Digit(enc, n) as int + 1
  {
  }

  /** The first byte is the most significant, in the digits as in the bytes. */
  lemma QuantumIsBigEndian(enc: Encoding, a: Byte, b: Byte, c: Byte)
    ensures var s := Quantum(enc, a, b, c);
            |s| == 4 && (forall i :: 0 <= i < 4 ==> IsDigit(enc, s[i]))
            && Value(enc, s[0]).value * 0x4_0000 + Value(enc, s[1]).value * 0x1000
               + Value(enc, s[2]).value * 0x40 + Value(enc, s[3]).value
               == a * 0x1_0000 + b * 0x100 + c
  {
    ValueOfDigit(enc, a / 4);
    ValueOfDigit(enc, a % 4 * 16 + b / 16);
    ValueOfDigit(enc, b % 16 * 4 + c / 64);
    ValueOfDigit(enc, c % 64);
  }

  lemma ValueOfDigit(enc: Encoding, n: Sextet)
    ensures Value(enc, Digit(enc, n)) == Some(n)
  {
  }

  lemma PadIsNoDigit(enc: Encoding)
    ensures !IsDigit(enc, PAD)
  {
  }

  /** Four digits carry three bytes. */
  lemma QuantumHoldsThreeBytes(a: Byte, b: Byte, c: Byte)
    ensures First(a / 4, a % 4 * 16 + b / 16) == a
    ensures Second(a % 4 * 16 + b / 16, b % 16 * 4 + c / 64) == b
    ensures Third(b % 16 * 4 + c / 64, c % 64) == c
  {
  }

  /** Decoding undoes encoding. */
  lemma {:induction false} DecodeEncode(enc: Encoding, b: seq<Byte>)
    ensures Decode(enc, Encode(enc, b)) == Some(b)
  {
    if |b| >= 3 {
      DecodeFullQuantum(enc, b);
      DecodeEncode(enc, b[3..]);
      assert b == [b[0], b[1], b[2]] + b[3..];
    } else if |b| > 0 {
      DecodeLastQuantum(enc, b);
    }
  }

  lemma DecodeFourDigits(enc: Encoding, p: Sextet, q: Sextet, r: Sextet, u: Sextet, rest: string)
    ensures var more := Decode(enc, rest);
            Decode(enc, [Digit(enc, p), Digit(enc, q), Digit(enc, r), Digit(enc, u)] + rest)
            == if more.Some? then Some([First(p, q), Second(q, r), Third(r, u)] + more.value) else None
  {
    var s := [Digit(enc, p), Digit(enc, q), Digit(enc, r), Digit(enc, u)] + rest;
    ValueOfDigit(enc, p);
    ValueOfDigit(enc, q);
    ValueOfDigit(enc, r);
    ValueOfDigit(enc, u);
    assert s[4..] == rest;
  }

  lemma DecodeFullQuantum(enc: Encoding, b: seq<Byte>)
    requires |b| >= 3
    ensures var more := Decode(enc, Encode(enc, b[3..]));
            Decode(enc, Encode(enc, b)) ==
            if more.Some? then Some([b[0], b[1], b[2]] + more.value) else None
  {
    DecodeFourDigits(enc, b[0] / 4, b[0] % 4 * 16 + b[1] / 16, b[1] % 16 * 4 + b[2] / 64, b[2] % 64,
                     Encode(enc, b[3..]));
    QuantumHoldsThreeBytes(b[0], b[1], b[2]);
  }

  lemma DecodeTwoDigits(enc: Encoding, p: Sextet, q: Sextet)
    ensures Decode(enc, [Digit(enc, p), Digit(enc, q)] + Padding(enc, 2)) == Some([First(p, q)])
  {
    var s := [Digit(enc, p), Digit(enc, q)] + Padding(enc, 2);
    ValueOfDigit(enc, p);
    ValueOfDigit(enc, q);
    PadIsNoDigit(enc);
    assert s[2..] == Padding(enc, 2);
    assert |s| >= 4 ==> s[3] == PAD;
  }

  lemma DecodeThreeDigits(enc: Encoding, p: Sextet, q: Sextet, r: Sextet)
    ensures Decode(enc, [Digit(enc, p), Digit(enc, q), Digit(enc, r)] + Padding(enc, 1))
         == Some([First(p, q), Second(q, r)])
  {
    var s := [Digit(enc, p), Digit(enc, q), Digit(enc, r)] + Padding(enc, 1);
    ValueOfDigit(enc, p);
    ValueOfDigit(enc, q);
    ValueOfDigit(enc, r);
    PadIsNoDigit(enc);
    assert s[3..] == Padding(enc, 1);
    assert |s| >= 4 ==> s[3] == PAD;
    assert s[2..][0] == s[2] != PAD;
    assert s[2..] != Padding(enc, 2);
  }

  lemma DecodeLastQuantum(enc: Encoding, b: seq<Byte>)
    requires 0 < |b| < 3
    ensures Decode(enc, Encode(enc, b)) == Some(b)
  {
    if |b| == 2 {
      DecodeThreeDigits(enc, b[0] / 4, b[0] % 4 * 16 + b[1] / 16, b[1] % 16 * 4);
      QuantumHoldsThreeBytes(b[0], b[1], 0);
      assert b == [b[0], b[1]];
    } else {
      DecodeTwoDigits(enc, b[0] / 4, b[0] % 4 * 16);
      QuantumHoldsThreeBytes(b[0], 0, 0);
      assert b == [b[0]];
    }
  }

  /** Where two alphabets share a digit they give it the same value. */
  lemma SharedDigit(e: Encoding, f: Encoding, c: char)
    requires IsDigit(e, c) && IsDigit(f, c)
    ensures Value(e, c) == Value(f, c)
  {
  }

  lemma RestIsUnambiguous(e: Encoding, f: Encoding, s: string)
    requires Rest(e, s).Some? && Rest(f, s).Some?
    ensures Rest(e, s) == Rest(f, s)
  {
    assert s[2..] == Padding(e, 2) && |s| > 2 ==> s[2..][0] == s[2] == PAD;
    assert s[2..] == Padding(f, 2) && |s| > 2 ==> s[2..][0] == s[2] == PAD;
  }

  /**
   * No text means two things: whatever the alphabets and the padding rules, two
   * encodings that both accept a text read the same bytes from it.
   */
  lemma {:induction false} Unambiguous(e: Encoding, f: Encoding, s: string)
    requires Decode(e, s).Some? && Decode(f, s).Some?
    ensures Decode(e, s) == Decode(f, s)
  {
    if s == [] {
    } else if FullQuantum(e, s) && FullQuantum(f, s) {
      Unambiguous(e, f, s[4..]);
      SharedDigit(e, f, s[0]);
      SharedDigit(e, f, s[1]);
      SharedDigit(e, f, s[2]);
      SharedDigit(e, f, s[3]);
    } else if FullQuantum(e, s) {
      NoQuantumBeforePadding(f, s, e);
    } else if FullQuantum(f, s) {
      NoQuantumBeforePadding(e, s, f);
    } else {
      RestIsUnambiguous(e, f, s);
    }
  }

  /** A text whose last quantum one encoding reads is not four digits of another. */
  lemma NoQuantumBeforePadding(e: Encoding, s: string, f: Encoding)
    requires Rest(e, s).Some?
    ensures !FullQuantum(f, s)
  {
    if |s| >= 4 {
      assert s[2..] == Padding(e, 2) ==> s[2..][1] == s[3];
      assert s[3..] == Padding(e, 1) ==> s[3..][0] == s[3];
      assert s[3] == PAD;
      assert !IsDigit(f, s[3]);
    }
  }

  /** Digits of the alphabet and padding, nothing else. */
  predicate IsText(enc: Encoding, s: string) {
    forall c <- s :: IsDigit(enc, c) || c == PAD
  }

  lemma QuantumIsText(enc: Encoding, a: Byte, b: Byte, c: Byte)
    ensures IsText(enc, Quantum(enc, a, b, c))
  {
    ValueOfDigit(enc, a / 4);
    ValueOfDigit(enc, a % 4 * 16 + b / 16);
    ValueOfDigit(enc, b % 16 * 4 + c / 64);
    ValueOfDigit(enc, c % 64);
  }

  /** Bytes that fill no quantum are written as if zeros followed, without the digits of the zeros alone. */
  lemma LastQuantumIsZeroFilled(enc: Encoding, a: Byte, b: Byte)
    ensures Encode(enc, [a]) == Quantum(enc, a, 0, 0)[..2] + (if enc.padded then "==" else "")
    ensures Encode(enc, [a, b]) == Quantum(enc, a, b, 0)[..3] + (if enc.padded then "=" else "")
  {
  }

  lemma {:induction false} EncodedIsText(enc: Encoding, b: seq<Byte>)
    ensures IsText(enc, Encode(enc, b))
  {
    if |b| >= 3 {
      QuantumIsText(enc, b[0], b[1], b[2]);
      EncodedIsText(enc, b[3..]);
    } else if |b| == 2 {
      QuantumIsText(enc, b[0], b[1], 0);
      assert Encode(enc, b) == Quantum(enc, b[0], b[1], 0)[..3] + Padding(enc, 1);
    } else if |b| == 1 {
      QuantumIsText(enc, b[0], 0, 0);
      assert Encode(enc, b) == Quantum(enc, b[0], 0, 0)[..2] + Padding(enc, 2);
    }
  }

  lemma TextConcat(enc: Encoding, a: string, b: string)
    requires IsText(enc, a) && IsText(enc, b)
    ensures IsText(enc, a + b)
  {
  }

  lemma RestIsText(enc: Encoding, s: string)
    requires Rest(enc, s).Some?
    ensures IsText(enc, s)
    ensures enc.padded ==> |s| == 4
  {
    if s[2..] == Padding(enc, 2) {
      assert s == [s[0], s[1]] + Padding(enc, 2);
    } else {
      assert s == [s[0], s[1], s[2]] + Padding(enc, 1);
    }
  }

  /** Text a decoder accepts is made of its digits and padding. */
  lemma {:induction false} AcceptedIsText(enc: Encoding, s: string)
    requires Decode(enc, s).Some?
    ensures IsText(enc, s)
  {
    if s == [] {
    } else if FullQuantum(enc, s) {
      var head := s[..4];
      AcceptedIsText(enc, s[4..]);
      forall c <- head ensures IsDigit(enc, c) {
        var i :| 0 <= i < 4 && head[i] == c;
      }
      TextConcat(enc, head, s[4..]);
      assert s == head + s[4..];
    } else {
      RestIsText(enc, s);
    }
  }

  lemma OneMoreQuantum(n: nat)
    ensures (n + 4) % 4 == n % 4
  {
  }

  /** Accepted text with padding fills whole quanta. */
  lemma {:induction false} AcceptedFillsQuanta(enc: Encoding, s: string)
    requires enc.padded && Decode(enc, s).Some?
    ensures |s| % 4 == 0
  {
    if s == [] {
    } else if FullQuantum(enc, s) {
      AcceptedFillsQuanta(enc, s[4..]);
      OneMoreQuantum(|s[4..]|);
    } else {
      RestIsText(enc, s);
    }
  }

  /** A text without line breaks is already unfolded. */
  lemma {:induction false} NothingToUnfold(s: string)
    requires '\r' !in s && '\n' !in s
    ensures Unfold(s) == s
  {
    if s != [] {
      NothingToUnfold(s[1..]);
    }
  }

  lemma {:induction false} BreakUnfolds(a: string, br: char, b: string)
    requires br == '\r' || br == '\n'
    ensures Unfold(a + [br] + b) == Unfold(a + b)
  {
    var folded, plain := a + [br] + b, a + b;
    if a == [] {
      assert folded[0] == br && folded[1..] == b == plain;
    } else {
      assert folded[0] == plain[0] == a[0];
      assert folded[1..] == a[1..] + [br] + b && plain[1..] == a[1..] + b;
      BreakUnfolds(a[1..], br, b);
    }
  }

  /** A line break may stand anywhere. */
  lemma LineBreaksAreInvisible(enc: Encoding, a: string, br: char, b: string)
    requires br == '\r' || br == '\n'
    ensures DecodeString(enc, a + [br] + b) == DecodeString(enc, a + b)
  {
    BreakUnfolds(a, br, b);
  }
}
