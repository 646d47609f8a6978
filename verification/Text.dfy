/** `strings.TrimSpace` over the code points Go calls white space. */
module Text {

  predicate IsSpace(c: char) {
    var n := c as int;
    0x09 <= n <= 0x0d || n == 0x20 || n == 0x85 || n == 0xa0 || n == 0x1680 || 0x2000 <= n <= 0x200a
    || n == 0x2028 || n == 0x2029 || n == 0x202f || n == 0x205f || n == 0x3000
  }

  /** Within ASCII, the tab, the four line and page breaks, and the blank. */
  lemma AsciiSpaces(c: char)
    requires c as int < 0x80
    ensures IsSpace(c) <==> c in ['\t', '\n', '\U{0b}', '\U{0c}', '\r', ' ']
  {
  }

  predicate AllSpace(s: string) {
    forall i :: 0 <= i < |s| ==> IsSpace(s[i])
  }

  /** No white space at either end. */
  predicate Bare(s: string) {
    s == [] || (!IsSpace(s[0]) && !IsSpace(s[|s| - 1]))
  }

  function TrimSpace(s: string): string {
    if s == [] then []
    else if IsSpace(s[0]) then TrimSpace(s[1..])
    else if IsSpace(s[|s| - 1]) then TrimSpace(s[..|s| - 1])
    else s
  }

  /** Trimming removes exactly the surrounding white space. */
  lemma {:induction false} TrimRemovesTheSurroundings(before: string, s: string, after: string)
    requires AllSpace(before) && AllSpace(after) && Bare(s)
    ensures TrimSpace(before + s + after) == s
    decreases |before| + |after|
  {
    var whole := before + s + after;
    if before != [] {
      assert whole[1..] == before[1..] + s + after;
      TrimRemovesTheSurroundings(before[1..], s, after);
    } else if after != [] {
      if s == [] {
        assert whole[1..] == [] + s + after[1..];
        TrimRemovesTheSurroundings([], s, after[1..]);
      } else {
        assert whole[0] == s[0] && whole[|whole| - 1] == after[|after| - 1];
        assert whole[..|whole| - 1] == [] + s + after[..|after| - 1];
        TrimRemovesTheSurroundings([], s, after[..|after| - 1]);
      }
    } else {
      assert whole == s;
    }
  }

  /** Nothing is left of a text exactly when it is white space throughout. */
  lemma {:induction false} NothingLeftIff(s: string)
    ensures TrimSpace(s) == "" <==> AllSpace(s)
  {
    if s == [] {
    } else if IsSpace(s[0]) {
      NothingLeftIff(s[1..]);
      assert s == [s[0]] + s[1..];
    } else if IsSpace(s[|s| - 1]) {
      NothingLeftIff(s[..|s| - 1]);
      assert s == s[..|s| - 1] + [s[|s| - 1]];
    }
  }
}
