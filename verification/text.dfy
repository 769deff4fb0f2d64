/** The pieces of Go's `strings` and `unicode` packages that the scraper and
    the handlers use, stated over code points (`string` is `seq<char>`).
    UTF-8 is self-synchronising: a valid encoded needle occurs in a valid
    encoded text exactly at the boundaries of an occurrence of its code
    points, so searching, trimming and slicing on code points pick out the
    same substrings as Go's byte-level operations do. */
module Text {

  // ---------------------------------------------------------------------------
  // White space and trimming (strings.TrimSpace)
  // ---------------------------------------------------------------------------

  /** `unicode.IsSpace`: the Latin-1 spaces plus every other code point with the
      Unicode White_Space property. */
  predicate IsSpace(c: char) {
    var n := c as int;
    || n == 0x20
    || (0x09 <= n <= 0x0D)
    || n == 0x85
    || n == 0xA0
    || n == 0x1680
    || (0x2000 <= n <= 0x200A)
    || n == 0x2028
    || n == 0x2029
    || n == 0x202F
    || n == 0x205F
    || n == 0x3000
  }

  predicate AllSpace(s: string) {
    forall i | 0 <= i < |s| :: IsSpace(s[i])
  }

  /** Neither end of `s` is white space. */
  predicate IsTrimmed(s: string) {
    |s| == 0 || (!IsSpace(s[0]) && !IsSpace(s[|s| - 1]))
  }

  /** Drops the leading white space: the result is a suffix of `s`, what was
      dropped is all white space, and the result does not start with any. */
  function TrimLeft(s: string): (r: string)
    ensures |r| <= |s| && r == s[|s| - |r|..]
    ensures AllSpace(s[..|s| - |r|])
    ensures |r| == 0 || !IsSpace(r[0])
  {
    if |s| > 0 && IsSpace(s[0]) then TrimLeft(s[1..]) else s
  }

  /** Drops the trailing white space: the result is a prefix of `s`, what was
      dropped is all white space, and the result does not end with any. */
  function TrimRight(s: string): (r: string)
    ensures |r| <= |s| && r == s[..|r|]
    ensures AllSpace(s[|r|..])
    ensures |r| == 0 || !IsSpace(r[|r| - 1])
  {
    if |s| > 0 && IsSpace(s[|s| - 1]) then TrimRight(s[..|s| - 1]) else s
  }

  /** `strings.TrimSpace`. */
  function TrimSpace(s: string): (r: string)
    ensures IsTrimmed(r)
    ensures |r| <= |s|
  {
    TrimRight(TrimLeft(s))
  }

  lemma {:induction false} TrimLeftSpaces(a: string, t: string)
    requires AllSpace(a)
    ensures TrimLeft(a + t) == TrimLeft(t)
    decreases |a|
  {
    if |a| > 0 {
      assert (a + t)[1..] == a[1..] + t;
      TrimLeftSpaces(a[1..], t);
    } else {
      assert a + t == t;
    }
  }

  /** Trimming the left of `a + t` only touches `a` when `a` holds something
      other than white space or `t` starts with a non-space. */
  lemma {:induction false} TrimLeftConcat(a: string, t: string)
    requires !AllSpace(a) || |t| == 0 || !IsSpace(t[0])
    ensures TrimLeft(a + t) == TrimLeft(a) + t
    decreases |a|
  {
    if |a| == 0 {
      assert a + t == t;
    } else if IsSpace(a[0]) {
      assert (a + t)[1..] == a[1..] + t;
      TrimLeftConcat(a[1..], t);
    } else {
      assert (a + t)[0] == a[0];
    }
  }

  lemma {:induction false} TrimRightSpaces(t: string, b: string)
    requires AllSpace(b)
    ensures TrimRight(t + b) == TrimRight(t)
    decreases |b|
  {
    if |b| > 0 {
      assert (t + b)[..|t + b| - 1] == t + b[..|b| - 1];
      TrimRightSpaces(t, b[..|b| - 1]);
    } else {
      assert t + b == t;
    }
  }

  lemma {:induction false} TrimRightConcat(t: string, b: string)
    requires !AllSpace(b) || |t| == 0 || !IsSpace(t[|t| - 1])
    ensures TrimRight(t + b) == t + TrimRight(b)
    decreases |b|
  {
    if |b| == 0 {
      assert t + b == t;
    } else if IsSpace(b[|b| - 1]) {
      assert (t + b)[..|t + b| - 1] == t + b[..|b| - 1];
      TrimRightConcat(t, b[..|b| - 1]);
    } else {
      assert (t + b)[|t + b| - 1] == b[|b| - 1];
    }
  }

  /** A string with no white space at either end is its own trim. */
  lemma TrimSpaceOfTrimmed(s: string)
    requires IsTrimmed(s)
    ensures TrimSpace(s) == s
  {
  }

  /** A string of white space trims to nothing. */
  lemma {:induction false} TrimLeftAllSpace(s: string)
    requires AllSpace(s)
    ensures TrimLeft(s) == []
    decreases |s|
  {
    if |s| > 0 {
      TrimLeftAllSpace(s[1..]);
    }
  }

  /** Surrounding white space never reaches the result of `TrimSpace`. */
  lemma TrimSpacePadded(a: string, q: string, b: string)
    requires AllSpace(a) && AllSpace(b)
    ensures TrimSpace(a + q + b) == TrimSpace(q)
  {
    assert a + q + b == a + (q + b);
    TrimLeftSpaces(a, q + b);
    if AllSpace(q) {
      assert AllSpace(q + b);
      TrimLeftAllSpace(q + b);
      TrimLeftAllSpace(q);
    } else {
      TrimLeftConcat(q, b);
      TrimRightSpaces(TrimLeft(q), b);
    }
  }

  /** Trimming `u + p + v` where `p` has non-space ends only eats into `u` and `v`. */
  lemma TrimSpaceAround(u: string, p: string, v: string)
    requires |p| > 0 && !IsSpace(p[0]) && !IsSpace(p[|p| - 1])
    ensures TrimSpace(u + p + v) == TrimLeft(u) + p + TrimRight(v)
  {
    assert u + p + v == u + (p + v);
    TrimLeftConcat(u, p + v);
    assert TrimLeft(u) + (p + v) == (TrimLeft(u) + p) + v;
    TrimRightConcat(TrimLeft(u) + p, v);
  }

  /** One blank on each side of a trimmed, non-empty text comes off. */
  lemma TrimOneSpaceEachSide(core: string)
    requires |core| > 0 && IsTrimmed(core)
    ensures TrimSpace(" " + core + " ") == core
  {
    TrimSpaceAround(" ", core, " ");
    assert TrimLeft(" ") == [] && TrimRight(" ") == [];
  }

  // ---------------------------------------------------------------------------
  // Case folding (strings.ToLower)
  // ---------------------------------------------------------------------------

  /** Lower-cases ASCII letters and the basic Cyrillic capitals (U+0400 to
      U+042F, which covers the whole Russian and most of the Kazakh alphabet);
      every other code point is left as it is. */
  function LowerChar(c: char): char {
    var n := c as int;
    if ('A' <= c <= 'Z') || (0x410 <= n <= 0x42F) then (n + 0x20) as char
    else if 0x400 <= n <= 0x40F then (n + 0x50) as char
    else c
  }

  function Lower(s: string): (r: string)
    ensures |r| == |s|
  {
    seq(|s|, i requires 0 <= i < |s| => LowerChar(s[i]))
  }

  lemma LowerConcat(a: string, b: string)
    ensures Lower(a + b) == Lower(a) + Lower(b)
  {
  }

  // ---------------------------------------------------------------------------
  // Prefixes, suffixes and substrings
  // ---------------------------------------------------------------------------

  predicate HasPrefix(s: string, p: string) {
    |p| <= |s| && s[..|p|] == p
  }

  predicate HasSuffix(s: string, p: string) {
    |p| <= |s| && s[|s| - |p|..] == p
  }

  /** `strings.TrimPrefix`: removes one copy of `p` from the front, if there. */
  function TrimPrefix(s: string, p: string): (r: string)
    ensures HasPrefix(s, p) ==> s == p + r
    ensures !HasPrefix(s, p) ==> r == s
  {
    if HasPrefix(s, p) then s[|p|..] else s
  }

  /** A prefix put in front comes off again. */
  lemma TrimPrefixConcat(p: string, r: string)
    ensures TrimPrefix(p + r, p) == r
  {
    assert (p + r)[..|p|] == p && (p + r)[|p|..] == r;
  }

  /** `strings.TrimSuffix`: removes one copy of `p` from the end, if there. */
  function TrimSuffix(s: string, p: string): (r: string)
    ensures HasSuffix(s, p) ==> s == r + p
    ensures !HasSuffix(s, p) ==> r == s
  {
    if HasSuffix(s, p) then s[..|s| - |p|] else s
  }

  /** `strings.Contains`: `sub` starts at some position of `s`. */
  predicate Contains(s: string, sub: string) {
    HasPrefix(s, sub) || (|s| > 0 && Contains(s[1..], sub))
  }

  lemma {:induction false} ContainsLength(s: string, sub: string)
    requires Contains(s, sub)
    ensures |sub| <= |s|
  {
    if !HasPrefix(s, sub) {
      ContainsLength(s[1..], sub);
    }
  }

  /** A text containing `sub` contains its first character. */
  lemma {:induction false} ContainsHead(s: string, sub: string)
    requires |sub| > 0
    ensures Contains(s, sub) ==> sub[0] in s
  {
    if HasPrefix(s, sub) {
      assert s[0] == s[..|sub|][0] == sub[0];
    } else if |s| > 0 {
      ContainsHead(s[1..], sub);
      assert forall k | 0 <= k < |s[1..]| :: s[1..][k] == s[k + 1];
    }
  }

  /** A text no longer than `sub` contains it only by being it. */
  lemma ContainsSameLength(s: string, sub: string)
    ensures Contains(s, sub) && |s| <= |sub| ==> s == sub
  {
    if Contains(s, sub) && !HasPrefix(s, sub) {
      ContainsLength(s[1..], sub);
    }
  }

  /** A substring of a prefix of `s` is a substring of `s`. */
  lemma {:induction false} ContainsInPrefix(s: string, j: nat, sub: string)
    requires j <= |s| && Contains(s[..j], sub)
    ensures Contains(s, sub)
  {
    if HasPrefix(s[..j], sub) {
      assert s[..|sub|] == s[..j][..|sub|];
    } else {
      assert s[..j][1..] == s[1..][..j - 1];
      ContainsInPrefix(s[1..], j - 1, sub);
    }
  }

  /** A substring of a suffix of `s` is a substring of `s`. */
  lemma {:induction false} ContainsInSuffix(s: string, i: nat, sub: string)
    requires i <= |s| && Contains(s[i..], sub)
    ensures Contains(s, sub)
    decreases i
  {
    if i > 0 {
      assert s[i..] == s[1..][i - 1..];
      ContainsInSuffix(s[1..], i - 1, sub);
    }
  }

  /** Every slice of a string inherits its substrings' absence. */
  lemma ContainsInSlice(s: string, i: nat, j: nat, sub: string)
    requires i <= j <= |s| && Contains(s[i..j], sub)
    ensures Contains(s, sub)
  {
    assert s[i..j] == s[i..][..j - i];
    ContainsInPrefix(s[i..], j - i, sub);
    ContainsInSuffix(s, i, sub);
  }

  // ---------------------------------------------------------------------------
  // strings.ReplaceAll, strings.Index and strings.LastIndex
  // ---------------------------------------------------------------------------

  /** `strings.ReplaceAll` for a non-empty `pat`: scans left to right and
      replaces each non-overlapping occurrence of `pat` by `rep`. */
  function ReplaceAll(s: string, pat: string, rep: string): (r: string)
    requires |pat| > 0
    decreases |s|
  {
    if |s| < |pat| then s
    else if s[..|pat|] == pat then rep + ReplaceAll(s[|pat|..], pat, rep)
    else [s[0]] + ReplaceAll(s[1..], pat, rep)
  }

  /** A stretch without the first character of `pat` passes through untouched. */
  lemma {:induction false} ReplaceAllSkip(a: string, b: string, pat: string, rep: string)
    requires |pat| > 0 && pat[0] !in a
    ensures ReplaceAll(a + b, pat, rep) == a + ReplaceAll(b, pat, rep)
    decreases |a|
  {
    if |a| > 0 {
      var s := a + b;
      if |s| < |pat| {
        // too short to hold `pat`, and so is the rest
        assert ReplaceAll(b, pat, rep) == b;
      } else {
        assert s[0] == a[0] != pat[0];
        assert s[1..] == a[1..] + b;
        ReplaceAllSkip(a[1..], b, pat, rep);
      }
    } else {
      assert a + b == b;
    }
  }

  /** An occurrence of `pat` right at the front is replaced. */
  lemma ReplaceAllFront(b: string, pat: string, rep: string)
    requires |pat| > 0
    ensures ReplaceAll(pat + b, pat, rep) == rep + ReplaceAll(b, pat, rep)
  {
    assert (pat + b)[..|pat|] == pat;
    assert (pat + b)[|pat|..] == b;
  }

  const Fence := "```"

  /** Removing every "```" leaves none behind: each maximal run of backticks
      shrinks to its length modulo three, and runs are never glued together. */
  lemma {:induction false} RemoveFencesLeavesNone(s: string)
    ensures !Contains(ReplaceAll(s, Fence, []), Fence)
    decreases |s|
  {
    var r := ReplaceAll(s, Fence, []);
    if |s| < 3 {
      if Contains(r, Fence) {
        ContainsLength(r, Fence);
      }
    } else if s[..3] == Fence {
      assert r == ReplaceAll(s[3..], Fence, []);
      RemoveFencesLeavesNone(s[3..]);
    } else {
      var u := s[1..];
      var t := ReplaceAll(u, Fence, []);
      assert r == [s[0]] + t;
      RemoveFencesLeavesNone(u);
      assert r[1..] == t;
    }
  }

  /** `strings.Index` for a one-character needle: the first position holding
      `c`, or -1. */
  function IndexOf(s: string, c: char): (r: int)
    ensures -1 <= r < |s|
    ensures r == -1 <==> c !in s
    ensures 0 <= r ==> s[r] == c && c !in s[..r]
  {
    if |s| == 0 then -1
    else if s[0] == c then 0
    else
      var k := IndexOf(s[1..], c);
      if k == -1 then -1 else k + 1
  }

  /** `strings.LastIndex` for a one-character needle: the last position
      holding `c`, or -1. */
  function LastIndexOf(s: string, c: char): (r: int)
    ensures -1 <= r < |s|
    ensures r == -1 <==> c !in s
    ensures 0 <= r ==> s[r] == c && c !in s[r + 1..]
  {
    if |s| == 0 then -1
    else if s[|s| - 1] == c then |s| - 1
    else LastIndexOf(s[..|s| - 1], c)
  }

  // ---------------------------------------------------------------------------
  // Decimal digits (fmt's %d)
  // ---------------------------------------------------------------------------

  predicate IsDigit(c: char) {
    '0' <= c <= '9'
  }

  function DigitChar(n: nat): (c: char)
    requires n < 10
    ensures IsDigit(c)
  {
    (48 + n) as char
  }

  function DigitValue(c: char): (n: nat)
    requires IsDigit(c)
    ensures n < 10 && DigitChar(n) == c
  {
    c as int - 48
  }

  /** `fmt`'s `%d` for a natural number: no sign, no leading zero. */
  function NatToString(n: nat): (r: string)
    ensures |r| > 0
    decreases n
  {
    if n < 10 then [DigitChar(n)] else NatToString(n / 10) + [DigitChar(n % 10)]
  }

  /** The number a string of digits denotes. */
  function DigitsValue(s: string): nat
    requires forall i | 0 <= i < |s| :: IsDigit(s[i])
  {
    if |s| == 0 then 0 else 10 * DigitsValue(s[..|s| - 1]) + DigitValue(s[|s| - 1])
  }

  /** `NatToString` writes only digits, without a leading zero, and reading
      them back gives the number: distinct numbers print differently. */
  lemma {:induction false} NatToStringRoundTrip(n: nat)
    ensures forall i | 0 <= i < |NatToString(n)| :: IsDigit(NatToString(n)[i])
    ensures NatToString(n)[0] != '0' || n == 0
    ensures DigitsValue(NatToString(n)) == n
    decreases n
  {
    if n >= 10 {
      NatToStringRoundTrip(n / 10);
      var s := NatToString(n);
      assert s[..|s| - 1] == NatToString(n / 10);
    }
  }
}
