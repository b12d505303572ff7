/** The string operations the book services rely on: `toLowerCase`,
    `trim().isEmpty()`, `contains` and `String.CASE_INSENSITIVE_ORDER`.
    Case mapping is modelled for ASCII letters only; `trim` is modelled
    exactly, since Java defines it as stripping every char up to U+0020. */
module Text {

  /** The sign of a comparison result: Java's comparators return any
      negative, zero or positive int and callers only look at the sign. */
  function Sign(x: int): (r: int)
    ensures r in {-1, 0, 1}
    ensures (r < 0 <==> x < 0) && (r == 0 <==> x == 0) && (r > 0 <==> x > 0)
  {
    if x < 0 then -1 else if x == 0 then 0 else 1
  }

  /** Integer.compare, as used by Comparator.comparing on id and year. */
  function IntCompare(x: int, y: int): (r: int)
    ensures r in {-1, 0, 1}
    ensures (r < 0 <==> x < y) && (r == 0 <==> x == y)
  {
    Sign(x - y)
  }

  predicate IsUpper(c: char) {
    'A' <= c <= 'Z'
  }

  function LowerChar(c: char): (r: char)
    ensures !IsUpper(r)
    ensures !IsUpper(c) ==> r == c
  {
    if IsUpper(c) then (c as int + 32) as char else c
  }

  /** String.toLowerCase, ASCII letters only. */
  function ToLower(s: string): (r: string)
    ensures |r| == |s|
    ensures forall i :: 0 <= i < |s| ==> r[i] == LowerChar(s[i])
  {
    if |s| == 0 then [] else [LowerChar(s[0])] + ToLower(s[1..])
  }

  // ---------------------------------------------------------------- trim

  /** Java's trim() removes every leading and trailing char whose code is at
      most U+0020 (space and all control characters). */
  predicate IsTrimmable(c: char) {
    c <= ' '
  }

  function TrimStart(s: string): (r: string)
    ensures |r| <= |s| && r == s[|s| - |r|..]
    ensures |r| > 0 ==> !IsTrimmable(r[0])
    ensures forall i :: 0 <= i < |s| - |r| ==> IsTrimmable(s[i])
  {
    if |s| > 0 && IsTrimmable(s[0]) then TrimStart(s[1..]) else s
  }

  function TrimEnd(s: string): (r: string)
    ensures |r| <= |s| && r == s[..|r|]
    ensures |r| > 0 ==> !IsTrimmable(r[|r| - 1])
    ensures forall i :: |r| <= i < |s| ==> IsTrimmable(s[i])
  {
    if |s| > 0 && IsTrimmable(s[|s| - 1]) then TrimEnd(s[..|s| - 1]) else s
  }

  function Trim(s: string): string {
    TrimEnd(TrimStart(s))
  }

  /** `s.trim().isEmpty()`: the test the services use for a blank argument. */
  predicate IsBlank(s: string) {
    |Trim(s)| == 0
  }

  /** A string is blank exactly when every char in it is at most U+0020. */
  lemma {:induction false} BlankIffAllTrimmable(s: string)
    ensures IsBlank(s) <==> forall i :: 0 <= i < |s| ==> IsTrimmable(s[i])
  {
    var t := TrimStart(s);
    if !forall i :: 0 <= i < |s| ==> IsTrimmable(s[i]) {
      var k :| 0 <= k < |s| && !IsTrimmable(s[k]);
      assert k >= |s| - |t|;
      assert t[k - (|s| - |t|)] == s[k];
      assert |TrimEnd(t)| > 0;
    }
  }

  // ------------------------------------------------------------ contains

  predicate StartsWith(s: string, prefix: string) {
    |prefix| <= |s| && s[..|prefix|] == prefix
  }

  /** String.contains: `sub` occurs in `s` at some position. */
  predicate Contains(s: string, sub: string)
    decreases |s|
  {
    StartsWith(s, sub) || (|s| > 0 && Contains(s[1..], sub))
  }

  /** `sub` occurs in `s` starting at index `i`. */
  predicate OccursAt(s: string, sub: string, i: int) {
    0 <= i <= |s| - |sub| && s[i..i + |sub|] == sub
  }

  /** Reference definition: `sub` is a window of `s`. */
  lemma {:induction false} ContainsIffOccurs(s: string, sub: string)
    ensures Contains(s, sub) <==> exists i :: OccursAt(s, sub, i)
    decreases |s|
  {
    if StartsWith(s, sub) {
      assert OccursAt(s, sub, 0);
    } else if |s| > 0 {
      ContainsIffOccurs(s[1..], sub);
      forall i | OccursAt(s[1..], sub, i)
        ensures OccursAt(s, sub, i + 1)
      {
        WindowOfTail(s, i + 1, i + 1 + |sub|);
      }
      forall i | OccursAt(s, sub, i)
        ensures OccursAt(s[1..], sub, i - 1)
      {
        WindowOfTail(s, i, i + |sub|);
      }
    }
  }

  /** A window of `s` that does not start at 0 is a window of its tail. */
  lemma WindowOfTail(s: string, i: int, j: int)
    requires 1 <= i <= j <= |s|
    ensures s[1..][i - 1..j - 1] == s[i..j]
  {
  }

  // ------------------------------------------------ case-insensitive order

  /** Lexicographic order on char sequences; a proper prefix comes first. */
  function LexCompare(s: seq<char>, t: seq<char>): (r: int)
    ensures r in {-1, 0, 1}
  {
    if |s| == 0 || |t| == 0 then IntCompare(|s|, |t|)
    else if s[0] != t[0] then IntCompare(s[0] as int, t[0] as int)
    else LexCompare(s[1..], t[1..])
  }

  /** String.CASE_INSENSITIVE_ORDER, as Java computes it: char by char on
      case-folded chars, and on a common prefix the shorter string first. */
  function CompareIgnoreCase(s: string, t: string): (r: int)
    ensures r in {-1, 0, 1}
  {
    if |s| == 0 || |t| == 0 then IntCompare(|s|, |t|)
    else if LowerChar(s[0]) != LowerChar(t[0])
    then IntCompare(LowerChar(s[0]) as int, LowerChar(t[0]) as int)
    else CompareIgnoreCase(s[1..], t[1..])
  }

  /** The char-by-char comparison is the lexicographic order of the
      lower-cased strings. */
  lemma {:induction false} CompareIgnoreCaseIsLexOfLower(s: string, t: string)
    ensures CompareIgnoreCase(s, t) == LexCompare(ToLower(s), ToLower(t))
  {
    if |s| > 0 && |t| > 0 {
      assert ToLower(s)[1..] == ToLower(s[1..]);
      assert ToLower(t)[1..] == ToLower(t[1..]);
      CompareIgnoreCaseIsLexOfLower(s[1..], t[1..]);
    }
  }

  lemma {:induction false} LexCompareZeroIffEqual(s: seq<char>, t: seq<char>)
    ensures LexCompare(s, t) == 0 <==> s == t
  {
    if |s| > 0 && |t| > 0 && s[0] == t[0] {
      LexCompareZeroIffEqual(s[1..], t[1..]);
      if s[1..] == t[1..] {
        assert s == [s[0]] + s[1..];
        assert t == [t[0]] + t[1..];
      }
    }
  }

  lemma {:induction false} LexCompareAntisymmetric(s: seq<char>, t: seq<char>)
    ensures LexCompare(s, t) == -LexCompare(t, s)
  {
    if |s| > 0 && |t| > 0 && s[0] == t[0] {
      LexCompareAntisymmetric(s[1..], t[1..]);
    }
  }

  lemma {:induction false} LexCompareTransitive(s: seq<char>, t: seq<char>, u: seq<char>)
    requires LexCompare(s, t) <= 0 && LexCompare(t, u) <= 0
    ensures LexCompare(s, u) <= 0
  {
    if |s| > 0 && |t| > 0 && |u| > 0 && s[0] == t[0] == u[0] {
      LexCompareTransitive(s[1..], t[1..], u[1..]);
    }
  }

  /** Two strings compare equal case-insensitively exactly when their
      lower-cased forms coincide ("alpha" and "Alpha" tie). */
  lemma CompareIgnoreCaseZeroIff(s: string, t: string)
    ensures CompareIgnoreCase(s, t) == 0 <==> ToLower(s) == ToLower(t)
  {
    CompareIgnoreCaseIsLexOfLower(s, t);
    LexCompareZeroIffEqual(ToLower(s), ToLower(t));
  }

  lemma CompareIgnoreCaseAntisymmetric(s: string, t: string)
    ensures CompareIgnoreCase(s, t) == -CompareIgnoreCase(t, s)
  {
    CompareIgnoreCaseIsLexOfLower(s, t);
    CompareIgnoreCaseIsLexOfLower(t, s);
    LexCompareAntisymmetric(ToLower(s), ToLower(t));
  }

  lemma CompareIgnoreCaseTransitive(s: string, t: string, u: string)
    requires CompareIgnoreCase(s, t) <= 0 && CompareIgnoreCase(t, u) <= 0
    ensures CompareIgnoreCase(s, u) <= 0
  {
    CompareIgnoreCaseIsLexOfLower(s, t);
    CompareIgnoreCaseIsLexOfLower(t, u);
    CompareIgnoreCaseIsLexOfLower(s, u);
    LexCompareTransitive(ToLower(s), ToLower(t), ToLower(u));
  }
}
