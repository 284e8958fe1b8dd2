/** String helpers shared by the lexer, parser and transpiler: prefix and infix
    tests, JavaScript's ASCII word characters, lower-casing, decimal rendering
    of counts, and whole-string replacement. */
module Strings {

  predicate StartsWith(s: string, p: string) {
    |p| <= |s| && s[..|p|] == p
  }

  lemma StartsWithAppend(p: string, rest: string)
    ensures StartsWith(p + rest, p)
  {
    assert (p + rest)[..|p|] == p;
  }

  /** `x` occurs in `s` starting at position `i`. */
  predicate OccursAt(s: string, x: string, i: nat) {
    i + |x| <= |s| && s[i..i + |x|] == x
  }

  /** `x` occurs somewhere inside `s`. */
  predicate Contains(s: string, x: string) {
    exists i: nat :: i <= |s| && OccursAt(s, x, i)
  }

  lemma ContainsMiddle(a: string, x: string, b: string)
    ensures Contains(a + x + b, x)
  {
    assert OccursAt(a + x + b, x, |a|);
  }

  /** An occurrence in a suffix is an occurrence in the whole. */
  lemma ContainsSuffix(s: string, x: string, n: nat)
    requires n <= |s| && Contains(s[n..], x)
    ensures Contains(s, x)
  {
    var i: nat :| i <= |s[n..]| && OccursAt(s[n..], x, i);
    assert s[n..][i..i + |x|] == s[n + i..n + i + |x|];
    assert OccursAt(s, x, n + i);
  }

  /** An occurrence in `b` is one in `a + b`, and `a` occurs at the start. */
  lemma ContainsAppend(a: string, b: string, x: string)
    requires Contains(b, x)
    ensures Contains(a + b, x)
  {
    assert (a + b)[|a|..] == b;
    ContainsSuffix(a + b, x, |a|);
  }

  lemma ContainsHead(a: string, b: string)
    ensures Contains(a + b, a)
  {
    assert OccursAt(a + b, a, 0);
  }

  /** The class `\w` of JavaScript regular expressions (no `u` flag). */
  predicate IsWordChar(c: char) {
    ('a' <= c <= 'z') || ('A' <= c <= 'Z') || ('0' <= c <= '9') || c == '_'
  }

  /** `String.prototype.toLowerCase` restricted to the ASCII letters. */
  function LowerChar(c: char): (r: char)
    ensures IsWordChar(r) <==> IsWordChar(c)
    ensures !('A' <= r <= 'Z')
    ensures !('A' <= c <= 'Z') ==> r == c
  {
    if 'A' <= c <= 'Z' then (c as int - 'A' as int + 'a' as int) as char else c
  }

  function ToLower(s: string): (r: string)
    ensures |r| == |s|
    ensures forall i :: 0 <= i < |s| ==> r[i] == LowerChar(s[i])
  {
    seq(|s|, i requires 0 <= i < |s| => LowerChar(s[i]))
  }

  /** Lower-casing twice is lower-casing once. */
  lemma ToLowerIdempotent(s: string)
    ensures ToLower(ToLower(s)) == ToLower(s)
  {
  }

  predicate IsDigit(c: char) {
    '0' <= c <= '9'
  }

  function DigitValue(c: char): nat
    requires IsDigit(c)
  {
    c as int - '0' as int
  }

  /** The number a string of decimal digits denotes. */
  function DecimalValue(s: string): nat
    requires forall i :: 0 <= i < |s| ==> IsDigit(s[i])
  {
    if s == [] then 0 else 10 * DecimalValue(s[..|s| - 1]) + DigitValue(s[|s| - 1])
  }

  /** The decimal rendering JavaScript gives a non-negative integer in a
      template literal. */
  function NatToString(n: nat): (r: string)
    ensures |r| > 0
    ensures forall i :: 0 <= i < |r| ==> IsDigit(r[i])
    ensures DecimalValue(r) == n
  {
    var d := ['0' + (n % 10) as char];
    if n < 10 then d
    else
      var r := NatToString(n / 10) + d;
      assert r[..|r| - 1] == NatToString(n / 10);
      r
  }

  /** `s.replaceAll(pat, rep)` for a non-empty string pattern and a
      replacement taken literally: occurrences are found left to right,
      and the search resumes after each replaced occurrence. */
  function ReplaceAll(s: string, pat: string, rep: string): string
    requires |pat| > 0
    decreases |s|
  {
    if |s| < |pat| then s
    else if s[..|pat|] == pat then rep + ReplaceAll(s[|pat|..], pat, rep)
    else [s[0]] + ReplaceAll(s[1..], pat, rep)
  }

  /** Replacing a pattern that never occurs changes nothing. */
  lemma {:induction false} ReplaceAllAbsent(s: string, pat: string, rep: string)
    requires |pat| > 0 && !Contains(s, pat)
    ensures ReplaceAll(s, pat, rep) == s
    decreases |s|
  {
    if |s| >= |pat| {
      assert !OccursAt(s, pat, 0);
      assert s[..|pat|] != pat by { assert s[..|pat|] == s[0..|pat|]; }
      forall i: nat | i <= |s[1..]| && OccursAt(s[1..], pat, i)
        ensures false
      {
        assert s[1..][i..i + |pat|] == s[i + 1..i + 1 + |pat|];
        assert OccursAt(s, pat, i + 1);
      }
      ReplaceAllAbsent(s[1..], pat, rep);
      assert s == [s[0]] + s[1..];
    }
  }

  /** Replacing a pattern by itself changes nothing. */
  lemma {:induction false} ReplaceAllSelf(s: string, pat: string)
    requires |pat| > 0
    ensures ReplaceAll(s, pat, pat) == s
    decreases |s|
  {
    if |s| < |pat| {
    } else if s[..|pat|] == pat {
      ReplaceAllSelf(s[|pat|..], pat);
      assert s == s[..|pat|] + s[|pat|..];
    } else {
      ReplaceAllSelf(s[1..], pat);
      assert s == [s[0]] + s[1..];
    }
  }

  /** Occurrences are replaced left to right: when `a` holds no occurrence
      of the pattern, not even one running into the `pat` that follows it,
      the first replaced occurrence is the one right after `a`. */
  lemma {:induction false} ReplaceAllJoin(a: string, pat: string, b: string, rep: string)
    requires |pat| > 0
    requires forall i: nat :: i < |a| ==> !OccursAt(a + pat, pat, i)
    ensures ReplaceAll(a + pat + b, pat, rep) == a + rep + ReplaceAll(b, pat, rep)
    decreases |a|
  {
    var s := a + pat + b;
    if a == [] {
      assert s == pat + b;
      assert s[..|pat|] == pat;
      assert s[|pat|..] == b;
    } else {
      assert s[1..] == a[1..] + pat + b;
      assert !OccursAt(a + pat, pat, 0);
      ReplaceAllStep(s, a + pat, pat, rep);
      forall i: nat | i < |a[1..]|
        ensures !OccursAt(a[1..] + pat, pat, i)
      {
        assert !OccursAt(a + pat, pat, i + 1);
        assert (a[1..] + pat)[i..i + |pat|] == (a + pat)[i + 1..i + 1 + |pat|];
      }
      ReplaceAllJoin(a[1..], pat, b, rep);
      assert a == [a[0]] + a[1..];
    }
  }

  /** One step of the scan at a position where the pattern does not start. */
  lemma ReplaceAllStep(s: string, t: string, pat: string, rep: string)
    requires 0 < |pat| <= |t| <= |s| && t == s[..|t|]
    requires !OccursAt(t, pat, 0)
    ensures ReplaceAll(s, pat, rep) == [s[0]] + ReplaceAll(s[1..], pat, rep)
  {
    assert s[..|pat|] == t[0..|pat|];
  }
}
