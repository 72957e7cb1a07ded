/**
 * The Python `str` operations the note sanitiser relies on: `strip()` with no
 * argument, `startswith`, `find` and `rfind`, over strings of Unicode
 * characters (a Python `str` is a sequence of code points).
 */
module TextOps {

  /**
   * Python's `str.isspace()` for one character, the set `strip()` removes:
   * U+0009..U+000D, U+001C..U+001F, U+0020, U+0085, U+00A0, U+1680,
   * U+2000..U+200A, U+2028, U+2029, U+202F, U+205F and U+3000.
   */
  predicate IsSpace(c: char) {
    || ('\t' <= c <= '\r')
    || ('\U{1C}' <= c <= '\U{1F}')
    || c == ' '
    || c == '\U{85}'
    || c == '\U{A0}'
    || c == '\U{1680}'
    || ('\U{2000}' <= c <= '\U{200A}')
    || c == '\U{2028}'
    || c == '\U{2029}'
    || c == '\U{202F}'
    || c == '\U{205F}'
    || c == '\U{3000}'
  }

  /** Every character of `s` is whitespace. */
  predicate AllSpace(s: string) {
    forall k :: 0 <= k < |s| ==> IsSpace(s[k])
  }

  /** `s` neither begins nor ends with whitespace: what `strip()` returns. */
  predicate Stripped(s: string) {
    s == [] || (!IsSpace(s[0]) && !IsSpace(s[|s| - 1]))
  }

  /** `r` is a contiguous piece of `s`, as a Python slice `s[i:j]` is. */
  ghost predicate IsSlice(r: string, s: string) {
    exists i, j :: 0 <= i <= j <= |s| && r == s[i..j]
  }

  lemma SliceOfSlice(r: string, s: string, t: string)
    requires IsSlice(r, s) && IsSlice(s, t)
    ensures IsSlice(r, t)
  {
    var i, j :| 0 <= i <= j <= |s| && r == s[i..j];
    var i', j' :| 0 <= i' <= j' <= |t| && s == t[i'..j'];
    assert |s| == j' - i';
    assert forall k :: 0 <= k < j - i ==> r[k] == s[i + k] == t[i' + i + k];
    assert 0 <= i' + i <= i' + j <= |t| && r == t[i' + i..i' + j];
  }

  /** A slice is never longer than the string it comes from. */
  lemma SliceShorter(r: string, s: string)
    requires IsSlice(r, s)
    ensures |r| <= |s|
  {
    var i, j :| 0 <= i <= j <= |s| && r == s[i..j];
  }

  /** The number of whitespace characters `s` begins with. */
  function LeadingSpaces(s: string): (n: nat)
    ensures n <= |s|
    ensures AllSpace(s[..n])
    ensures n < |s| ==> !IsSpace(s[n])
  {
    if s == [] || !IsSpace(s[0]) then 0
    else
      var m := LeadingSpaces(s[1..]);
      assert s[..1 + m] == [s[0]] + s[1..][..m];
      1 + m
  }

  /** The number of whitespace characters `s` ends with. */
  function TrailingSpaces(s: string): (n: nat)
    ensures n <= |s|
    ensures AllSpace(s[|s| - n..])
    ensures n < |s| ==> !IsSpace(s[|s| - 1 - n])
  {
    if s == [] || !IsSpace(s[|s| - 1]) then 0
    else
      var t := s[..|s| - 1];
      var m := TrailingSpaces(t);
      assert s[|s| - (1 + m)..] == t[|t| - m..] + [s[|s| - 1]];
      1 + m
  }

  /** Python's `s.strip()`: `s` without its leading and trailing whitespace. */
  function Strip(s: string): (r: string)
    ensures IsSlice(r, s)
    ensures Stripped(r)
    ensures r == [] <==> AllSpace(s)
  {
    var lo := LeadingSpaces(s);
    var t := s[lo..];
    var n := TrailingSpaces(t);
    assert lo < |s| ==> n < |t|;
    assert s[lo..|s| - n] == t[..|t| - n];
    assert lo == |s| ==> s == s[..lo];
    assert lo < |s| ==> !AllSpace(s) by {
      if lo < |s| { assert !IsSpace(s[lo]); }
    }
    s[lo..|s| - n]
  }

  /** `strip()` removes exactly surrounding whitespace: padding a stripped string with whitespace strips back to it. */
  lemma StripPadded(a: string, m: string, b: string)
    requires AllSpace(a) && AllSpace(b) && Stripped(m)
    ensures Strip(a + m + b) == m
  {
    var s := a + m + b;
    if m == [] {
      assert AllSpace(s) by {
        forall k | 0 <= k < |s| ensures IsSpace(s[k]) {
          if k < |a| { assert s[k] == a[k]; } else { assert s[k] == b[k - |a|]; }
        }
      }
    } else {
      var lo := LeadingSpaces(s);
      assert s[|a|] == m[0];
      assert lo == |a|;
      var t := s[lo..];
      assert t == m + b;
      var n := TrailingSpaces(t);
      assert t[|t| - 1 - |b|] == m[|m| - 1];
      assert n == |b|;
      assert s[lo..|s| - n] == m;
    }
  }

  /** A string that is already stripped is left as it is. */
  lemma StripStripped(s: string)
    requires Stripped(s)
    ensures Strip(s) == s
  {
    assert [] + s + [] == s;
    StripPadded([], s, []);
  }

  /** Python's `s.startswith(p)`. */
  predicate StartsWith(s: string, p: string) {
    |p| <= |s| && s[..|p|] == p
  }

  /** `pat` occurs in `s` starting at index `i`. */
  predicate OccursAt(s: string, pat: string, i: int) {
    0 <= i && i + |pat| <= |s| && s[i..i + |pat|] == pat
  }

  /** The lowest index at or after `from` where `pat` occurs, or -1. */
  function FindFrom(s: string, pat: string, from: nat): (r: int)
    decreases |s| - from
    ensures r == -1 || (from <= r && OccursAt(s, pat, r))
    ensures forall i :: from <= i && (r == -1 || i < r) ==> !OccursAt(s, pat, i)
  {
    if from + |pat| > |s| then -1
    else if s[from..from + |pat|] == pat then from
    else FindFrom(s, pat, from + 1)
  }

  /** Python's `s.find(pat)`: the lowest index where `pat` occurs, or -1 when it does not occur. */
  function Find(s: string, pat: string): (r: int)
    ensures r == -1 || OccursAt(s, pat, r)
    ensures r == -1 ==> forall i :: !OccursAt(s, pat, i)
    ensures forall i :: 0 <= i < r ==> !OccursAt(s, pat, i)
  {
    FindFrom(s, pat, 0)
  }

  /** The highest index at or below `hi` where `pat` occurs, or -1. */
  function RFindAtOrBelow(s: string, pat: string, hi: int): (r: int)
    requires hi + |pat| <= |s|
    decreases hi + 1
    ensures r == -1 || (r <= hi && OccursAt(s, pat, r))
    ensures forall i :: r < i <= hi ==> !OccursAt(s, pat, i)
  {
    if hi < 0 then -1
    else if s[hi..hi + |pat|] == pat then hi
    else RFindAtOrBelow(s, pat, hi - 1)
  }

  /** Python's `s.rfind(pat)`: the highest index where `pat` occurs, or -1 when it does not occur. */
  function RFind(s: string, pat: string): (r: int)
    ensures r == -1 || OccursAt(s, pat, r)
    ensures forall i :: r < i ==> !OccursAt(s, pat, i)
  {
    RFindAtOrBelow(s, pat, |s| - |pat|)
  }

  /** A string that starts with `p` finds `p` at index 0. */
  lemma FindPrefix(s: string, p: string)
    requires StartsWith(s, p)
    ensures Find(s, p) == 0
  {
    assert OccursAt(s, p, 0);
  }

  /** An occurrence of a one-character pattern is an occurrence of that character. */
  lemma OccursAtChar(s: string, c: char, i: int)
    ensures OccursAt(s, [c], i) <==> 0 <= i < |s| && s[i] == c
  {
    if 0 <= i < |s| {
      assert s[i..i + 1] == [s[i]];
    }
  }

  /** Finding a single character: the index of its first occurrence, or -1 when it is absent. */
  lemma FindChar(s: string, c: char)
    ensures Find(s, [c]) == -1 <==> c !in s
    ensures Find(s, [c]) != -1 ==> 0 <= Find(s, [c]) < |s| && s[Find(s, [c])] == c
    ensures forall k :: 0 <= k < Find(s, [c]) ==> s[k] != c
  {
    var r := Find(s, [c]);
    OccursAtChar(s, c, r);
    forall k | 0 <= k < |s| && s[k] == c ensures r != -1 && r <= k {
      OccursAtChar(s, c, k);
    }
    forall k | 0 <= k < r ensures s[k] != c {
      OccursAtChar(s, c, k);
    }
  }
}
