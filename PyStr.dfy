/**
 * The three Python `str` operations the changelog script relies on:
 * `str.find`, the slice `s[:stop]` and `str.strip()` with no argument.
 * Each is given as a function together with the property that pins it down.
 */
module PyStr {

  const VerticalTab: char := 0x0B as char
  const FormFeed: char := 0x0C as char

  /** The whitespace `str.strip()` removes, restricted to the ASCII set. */
  predicate IsSpace(c: char) {
    c == ' ' || c == '\t' || c == '\n' || c == '\r' || c == VerticalTab || c == FormFeed
  }

  /** `pat` occurs in `s` starting at index `i`. */
  predicate Occurs(s: string, pat: string, i: int) {
    0 <= i && i + |pat| <= |s| && s[i..i + |pat|] == pat
  }

  // ---------------------------------------------------------------------------
  // str.find

  /** The least index at or after `from` where `pat` occurs, or -1. */
  function FindFrom(s: string, pat: string, from: nat): (r: int)
    requires from <= |s|
    ensures r == -1 || (from <= r && Occurs(s, pat, r))
    ensures r == -1 ==> forall j :: from <= j ==> !Occurs(s, pat, j)
    ensures 0 <= r ==> forall j :: from <= j < r ==> !Occurs(s, pat, j)
    decreases |s| - from
  {
    if from + |pat| > |s| then -1
    else if s[from..from + |pat|] == pat then from
    else FindFrom(s, pat, from + 1)
  }

  /** Python `s.find(pat)`: the first index where `pat` occurs, -1 when it occurs nowhere. */
  function Find(s: string, pat: string): (r: int)
    ensures r == -1 || Occurs(s, pat, r)
    ensures 0 <= r ==> forall j :: 0 <= j < r ==> !Occurs(s, pat, j)
    ensures r == -1 <==> forall j :: !Occurs(s, pat, j)
  {
    FindFrom(s, pat, 0)
  }

  /** Each character of an occurrence agrees with the pattern. */
  lemma OccursCharAt(s: string, pat: string, i: int, k: int)
    requires Occurs(s, pat, i) && 0 <= k < |pat|
    ensures s[i + k] == pat[k]
  {
    assert s[i..i + |pat|][k] == s[i + k];
  }

  /** An occurrence inside the piece `s[lo..lo + |piece|]` is an occurrence in `s`. */
  lemma OccursInPiece(s: string, piece: string, lo: int, pat: string, j: int)
    requires 0 <= lo && lo + |piece| <= |s| && s[lo..lo + |piece|] == piece
    requires Occurs(piece, pat, j)
    ensures Occurs(s, pat, lo + j)
  {
    forall k | 0 <= k < |pat|
      ensures s[lo + j..lo + j + |pat|][k] == pat[k]
    {
      OccursCharAt(piece, pat, j, k);
      assert s[lo..lo + |piece|][j + k] == s[lo + j + k];
    }
  }

  /** Any occurrence with no earlier occurrence is the one `Find` reports. */
  lemma FindIsFirstOccurrence(s: string, pat: string, p: int)
    requires Occurs(s, pat, p)
    requires forall j :: 0 <= j < p ==> !Occurs(s, pat, j)
    ensures Find(s, pat) == p
  {
  }

  // ---------------------------------------------------------------------------
  // s[:stop]

  /**
   * Python `s[:stop]`: a negative `stop` counts from the end of `s`, and the
   * resulting bound is clamped into 0..|s|.
   */
  function PySliceTo(s: string, stop: int): (r: string)
    ensures |r| <= |s| && r == s[..|r|]
    ensures 0 <= stop <= |s| ==> r == s[..stop]
    ensures |s| < stop ==> r == s
    ensures -|s| <= stop < 0 ==> r == s[..|s| + stop]
    ensures stop < -|s| ==> r == []
  {
    var end :=
      if stop < 0 then (if |s| + stop < 0 then 0 else |s| + stop)
      else if stop > |s| then |s|
      else stop;
    s[..end]
  }

  /** A negative bound selects the same prefix as its non-negative counterpart. */
  lemma NegativeStopCountsFromEnd(s: string, stop: int)
    requires 0 <= stop < |s|
    ensures PySliceTo(s, stop - |s|) == PySliceTo(s, stop)
  {
  }

  /** A slice of the prefix `s[..n]` is the same slice of `s`. */
  lemma SliceOfPrefix(s: string, n: int, a: int, b: int)
    requires 0 <= a <= b <= n <= |s|
    ensures s[..n][a..b] == s[a..b]
  {
  }

  // ---------------------------------------------------------------------------
  // str.strip()

  /** `r` starts and ends with a non-whitespace character, or is empty. */
  predicate NoOuterSpace(r: string) {
    r == [] || (!IsSpace(r[0]) && !IsSpace(r[|r| - 1]))
  }

  /**
   * `r` is what remains of `s` when its leading and trailing whitespace is
   * removed: `r` sits at offset `lo` in `s`, only whitespace lies around it,
   * and `r` itself has no whitespace at either end.
   */
  ghost predicate IsStripOf(s: string, r: string, lo: int) {
    0 <= lo && lo + |r| <= |s| && s[lo..lo + |r|] == r
    && (forall k :: 0 <= k < lo ==> IsSpace(s[k]))
    && (forall k :: lo + |r| <= k < |s| ==> IsSpace(s[k]))
    && NoOuterSpace(r)
  }

  /** The number of leading whitespace characters of `s`. */
  function LeadingSpace(s: string): (n: nat)
    ensures n <= |s|
    ensures forall k :: 0 <= k < n ==> IsSpace(s[k])
    ensures n < |s| ==> !IsSpace(s[n])
  {
    if |s| > 0 && IsSpace(s[0]) then
      var n := 1 + LeadingSpace(s[1..]);
      assert forall k :: 1 <= k < n ==> s[k] == s[1..][k - 1];
      n
    else 0
  }

  /** The length of `s` once its trailing whitespace is removed. */
  function TrailingEnd(s: string): (n: nat)
    ensures n <= |s|
    ensures forall k :: n <= k < |s| ==> IsSpace(s[k])
    ensures 0 < n ==> !IsSpace(s[n - 1])
  {
    if |s| > 0 && IsSpace(s[|s| - 1]) then
      var n := TrailingEnd(s[..|s| - 1]);
      assert forall k :: 0 <= k < |s| - 1 ==> s[k] == s[..|s| - 1][k];
      n
    else |s|
  }

  /** Python `s.strip()`. */
  function Strip(s: string): (r: string)
    ensures exists lo :: IsStripOf(s, r, lo)
  {
    var lo := LeadingSpace(s);
    var hi := TrailingEnd(s);
    if hi <= lo then
      assert IsStripOf(s, [], lo);
      []
    else
      assert IsStripOf(s, s[lo..hi], lo);
      s[lo..hi]
  }

  /** Appending a whitespace character keeps a stripping result valid. */
  lemma StripOfAppendSpace(d: string, x: char, r: string, lo: int)
    requires IsStripOf(d, r, lo) && IsSpace(x)
    ensures IsStripOf(d + [x], r, lo)
  {
    var c := d + [x];
    assert c[lo..lo + |r|] == d[lo..lo + |r|];
  }

  /** There is only one way to strip a string: `IsStripOf` determines its result. */
  lemma StripIsUnique(s: string, r1: string, lo1: int, r2: string, lo2: int)
    requires IsStripOf(s, r1, lo1) && IsStripOf(s, r2, lo2)
    ensures r1 == r2
  {
    if r1 != [] && r2 != [] {
      assert s[lo1] == r1[0] && s[lo2] == r2[0];
      assert lo1 == lo2;
      var e1, e2 := lo1 + |r1|, lo2 + |r2|;
      assert s[e1 - 1] == r1[|r1| - 1] && s[e2 - 1] == r2[|r2| - 1];
      assert e1 == e2;
    } else if r1 != [] {
      assert false;
    } else if r2 != [] {
      assert false;
    }
  }

  /** A string with no whitespace at either end is left unchanged by `Strip`. */
  lemma StripKeepsTrimmed(r: string)
    requires NoOuterSpace(r)
    ensures Strip(r) == r
  {
    assert IsStripOf(r, r, 0);
    var lo :| IsStripOf(r, Strip(r), lo);
    StripIsUnique(r, r, 0, Strip(r), lo);
  }

  /** Stripping twice is the same as stripping once. */
  lemma StripIdempotent(s: string)
    ensures Strip(Strip(s)) == Strip(s)
  {
    StripKeepsTrimmed(Strip(s));
  }
}
