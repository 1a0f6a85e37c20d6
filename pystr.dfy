/**
 * The two pieces of Python string semantics the decoder relies on:
 * `str.startswith` and slicing `s[i:j]` with negative and out-of-range bounds.
 */
module PyStr {

  /** Python's `s.startswith(prefix)`. */
  predicate StartsWith<T(==)>(s: seq<T>, prefix: seq<T>)
  {
    |prefix| <= |s| && s[..|prefix|] == prefix
  }

  /**
   * How Python normalises one slice bound against a length n:
   * a negative bound counts from the end, then the bound is clamped to [0, n].
   */
  function SliceBound(k: int, n: nat): (c: nat)
    ensures c <= n
    ensures 0 <= k <= n ==> c == k
    ensures k < 0 && 0 <= n + k ==> c == n + k
    ensures k < 0 && n + k < 0 ==> c == 0
    ensures k > n ==> c == n
  {
    if k < 0 then (if n + k < 0 then 0 else n + k)
    else if k > n then n
    else k
  }

  /** Python's `s[i:j]` (step 1): empty when the normalised start is not below the normalised end. */
  function PySlice<T>(s: seq<T>, i: int, j: int): (r: seq<T>)
    ensures |r| <= |s|
  {
    var lo, hi := SliceBound(i, |s|), SliceBound(j, |s|);
    if lo < hi then s[lo..hi] else []
  }

  /** Python's `s[i:]`. */
  function PySliceFrom<T>(s: seq<T>, i: int): (r: seq<T>)
    ensures |r| <= |s|
  {
    PySlice(s, i, |s|)
  }

  /** Within bounds, a Python slice is the ordinary subsequence. */
  lemma PySliceInRange<T>(s: seq<T>, i: int, j: int)
    requires 0 <= i <= j <= |s|
    ensures PySlice(s, i, j) == s[i..j]
  {
  }

  /** A negative end `-k` stops k elements before the end, or gives nothing if that is not past the start. */
  lemma PySliceNegativeEnd<T>(s: seq<T>, i: int, k: int)
    requires 0 <= i <= |s| && 0 < k
    ensures i + k <= |s| ==> PySlice(s, i, -k) == s[i..|s| - k]
    ensures |s| - k <= i ==> PySlice(s, i, -k) == []
  {
  }

  /** The length of any slice: the distance between the normalised bounds, or zero. */
  lemma PySliceLength<T>(s: seq<T>, i: int, j: int)
    ensures |PySlice(s, i, j)| == if SliceBound(i, |s|) < SliceBound(j, |s|) then SliceBound(j, |s|) - SliceBound(i, |s|) else 0
  {
  }
}
