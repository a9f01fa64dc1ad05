/**
  The five QByteArray operations the frame synchroniser relies on
  (indexOf, lastIndexOf, mid, left, remove), as value functions over
  sequences. Their bodies follow Qt 5's clamping rules for out-of-range
  positions and lengths; their contracts state the documented result in
  terms of slices, which is what the callers reason with.
*/
module ByteArray {

  /** `pat` occurs in `s` starting at position `i`. */
  predicate OccursAt<T(==)>(s: seq<T>, pat: seq<T>, i: int)
  {
    0 <= i && i + |pat| <= |s| && s[i..i + |pat|] == pat
  }

  /** QByteArray::indexOf(pat, from): the first occurrence at or after `from`, or -1. */
  function IndexOfFrom<T(==)>(s: seq<T>, pat: seq<T>, from: nat): (r: int)
    ensures r == -1 || (from <= r && OccursAt(s, pat, r))
    ensures forall j :: from <= j && (r == -1 || j < r) ==> !OccursAt(s, pat, j)
    decreases |s| - from
  {
    if from + |pat| > |s| then -1
    else if s[from..from + |pat|] == pat then from
    else IndexOfFrom(s, pat, from + 1)
  }

  /** QByteArray::indexOf(pat): the first occurrence, or -1 when there is none. */
  function IndexOf<T(==)>(s: seq<T>, pat: seq<T>): (r: int)
    ensures -1 <= r <= |s|
    ensures r >= 0 ==> OccursAt(s, pat, r)
    ensures forall j :: 0 <= j && (r == -1 || j < r) ==> !OccursAt(s, pat, j)
  {
    IndexOfFrom(s, pat, 0)
  }

  /** QByteArray::lastIndexOf(c): the last position holding `c`, or -1. */
  function LastIndexOf<T(==)>(s: seq<T>, c: T): (r: int)
    ensures -1 <= r < |s|
    ensures r >= 0 ==> s[r] == c
    ensures forall j :: r < j < |s| ==> s[j] != c
  {
    if |s| == 0 then -1
    else if s[|s| - 1] == c then |s| - 1
    else LastIndexOf(s[..|s| - 1], c)
  }

  /**
    QByteArray::mid(pos, len), with len == -1 meaning "to the end".
    Qt clamps: a position past the end gives an empty array; a negative
    position with a negative length gives the whole array.
  */
  function Mid<T>(s: seq<T>, pos: int, len: int): (r: seq<T>)
    ensures 0 <= pos <= |s| && len < 0 ==> r == s[pos..]
    ensures 0 <= pos && 0 <= len && pos + len <= |s| ==> r == s[pos..pos + len]
    ensures pos < 0 && len < 0 ==> r == s
    ensures |r| <= |s|
  {
    if pos > |s| then []
    else if pos < 0 then
      if len < 0 || len + pos >= |s| then s
      else if len + pos <= 0 then []
      else s[..len + pos]
    else if len < 0 || len > |s| - pos then s[pos..]
    else s[pos..pos + len]
  }

  /** QByteArray::left(n): the first n bytes, the whole array when n is too large. */
  function Left<T>(s: seq<T>, n: int): (r: seq<T>)
    ensures 0 <= n <= |s| ==> r == s[..n]
    ensures n >= |s| ==> r == s
  {
    if n >= |s| then s
    else if n < 0 then []
    else s[..n]
  }

  /**
    QByteArray::remove(pos, n): drops n bytes starting at pos; nothing happens
    when n is not positive or pos is outside the array.
  */
  function Remove<T>(s: seq<T>, pos: int, n: int): (r: seq<T>)
    ensures 0 <= pos <= |s| && 0 <= n ==>
              r == s[..pos] + s[if pos + n <= |s| then pos + n else |s|..]
    ensures pos < 0 || n <= 0 ==> r == s
    ensures pos == 0 && 0 <= n <= |s| ==> r == s[n..]
  {
    if n <= 0 || pos < 0 || pos >= |s| then s
    else if n >= |s| - pos then s[..pos]
    else s[..pos] + s[pos + n..]
  }

  /** An occurrence in a suffix is an occurrence in the whole, shifted by where the suffix starts. */
  lemma OccursInSuffix<T>(s: seq<T>, d: nat, pat: seq<T>, i: int)
    requires d <= |s| && OccursAt(s[d..], pat, i)
    ensures OccursAt(s, pat, d + i)
  {
    assert s[d + i..d + i + |pat|] == s[d..][i..i + |pat|];
  }
}
