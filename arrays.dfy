// Frame vocabulary shared by the in-place algorithms: iterators are indices,
// and two iterator ranges of one container are index ranges of one array.

module Arrays {
  import opened Order

  /** The index ranges [lo1, hi1) and [lo2, hi2) share no position. */
  predicate Disjoint(lo1: int, hi1: int, lo2: int, hi2: int) {
    hi1 <= lo2 || hi2 <= lo1
  }

  /** `a` kept every cell outside [lo, hi) since the pre-state. */
  twostate predicate UnchangedOutside(a: array<Elem>, lo: int, hi: int)
    reads a
  {
    forall i :: 0 <= i < a.Length && !(lo <= i < hi) ==> a[i] == old(a[i])
  }

  /** Scaling keeps the order of two numbers. */
  lemma MulLe(a: int, b: int, m: int)
    requires a <= b && 0 <= m
    ensures a * m <= b * m
  {
  }

  /** The quotient of `a` by `m`, scaled back, is the largest multiple of `m` not above `a`. */
  lemma DivMul(a: int, m: int)
    requires 0 < m
    ensures a / m * m <= a < a / m * m + m
  {
  }

  /** Cutting a slice at `mid` splits it into two adjacent slices. */
  lemma SliceSplit(s: seq<Elem>, lo: int, mid: int, hi: int)
    requires 0 <= lo <= mid <= hi <= |s|
    ensures s[lo..hi] == s[lo..mid] + s[mid..hi]
  {
  }

  /** Two adjacent slices with known contents make up the slice they span. */
  lemma Glue(s: seq<Elem>, lo: int, mid: int, hi: int, u: seq<Elem>, v: seq<Elem>)
    requires 0 <= lo <= mid <= hi <= |s|
    requires s[lo..mid] == u && s[mid..hi] == v
    ensures s[lo..hi] == u + v
  {
    assert s[lo..hi] == s[lo..mid] + s[mid..hi];
  }

  /**
   * A slice cut at `mid`, followed by a second slice: the part before the
   * cut can be taken out in front.
   */
  lemma GlueFront(s: seq<Elem>, lo: int, mid: int, hi: int, lo2: int, hi2: int,
                  u: seq<Elem>, m: seq<Elem>)
    requires 0 <= lo <= mid <= hi <= |s| && 0 <= lo2 <= hi2 <= |s|
    requires s[lo..mid] == u && s[mid..hi] + s[lo2..hi2] == m
    ensures s[lo..hi] + s[lo2..hi2] == u + m
  {
    assert s[lo..hi] == s[lo..mid] + s[mid..hi];
  }

  /** The suffix from `i` of the slice [lo, hi) is the slice [i, hi). */
  lemma SliceSuffix(s: seq<Elem>, lo: int, i: int, hi: int)
    requires 0 <= lo <= i <= hi <= |s|
    ensures s[lo..hi][i - lo..] == s[i..hi]
  {
  }

  /** Cells equal one by one make equal slices. */
  lemma SliceFromCells(s: seq<Elem>, lo: int, hi: int, t: seq<Elem>)
    requires 0 <= lo <= hi <= |s| && |t| == hi - lo
    requires forall j :: lo <= j < hi ==> s[j] == t[j - lo]
    ensures s[lo..hi] == t
  {
  }

  /**
   * A slice that misses the written range [wlo, whi) is the same in two
   * states that differ only inside that range.
   */
  lemma KeptSlice(s: seq<Elem>, t: seq<Elem>, lo: int, hi: int, wlo: int, whi: int)
    requires |s| == |t| && 0 <= lo <= hi <= |s|
    requires forall i :: 0 <= i < |s| && !(wlo <= i < whi) ==> s[i] == t[i]
    requires hi <= wlo || whi <= lo
    ensures s[lo..hi] == t[lo..hi]
  {
  }

  /** `a` kept every cell outside the two ranges [lo1, hi1) and [lo2, hi2). */
  twostate predicate UnchangedOutside2(a: array<Elem>, lo1: int, hi1: int, lo2: int, hi2: int)
    reads a
  {
    forall i :: 0 <= i < a.Length && !(lo1 <= i < hi1) && !(lo2 <= i < hi2) ==> a[i] == old(a[i])
  }

  /** A slice that misses both written ranges is the same in both states. */
  lemma KeptSlice2(s: seq<Elem>, t: seq<Elem>, lo: int, hi: int,
                   wlo1: int, whi1: int, wlo2: int, whi2: int)
    requires |s| == |t| && 0 <= lo <= hi <= |s|
    requires forall i :: 0 <= i < |s| && !(wlo1 <= i < whi1) && !(wlo2 <= i < whi2) ==> s[i] == t[i]
    requires hi <= wlo1 || whi1 <= lo
    requires hi <= wlo2 || whi2 <= lo
    ensures s[lo..hi] == t[lo..hi]
  {
  }
}
