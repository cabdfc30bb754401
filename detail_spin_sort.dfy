/**
 * The spin sort of detail/spin_sort.hpp: a stable merge sort that needs a
 * buffer of half the data. `range_sort` sorts between two ranges of equal
 * size, halving and recursing with the roles of the two ranges swapped at
 * each level, so that the parity of the level decides which range holds
 * the data to sort; the results are always merged into the second range.
 * The `spin_sort` object checks, allocates, and runs `range_sort` on the
 * two halves of the data before a final `half_merge`.
 *
 * Iterators are indices; ranges are `DetailRange.Range` values naming no
 * array, so each operation takes the arrays its ranges point into.
 * `range_sort` is instantiated on two distinct arrays (data and buffer) and
 * on two disjoint ranges of the data array; these are `RangeSort` and
 * `RangeSortWithin`.
 */
module DetailSpinSort {
  import opened Order
  import opened Arrays
  import opened DetailRange
  import InsertionSort
  import LowLevel
  import opened SortSupport
  import opened BitCount
  import opened Halves

  /** `Sort_min`: the size below which the halves go to the insertion sort. */
  const SortMin := 36

  /**
   * Which range holds the data `range_sort` sorts at `level`: the first at
   * odd levels and at the leaves (levels 0 and 1), the second at even levels
   * of 2 and more.
   */
  predicate DataInFirst(level: nat) {
    level < 2 || level % 2 == 1
  }

  /**
   * The data `range_sort` sorts at `level`, read from whichever of the two
   * ranges holds it, given the contents `xs` and `ys` of their arrays.
   */
  ghost function Data(xs: seq<Elem>, ra: Range, ys: seq<Elem>, rb: Range, level: nat): seq<Elem>
    requires ra.In(|xs|) && rb.In(|ys|)
  {
    if DataInFirst(level) then xs[ra.first..ra.last] else ys[rb.first..rb.last]
  }

  /** The data of a pair of ranges is the data of their front halves followed by that of their rear halves. */
  lemma DataSplit(xs: seq<Elem>, ra: Range, ys: seq<Elem>, rb: Range, level: nat)
    requires ra.In(|xs|) && rb.In(|ys|) && ra.Size() == rb.Size()
    ensures Data(xs, ra, ys, rb, level) ==
      Data(xs, Front(ra), ys, Front(rb), level) + Data(xs, Rear(ra), ys, Rear(rb), level)
  {
    SliceSplit(xs, ra.first, Front(ra).last, ra.last);
    SliceSplit(ys, rb.first, Front(rb).last, rb.last);
  }

  /**
   * Above level 1, each level hands its data one level down with the two
   * ranges swapped: the data stays where it is.
   */
  lemma LevelParity(xs: seq<Elem>, ra: Range, ys: seq<Elem>, rb: Range, level: nat)
    requires ra.In(|xs|) && rb.In(|ys|) && level >= 2
    ensures Data(ys, rb, xs, ra, level - 1) == Data(xs, ra, ys, rb, level)
  {
  }

  /**
   * `range_sort(rng_a, rng_b, comp, level)` with `rng_a` in `x` and `rng_b`
   * in another array `y`, both of `n` elements: `rng_b` ends up holding the
   * stable sort of the data, taken from `rng_a` when `DataInFirst(level)`
   * and from `rng_b` otherwise. Nothing outside the two ranges changes.
   */
  method RangeSort(x: array<Elem>, ra: Range, y: array<Elem>, rb: Range, level: nat)
    requires x != y && ra.In(x.Length) && rb.In(y.Length) && ra.Size() == rb.Size()
    modifies x, y
    ensures y[rb.first..rb.last] == StableSort(Data(old(x[..]), ra, old(y[..]), rb, level))
    ensures UnchangedOutside(x, ra.first, ra.last) && UnchangedOutside(y, rb.first, rb.last)
    decreases level, 2
  {
    ghost var xs, ys := x[..], y[..];
    ghost var d1, d2 := Data(xs, Front(ra), ys, Front(rb), level), Data(xs, Rear(ra), ys, Rear(rb), level);
    DataSplit(xs, ra, ys, rb, level);
    SortHalves(x, ra, y, rb, level);
    var a1, a2 := Front(ra), Rear(ra);
    assert Contents(x, a1) == StableSort(d1) && Contents(x, a2) == StableSort(d2);
    assert a1.Size() + a2.Size() == rb.Size();
    var r := FullMerge(y, rb, x, a1, a2);
    assert r == rb;
    MergeStableSorts(d1, d2);
    assert y[rb.first..rb.last] == Contents(y, r) == StableSort(d1 + d2);
  }

  /**
   * The two halves of `range_sort`: `rng_a`'s halves end up holding the
   * stable sorts of the data's halves, by insertion sort at levels 0 and 1
   * and by recursion into the other range's halves above.
   */
  method SortHalves(x: array<Elem>, ra: Range, y: array<Elem>, rb: Range, level: nat)
    requires x != y && ra.In(x.Length) && rb.In(y.Length) && ra.Size() == rb.Size()
    modifies x, y
    ensures x[ra.first..Front(ra).last] == StableSort(Data(old(x[..]), Front(ra), old(y[..]), Front(rb), level))
    ensures x[Rear(ra).first..ra.last] == StableSort(Data(old(x[..]), Rear(ra), old(y[..]), Rear(rb), level))
    ensures UnchangedOutside(x, ra.first, ra.last) && UnchangedOutside(y, rb.first, rb.last)
    decreases level, 1
  {
    if level < 2 {
      SortLeaves(x, ra);
    } else {
      SortDeeper(x, ra, y, rb, level);
    }
  }

  /**
   * Levels 2 and above of `range_sort`: each half is sorted one level down
   * with the ranges swapped, so that its result lands in `rng_a`'s half.
   */
  method SortDeeper(x: array<Elem>, ra: Range, y: array<Elem>, rb: Range, level: nat)
    requires x != y && ra.In(x.Length) && rb.In(y.Length) && ra.Size() == rb.Size() && level >= 2
    modifies x, y
    ensures x[ra.first..Front(ra).last] == StableSort(Data(old(x[..]), Front(ra), old(y[..]), Front(rb), level))
    ensures x[Rear(ra).first..ra.last] == StableSort(Data(old(x[..]), Rear(ra), old(y[..]), Rear(rb), level))
    ensures UnchangedOutside(x, ra.first, ra.last) && UnchangedOutside(y, rb.first, rb.last)
    decreases level, 0
  {
    var a1, a2, b1, b2 := Front(ra), Rear(ra), Front(rb), Rear(rb);
    ghost var xs, ys := x[..], y[..];
    LevelParity(xs, a1, ys, b1, level);
    LevelParity(xs, a2, ys, b2, level);
    RangeSort(y, b1, x, a1, level - 1);
    ghost var x1, y1 := x[..], y[..];
    KeptSlice(y1, ys, b2.first, b2.last, b1.first, b1.last);
    KeptSlice(x1, xs, a2.first, a2.last, a1.first, a1.last);
    assert Data(y1, b2, x1, a2, level - 1) == Data(ys, b2, xs, a2, level - 1);
    RangeSort(y, b2, x, a2, level - 1);
    KeptSlice(x[..], x1, a1.first, a1.last, a2.first, a2.last);
  }

  /**
   * `range_sort(rng_a, rng_b, comp, level)` with both ranges in the one
   * array `a`, disjoint and of equal size: `rng_b` ends up holding the
   * stable sort of the data, as in `RangeSort`, and nothing outside the two
   * ranges changes.
   */
  method RangeSortWithin(a: array<Elem>, ra: Range, rb: Range, level: nat)
    requires ra.In(a.Length) && rb.In(a.Length) && ra.Size() == rb.Size()
    requires Disjoint(ra.first, ra.last, rb.first, rb.last)
    modifies a
    ensures a[rb.first..rb.last] == StableSort(Data(old(a[..]), ra, old(a[..]), rb, level))
    ensures KeptOutside(a[..], old(a[..]), ra, rb)
    decreases level, 2
  {
    ghost var s := a[..];
    ghost var d1, d2 := Data(s, Front(ra), s, Front(rb), level), Data(s, Rear(ra), s, Rear(rb), level);
    DataSplit(s, ra, s, rb, level);
    SortHalvesWithin(a, ra, rb, level);
    ghost var s1 := a[..];
    MergeHalvesWithin(a, ra, rb, d1, d2);
    KeptTrans(a[..], s1, s, ra, rb);
  }

  /** The two halves of `range_sort` within one array, as `SortHalves`. */
  method SortHalvesWithin(a: array<Elem>, ra: Range, rb: Range, level: nat)
    requires ra.In(a.Length) && rb.In(a.Length) && ra.Size() == rb.Size()
    requires Disjoint(ra.first, ra.last, rb.first, rb.last)
    modifies a
    ensures a[ra.first..Front(ra).last] == StableSort(Data(old(a[..]), Front(ra), old(a[..]), Front(rb), level))
    ensures a[Rear(ra).first..ra.last] == StableSort(Data(old(a[..]), Rear(ra), old(a[..]), Rear(rb), level))
    ensures KeptOutside(a[..], old(a[..]), ra, rb)
    decreases level, 1
  {
    if level < 2 {
      SortLeaves(a, ra);
      assert KeptOutside(a[..], old(a[..]), ra, rb);
    } else {
      SortDeeperWithin(a, ra, rb, level);
    }
  }

  /** Levels 2 and above of `range_sort` within one array, as `SortDeeper`. */
  method SortDeeperWithin(a: array<Elem>, ra: Range, rb: Range, level: nat)
    requires ra.In(a.Length) && rb.In(a.Length) && ra.Size() == rb.Size() && level >= 2
    requires Disjoint(ra.first, ra.last, rb.first, rb.last)
    modifies a
    ensures a[ra.first..Front(ra).last] == StableSort(Data(old(a[..]), Front(ra), old(a[..]), Front(rb), level))
    ensures a[Rear(ra).first..ra.last] == StableSort(Data(old(a[..]), Rear(ra), old(a[..]), Rear(rb), level))
    ensures KeptOutside(a[..], old(a[..]), ra, rb)
    decreases level, 0
  {
    var a1, a2, b1, b2 := Front(ra), Rear(ra), Front(rb), Rear(rb);
    ghost var s := a[..];
    LevelParity(s, a1, s, b1, level);
    LevelParity(s, a2, s, b2, level);
    RangeSortWithin(a, b1, a1, level - 1);
    ghost var s1 := a[..];
    KeptRange(s1, s, b1, a1, b2);
    KeptRange(s1, s, b1, a1, a2);
    assert Data(s1, b2, s1, a2, level - 1) == Data(s, b2, s, a2, level - 1);
    RangeSortWithin(a, b2, a2, level - 1);
    KeptRange(a[..], s1, b2, a2, a1);
    KeptCompose(a[..], s1, s, ra, rb, a1, b1, a2, b2);
  }

  /**
   * The recursion depth `spin_sort` gives `range_sort` for `n` elements:
   * `nbits64(ceil(n / Sort_min) - 1) - 1`.
   */
  function SpinLevel(n: nat): int
    requires n > 2 * SortMin
  {
    BitLength((n + SortMin - 1) / SortMin - 1) - 1
  }

  /**
   * Above `2 * Sort_min` elements the level is at least 1, and it is the one
   * level with `Sort_min * 2^level < n <= Sort_min * 2^(level + 1)`: each
   * half `range_sort` splits off at its leaves has at most `Sort_min`
   * elements, and the level is no deeper than that needs.
   */
  lemma {:induction false} SpinLevelBounds(n: nat)
    requires n > 2 * SortMin
    ensures SpinLevel(n) >= 1
    ensures SortMin * Pow2(SpinLevel(n)) < n <= SortMin * Pow2(SpinLevel(n) + 1)
  {
    var q := (n + SortMin - 1) / SortMin - 1;
    assert q >= 2;
    var k := BitLength(q);
    assert Pow2(k - 1) <= q < Pow2(k);
    assert Pow2(k) == 2 * Pow2(k - 1);
  }

  /**
   * The odd-level process of `spin_sort` on [first, last) with the buffer
   * `buf`: the rear `ceil(n/2)` elements move to the buffer and are sorted
   * back into place, the front `floor(n/2)` are sorted into the buffer, and
   * `half_merge` joins the two. The window ends up as its stable sort;
   * only the first `ceil(n/2)` buffer cells are written.
   */
  method SortOdd(a: array<Elem>, first: int, last: int, buf: array<Elem>, nlevel: nat)
    requires a != buf && 0 <= first <= last <= a.Length && (last - first + 1) / 2 <= buf.Length
    requires nlevel % 2 == 1
    modifies a, buf
    ensures a[first..last] == StableSort(old(a[first..last]))
    ensures UnchangedOutside(a, first, last) && UnchangedOutside(buf, 0, (last - first + 1) / 2)
  {
    var nelem1 := (last - first + 1) / 2;
    var a1, a2 := Range(first, last - nelem1), Range(last - nelem1, last);
    ghost var s := a[..];
    ghost var d1, d2 := s[a1.first..a1.last], s[a2.first..a2.last];
    SliceSplit(s, first, a1.last, last);
    OddHalves(a, a1, a2, buf, nlevel);
    ghost var h1, h2 := buf[0..a1.Size()], a[a2.first..a2.last];
    assert h1 == StableSort(d1) && h2 == StableSort(d2);
    assert Contents(buf, Range(0, a1.Size())) == h1 && Contents(a, a2) == h2;
    var r := HalfMerge(a, Range(first, last), buf, Range(0, a1.Size()), a2);
    assert r.first == first && r.last == last;
    assert a[first..last] == Contents(a, r) == Merge(h1, h2);
    MergeStableSorts(d1, d2);
  }

  /**
   * The two `range_sort` calls of the odd-level process on the adjacent
   * halves `a1` (front) and `a2` (rear, no smaller): `a2` ends up sorted in
   * place and `a1` sorted at the start of the buffer, with `a1` left as
   * scratch.
   */
  method OddHalves(a: array<Elem>, a1: Range, a2: Range, buf: array<Elem>, nlevel: nat)
    requires a != buf && a1.In(a.Length) && a2.In(a.Length) && a1.last == a2.first
    requires a1.Size() <= a2.Size() <= buf.Length && nlevel % 2 == 1
    modifies a, buf
    ensures a[a2.first..a2.last] == StableSort(old(a[a2.first..a2.last]))
    ensures buf[0..a1.Size()] == StableSort(old(a[a1.first..a1.last]))
    ensures UnchangedOutside(a, a1.first, a2.last) && UnchangedOutside(buf, 0, a2.Size())
  {
    ghost var s := a[..];
    var rbuf := UninitMove(buf, Range(0, a2.Size()), a, a2);
    RangeSort(buf, rbuf, a, a2, nlevel);
    ghost var t := a[..];
    KeptSlice(t, s, a1.first, a1.last, a2.first, a2.last);
    assert a != buf && a1.In(a.Length) && Range(0, a1.Size()).In(buf.Length);
    RangeSort(a, a1, buf, Range(0, a1.Size()), nlevel);
    KeptSlice(a[..], t, a2.first, a2.last, a1.first, a1.last);
  }

  /**
   * The even-level process of `spin_sort`: the front `ceil(n/2)` elements
   * move to the buffer and are sorted there, using the front of the data as
   * scratch; the rear `floor(n/2)` are sorted in place, using the front
   * again; `half_merge` joins the two.
   */
  method SortEven(a: array<Elem>, first: int, last: int, buf: array<Elem>, nlevel: nat)
    requires a != buf && 0 <= first <= last <= a.Length && (last - first + 1) / 2 <= buf.Length
    requires nlevel >= 2 && nlevel % 2 == 0
    modifies a, buf
    ensures a[first..last] == StableSort(old(a[first..last]))
    ensures UnchangedOutside(a, first, last) && UnchangedOutside(buf, 0, (last - first + 1) / 2)
  {
    var nelem1 := (last - first + 1) / 2;
    var a1, a2 := Range(first, first + nelem1), Range(first + nelem1, last);
    ghost var s := a[..];
    ghost var d1, d2 := s[a1.first..a1.last], s[a2.first..a2.last];
    SliceSplit(s, first, a1.last, last);
    EvenHalves(a, a1, a2, buf, nlevel);
    ghost var h1, h2 := buf[0..nelem1], a[a2.first..a2.last];
    assert h1 == StableSort(d1) && h2 == StableSort(d2);
    assert Contents(buf, Range(0, nelem1)) == h1 && Contents(a, a2) == h2;
    var r := HalfMerge(a, Range(first, last), buf, Range(0, nelem1), a2);
    assert r.first == first && r.last == last;
    assert a[first..last] == Contents(a, r) == Merge(h1, h2);
    MergeStableSorts(d1, d2);
  }

  /**
   * The two `range_sort` calls of the even-level process on the adjacent
   * halves `a1` (front) and `a2` (rear, no larger): `a1` ends up sorted in
   * the buffer and `a2` sorted in place, with `a1` left as scratch.
   */
  method EvenHalves(a: array<Elem>, a1: Range, a2: Range, buf: array<Elem>, nlevel: nat)
    requires a != buf && a1.In(a.Length) && a2.In(a.Length) && a1.last == a2.first
    requires a2.Size() <= a1.Size() <= buf.Length && nlevel >= 2 && nlevel % 2 == 0
    modifies a, buf
    ensures buf[0..a1.Size()] == StableSort(old(a[a1.first..a1.last]))
    ensures a[a2.first..a2.last] == StableSort(old(a[a2.first..a2.last]))
    ensures UnchangedOutside(a, a1.first, a2.last) && UnchangedOutside(buf, 0, a1.Size())
  {
    ghost var s := a[..];
    var rbuf := UninitMove(buf, Range(0, a1.Size()), a, a1);
    RangeSort(a, a1, buf, rbuf, nlevel);
    ghost var t := a[..];
    KeptSlice(t, s, a2.first, a2.last, a1.first, a1.last);
    RangeSortWithin(a, Range(a1.first, a1.first + a2.Size()), a2, nlevel);
  }

  /**
   * The `spin_sort` object: the auxiliary buffer `ptr` of `nptr` cells,
   * whether its cells hold constructed objects (`construct`) and whether the
   * object allocated it (`owner`). `badAlloc` records that the constructor
   * left by throwing `bad_alloc`.
   */
  class SpinSort {
    var ptr: array?<Elem>
    var nptr: int
    var construct: bool
    var owner: bool
    var badAlloc: bool

    /**
     * `spin_sort(first, last, comp, paux, naux)` on [first, last) of `a`,
     * with `paux` the caller's buffer or null. Whether the temporary buffer
     * can be had is the parameter `canAllocate`. Up to `2 * Sort_min`
     * elements are insertion-sorted; a nondecreasing window is left as it
     * is before any buffer is sought; otherwise a missing buffer of
     * `ceil(n/2)` cells is allocated (or `bad_alloc` is thrown, changing
     * nothing) and the window is spin-sorted. Unless `bad_alloc` was thrown
     * the window ends up as its stable sort, nothing outside it changes, and
     * of a caller's buffer only the first `ceil(n/2)` cells are written.
     */
    constructor (a: array<Elem>, first: int, last: int, paux: array?<Elem>, naux: int, canAllocate: bool)
      requires 0 <= first <= last <= a.Length
      requires paux != null ==> paux != a && (last - first + 1) / 2 <= paux.Length
      modifies a, paux
      ensures nptr == (last - first + 1) / 2
      ensures var needed := last - first > 2 * SortMin && !old(Sorted(a[first..last]));
        && badAlloc == (needed && paux == null && !canAllocate)
        && owner == (needed && paux == null && canAllocate)
        && construct == (needed && !badAlloc)
        && (owner ==> ptr != null && fresh(ptr) && ptr.Length == nptr)
        && (!owner ==> ptr == paux)
      ensures badAlloc ==> unchanged(a)
      ensures !badAlloc ==> a[first..last] == StableSort(old(a[first..last]))
      ensures UnchangedOutside(a, first, last)
      ensures paux != null ==> UnchangedOutside(paux, 0, nptr)
    {
      var nelem := last - first;
      var buf: array?<Elem> := paux;
      var own := false;
      var fail := false;
      var built := false;
      var sorted := false;
      if nelem > 2 * SortMin {
        sorted := CheckIfSorted(a, first, last);
      }
      if nelem <= 2 * SortMin {
        InsertionSort.InsertionSort(a, first, last);
      } else if sorted {
        StableSortOfSorted(a[first..last]);
      } else {
        if buf == null {
          if canAllocate {
            buf := new Elem[(nelem + 1) / 2];
            own := true;
          } else {
            fail := true;
          }
        }
        if !fail {
          SpinLevelBounds(nelem);
          var nlevel := SpinLevel(nelem);
          if nlevel % 2 == 1 {
            SortOdd(a, first, last, buf, nlevel);
          } else {
            SortEven(a, first, last, buf, nlevel);
          }
          built := true;
        }
      }
      ptr := buf;
      nptr := (nelem + 1) / 2;
      construct := built;
      owner := own;
      badAlloc := fail;
    }

    /**
     * `~spin_sort()`: the buffer's objects are destroyed if they were
     * constructed, and the buffer goes back to the system only if this
     * object allocated it; `freed` says whether it did.
     */
    method Destroy() returns (freed: bool)
      modifies this
      ensures !construct && ptr == old(ptr) && nptr == old(nptr) && owner == old(owner)
      ensures badAlloc == old(badAlloc)
      ensures freed <==> owner && ptr != null
    {
      if construct {
        construct := false;
      }
      freed := owner && ptr != null;
    }
  }
}
