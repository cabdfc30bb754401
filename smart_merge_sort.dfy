/**
 * The smart merge sort of algorithm/smart_merge_sort.hpp: a stable merge
 * sort that needs a buffer of half the data. The front `ceil(n/2)`
 * elements are sorted into the buffer (`full_uninit_sort`, which bounces
 * between the data and the buffer level by level), the rear `floor(n/2)`
 * are sorted in place using the front as scratch (`full_sort`), and
 * `half_merge` joins the two.
 *
 * Iterators are indices and ranges are `DetailRange.Range` values; the
 * recursion halves a range into `Halves.Front` and `Halves.Rear`. The
 * level, a `uint32_t` in the library, only ever counts down to 0 here:
 * `full_sort_even` runs on even levels and `full_sort_odd` on odd ones, so
 * the decrement never wraps.
 */
module AlgorithmSmartMergeSort {
  import opened Order
  import opened Arrays
  import opened DetailRange
  import opened Halves
  import opened BitCount
  import opened SortSupport
  import opened Indirect
  import opened IndexEntries
  import InsertionSort
  import Buffer

  /** `Sort_min`: ranges up to this size are insertion-sorted. */
  const SortMin := 36

  /**
   * The level the recursion starts from for `n > Sort_min` elements:
   * `NBits((n - 1) / Sort_min) - 1`, one less than the number of
   * significant bits of `(n - 1) / Sort_min`.
   */
  function SortLevel(n: nat): int
    requires n > SortMin
  {
    BitLength((n - 1) / SortMin) - 1
  }

  /**
   * The starting level is the least for which `Sort_min * 2^(level + 1)`
   * reaches `n`: cutting `level + 1` times leaves pieces of at most
   * `Sort_min` elements, and one cut fewer would not.
   */
  lemma {:induction false} SortLevelBounds(n: nat)
    requires n > SortMin
    ensures SortLevel(n) >= 0
    ensures SortMin * Pow2(SortLevel(n)) < n <= SortMin * Pow2(SortLevel(n) + 1)
  {
    var m := (n - 1) / SortMin;
    var k := BitLength(m);
    assert Pow2(k - 1) <= m < Pow2(k);
    assert Pow2(k) == 2 * Pow2(k - 1);
  }

  /** The size of the largest piece after `level + 1` halvings of `n` elements. */
  function LeafSize(n: nat, level: nat): nat
    decreases level
  {
    if level == 0 then (n + 1) / 2 else LeafSize((n + 1) / 2, level - 1)
  }

  /**
   * The insertion sorts at level 0 never see more than `Sort_min`
   * elements when the recursion starts at `SortLevel(n)`, nor more than
   * `m` elements once `n` fits `m` pieces of the level.
   */
  lemma {:induction false} LeafSizeBound(n: nat, level: nat, m: nat)
    requires n <= m * Pow2(level + 1)
    ensures LeafSize(n, level) <= m
    decreases level
  {
    assert Pow2(level + 1) == 2 * Pow2(level);
    if level > 0 {
      LeafSizeBound((n + 1) / 2, level - 1, m);
    }
  }

  /** Pieces of the starting level are at most `Sort_min` elements. */
  lemma StartLevelLeaves(n: nat)
    requires n > SortMin
    ensures SortLevel(n) >= 0 && LeafSize(n, SortLevel(n)) <= SortMin
  {
    SortLevelBounds(n);
    LeafSizeBound(n, SortLevel(n), SortMin);
  }

  // -------------------------------------------------------------------------
  // full_sort_internal and full_sort: two disjoint ranges of one array
  // -------------------------------------------------------------------------

  /**
   * `full_sort_internal(it1, it2, N, comp, level)`: the data in `ra` is
   * stably sorted using `rb` as scratch; the result lands in `ra` when the
   * level is odd (the result says so) and in `rb` when it is even. Nothing
   * outside the two ranges changes. The parity test that picks the
   * direction of the closing merge selects `InternalEven` or `InternalOdd`.
   */
  method FullSortInternal(a: array<Elem>, ra: Range, rb: Range, level: nat) returns (r: bool)
    requires ra.In(a.Length) && rb.In(a.Length) && ra.Size() == rb.Size()
    requires Disjoint(ra.first, ra.last, rb.first, rb.last)
    modifies a
    ensures r <==> level % 2 == 1
    ensures r ==> a[ra.first..ra.last] == StableSort(old(a[ra.first..ra.last]))
    ensures !r ==> a[rb.first..rb.last] == StableSort(old(a[ra.first..ra.last]))
    ensures KeptOutside(a[..], old(a[..]), ra, rb)
  {
    if level % 2 == 0 {
      InternalEven(a, ra, rb, level);
      r := false;
    } else {
      InternalOdd(a, ra, rb, level);
      r := true;
    }
  }

  /**
   * `full_sort_internal` on an even level: the halves of `ra` are sorted in
   * place (insertion sorts at level 0, one odd level down otherwise) and
   * merged into `rb`.
   */
  method InternalEven(a: array<Elem>, ra: Range, rb: Range, level: nat)
    requires ra.In(a.Length) && rb.In(a.Length) && ra.Size() == rb.Size()
    requires Disjoint(ra.first, ra.last, rb.first, rb.last) && level % 2 == 0
    modifies a
    ensures a[rb.first..rb.last] == StableSort(old(a[ra.first..ra.last]))
    ensures KeptOutside(a[..], old(a[..]), ra, rb)
    decreases level, 1
  {
    ghost var s := a[..];
    ghost var d1, d2 := s[ra.first..Front(ra).last], s[Rear(ra).first..ra.last];
    SliceSplit(s, ra.first, Front(ra).last, ra.last);
    if level == 0 {
      SortLeaves(a, ra);
      assert KeptOutside(a[..], s, ra, rb);
    } else {
      HalvesInPlace(a, Front(ra), Rear(ra), Front(rb), Rear(rb), level);
    }
    ghost var s1 := a[..];
    MergeHalvesWithin(a, ra, rb, d1, d2);
    KeptTrans(a[..], s1, s, ra, rb);
  }

  /**
   * `full_sort_internal` on an odd level: the halves of `ra` are sorted
   * one even level down, which leaves them in the halves of `rb`, and
   * merged back into `ra`.
   */
  method InternalOdd(a: array<Elem>, ra: Range, rb: Range, level: nat)
    requires ra.In(a.Length) && rb.In(a.Length) && ra.Size() == rb.Size()
    requires Disjoint(ra.first, ra.last, rb.first, rb.last) && level % 2 == 1
    modifies a
    ensures a[ra.first..ra.last] == StableSort(old(a[ra.first..ra.last]))
    ensures KeptOutside(a[..], old(a[..]), ra, rb)
    decreases level, 1
  {
    ghost var s := a[..];
    ghost var d1, d2 := s[ra.first..Front(ra).last], s[Rear(ra).first..ra.last];
    SliceSplit(s, ra.first, Front(ra).last, ra.last);
    HalvesToScratch(a, Front(ra), Rear(ra), Front(rb), Rear(rb), level);
    ghost var s1 := a[..];
    MergeHalvesWithin(a, rb, ra, d1, d2);
    KeptTrans(a[..], s1, s, ra, rb);
  }

  /**
   * The recursive calls of an even level: each of the adjacent halves
   * `a1`, `a2` is sorted where it is, with the matching halves `b1`, `b2`
   * of the scratch range as scratch.
   */
  method HalvesInPlace(a: array<Elem>, a1: Range, a2: Range, b1: Range, b2: Range, level: nat)
    requires a1.In(a.Length) && a2.In(a.Length) && b1.In(a.Length) && b2.In(a.Length)
    requires a1.last == a2.first && b1.last == b2.first && a1.Size() == b1.Size() && a2.Size() == b2.Size()
    requires Disjoint(a1.first, a2.last, b1.first, b2.last) && level % 2 == 0 && level >= 2
    modifies a
    ensures a[a1.first..a1.last] == StableSort(old(a[a1.first..a1.last]))
    ensures a[a2.first..a2.last] == StableSort(old(a[a2.first..a2.last]))
    ensures KeptOutside(a[..], old(a[..]), Range(a1.first, a2.last), Range(b1.first, b2.last))
    decreases level, 0
  {
    ghost var s := a[..];
    InternalOdd(a, a1, b1, level - 1);
    ghost var s1 := a[..];
    InternalOdd(a, a2, b2, level - 1);
    HalvesKept(s, s1, a[..], a1, a2, b1, b2, a1, a2);
  }

  /**
   * The recursive calls of an odd level: each of the adjacent halves `a1`,
   * `a2` is sorted into the matching half `b1`, `b2` of the scratch range.
   */
  method HalvesToScratch(a: array<Elem>, a1: Range, a2: Range, b1: Range, b2: Range, level: nat)
    requires a1.In(a.Length) && a2.In(a.Length) && b1.In(a.Length) && b2.In(a.Length)
    requires a1.last == a2.first && b1.last == b2.first && a1.Size() == b1.Size() && a2.Size() == b2.Size()
    requires Disjoint(a1.first, a2.last, b1.first, b2.last) && level % 2 == 1
    modifies a
    ensures a[b1.first..b1.last] == StableSort(old(a[a1.first..a1.last]))
    ensures a[b2.first..b2.last] == StableSort(old(a[a2.first..a2.last]))
    ensures KeptOutside(a[..], old(a[..]), Range(a1.first, a2.last), Range(b1.first, b2.last))
    decreases level, 0
  {
    ghost var s := a[..];
    InternalEven(a, a1, b1, level - 1);
    ghost var s1 := a[..];
    InternalEven(a, a2, b2, level - 1);
    HalvesKept(s, s1, a[..], a1, a2, b1, b2, b1, b2);
  }

  /**
   * The bookkeeping of the two recursive calls, on the contents of the
   * array before, between and after them: the halves `a1`, `a2` are sorted
   * into `h1`, `h2` (the halves themselves or `b1`, `b2`); the first result
   * survives the second call and only the two spans have changed.
   */
  lemma HalvesKept(s: seq<Elem>, s1: seq<Elem>, s2: seq<Elem>,
                   a1: Range, a2: Range, b1: Range, b2: Range, h1: Range, h2: Range)
    requires a1.In(|s|) && a2.In(|s|) && b1.In(|s|) && b2.In(|s|) && |s1| == |s| && |s2| == |s|
    requires a1.last == a2.first && b1.last == b2.first
    requires Disjoint(a1.first, a2.last, b1.first, b2.last)
    requires (h1 == a1 && h2 == a2) || (h1 == b1 && h2 == b2)
    requires s1[h1.first..h1.last] == StableSort(s[a1.first..a1.last])
    requires KeptOutside(s1, s, a1, b1)
    requires s2[h2.first..h2.last] == StableSort(s1[a2.first..a2.last])
    requires KeptOutside(s2, s1, a2, b2)
    ensures s2[h1.first..h1.last] == StableSort(s[a1.first..a1.last])
    ensures s2[h2.first..h2.last] == StableSort(s[a2.first..a2.last])
    ensures KeptOutside(s2, s, Range(a1.first, a2.last), Range(b1.first, b2.last))
  {
    KeptRange(s1, s, a1, b1, a2);
    KeptRange(s2, s1, a2, b2, h1);
    KeptCompose(s2, s1, s, Range(a1.first, a2.last), Range(b1.first, b2.last), a1, b1, a2, b2);
  }

  /**
   * `full_sort(it1, it2, N, comp)`: the data in `ra` is stably sorted
   * using `rb` as scratch. Fewer than 2 elements stay, up to `Sort_min` are
   * insertion-sorted in place; otherwise `full_sort_internal` runs from
   * `SortLevel`. The result says where the sorted data is: `true` for
   * `ra`, `false` for `rb`.
   */
  method FullSort(a: array<Elem>, ra: Range, rb: Range) returns (r: bool)
    requires ra.In(a.Length) && rb.In(a.Length) && ra.Size() == rb.Size()
    requires Disjoint(ra.first, ra.last, rb.first, rb.last)
    modifies a
    ensures r <==> ra.Size() <= SortMin || SortLevel(ra.Size()) % 2 == 1
    ensures r ==> a[ra.first..ra.last] == StableSort(old(a[ra.first..ra.last]))
    ensures !r ==> a[rb.first..rb.last] == StableSort(old(a[ra.first..ra.last]))
    ensures KeptOutside(a[..], old(a[..]), ra, rb)
  {
    var n := ra.Size();
    if n < 2 {
      StableSortOfSorted(a[ra.first..ra.last]);
      return true;
    }
    if n <= SortMin {
      InsertionSort.InsertionSort(a, ra.first, ra.last);
      return true;
    }
    assert (n - 1) / SortMin >= 1;
    var level := BitLength((n - 1) / SortMin) - 1;
    assert level == SortLevel(n);
    r := FullSortInternal(a, ra, rb, level);
  }

  // -------------------------------------------------------------------------
  // full_sort_even, full_sort_odd and full_uninit_sort: data and buffer
  // -------------------------------------------------------------------------

  /**
   * `full_sort_even(it, pit, N, comp, level)` on an even level: the data in
   * `rx` of `x` is stably sorted into `ry` of the buffer `y`. Level 0
   * insertion-sorts the halves in place and merges them into the buffer;
   * higher levels sort the halves with `full_sort_odd`, which leaves them
   * in `x`, and merge them into the buffer. It returns `false`: the result
   * is in the buffer.
   */
  method FullSortEven(x: array<Elem>, rx: Range, y: array<Elem>, ry: Range, level: nat) returns (r: bool)
    requires x != y && rx.In(x.Length) && ry.In(y.Length) && rx.Size() == ry.Size()
    requires level % 2 == 0
    modifies x, y
    ensures !r
    ensures y[ry.first..ry.last] == StableSort(old(x[rx.first..rx.last]))
    ensures UnchangedOutside(x, rx.first, rx.last) && UnchangedOutside(y, ry.first, ry.last)
    decreases level, 1
  {
    var h1, h2 := Front(rx), Rear(rx);
    ghost var xs := x[..];
    ghost var d1, d2 := xs[h1.first..h1.last], xs[h2.first..h2.last];
    SliceSplit(xs, rx.first, h1.last, rx.last);
    if level == 0 {
      SortLeaves(x, rx);
    } else {
      SortHalvesOdd(x, h1, h2, y, Front(ry), Rear(ry), level);
    }
    MergeHalvesInto(x, rx, y, ry, d1, d2, level == 0);
    r := level % 2 != 0;
  }

  /**
   * The two `full_sort_odd` calls of `full_sort_even`: each of the
   * adjacent halves `h1`, `h2` is sorted where it is, with `g1`, `g2` of
   * the buffer as scratch.
   */
  method SortHalvesOdd(x: array<Elem>, h1: Range, h2: Range, y: array<Elem>, g1: Range, g2: Range, level: nat)
    requires x != y && h1.In(x.Length) && h2.In(x.Length) && g1.In(y.Length) && g2.In(y.Length)
    requires h1.last == h2.first && g1.last == g2.first && h1.Size() == g1.Size() && h2.Size() == g2.Size()
    requires level % 2 == 0 && level >= 2
    modifies x, y
    ensures x[h1.first..h1.last] == StableSort(old(x[h1.first..h1.last]))
    ensures x[h2.first..h2.last] == StableSort(old(x[h2.first..h2.last]))
    ensures UnchangedOutside(x, h1.first, h2.last) && UnchangedOutside(y, g1.first, g2.last)
    decreases level, 0
  {
    ghost var xs := x[..];
    ghost var d2 := xs[h2.first..h2.last];
    var r1 := FullSortOdd(x, h1, y, g1, level - 1);
    ghost var x1 := x[..];
    KeptSlice(x1, xs, h2.first, h2.last, h1.first, h1.last);
    assert x[h2.first..h2.last] == d2;
    var r2 := FullSortOdd(x, h2, y, g2, level - 1);
    KeptSlice(x[..], x1, h1.first, h1.last, h2.first, h2.last);
  }

  /**
   * `full_sort_odd(it, pit, N, comp, level)` on an odd level: the data in
   * `rx` of `x` is stably sorted where it is, using `ry` of the buffer `y`
   * as scratch. The halves are sorted into the buffer with
   * `full_sort_even` and merged back. It returns `true`: the result is in
   * the data.
   */
  method FullSortOdd(x: array<Elem>, rx: Range, y: array<Elem>, ry: Range, level: nat) returns (r: bool)
    requires x != y && rx.In(x.Length) && ry.In(y.Length) && rx.Size() == ry.Size()
    requires level % 2 == 1
    modifies x, y
    ensures r
    ensures x[rx.first..rx.last] == StableSort(old(x[rx.first..rx.last]))
    ensures UnchangedOutside(x, rx.first, rx.last) && UnchangedOutside(y, ry.first, ry.last)
    decreases level, 1
  {
    ghost var xs := x[..];
    ghost var d1, d2 := xs[rx.first..Front(rx).last], xs[Rear(rx).first..rx.last];
    SliceSplit(xs, rx.first, Front(rx).last, rx.last);
    SortHalvesEven(x, Front(rx), Rear(rx), y, Front(ry), Rear(ry), level);
    MergeHalvesInto(y, ry, x, rx, d1, d2, false);
    r := level % 2 != 0;
  }

  /**
   * The two `full_sort_even` calls of `full_sort_odd`: each of the
   * adjacent halves `h1`, `h2` is sorted into the matching half `g1`, `g2`
   * of the buffer.
   */
  method SortHalvesEven(x: array<Elem>, h1: Range, h2: Range, y: array<Elem>, g1: Range, g2: Range, level: nat)
    requires x != y && h1.In(x.Length) && h2.In(x.Length) && g1.In(y.Length) && g2.In(y.Length)
    requires h1.last == h2.first && g1.last == g2.first && h1.Size() == g1.Size() && h2.Size() == g2.Size()
    requires level % 2 == 1
    modifies x, y
    ensures y[g1.first..g1.last] == StableSort(old(x[h1.first..h1.last]))
    ensures y[g2.first..g2.last] == StableSort(old(x[h2.first..h2.last]))
    ensures UnchangedOutside(x, h1.first, h2.last) && UnchangedOutside(y, g1.first, g2.last)
    decreases level, 0
  {
    ghost var xs := x[..];
    ghost var d2 := xs[h2.first..h2.last];
    var r1 := FullSortEven(x, h1, y, g1, level - 1);
    ghost var x1, y1 := x[..], y[..];
    KeptSlice(x1, xs, h2.first, h2.last, h1.first, h1.last);
    assert x[h2.first..h2.last] == d2;
    var r2 := FullSortEven(x, h2, y, g2, level - 1);
    KeptSlice(y[..], y1, g1.first, g1.last, g2.first, g2.last);
  }

  /**
   * `full_uninit_sort(it, pit, N, comp)`: the data in `rx` of `x` is
   * stably sorted, into the buffer range `ry` or in place. Fewer than 2
   * elements stay where they are (`true`); up to `Sort_min` are
   * insertion-sorted and moved to the buffer (`false`); otherwise the
   * parity of the starting level picks `full_sort_even` (the result in the
   * buffer) or `full_sort_odd` (the result in place).
   */
  method FullUninitSort(x: array<Elem>, rx: Range, y: array<Elem>, ry: Range) returns (r: bool)
    requires x != y && rx.In(x.Length) && ry.In(y.Length) && rx.Size() == ry.Size()
    modifies x, y
    ensures r <==> rx.Size() < 2 || (rx.Size() > SortMin && SortLevel(rx.Size()) % 2 == 1)
    ensures r ==> x[rx.first..rx.last] == StableSort(old(x[rx.first..rx.last]))
    ensures !r ==> y[ry.first..ry.last] == StableSort(old(x[rx.first..rx.last]))
    ensures UnchangedOutside(x, rx.first, rx.last) && UnchangedOutside(y, ry.first, ry.last)
  {
    var n := rx.Size();
    if n < 2 {
      StableSortOfSorted(x[rx.first..rx.last]);
      return true;
    }
    if n <= SortMin {
      InsertionSort.InsertionSort(x, rx.first, rx.last);
      var e := Buffer.UninitMoveBuf(x, rx.first, rx.last, y, ry.first);
      return false;
    }
    r := SortByLevel(x, rx, y, ry);
  }

  /**
   * The last case of `full_uninit_sort`: more than `Sort_min` elements are
   * sorted from `SortLevel`, into the buffer when that level is even and in
   * place when it is odd.
   */
  method SortByLevel(x: array<Elem>, rx: Range, y: array<Elem>, ry: Range) returns (r: bool)
    requires x != y && rx.In(x.Length) && ry.In(y.Length) && rx.Size() == ry.Size()
    requires rx.Size() > SortMin
    modifies x, y
    ensures r <==> SortLevel(rx.Size()) % 2 == 1
    ensures r ==> x[rx.first..rx.last] == StableSort(old(x[rx.first..rx.last]))
    ensures !r ==> y[ry.first..ry.last] == StableSort(old(x[rx.first..rx.last]))
    ensures UnchangedOutside(x, rx.first, rx.last) && UnchangedOutside(y, ry.first, ry.last)
  {
    var n := rx.Size();
    assert (n - 1) / SortMin >= 1;
    var nlevel := BitLength((n - 1) / SortMin);
    assert nlevel >= 1 && SortLevel(n) == nlevel - 1;
    if nlevel % 2 == 1 {
      r := FullSortEven(x, rx, y, ry, nlevel - 1);
    } else {
      r := FullSortOdd(x, rx, y, ry, nlevel - 1);
    }
  }

  // -------------------------------------------------------------------------
  // smart_merge_sort_tag
  // -------------------------------------------------------------------------

  /**
   * The process shared by both constructors of `smart_merge_sort_tag`,
   * for more than `Sort_min` elements and a buffer of at least `ceil(n/2)`
   * cells: the window ends up as its stable sort; of the buffer only the
   * first `ceil(n/2)` cells are written.
   */
  method Process(a: array<Elem>, first: int, last: int, buf: array<Elem>)
    requires a != buf && 0 <= first <= last <= a.Length
    requires last - first > SortMin && (last - first + 1) / 2 <= buf.Length
    modifies a, buf
    ensures a[first..last] == StableSort(old(a[first..last]))
    ensures UnchangedOutside(a, first, last) && UnchangedOutside(buf, 0, (last - first + 1) / 2)
  {
    var n1 := (last - first + 1) / 2;
    SortSplit(a, first, n1, last, buf);
  }

  /**
   * The three phases of the process on the window cut after its first
   * `n1` elements, where the rear is no longer than the front.
   */
  method SortSplit(a: array<Elem>, first: int, n1: int, last: int, buf: array<Elem>)
    requires a != buf && 0 <= first && 0 <= n1 && first + n1 <= last <= a.Length
    requires last - (first + n1) <= n1 <= buf.Length
    modifies a, buf
    ensures a[first..last] == StableSort(old(a[first..last]))
    ensures UnchangedOutside(a, first, last) && UnchangedOutside(buf, 0, n1)
  {
    ghost var d, d1, d2 := a[first..last], a[first..first + n1], a[first + n1..last];
    SliceSplit(a[..], first, first + n1, last);
    SortBoth(a, first, n1, last, buf);
    MergeHalves(a, first, n1, last, buf, d1, d2);
    assert a[first..last] == StableSort(d);
  }

  /**
   * The first two phases: the front is sorted into the buffer and the
   * rear where it is.
   */
  method SortBoth(a: array<Elem>, first: int, n1: int, last: int, buf: array<Elem>)
    requires a != buf && 0 <= first && 0 <= n1 && first + n1 <= last <= a.Length
    requires last - (first + n1) <= n1 <= buf.Length
    modifies a, buf
    ensures buf[0..n1] == StableSort(old(a[first..first + n1]))
    ensures a[first + n1..last] == StableSort(old(a[first + n1..last]))
    ensures UnchangedOutside(a, first, last) && UnchangedOutside(buf, 0, n1)
  {
    ghost var s := a[..];
    ghost var d2 := a[first + n1..last];
    FrontToBuffer(a, first, n1, buf);
    KeptSlice(a[..], s, first + n1, last, first, first + n1);
    assert a[first + n1..last] == d2;
    RearInPlace(a, first, n1, last);
  }

  /**
   * The last phase: `half_merge` of the sorted front in the buffer with
   * the sorted rear in place, into the whole window.
   */
  method MergeHalves(a: array<Elem>, first: int, n1: int, last: int, buf: array<Elem>,
                     ghost d1: seq<Elem>, ghost d2: seq<Elem>)
    requires a != buf && 0 <= first && 0 <= n1 && first + n1 <= last <= a.Length && n1 <= buf.Length
    requires buf[0..n1] == StableSort(d1) && a[first + n1..last] == StableSort(d2)
    modifies a
    ensures a[first..last] == StableSort(d1 + d2)
    ensures UnchangedOutside(a, first, last)
  {
    ghost var h1, h2 := buf[0..n1], a[first + n1..last];
    var r := Buffer.HalfMerge(buf, 0, n1, a, first + n1, last, first);
    assert a[first..last] == Merge(h1, h2);
    MergeStableSorts(d1, d2);
  }

  /**
   * The first phase: `full_uninit_sort` of the front `n1` elements with the
   * buffer, then `move_buf` into the buffer if the result was left in
   * place, so that the buffer holds the sorted front.
   */
  method FrontToBuffer(a: array<Elem>, first: int, n1: int, buf: array<Elem>)
    requires a != buf && 0 <= first && 0 <= n1 && first + n1 <= a.Length && n1 <= buf.Length
    modifies a, buf
    ensures buf[0..n1] == StableSort(old(a[first..first + n1]))
    ensures UnchangedOutside(a, first, first + n1) && UnchangedOutside(buf, 0, n1)
  {
    var inPlace := FullUninitSort(a, Range(first, first + n1), buf, Range(0, n1));
    if inPlace {
      var e := Buffer.MoveBuf(a, first, first + n1, buf, 0);
    }
  }

  /**
   * The second phase: `full_sort` of the rear `n - n1` elements with the
   * front as scratch, then `move_buf` back to the rear if the result was
   * left in the front.
   */
  method RearInPlace(a: array<Elem>, first: int, n1: int, last: int)
    requires 0 <= first && first + n1 <= last <= a.Length && last - (first + n1) <= n1
    modifies a
    ensures a[first + n1..last] == StableSort(old(a[first + n1..last]))
    ensures UnchangedOutside(a, first, last)
  {
    var n2 := last - (first + n1);
    var ra, rb := Range(first + n1, last), Range(first, first + n2);
    ghost var d := a[ra.first..ra.last];
    var inPlace := FullSort(a, ra, rb);
    if !inPlace {
      ghost var t := a[rb.first..rb.last];
      assert t == StableSort(d);
      MoveBack(a, rb, ra);
      assert a[ra.first..ra.last] == t;
    }
  }

  /** `move_buf(first + N1, first, first + N2)`: the sorted rear is moved back from the scratch `rb` to `ra`. */
  method MoveBack(a: array<Elem>, rb: Range, ra: Range)
    requires rb.In(a.Length) && ra.In(a.Length) && rb.Size() == ra.Size() && rb.last <= ra.first
    modifies a
    ensures a[ra.first..ra.last] == old(a[rb.first..rb.last])
    ensures UnchangedOutside(a, ra.first, ra.last)
  {
    var r := Buffer.MoveBufWithin(a, rb.first, rb.last, ra.first);
  }

  /** `smart_merge_sort_tag`: the sorting object and the buffer it holds. */
  class SmartMergeSortTag {
    var ptr: array?<Elem>
    var nptr: int
    var construct: bool
    var owner: bool
    var badAlloc: bool

    /**
     * `smart_merge_sort_tag(first, last, comp)` on [first, last) of `a`.
     * Whether the temporary buffer can be had is the parameter
     * `canAllocate`. Up to `Sort_min` elements are insertion-sorted; a
     * nondecreasing window is left as it is; otherwise a buffer of
     * `ceil(n/2)` cells is allocated (or `bad_alloc` is thrown, changing
     * nothing) and the window is sorted. Unless `bad_alloc` was thrown the
     * window ends up as its stable sort; nothing outside it changes.
     */
    constructor (a: array<Elem>, first: int, last: int, canAllocate: bool)
      requires 0 <= first <= last <= a.Length
      modifies a
      ensures nptr == (last - first + 1) / 2
      ensures var needed := last - first > SortMin && !old(Sorted(a[first..last]));
        && badAlloc == (needed && !canAllocate)
        && owner == (needed && canAllocate)
        && construct == owner
        && (owner ==> ptr != null && fresh(ptr) && ptr.Length == nptr)
        && (!owner ==> ptr == null)
      ensures badAlloc ==> unchanged(a)
      ensures !badAlloc ==> a[first..last] == StableSort(old(a[first..last]))
      ensures UnchangedOutside(a, first, last)
    {
      var n := last - first;
      var buf: array?<Elem> := null;
      var own := false;
      var fail := false;
      var sorted := false;
      if n > SortMin {
        sorted := CheckIfSorted(a, first, last);
      }
      if n <= SortMin {
        InsertionSort.InsertionSort(a, first, last);
      } else if sorted {
        StableSortOfSorted(a[first..last]);
      } else if canAllocate {
        buf := new Elem[(n + 1) / 2];
        own := true;
        Process(a, first, last, buf);
      } else {
        fail := true;
      }
      ptr := buf;
      nptr := (n + 1) / 2;
      construct := own;
      owner := own;
      badAlloc := fail;
    }

    /**
     * `smart_merge_sort_tag(first, last, comp, bfirst, Nb)`: the same sort
     * with the caller's buffer `bfirst` of `nb >= ceil(n/2)` cells, without
     * the check for sorted data. Only the first `ceil(n/2)` cells of the
     * buffer are written, and the object never owns it.
     */
    constructor WithBuffer(a: array<Elem>, first: int, last: int, bfirst: array<Elem>, nb: int)
      requires 0 <= first <= last <= a.Length && bfirst != a
      requires (last - first + 1) / 2 <= nb <= bfirst.Length
      modifies a, bfirst
      ensures ptr == bfirst && nptr == (last - first + 1) / 2
      ensures construct == (last - first > SortMin) && !owner && !badAlloc
      ensures a[first..last] == StableSort(old(a[first..last]))
      ensures UnchangedOutside(a, first, last) && UnchangedOutside(bfirst, 0, nptr)
    {
      var n := last - first;
      if n <= SortMin {
        InsertionSort.InsertionSort(a, first, last);
      } else {
        Process(a, first, last, bfirst);
      }
      ptr := bfirst;
      nptr := (n + 1) / 2;
      construct := n > SortMin;
      owner := false;
      badAlloc := false;
    }

    /**
     * `~smart_merge_sort_tag()`: the buffer's objects are destroyed if they
     * were constructed, and the buffer goes back to the system only if this
     * object allocated it; `freed` says whether it did.
     */
    method Destroy() returns (freed: bool)
      modifies this
      ensures !construct && ptr == old(ptr) && nptr == old(nptr) && owner == old(owner)
      ensures badAlloc == old(badAlloc)
      ensures freed <==> owner && ptr != null
    {
      if construct {
        construct := false;
      }
      freed := owner && ptr != null;
    }
  }

  /**
   * `indirect_smart_merge_sort(first, last, comp)`: an index of positions
   * is built, sorted by the smart merge sort comparing the elements it
   * points at, and applied. The smart merge sort is stable, so the window
   * ends up as its stable sort; if the index sort throws `bad_alloc` the
   * data is untouched.
   */
  method IndirectSmartMergeSort(a: array<Elem>, lo: int, hi: int, canAllocate: bool) returns (badAlloc: bool)
    requires 0 <= lo <= hi <= a.Length
    modifies a
    ensures badAlloc ==> !canAllocate && unchanged(a)
    ensures !badAlloc ==> a[lo..hi] == StableSort(old(a[lo..hi]))
    ensures UnchangedOutside(a, lo, hi)
  {
    ghost var d := a[lo..hi];
    var ix := BuildEntries(a, lo, hi);
    badAlloc := SortEntries(ix, canAllocate);
    if !badAlloc {
      ApplyStableEntries(a, lo, hi, ix, d);
    }
  }

  /** The smart merge sort of the whole index, through a `smart_merge_sort_tag`. */
  method SortEntries(ix: array<Elem>, canAllocate: bool) returns (badAlloc: bool)
    modifies ix
    ensures badAlloc ==> !canAllocate && unchanged(ix)
    ensures !badAlloc ==> ix[..] == StableSort(old(ix[..]))
  {
    ghost var e := ix[..];
    var tag := new SmartMergeSortTag(ix, 0, ix.Length, canAllocate);
    badAlloc := tag.badAlloc;
    assert ix[..] == ix[0..ix.Length] && e == e[0..ix.Length];
  }
}
