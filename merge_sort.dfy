/**
 * The merge sort of algorithm/merge_sort.hpp: a stable top-down merge sort
 * that needs a buffer of `ceil(n/2)` elements. Each level sorts its two
 * halves (recursively, or by insertion sort once a half is small), copies
 * the front half into the buffer and merges it with the rear half back
 * into the data, unless the halves are already in order.
 *
 * Iterators are indices into the data array; the buffer `P` is a separate
 * array whose first cells are used.
 */
module AlgorithmMergeSort {
  import opened Order
  import opened Arrays
  import opened IndexEntries
  import InsertionSort
  import Buffer

  /** `MSort_min`: halves up to this size are insertion-sorted. */
  const MSortMin := 36

  /**
   * `merge_sort_internal(first, last, comp, P)` on [first, last) of `a`,
   * with the buffer `p` of at least `ceil(n/2)` cells: the window ends up
   * as the stable sort of what it held, and nothing else in `a` changes.
   * The source reads the two elements around the cut, so the window holds
   * at least two elements (its callers only pass windows of more than
   * `MSort_min`).
   */
  method MergeSortInternal(a: array<Elem>, first: int, last: int, p: array<Elem>)
    requires a != p && 0 <= first && first + 2 <= last <= a.Length
    requires (last - first + 1) / 2 <= p.Length
    modifies a, p
    ensures a[first..last] == StableSort(old(a[first..last]))
    ensures UnchangedOutside(a, first, last)
    decreases last - first
  {
    var n2 := (last - first + 1) / 2;
    ghost var d1, d2 := a[first..first + n2], a[first + n2..last];
    assert old(a[first..last]) == d1 + d2 by {
      SliceSplit(a[..], first, first + n2, last);
    }
    SortHalves(a, first, first + n2, last, p, d1, d2);
    MergeBack(a, first, first + n2, last, p, d1, d2);
  }

  /**
   * The second part of `merge_sort_internal`, once the halves [first, mid)
   * and [mid, last) hold the stable sorts of `d1` and `d2`: unless the
   * halves are already in order, the front half is moved to the buffer and
   * merged back with the rear half. Either way the window becomes the
   * stable sort of `d1 + d2`.
   */
  method MergeBack(a: array<Elem>, first: int, mid: int, last: int, p: array<Elem>,
                   ghost d1: seq<Elem>, ghost d2: seq<Elem>)
    requires a != p && 0 <= first < mid < last <= a.Length && mid - first <= p.Length
    requires a[first..mid] == StableSort(d1) && a[mid..last] == StableSort(d2)
    modifies a, p
    ensures a[first..last] == StableSort(d1 + d2)
    ensures UnchangedOutside(a, first, last)
  {
    ghost var t1, t2 := a[first..mid], a[mid..last];
    if !Less(a[mid], a[mid - 1]) {
      assert t2[0] == a[mid] && t1[|t1| - 1] == a[mid - 1];
      InOrderHalves(t1, t2, d1, d2);
      SliceSplit(a[..], first, mid, last);
      return;
    }
    var e := Buffer.UninitMoveBuf(a, first, mid, p, 0);
    assert p[0..mid - first] == t1 && a[mid..last] == t2;
    MergeFromBuffer(a, first, mid, last, p);
    MergeStableSorts(d1, d2);
  }

  /**
   * The early return of `merge_sort_internal` is sound: when the first
   * element of the sorted rear half is not less than the last of the
   * sorted front half, the two halves side by side already are the stable
   * sort of the whole window.
   */
  lemma InOrderHalves(t1: seq<Elem>, t2: seq<Elem>, d1: seq<Elem>, d2: seq<Elem>)
    requires t1 == StableSort(d1) && t2 == StableSort(d2)
    requires t1 != [] && t2 != [] && !Less(t2[0], t1[|t1| - 1])
    ensures t1 + t2 == StableSort(d1 + d2)
  {
    StableSortSorted(d1);
    MergeOrdered(t1, t2);
    MergeStableSorts(d1, d2);
  }

  /**
   * The two halves of `merge_sort_internal`: recursively when the front
   * half has more than `MSort_min` elements, by insertion sort otherwise.
   * Each half, holding `d1` and `d2`, becomes the stable sort of what it held.
   */
  method SortHalves(a: array<Elem>, first: int, mid: int, last: int, p: array<Elem>,
                    ghost d1: seq<Elem>, ghost d2: seq<Elem>)
    requires a != p && 0 <= first && first + 2 <= last <= a.Length
    requires mid == first + (last - first + 1) / 2 && (last - first + 1) / 2 <= p.Length
    requires a[first..mid] == d1 && a[mid..last] == d2
    modifies a, p
    ensures first < mid < last
    ensures a[first..mid] == StableSort(d1) && a[mid..last] == StableSort(d2)
    ensures UnchangedOutside(a, first, last)
    decreases last - first, 0
  {
    ghost var s := a[..];
    if mid - first > MSortMin {
      MergeSortInternal(a, first, mid, p);
      ghost var s1 := a[..];
      KeptSlice(s1, s, mid, last, first, mid);
      MergeSortInternal(a, mid, last, p);
      KeptSlice(a[..], s1, first, mid, mid, last);
    } else {
      InsertionSort.InsertionSort(a, first, mid);
      ghost var s1 := a[..];
      KeptSlice(s1, s, mid, last, first, mid);
      InsertionSort.InsertionSort(a, mid, last);
      KeptSlice(a[..], s1, first, mid, mid, last);
    }
  }

  /**
   * The fusion loop of `merge_sort_internal`: the sorted front half, now in
   * `p[0..mid - first)`, is merged with the sorted rear half [mid, last) into
   * [first, last). The rear element is taken only when strictly less, so
   * ties go to the front half. The loop stops when the rear half is used up
   * (the rest of the buffer is then moved) or when the write position meets
   * the read position of the rear half, which happens exactly when the
   * buffer is used up (the rest of the rear half is then already in place).
   */
  method MergeFromBuffer(a: array<Elem>, first: int, mid: int, last: int, p: array<Elem>)
    requires a != p && 0 <= first <= mid <= last <= a.Length && mid - first <= p.Length
    modifies a
    ensures a[first..last] == Merge(old(p[0..mid - first]), old(a[mid..last]))
    ensures UnchangedOutside(a, first, last)
  {
    ghost var A, B := p[0..mid - first], a[mid..last];
    var i1, i2, k;
    ghost var done, q1, q2;
    i1, i2, k, done, q1, q2 := FusionLoop(a, first, mid, last, p);
    MergeInvEnd(A, B, done, q1, q2);
    SliceFromCells(a[..], first, k, done);
    if i2 == last {
      assert p[i1..mid - first] == A[q1..];
      ghost var s1 := a[..];
      var r := Buffer.MoveBuf(p, i1, mid - first, a, k);
      KeptSlice(a[..], s1, first, k, k, r);
      Glue(a[..], first, k, last, done, A[q1..]);
    } else {
      KeptSlice(a[..], old(a[..]), i2, last, first, k);
      assert a[i2..last] == B[q2..];
      Glue(a[..], first, k, last, done, B[q2..]);
    }
  }

  /**
   * The `while (P2 != P2_end and Alfa != P2)` loop itself. The write
   * position `k` trails the rear read position `i2` by exactly the number
   * of buffered elements not yet written, so the output never overwrites
   * an unread element of the rear half.
   */
  method FusionLoop(a: array<Elem>, first: int, mid: int, last: int, p: array<Elem>)
    returns (i1: int, i2: int, k: int, ghost done: seq<Elem>, ghost q1: nat, ghost q2: nat)
    requires a != p && 0 <= first <= mid <= last <= a.Length && mid - first <= p.Length
    modifies a
    ensures q1 == i1 && q2 == i2 - mid && k == first + q1 + q2
    ensures 0 <= i1 <= mid - first && mid <= i2 <= last
    ensures i2 == last || i1 == mid - first
    ensures |done| == k - first
    ensures forall j :: first <= j < k ==> a[j] == done[j - first]
    ensures MergeInv(p[0..mid - first], old(a[mid..last]), done, q1, q2)
    ensures UnchangedOutside(a, first, k)
  {
    ghost var A, B := p[0..mid - first], a[mid..last];
    done := [];
    q1, q2 := 0, 0;
    MergeInvStart(A, B);
    i1, i2, k := 0, mid, first;
    while i2 != last && k != i2
      invariant q1 == i1 && q2 == i2 - mid && k == first + q1 + q2
      invariant 0 <= i1 <= mid - first && mid <= i2 <= last
      invariant |done| == k - first
      invariant forall j :: first <= j < k ==> a[j] == done[j - first]
      invariant MergeInv(A, B, done, q1, q2)
      invariant UnchangedOutside(a, first, k)
      decreases last - i2, mid - first - i1
    {
      var x1, x2 := p[i1], a[i2];
      MergeInvStep(A, B, done, q1, q2, x1, x2);
      if Less(x2, x1) {
        a[k] := x2;
        done, q2, i2 := done + [x2], q2 + 1, i2 + 1;
      } else {
        a[k] := x1;
        done, q1, i1 := done + [x1], q1 + 1, i1 + 1;
      }
      k := k + 1;
    }
  }

  /** `merge_sort_tag`: the sorting object and the buffer it may own. */
  class MergeSortTag {
    var ptr: array?<Elem>
    var owner: bool
    var badAlloc: bool

    /**
     * `merge_sort_tag(first, last, comp)` on [first, last) of `a`. Up to
     * `MSort_min` elements are insertion-sorted without a buffer; otherwise
     * a buffer of `ceil(n/2)` cells is allocated (when `canAllocate`; else
     * `bad_alloc` is thrown and nothing changes) and the window is sorted.
     * Unless `bad_alloc` was thrown the window ends up as its stable sort;
     * nothing outside it changes.
     */
    constructor (a: array<Elem>, first: int, last: int, canAllocate: bool)
      requires 0 <= first <= last <= a.Length
      modifies a
      ensures badAlloc == (last - first > MSortMin && !canAllocate)
      ensures owner == (last - first > MSortMin && canAllocate)
      ensures owner ==> ptr != null && fresh(ptr) && ptr.Length == (last - first + 1) / 2
      ensures !owner ==> ptr == null
      ensures badAlloc ==> unchanged(a)
      ensures !badAlloc ==> a[first..last] == StableSort(old(a[first..last]))
      ensures UnchangedOutside(a, first, last)
    {
      var n := last - first;
      var buf: array?<Elem> := null;
      var own, fail := false, false;
      if n <= MSortMin {
        InsertionSort.InsertionSort(a, first, last);
      } else if canAllocate {
        buf := new Elem[(n + 1) / 2];
        own := true;
        MergeSortInternal(a, first, last, buf);
      } else {
        fail := true;
      }
      ptr, owner, badAlloc := buf, own, fail;
    }

    /**
     * `merge_sort_tag(first, last, comp, P1, NP1)`: the same sort with the
     * caller's buffer `p1` of `np1 >= ceil(n/2)` cells, which the object
     * never owns. Nothing outside the window changes in the data.
     */
    constructor WithBuffer(a: array<Elem>, first: int, last: int, p1: array<Elem>, np1: int)
      requires 0 <= first <= last <= a.Length && p1 != a
      requires (last - first + 1) / 2 <= np1 <= p1.Length
      modifies a, p1
      ensures ptr == p1 && !owner && !badAlloc
      ensures a[first..last] == StableSort(old(a[first..last]))
      ensures UnchangedOutside(a, first, last)
    {
      var n := last - first;
      if n <= MSortMin {
        InsertionSort.InsertionSort(a, first, last);
      } else {
        MergeSortInternal(a, first, last, p1);
      }
      ptr, owner, badAlloc := p1, false, false;
    }

    /**
     * `~merge_sort_tag()`: the buffer goes back to the system only if this
     * object allocated it; `freed` says whether it did. The model records
     * the release by clearing `owner`, so the object owns no buffer
     * afterwards and a second release frees nothing.
     */
    method Destroy() returns (freed: bool)
      modifies this
      ensures freed <==> old(owner) && old(ptr) != null
      ensures !owner && ptr == old(ptr) && badAlloc == old(badAlloc)
    {
      freed := owner && ptr != null;
      owner := false;
    }
  }

  /**
   * `indirect_merge_sort(first, last, comp)`: an index of positions is
   * built, merge-sorted comparing the elements it points at, and applied.
   * The merge sort is stable, so the window ends up as its stable sort; if
   * the index sort throws `bad_alloc` the data is untouched.
   */
  method IndirectMergeSort(a: array<Elem>, lo: int, hi: int, canAllocate: bool) returns (badAlloc: bool)
    requires 0 <= lo <= hi <= a.Length
    modifies a
    ensures badAlloc <==> hi - lo > MSortMin && !canAllocate
    ensures badAlloc ==> unchanged(a)
    ensures !badAlloc ==> a[lo..hi] == StableSort(old(a[lo..hi]))
    ensures UnchangedOutside(a, lo, hi)
  {
    ghost var d := a[lo..hi];
    var ix := BuildEntries(a, lo, hi);
    badAlloc := SortEntries(ix, canAllocate);
    if !badAlloc {
      ApplyStableEntries(a, lo, hi, ix, d);
    }
  }

  /** `merge_sort` of the whole index, through a `merge_sort_tag`. */
  method SortEntries(ix: array<Elem>, canAllocate: bool) returns (badAlloc: bool)
    modifies ix
    ensures badAlloc <==> ix.Length > MSortMin && !canAllocate
    ensures badAlloc ==> unchanged(ix)
    ensures !badAlloc ==> ix[..] == StableSort(old(ix[..]))
  {
    ghost var e := ix[..];
    var tag := new MergeSortTag(ix, 0, ix.Length, canAllocate);
    badAlloc := tag.badAlloc;
    assert ix[..] == ix[0..ix.Length] && e == e[0..ix.Length];
  }
}
