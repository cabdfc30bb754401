/**
 * detail/intro_sort.hpp: the introsort of the `detail` namespace. Pivots
 * are medians of samples (`mid3`, `pivot3`, `mid9`, `pivot9`); a window
 * is split around the pivot by the two-scan partition of Hoare, windows
 * under 32 elements go to the insertion sort and, when the depth budget
 * `level` is spent, to the heap sort.
 *
 * The scans and the partition loop are shared with the introsort of the
 * `algorithm` namespace, which imports them.
 */
module DetailIntroSort {
  import opened Order
  import opened Arrays
  import opened InsertionSort
  import opened SortSupport
  import opened BitAlgorithm

  // ---------------------------------------------------------------- medians

  function Ind(b: bool): int { if b then 1 else 0 }

  /** How many of the keys `x`, `y`, `z` are at most `m`. */
  function NotAbove3(x: int, y: int, z: int, m: int): int {
    Ind(x <= m) + Ind(y <= m) + Ind(z <= m)
  }

  /** How many of the keys `x`, `y`, `z` are at least `m`. */
  function NotBelow3(x: int, y: int, z: int, m: int): int {
    Ind(x >= m) + Ind(y >= m) + Ind(z >= m)
  }

  /** `m` is a median of `x`, `y`, `z`: two of the three are at most `m` and two at least `m`. */
  predicate MedianOf3(x: int, y: int, z: int, m: int) {
    NotAbove3(x, y, z, m) >= 2 && NotBelow3(x, y, z, m) >= 2
  }

  /** `mid3(it_l, it_m, it_r, comp)`: the position, among the three, of a median of their elements. */
  function Mid3(s: seq<Elem>, l: int, m: int, r: int): (i: int)
    requires 0 <= l < |s| && 0 <= m < |s| && 0 <= r < |s|
    ensures i == l || i == m || i == r
    ensures MedianOf3(s[l].key, s[m].key, s[r].key, s[i].key)
  {
    if Less(s[l], s[m]) then
      (if Less(s[m], s[r]) then m else if Less(s[l], s[r]) then r else l)
    else
      (if Less(s[r], s[m]) then m else if Less(s[r], s[l]) then r else l)
  }

  /** The middle key of three, as the sum less the smallest and the largest. */
  function Middle(x: int, y: int, z: int): int {
    var lo := if x <= y && x <= z then x else if y <= z then y else z;
    var hi := if x >= y && x >= z then x else if y >= z then y else z;
    x + y + z - lo - hi
  }

  /** The key `mid3` selects is the middle key of the three: the median is unique. */
  lemma Mid3IsMiddle(s: seq<Elem>, l: int, m: int, r: int)
    requires 0 <= l < |s| && 0 <= m < |s| && 0 <= r < |s|
    ensures s[Mid3(s, l, m, r)].key == Middle(s[l].key, s[m].key, s[r].key)
  {
    var i := Mid3(s, l, m, r);
    assert MedianOf3(s[l].key, s[m].key, s[r].key, s[i].key);
  }

  /**
   * `mid9`: the median of the medians of three triples. At least four of
   * the nine samples are at most its key and at least four at least it.
   */
  function Mid9(s: seq<Elem>, i1: int, i2: int, i3: int, i4: int, i5: int,
                i6: int, i7: int, i8: int, i9: int): (r: int)
    requires 0 <= i1 < |s| && 0 <= i2 < |s| && 0 <= i3 < |s|
    requires 0 <= i4 < |s| && 0 <= i5 < |s| && 0 <= i6 < |s|
    requires 0 <= i7 < |s| && 0 <= i8 < |s| && 0 <= i9 < |s|
    ensures r in {i1, i2, i3, i4, i5, i6, i7, i8, i9}
    ensures NotAbove3(s[i1].key, s[i2].key, s[i3].key, s[r].key)
          + NotAbove3(s[i4].key, s[i5].key, s[i6].key, s[r].key)
          + NotAbove3(s[i7].key, s[i8].key, s[i9].key, s[r].key) >= 4
    ensures NotBelow3(s[i1].key, s[i2].key, s[i3].key, s[r].key)
          + NotBelow3(s[i4].key, s[i5].key, s[i6].key, s[r].key)
          + NotBelow3(s[i7].key, s[i8].key, s[i9].key, s[r].key) >= 4
  {
    Mid3(s, Mid3(s, i1, i2, i3), Mid3(s, i4, i5, i6), Mid3(s, i7, i8, i9))
  }

  /** The position `pivot3` moves to the front: a median of `first + 1`, the middle and `last - 1`. */
  function Pivot3Pos(s: seq<Elem>, lo: int, hi: int): (p: int)
    requires 0 <= lo && lo + 2 <= hi <= |s|
    ensures lo < p < hi
    ensures MedianOf3(s[lo + 1].key, s[lo + (hi - lo) / 2].key, s[hi - 1].key, s[p].key)
  {
    Mid3(s, lo + 1, lo + (hi - lo) / 2, hi - 1)
  }

  /** `pivot3(first, last, comp)`: swaps the median of three samples into `*first`. */
  method Pivot3(a: array<Elem>, lo: int, hi: int)
    requires 0 <= lo && lo + 2 <= hi <= a.Length
    modifies a
    ensures var p := Pivot3Pos(old(a[..]), lo, hi);
      a[..] == old(a[..])[lo := old(a[p])][p := old(a[lo])]
  {
    var n2 := (hi - lo) / 2;
    var it := Mid3(a[..], lo + 1, lo + n2, hi - 1);
    Swap(a, lo, it);
  }

  /**
   * After `pivot3` on a window of four or more, one of the two samples that
   * were not chosen is still in place and is not less than the pivot: the
   * sentinel that stops the first upward scan inside the window.
   */
  lemma UpperSample(s: seq<Elem>, lo: int, hi: int) returns (u: int)
    requires 0 <= lo && lo + 4 <= hi <= |s|
    ensures var p := Pivot3Pos(s, lo, hi);
      var t := s[lo := s[p]][p := s[lo]];
      lo < u < hi && !Less(t[u], t[lo])
  {
    var p := Pivot3Pos(s, lo, hi);
    var l, m, r := lo + 1, lo + (hi - lo) / 2, hi - 1;
    if p == l {
      u := if s[m].key >= s[p].key then m else r;
    } else if p == m {
      u := if s[l].key >= s[p].key then l else r;
    } else {
      u := if s[l].key >= s[p].key then l else m;
    }
  }

  /** The position `pivot9` moves to the front: `mid9` of nine evenly spaced samples. */
  function Pivot9Pos(s: seq<Elem>, lo: int, hi: int): (p: int)
    requires 0 <= lo && lo + 2 <= hi <= |s|
    ensures lo <= p < hi
  {
    var c := (hi - lo) / 8;
    Mid9(s, lo + 1, lo + c, lo + 2 * c, lo + 3 * c, lo + 4 * c, lo + 5 * c,
         lo + 6 * c, lo + 7 * c, hi - 1)
  }

  /** `pivot9(first, last, comp)`: swaps the median of medians of nine samples into `*first`. */
  method Pivot9(a: array<Elem>, lo: int, hi: int)
    requires 0 <= lo && lo + 2 <= hi <= a.Length
    modifies a
    ensures var p := Pivot9Pos(old(a[..]), lo, hi);
      a[..] == old(a[..])[lo := old(a[p])][p := old(a[lo])]
  {
    var itaux := Pivot9Pos(a[..], lo, hi);
    Swap(a, lo, itaux);
  }

  // ------------------------------------------------------------------ scans

  /**
   * Where `while (comp(*c_first, val)) ++c_first;` stops when started at
   * `i`: the first cell not less than `val`, or `hi` when every cell up to
   * the end of the window is less (the loop as written then reads `*last`).
   */
  function ScanUpStop(s: seq<Elem>, i: int, hi: int, val: Elem): (r: int)
    requires 0 <= i <= hi <= |s|
    ensures i <= r <= hi
    ensures forall k :: i <= k < r ==> Less(s[k], val)
    ensures r < hi ==> !Less(s[r], val)
    decreases hi - i
  {
    if i == hi then hi
    else if Less(s[i], val) then ScanUpStop(s, i + 1, hi, val)
    else i
  }

  /**
   * Where `while (comp(val, *c_last)) --c_last;` stops when started at
   * `j`: the last cell not greater than `val`, or `lo - 1` when every cell
   * down to the start of the window is greater.
   */
  function ScanDownStop(s: seq<Elem>, j: int, lo: int, val: Elem): (r: int)
    requires 0 <= lo && lo - 1 <= j < |s|
    ensures lo - 1 <= r <= j
    ensures forall k :: r < k <= j ==> Less(val, s[k])
    ensures r >= lo ==> !Less(val, s[r])
    decreases j - lo + 1
  {
    if j < lo then lo - 1
    else if Less(val, s[j]) then ScanDownStop(s, j - 1, lo, val)
    else j
  }

  /** The upward scan stops exactly at the first cell that is not less than `val`. */
  lemma {:induction false} ScanUpStopAt(s: seq<Elem>, i: int, hi: int, val: Elem, r: int)
    requires 0 <= i <= r < hi <= |s|
    requires forall k :: i <= k < r ==> Less(s[k], val)
    requires !Less(s[r], val)
    ensures ScanUpStop(s, i, hi, val) == r
    decreases r - i
  {
    if i < r {
      ScanUpStopAt(s, i + 1, hi, val, r);
    }
  }

  /** The downward scan stops exactly at the last cell that is not greater than `val`. */
  lemma {:induction false} ScanDownStopAt(s: seq<Elem>, j: int, lo: int, val: Elem, r: int)
    requires 0 <= lo <= r <= j < |s|
    requires forall k :: r < k <= j ==> Less(val, s[k])
    requires !Less(val, s[r])
    ensures ScanDownStop(s, j, lo, val) == r
    decreases j - r
  {
    if r < j {
      ScanDownStopAt(s, j - 1, lo, val, r);
    }
  }

  /**
   * An upward scan over cells less than `val` and a downward scan over
   * cells greater than `val` cannot pass each other by more than one cell.
   */
  lemma ScansMeet(s: seq<Elem>, val: Elem, i0: int, i: int, j: int, j0: int)
    requires 0 <= i0 <= i && 0 <= j <= j0 < |s| && i0 <= j + 1 && i <= j0 + 1
    requires forall k :: i0 <= k < i ==> Less(s[k], val)
    requires forall k :: j < k <= j0 ==> Less(val, s[k])
    ensures i <= j + 1
  {
    if j + 1 < |s| {
      assert Less(s[j + 1], val) ==> !Less(val, s[j + 1]);
    }
  }

  /** The unguarded upward scan of the partition, stopped by the cell at `u`. */
  method ScanUp(a: array<Elem>, i: int, hi: int, val: Elem, ghost u: int) returns (r: int)
    requires 0 <= i <= u < hi <= a.Length && !Less(a[u], val)
    ensures r == ScanUpStop(a[..], i, hi, val) && r <= u
  {
    r := i;
    while Less(a[r], val)
      invariant i <= r <= u
      invariant ScanUpStop(a[..], r, hi, val) == ScanUpStop(a[..], i, hi, val)
      decreases u - r
    {
      r := r + 1;
    }
  }

  /** The downward scan of the partition, stopped by the cell at `d`. */
  method ScanDown(a: array<Elem>, j: int, lo: int, val: Elem, ghost d: int) returns (r: int)
    requires 0 <= lo <= d <= j < a.Length && !Less(val, a[d])
    ensures r == ScanDownStop(a[..], j, lo, val) && d <= r
  {
    r := j;
    while Less(val, a[r])
      invariant d <= r <= j
      invariant ScanDownStop(a[..], r, lo, val) == ScanDownStop(a[..], j, lo, val)
      decreases r - d
    {
      r := r - 1;
    }
  }

  /**
   * The upward scan of the partition loop, bounded by the end of the
   * window: it stops at the first cell not less than `val`, or at `hi`.
   * The loop as written has no bound; it only makes a difference where the
   * loop as written reads `*last` (see `OverrunsAsWritten`).
   */
  method ScanUpBounded(a: array<Elem>, i: int, hi: int, val: Elem) returns (r: int)
    requires 0 <= i <= hi <= a.Length
    ensures r == ScanUpStop(a[..], i, hi, val)
  {
    r := i;
    while r != hi && Less(a[r], val)
      invariant i <= r <= hi
      invariant ScanUpStop(a[..], r, hi, val) == ScanUpStop(a[..], i, hi, val)
      decreases hi - r
    {
      r := r + 1;
    }
  }

  // -------------------------------------------------------------- partition

  /**
   * The state the partition loop keeps, with the pivot `val` at `lo`:
   * `c_first` (i) rests on a cell not less than the pivot, or on `hi`, and
   * `c_last` (j) on one not greater; everything from `lo` up to `i` is at
   * most the pivot and everything after `j` at least the pivot.
   */
  ghost predicate Partitioned(s: seq<Elem>, lo: int, hi: int, val: Elem, i: int, j: int) {
    0 <= lo < i <= hi <= |s| && lo <= j < hi &&
    (i < hi ==> !Less(s[i], val)) && !Less(val, s[j]) &&
    AtMost(s, lo, i, val.key) && AtLeast(s, j + 1, hi, val.key)
  }

  /**
   * One round of the partition loop: swap the two misplaced cells (the
   * same cell when the scans meet), step past them and scan again. The
   * downward scan is stopped by the cell just swapped in below it, or by
   * the cell before a meeting point.
   */
  method PartitionStep(a: array<Elem>, lo: int, hi: int, val: Elem, i: int, j: int)
      returns (i': int, j': int)
    requires Partitioned(a[..], lo, hi, val, i, j) && i <= j
    modifies a
    ensures Partitioned(a[..], lo, hi, val, i', j') && j' - i' < j - i
    ensures Perm(a[..], old(a[..]), lo + 1, hi)
  {
    ghost var s := a[..];
    Swap(a, i, j);
    SwapPerm(s, i, j, lo + 1, hi);
    ghost var d := if i < j then i else j - 1;
    i' := ScanUpBounded(a, i + 1, hi, val);
    j' := ScanDown(a, j - 1, lo, val, d);
  }

  /**
   * The loop `while (!(c_first > c_last)) { swap; scan; scan; }`. It ends
   * with the scans crossed; the cells between them then hold the pivot's
   * key.
   */
  method PartitionLoop(a: array<Elem>, lo: int, hi: int, val: Elem, i0: int, j0: int)
      returns (i: int, j: int)
    requires Partitioned(a[..], lo, hi, val, i0, j0)
    modifies a
    ensures Partitioned(a[..], lo, hi, val, i, j) && j < i
    ensures Perm(a[..], old(a[..]), lo + 1, hi)
  {
    ghost var s0 := a[..];
    i, j := i0, j0;
    while i <= j
      invariant Partitioned(a[..], lo, hi, val, i, j)
      invariant Perm(a[..], s0, lo + 1, hi)
      decreases j - i + 2
    {
      ghost var s := a[..];
      i, j := PartitionStep(a, lo, hi, val, i, j);
      PermTrans(a[..], s, s0, lo + 1, hi, lo + 1, hi);
    }
  }

  /**
   * The partition that follows the first upward scan, which stopped at `i`
   * inside the window: the downward scan, the loop, and the final swap of
   * the pivot into `*c_last`. The pivot ends at `cl`; [lo, cf) holds keys
   * at most the pivot's and [cl, hi) keys at least it, so the cells from
   * `cl` to `cf` all hold the pivot's key.
   */
  method PartitionFrom(a: array<Elem>, lo: int, hi: int, i: int) returns (cl: int, cf: int)
    requires 0 <= lo < i < hi <= a.Length && i == ScanUpStop(a[..], lo + 1, hi, a[lo])
    modifies a
    ensures lo <= cl < cf <= hi
    ensures a[cl] == old(a[lo])
    ensures AtMost(a[..], lo, cf, old(a[lo]).key) && AtLeast(a[..], cl, hi, old(a[lo]).key)
    ensures Perm(a[..], old(a[..]), lo, hi)
  {
    ghost var s0 := a[..];
    var val := a[lo];
    var j := ScanDown(a, hi - 1, lo, val, lo);
    assert Partitioned(a[..], lo, hi, val, i, j);
    var i2, j2 := PartitionLoop(a, lo, hi, val, i, j);
    ghost var s1 := a[..];
    Swap(a, lo, j2);
    SwapPerm(s1, lo, j2, lo, hi);
    PermTrans(a[..], s1, s0, lo, hi, lo + 1, hi);
    cl, cf := j2, i2;
  }

  // ---------------------------------------------------------------- sorting

  /** `insertion_sort` on a window, stated as the unstable sorts use it. */
  method SmallSort(a: array<Elem>, lo: int, hi: int)
    requires 0 <= lo <= hi <= a.Length
    modifies a
    ensures Sorted(a[lo..hi]) && Perm(a[..], old(a[..]), lo, hi)
  {
    ghost var s := a[..];
    InsertionSort.InsertionSort(a, lo, hi);
    InsertionSortSorts(s[lo..hi]);
    SlicePerm(a[..], s, lo, hi);
  }

  /**
   * After both sides of a partition are sorted the whole window is sorted:
   * `s1` is the window after the partition, `s2` after sorting [lo, cl),
   * `s3` after sorting [cf, hi); the cells from `cl` to `cf` are left alone.
   */
  lemma SortedAroundPivot(s1: seq<Elem>, s2: seq<Elem>, s3: seq<Elem>,
                          lo: int, cl: int, cf: int, hi: int, pk: int)
    requires 0 <= lo <= cl < cf <= hi <= |s1| && |s2| == |s1| && |s3| == |s1|
    requires AtMost(s1, lo, cf, pk) && AtLeast(s1, cl, hi, pk)
    requires Sorted(s2[lo..cl]) && Perm(s2, s1, lo, cl)
    requires Sorted(s3[cf..hi]) && Perm(s3, s2, cf, hi)
    ensures Sorted(s3[lo..hi]) && Perm(s3, s1, lo, hi)
  {
    AtMostKept(s2, s1, lo, cl, pk);
    assert AtLeast(s2, cf, hi, pk);
    AtLeastKept(s3, s2, cf, hi, pk);
    assert s3[lo..cl] == s2[lo..cl];
    JoinSorted(s3, lo, cl, cf, hi, pk);
  }

  /**
   * `intro_sort_internal(first, last, level, comp)` on [lo, hi): the window
   * ends up sorted and holding the same elements, and nothing outside it
   * changes.
   */
  method IntroSortInternal(a: array<Elem>, lo: int, hi: int, level: bv32)
    requires 0 <= lo <= hi <= a.Length
    modifies a
    ensures Sorted(a[lo..hi]) && Perm(a[..], old(a[..]), lo, hi)
    decreases hi - lo
  {
    if hi - lo < 32 {
      SmallSort(a, lo, hi);
      return;
    }
    if level == 0 {
      HeapSort(a, lo, hi);
      return;
    }
    ghost var s0 := a[..];
    Pivot3(a, lo, hi);
    SwapPerm(s0, lo, Pivot3Pos(s0, lo, hi), lo, hi);
    ghost var u := UpperSample(s0, lo, hi);
    var i := ScanUp(a, lo + 1, hi, a[lo], u);
    ghost var s1 := a[..];
    var cl, cf := PartitionFrom(a, lo, hi, i);
    ghost var s2 := a[..];
    IntroSortInternal(a, lo, cl, level - 1);
    ghost var s3 := a[..];
    IntroSortInternal(a, cf, hi, level - 1);
    SortedAroundPivot(s2, s3, a[..], lo, cl, cf, hi, s2[cl].key);
    PermTrans(a[..], s2, s1, lo, hi, lo, hi);
    PermTrans(a[..], s1, s0, lo, hi, lo, hi);
  }

  /**
   * The depth budget of `intro_sort`: `((nbits64(nelem) - 4) * 3) / 2` in
   * 32-bit unsigned arithmetic, where `nbits64` is the bit length `NBits`
   * of the 64-bit size.
   */
  function DetailLevel(n: bv64): bv32 {
    ((NBits64(n) - 4) * 3) / 2
  }

  /** The bit length of a size of 32 or more is at least 6; of a size under 8, at most 3. */
  lemma NBits64Bounds(n: bv64)
    ensures n >= 32 ==> 6 <= NBits64(n) <= 64
    ensures 0 < n < 8 ==> 1 <= NBits64(n) <= 3
  {
  }

  /** The 32-bit formula of the budget on the bit lengths it meets. */
  lemma LevelFormula(nb: bv32)
    ensures 6 <= nb <= 64 ==> (((nb - 4) * 3) / 2) as int == ((nb as int - 4) * 3) / 2 >= 3
    ensures 1 <= nb <= 3 ==> ((nb - 4) * 3) / 2 >= 0x7FFF_FFFB
  {
  }

  /**
   * For the windows that are partitioned (32 elements or more), the
   * budget is one and a half times the bit length less four, without
   * wrap-around; for fewer than 8 elements the subtraction wraps and the
   * budget is huge, which is harmless because such windows go straight to
   * the insertion sort.
   */
  lemma DetailLevelValue(n: bv64)
    ensures n >= 32 ==> DetailLevel(n) as int == ((NBits64(n) as int - 4) * 3) / 2 >= 3
    ensures 0 < n < 8 ==> DetailLevel(n) >= 0x7FFF_FFFB
  {
    NBits64Bounds(n);
    LevelFormula(NBits64(n));
  }

  /**
   * `intro_sort(first, last, comp)` on the non-empty window [lo, hi): an
   * already nondecreasing window is returned unchanged; otherwise the
   * window is sorted with the depth budget `DetailLevel`.
   */
  method IntroSort(a: array<Elem>, lo: int, hi: int)
    requires 0 <= lo < hi <= a.Length && hi - lo < 0x1_0000_0000_0000_0000
    modifies a
    ensures Sorted(a[lo..hi]) && multiset(a[lo..hi]) == multiset(old(a[lo..hi]))
    ensures UnchangedOutside(a, lo, hi)
    ensures old(Sorted(a[lo..hi])) ==> a[..] == old(a[..])
  {
    ghost var s0 := a[..];
    var sw := CheckIfSorted(a, lo, hi);
    if sw {
      return;
    }
    var level := DetailLevel((hi - lo) as bv64);
    IntroSortInternal(a, lo, hi, level);
    PermSlice(a[..], s0, lo, hi);
  }

  // ------------------------------------------------ the loop guard as written

  /**
   * The partition loop as written, `while (!(c_first > c_last))`, run from
   * the scan positions `(i, j)`: true when some later read of the loop
   * falls outside the window — after the swap step `++c_first` reaches
   * `last` and `*last` is read, or a scan runs off an end.
   */
  predicate OverrunsAsWritten(s: seq<Elem>, lo: int, hi: int, val: Elem, i: int, j: int)
    requires 0 <= lo < i < hi <= |s| && lo <= j < hi
    decreases j - i + 1
  {
    if i > j then false
    else
      var t := s[i := s[j]][j := s[i]];
      if i + 1 == hi then true
      else
        var i2 := ScanUpStop(t, i + 1, hi, val);
        var j2 := ScanDownStop(t, j - 1, lo, val);
        i2 == hi || j2 < lo || OverrunsAsWritten(t, lo, hi, val, i2, j2)
  }

  /**
   * With the pivot at `lo`, every cell strictly between less than it and
   * the last cell equal to it, both first scans stop on the last cell; the
   * loop as written then swaps that cell with itself, steps `c_first` onto
   * `last` and reads `*last`, while `ScanUpBounded` stops there.
   */
  lemma OverrunAsWritten(s: seq<Elem>, lo: int, hi: int)
    requires 0 <= lo && lo + 2 <= hi <= |s|
    requires forall k :: lo < k < hi - 1 ==> Less(s[k], s[lo])
    requires s[hi - 1].key == s[lo].key
    ensures ScanUpStop(s, lo + 1, hi, s[lo]) == hi - 1
    ensures ScanDownStop(s, hi - 1, lo, s[lo]) == hi - 1
    ensures OverrunsAsWritten(s, lo, hi, s[lo], hi - 1, hi - 1)
    ensures Partitioned(s, lo, hi, s[lo], hi - 1, hi - 1)
  {
    ScanUpStopAt(s, lo + 1, hi, s[lo], hi - 1);
    ScanDownStopAt(s, hi - 1, lo, s[lo], hi - 1);
  }

  /**
   * A 32-element window that `pivot3` turns into that shape: samples with
   * keys 2, 1 and 2 at `first + 1`, the middle and `last - 1`, everything
   * else 0. `mid3` picks `first + 1`, the pivot key is 2, and the only other
   * 2 is the last cell.
   */
  lemma DetailOverrunWitness()
    ensures var t := seq(32, k => if k == 1 || k == 31 then Elem(2, k) else if k == 16 then Elem(1, k) else Elem(0, k));
      Pivot3Pos(t, 0, 32) == 1 &&
      var s := t[0 := t[1]][1 := t[0]];
      OverrunsAsWritten(s, 0, 32, s[0], ScanUpStop(s, 1, 32, s[0]), ScanDownStop(s, 31, 0, s[0]))
  {
    var t := seq(32, k => if k == 1 || k == 31 then Elem(2, k) else if k == 16 then Elem(1, k) else Elem(0, k));
    assert Pivot3Pos(t, 0, 32) == 1;
    var s := t[0 := t[1]][1 := t[0]];
    OverrunAsWritten(s, 0, 32);
  }
}
