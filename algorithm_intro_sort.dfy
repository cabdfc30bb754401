/**
 * The second, simpler intro sort (algorithm/intro_sort.hpp): the pivot is
 * the middle element instead of a median, the depth budget is three times
 * the index of the highest set bit of the size, the "already sorted" scan
 * runs at every level of the recursion, and a pivot greater than every
 * other element is moved to the end without a partition.
 *
 * The partition loop itself is the one of the other intro sort, with the
 * same bound on its upward scan; the scans, the partition and the joining
 * lemma are shared with `DetailIntroSort`.
 */
module AlgorithmIntroSort {
  import opened Order
  import opened Arrays
  import opened SortSupport
  import opened BitAlgorithm
  import opened Metaprog
  import opened DetailIntroSort
  import opened Indirect
  import opened IndexEntries

  /**
   * `intro_sort_internal(first, last, Level, comp)` on [lo, hi): the window
   * ends up sorted and holding the same elements, nothing outside it
   * changes, and a window of 32 or more that is already nondecreasing is
   * left untouched while the budget lasts.
   */
  method IntroSortInternal(a: array<Elem>, lo: int, hi: int, level: bv32)
    requires 0 <= lo <= hi <= a.Length
    modifies a
    ensures Sorted(a[lo..hi]) && Perm(a[..], old(a[..]), lo, hi)
    ensures level != 0 && hi - lo >= 32 && old(Sorted(a[lo..hi])) ==> unchanged(a)
    decreases hi - lo, 1
  {
    if hi - lo < 32 {
      SmallSort(a, lo, hi);
      return;
    }
    if level == 0 {
      HeapSort(a, lo, hi);
      return;
    }
    var sw := CheckIfSorted(a, lo, hi);
    if sw {
      return;
    }
    ghost var s0 := a[..];
    var n2 := (hi - lo + 1) / 2;
    Swap(a, lo, lo + n2);
    SwapPerm(s0, lo, lo + n2, lo, hi);
    ghost var s1 := a[..];
    var i := ScanUpBounded(a, lo + 1, hi, a[lo]);
    if i == hi {
      PivotToEnd(a, lo, hi, level);
    } else {
      PartitionAndSort(a, lo, hi, i, level);
    }
    PermTrans(a[..], s1, s0, lo, hi, lo, hi);
  }

  /**
   * The branch for a pivot greater than every other element: it is swapped
   * to the last cell and only the cells before it are sorted further.
   */
  method PivotToEnd(a: array<Elem>, lo: int, hi: int, level: bv32)
    requires 0 <= lo && lo + 32 <= hi <= a.Length && level != 0
    requires ScanUpStop(a[..], lo + 1, hi, a[lo]) == hi
    modifies a
    ensures Sorted(a[lo..hi]) && Perm(a[..], old(a[..]), lo, hi)
    decreases hi - lo, 0
  {
    ghost var s1 := a[..];
    Swap(a, lo, hi - 1);
    ghost var s2 := a[..];
    IntroSortInternal(a, lo, hi - 1, level - 1);
    SortedBelowPivot(s1, s2, a[..], lo, hi);
  }

  /**
   * The bookkeeping of that branch on the window before the swap (`s1`),
   * after it (`s2`) and after sorting the cells before the pivot (`s3`).
   */
  lemma SortedBelowPivot(s1: seq<Elem>, s2: seq<Elem>, s3: seq<Elem>, lo: int, hi: int)
    requires 0 <= lo < hi - 1 && hi <= |s1| && ScanUpStop(s1, lo + 1, hi, s1[lo]) == hi
    requires s2 == s1[lo := s1[hi - 1]][hi - 1 := s1[lo]]
    requires |s3| == |s1| && Sorted(s3[lo..hi - 1]) && Perm(s3, s2, lo, hi - 1)
    ensures Sorted(s3[lo..hi]) && Perm(s3, s1, lo, hi)
  {
    PivotLast(s1, lo, hi);
    SwapPerm(s1, lo, hi - 1, lo, hi);
    SortedAroundPivot(s2, s3, s3, lo, hi - 1, hi, hi, s1[lo].key);
    PermTrans(s3, s2, s1, lo, hi, lo, hi);
  }

  /**
   * The partition branch: the window is split around the pivot and each
   * side of more than one element is sorted further.
   */
  method PartitionAndSort(a: array<Elem>, lo: int, hi: int, i: int, level: bv32)
    requires 0 <= lo < i < hi <= a.Length && level != 0
    requires i == ScanUpStop(a[..], lo + 1, hi, a[lo])
    modifies a
    ensures Sorted(a[lo..hi]) && Perm(a[..], old(a[..]), lo, hi)
    decreases hi - lo, 0
  {
    ghost var s1 := a[..];
    var cl, cf := PartitionFrom(a, lo, hi, i);
    ghost var s2 := a[..];
    if cl - lo > 1 {
      IntroSortInternal(a, lo, cl, level - 1);
    }
    ghost var s3 := a[..];
    if hi - cf > 1 {
      IntroSortInternal(a, cf, hi, level - 1);
    }
    SortedAroundPivot(s2, s3, a[..], lo, cl, cf, hi, s2[cl].key);
    PermTrans(a[..], s2, s1, lo, hi, lo, hi);
  }

  /**
   * When the scan from `lo + 1` runs to the end, every cell after the pivot
   * is less than it; swapping the pivot to the last cell leaves the rest at
   * most the pivot's key.
   */
  lemma PivotLast(s: seq<Elem>, lo: int, hi: int)
    requires 0 <= lo < hi - 1 && hi <= |s| && ScanUpStop(s, lo + 1, hi, s[lo]) == hi
    ensures var t := s[lo := s[hi - 1]][hi - 1 := s[lo]];
      AtMost(t, lo, hi, s[lo].key) && AtLeast(t, hi - 1, hi, s[lo].key)
  {
  }

  /**
   * The depth budget of `intro_sort`: `MS1B(N) * 3` in 32-bit arithmetic,
   * with `MS1B` the 64-bit highest-bit index. It is a multiple of three
   * whose third is the index of the highest set bit of a non-zero size.
   */
  function IntroLevel(n: bv64): (l: bv32)
    ensures l % 3 == 0 && l / 3 < 64
    ensures n != 0 ==> HighestBit64(n, l / 3)
    ensures n == 0 ==> l == 0
  {
    LevelThird(MS1B64(n));
    MS1B64(n) * 3
  }

  /** Three times a bit index below 64 does not wrap, and its third is the index again. */
  lemma LevelThird(p: bv32)
    requires p < 64
    ensures (p * 3) % 3 == 0 && (p * 3) / 3 == p
  {
  }

  /** A window of two or more elements gets a non-zero budget, and one of 32 or more at least 15. */
  lemma IntroLevelPositive(n: bv64)
    requires n >= 2
    ensures IntroLevel(n) != 0
    ensures n >= 32 ==> IntroLevel(n) >= 15
  {
    var p := IntroLevel(n) / 3;
    assert HighestBit64(n, p);
    HighestBitFloor(n, p);
  }

  /** A size of at least 2 has its highest set bit at 1 or above; one of at least 32, at 5 or above. */
  lemma HighestBitFloor(n: bv64, p: bv32)
    requires HighestBit64(n, p)
    ensures n >= 2 ==> p >= 1
    ensures n >= 32 ==> p >= 5
  {
  }

  /**
   * `intro_sort(first, last, comp)` on the non-empty window [lo, hi): the
   * window ends up a nondecreasing rearrangement of itself, nothing outside
   * it changes.
   */
  method IntroSort(a: array<Elem>, lo: int, hi: int)
    requires 0 <= lo < hi <= a.Length && hi - lo < 0x1_0000_0000_0000_0000
    modifies a
    ensures Sorted(a[lo..hi]) && multiset(a[lo..hi]) == multiset(old(a[lo..hi]))
    ensures UnchangedOutside(a, lo, hi)
  {
    ghost var s0 := a[..];
    var level := IntroLevel((hi - lo) as bv64);
    IntroSortInternal(a, lo, hi, level);
    PermSlice(a[..], s0, lo, hi);
  }

  /** `sort(first, last, Level, comp)`: the level argument is ignored and the window is intro-sorted. */
  method Sort(a: array<Elem>, lo: int, hi: int, level: bv32)
    requires 0 <= lo < hi <= a.Length && hi - lo < 0x1_0000_0000_0000_0000
    modifies a
    ensures Sorted(a[lo..hi]) && multiset(a[lo..hi]) == multiset(old(a[lo..hi]))
    ensures UnchangedOutside(a, lo, hi)
  {
    IntroSort(a, lo, hi);
  }

  /**
   * `indirect_intro_sort(first, last, comp)`: an index of the window's
   * positions is built, intro-sorted by pointee, and then applied to the
   * data with `sort_index`. The window ends up a nondecreasing
   * rearrangement of itself and nothing outside it changes.
   */
  method IndirectIntroSort(a: array<Elem>, lo: int, hi: int)
    requires 0 <= lo < hi <= a.Length && hi - lo < 0x1_0000_0000_0000_0000
    modifies a
    ensures Sorted(a[lo..hi]) && multiset(a[lo..hi]) == multiset(old(a[lo..hi]))
    ensures UnchangedOutside(a, lo, hi)
  {
    var n := hi - lo;
    ghost var d := a[lo..hi];
    var ix := BuildEntries(a, lo, hi);
    ghost var e0 := ix[..];
    IntroSort(ix, 0, n);
    assert ix[..] == ix[0..n] && e0 == e0[0..n];
    ApplySortedEntries(a, lo, hi, ix, d);
  }

  /**
   * A 32-element window whose middle cell (offset `(N + 1) / 2 == 16`)
   * holds the largest key, shared only with the last cell. After the pivot
   * swap the first scan stops on the last cell without reaching `last`, so
   * the partition branch is taken, and the guard as written lets the swap
   * step move `c_first` onto `last` and read `*last`.
   */
  lemma AlgorithmOverrunWitness()
    ensures var t := seq(32, k => if k == 16 || k == 31 then Elem(2, k) else Elem(0, k));
      !Sorted(t) &&
      var s := t[0 := t[16]][16 := t[0]];
      ScanUpStop(s, 1, 32, s[0]) == 31 &&
      OverrunsAsWritten(s, 0, 32, s[0], 31, ScanDownStop(s, 31, 0, s[0]))
  {
    var t := seq(32, k => if k == 16 || k == 31 then Elem(2, k) else Elem(0, k));
    assert t[16].key > t[17].key;
    var s := t[0 := t[16]][16 := t[0]];
    OverrunAsWritten(s, 0, 32);
  }
}
