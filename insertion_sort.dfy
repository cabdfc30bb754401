/**
 * `insertion_sort(first, last, comp)`, of which the library keeps two
 * identical copies (detail/insertion_sort.hpp and
 * algorithm/insertion_sort.hpp): each element in turn is taken out and the
 * greater elements before it are shifted one place right until its slot
 * is found.
 */
module InsertionSort
{
  import opened Order
  import opened Arrays

  /**
   * Where the shifting loop stops: `x` goes in at `j` when every element
   * from `j` on is greater than `x` and the one before `j`, if any, is not.
   */
  lemma {:induction false} InsertAt(p: seq<Elem>, x: Elem, j: int)
    requires 0 <= j <= |p|
    requires forall i :: j <= i < |p| ==> Less(x, p[i])
    requires j == 0 || !Less(x, p[j - 1])
    ensures Insert(p, x) == p[..j] + [x] + p[j..]
    decreases |p| - j
  {
    if j < |p| {
      var q := p[..|p| - 1];
      InsertAt(q, x, j);
      assert q[..j] == p[..j];
      assert p[j..] == q[j..] + [p[|p| - 1]];
    } else {
      assert p[..j] == p;
    }
  }

  /** The reference sort of one element more is that element inserted. */
  lemma StableSortNext(s: seq<Elem>, k: int)
    requires 0 <= k < |s|
    ensures StableSort(s[..k + 1]) == Insert(StableSort(s[..k]), s[k])
  {
    assert s[..k + 1][..k] == s[..k];
  }

  /**
   * The slice after the shifting loop has stopped at `beta` and `x` has
   * been written there: the prefix of `p` below `beta`, then `x`, then the
   * rest of `p` one place to the right; that is `Insert(p, x)`.
   */
  lemma {:induction false} ShiftedSlice(t: seq<Elem>, p: seq<Elem>, x: Elem, lo: int, beta: int, alfa: int)
    requires 0 <= lo <= beta <= alfa < |t| && |p| == alfa - lo
    requires forall i :: lo <= i < beta ==> t[i] == p[i - lo]
    requires t[beta] == x
    requires forall i :: beta < i <= alfa ==> t[i] == p[i - 1 - lo]
    requires forall i :: beta - lo <= i < |p| ==> Less(x, p[i])
    requires beta == lo || !Less(x, p[beta - 1 - lo])
    ensures t[lo..alfa + 1] == Insert(p, x)
  {
    var j := beta - lo;
    InsertAt(p, x, j);
    var r := p[..j] + [x] + p[j..];
    forall i | lo <= i < alfa + 1
      ensures t[i] == r[i - lo]
    {
      if i < beta {
        assert r[i - lo] == p[..j][i - lo];
      } else if i > beta {
        assert r[i - lo] == p[j..][i - lo - j - 1];
      }
    }
    SliceFromCells(t, lo, alfa + 1, r);
  }

  /**
   * One pass of the outer loop: `a[alfa]` is moved down into the sorted
   * slice `[lo, alfa)`, past the elements strictly greater than it.
   */
  method ShiftInsert(a: array<Elem>, lo: int, alfa: int)
    requires 0 <= lo < alfa < a.Length
    modifies a
    ensures a[lo..alfa + 1] == Insert(old(a[lo..alfa]), old(a[alfa]))
    ensures UnchangedOutside(a, lo, alfa + 1)
  {
    ghost var p := a[lo..alfa];
    var aux := a[alfa];
    var beta := alfa;
    while beta != lo && Less(aux, a[beta - 1])
      invariant lo <= beta <= alfa
      invariant forall i :: lo <= i < beta ==> a[i] == p[i - lo]
      invariant forall i :: beta < i <= alfa ==> a[i] == p[i - 1 - lo]
      invariant forall i :: beta - lo <= i < |p| ==> Less(aux, p[i])
      invariant UnchangedOutside(a, lo, alfa + 1)
      decreases beta
    {
      a[beta] := a[beta - 1];
      beta := beta - 1;
    }
    a[beta] := aux;
    ShiftedSlice(a[..], p, aux, lo, beta, alfa);
  }

  /**
   * The body of the outer loop: with `[lo, alfa)` holding the stable sort
   * of the first elements of `s` and `[alfa, hi)` still the rest of `s`,
   * one more element joins the sorted prefix.
   */
  method SortStep(a: array<Elem>, lo: int, hi: int, alfa: int, ghost s: seq<Elem>)
    requires 0 <= lo < alfa < hi <= a.Length && |s| == hi - lo
    requires a[lo..alfa] == StableSort(s[..alfa - lo])
    requires a[alfa..hi] == s[alfa - lo..]
    modifies a
    ensures a[lo..alfa + 1] == StableSort(s[..alfa + 1 - lo])
    ensures a[alfa + 1..hi] == s[alfa + 1 - lo..]
    ensures UnchangedOutside(a, lo, hi)
  {
    ghost var before := a[..];
    assert a[alfa] == s[alfa - lo];
    assert before[alfa + 1..hi] == s[alfa + 1 - lo..] by {
      assert before[alfa + 1..hi] == before[alfa..hi][1..];
      assert s[alfa + 1 - lo..] == s[alfa - lo..][1..];
    }
    StableSortNext(s, alfa - lo);
    ShiftInsert(a, lo, alfa);
    KeptSlice(before, a[..], alfa + 1, hi, lo, alfa + 1);
  }

  /**
   * `insertion_sort(first, last, comp)` on the slice `[lo, hi)` of `a`:
   * the slice ends up as the stable sort of what it held, and no other
   * cell changes. Fewer than two elements are left as they are.
   */
  method InsertionSort(a: array<Elem>, lo: int, hi: int)
    requires 0 <= lo <= hi <= a.Length
    modifies a
    ensures a[lo..hi] == StableSort(old(a[lo..hi]))
    ensures UnchangedOutside(a, lo, hi)
  {
    if hi - lo < 2 {
      StableSortOfSorted(a[lo..hi]);
      return;
    }
    ghost var s := a[lo..hi];
    var alfa := lo + 1;
    assert s[..1] == [s[0]];
    while alfa != hi
      invariant lo < alfa <= hi
      invariant a[lo..alfa] == StableSort(s[..alfa - lo])
      invariant a[alfa..hi] == s[alfa - lo..]
      invariant UnchangedOutside(a, lo, hi)
      decreases hi - alfa
    {
      SortStep(a, lo, hi, alfa, s);
      alfa := alfa + 1;
    }
    assert s[..hi - lo] == s;
  }

  /** An insertion sort leaves a nondecreasing slice: stably, and with the same elements. */
  lemma InsertionSortSorts(s: seq<Elem>)
    ensures Sorted(StableSort(s)) && multiset(StableSort(s)) == multiset(s)
    ensures SameKeyOrder(StableSort(s), s)
  {
    StableSortIsStableSortOf(s);
    StableSortPermutation(s);
  }
}
