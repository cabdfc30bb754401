// Vocabulary shared by the unstable in-place sorts (the two intro sorts and
// the sorts built on them): a permutation of a window of an array, the
// swap that produces one, the bounds a partition leaves, and the
// "already sorted" scan the sorts run before doing any work.

module SortSupport {
  import opened Order
  import opened Arrays
  import opened InsertionSort

  /** `t` holds the elements of `s`, rearranged only inside [lo, hi). */
  ghost predicate Perm(t: seq<Elem>, s: seq<Elem>, lo: int, hi: int) {
    |t| == |s| && multiset(t) == multiset(s) &&
    forall k :: 0 <= k < |s| && !(lo <= k < hi) ==> t[k] == s[k]
  }

  /** Every key in [lo, hi) is at most `pk`. */
  ghost predicate AtMost(s: seq<Elem>, lo: int, hi: int, pk: int) {
    forall k :: lo <= k < hi && 0 <= k < |s| ==> s[k].key <= pk
  }

  /** Every key in [lo, hi) is at least `pk`. */
  ghost predicate AtLeast(s: seq<Elem>, lo: int, hi: int, pk: int) {
    forall k :: lo <= k < hi && 0 <= k < |s| ==> s[k].key >= pk
  }

  /** Swapping two cells keeps the multiset of elements. */
  lemma SwapMultiset(s: seq<Elem>, i: int, j: int)
    requires 0 <= i < |s| && 0 <= j < |s|
    ensures multiset(s[i := s[j]][j := s[i]]) == multiset(s)
  {
    var t1 := s[i := s[j]];
    assert multiset(t1) == multiset(s) - multiset{s[i]} + multiset{s[j]};
    assert t1[j] == s[j];
  }

  /** Swapping two cells of the window rearranges the window only. */
  lemma SwapPerm(s: seq<Elem>, i: int, j: int, lo: int, hi: int)
    requires lo <= i < hi && lo <= j < hi && 0 <= lo && hi <= |s|
    ensures Perm(s[i := s[j]][j := s[i]], s, lo, hi)
  {
    SwapMultiset(s, i, j);
  }

  /** A rearrangement of a sub-window followed by one of a window around it is a rearrangement of the window. */
  lemma PermTrans(u: seq<Elem>, t: seq<Elem>, s: seq<Elem>, lo: int, hi: int, lo2: int, hi2: int)
    requires Perm(u, t, lo, hi) && Perm(t, s, lo2, hi2) && lo <= lo2 && hi2 <= hi
    ensures Perm(u, s, lo, hi)
  {
  }

  /** Rearranging a window keeps the multiset of the window itself. */
  lemma PermSlice(t: seq<Elem>, s: seq<Elem>, lo: int, hi: int)
    requires 0 <= lo <= hi <= |s| && Perm(t, s, lo, hi)
    ensures multiset(t[lo..hi]) == multiset(s[lo..hi])
  {
    assert t[..lo] == s[..lo];
    assert t[hi..] == s[hi..];
    ThreeParts(t, lo, hi);
    ThreeParts(s, lo, hi);
    forall x
      ensures multiset(t[lo..hi])[x] == multiset(s[lo..hi])[x]
    {
      assert multiset(t)[x] == multiset(s)[x];
    }
  }

  lemma ThreeParts(s: seq<Elem>, lo: int, hi: int)
    requires 0 <= lo <= hi <= |s|
    ensures multiset(s) == multiset(s[..lo]) + multiset(s[lo..hi]) + multiset(s[hi..])
  {
    assert s == s[..lo] + s[lo..hi] + s[hi..];
  }

  /** Conversely, a window with the same multiset and the rest kept is a rearrangement of the window. */
  lemma SlicePerm(t: seq<Elem>, s: seq<Elem>, lo: int, hi: int)
    requires 0 <= lo <= hi <= |s| && |t| == |s|
    requires multiset(t[lo..hi]) == multiset(s[lo..hi])
    requires forall k :: 0 <= k < |s| && !(lo <= k < hi) ==> t[k] == s[k]
    ensures Perm(t, s, lo, hi)
  {
    assert t == t[..lo] + t[lo..hi] + t[hi..];
    assert s == s[..lo] + s[lo..hi] + s[hi..];
    assert t[..lo] == s[..lo];
    assert t[hi..] == s[hi..];
  }

  /** A rearrangement of a window keeps every upper bound of the window's keys. */
  lemma AtMostKept(t: seq<Elem>, s: seq<Elem>, lo: int, hi: int, pk: int)
    requires 0 <= lo <= hi <= |s| && Perm(t, s, lo, hi) && AtMost(s, lo, hi, pk)
    ensures AtMost(t, lo, hi, pk)
  {
    PermSlice(t, s, lo, hi);
    forall k | lo <= k < hi
      ensures t[k].key <= pk
    {
      assert t[k] == t[lo..hi][k - lo];
      assert t[k] in multiset(s[lo..hi]);
      var m :| 0 <= m < hi - lo && s[lo..hi][m] == t[k];
      assert s[lo + m] == t[k];
    }
  }

  /** A rearrangement of a window keeps every lower bound of the window's keys. */
  lemma AtLeastKept(t: seq<Elem>, s: seq<Elem>, lo: int, hi: int, pk: int)
    requires 0 <= lo <= hi <= |s| && Perm(t, s, lo, hi) && AtLeast(s, lo, hi, pk)
    ensures AtLeast(t, lo, hi, pk)
  {
    PermSlice(t, s, lo, hi);
    forall k | lo <= k < hi
      ensures t[k].key >= pk
    {
      assert t[k] == t[lo..hi][k - lo];
      assert t[k] in multiset(s[lo..hi]);
      var m :| 0 <= m < hi - lo && s[lo..hi][m] == t[k];
      assert s[lo + m] == t[k];
    }
  }

  /**
   * Two sorted parts around a pivot key make a sorted whole: [lo, cf) holds
   * keys at most `pk` and [cl, hi) keys at least `pk`, so the cells from
   * `cl` to `cf` between the sorted parts [lo, cl) and [cf, hi) all hold
   * the pivot's key.
   */
  lemma JoinSorted(s: seq<Elem>, lo: int, cl: int, cf: int, hi: int, pk: int)
    requires 0 <= lo <= cl <= cf <= hi <= |s|
    requires Sorted(s[lo..cl]) && Sorted(s[cf..hi])
    requires AtMost(s, lo, cf, pk) && AtLeast(s, cl, hi, pk)
    ensures Sorted(s[lo..hi])
  {
    forall p, q | lo <= p < q < hi
      ensures s[p].key <= s[q].key
    {
      if q < cl {
        assert s[p] == s[lo..cl][p - lo] && s[q] == s[lo..cl][q - lo];
      } else if cf <= p {
        assert s[p] == s[cf..hi][p - cf] && s[q] == s[cf..hi][q - cf];
      }
    }
  }

  /** `std::swap(*(first + i), *(first + j))`. */
  method Swap(a: array<Elem>, i: int, j: int)
    requires 0 <= i < a.Length && 0 <= j < a.Length
    modifies a
    ensures a[..] == old(a[..])[i := old(a[j])][j := old(a[i])]
  {
    a[i], a[j] := a[j], a[i];
  }

  /**
   * The "check if sort" loop of both intro sorts: walks adjacent pairs of a
   * non-empty window and reports whether no element is less than the one
   * before it; it changes nothing.
   */
  method CheckIfSorted(a: array<Elem>, lo: int, hi: int) returns (sw: bool)
    requires 0 <= lo < hi <= a.Length
    ensures sw <==> Sorted(a[lo..hi])
  {
    sw := true;
    var it2 := lo + 1;
    while it2 != hi
      invariant lo < it2 <= hi
      invariant Sorted(a[lo..it2])
      decreases hi - it2
    {
      sw := !Less(a[it2], a[it2 - 1]);
      if !sw {
        assert a[it2 - 1] == a[lo..hi][it2 - 1 - lo] && a[it2] == a[lo..hi][it2 - lo];
        return;
      }
      forall p, q | lo <= p < q < it2 + 1
        ensures a[p].key <= a[q].key
      {
        assert a[p] == a[lo..it2][p - lo];
        if q < it2 {
          assert a[q] == a[lo..it2][q - lo];
        } else {
          assert a[it2 - 1] == a[lo..it2][it2 - 1 - lo];
        }
      }
      it2 := it2 + 1;
    }
  }

  /**
   * `heap_sort(first, last, comp)`. Its header is not part of this model;
   * this stand-in sorts by insertion, and its contract promises only what
   * the intro sorts rely on: a nondecreasing rearrangement of the window.
   */
  method HeapSort(a: array<Elem>, lo: int, hi: int)
    requires 0 <= lo <= hi <= a.Length
    modifies a
    ensures Sorted(a[lo..hi]) && Perm(a[..], old(a[..]), lo, hi)
  {
    ghost var s := a[..];
    InsertionSort.InsertionSort(a, lo, hi);
    InsertionSortSorts(s[lo..hi]);
    SlicePerm(a[..], s, lo, hi);
  }
}
