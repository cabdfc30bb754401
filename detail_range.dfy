// The `range` of detail/util/range.hpp (a pair of iterators) and the
// wrappers that apply the low-level helpers to ranges, plus `merge_flow`.
// Iterators are indices; a range names no array, so the wrappers take the
// arrays their ranges point into as extra parameters.

module DetailRange {
  import opened Order
  import opened Arrays
  import LowLevel

  /** `range<Iter_t>`: the iterators `first` and `last`. */
  datatype Range = Range(first: int, last: int)
  {
    /** `empty()` */
    predicate Empty() { first == last }

    /** `not_empty()` */
    predicate NotEmpty() { first != last }

    /** `valid()`: `last` is not before `first`. */
    predicate Valid() { last - first >= 0 }

    /** `size()`; the model keeps the signed difference. */
    function Size(): int { last - first }

    /** `front()`: the iterator to the first element. */
    function Front(): int { first }

    /** `back()`: the iterator to the last element. */
    function Back(): int { last - 1 }

    /** The range lies inside an array of length `n`. */
    predicate In(n: int) { 0 <= first <= last <= n }
  }

  /** The accessors agree with each other. */
  lemma RangeAccessors(r: Range)
    ensures r.Empty() <==> r.Size() == 0
    ensures r.NotEmpty() <==> !r.Empty()
    ensures r.Valid() <==> r.Size() >= 0
    ensures r.NotEmpty() ==> r.Back() == r.Front() + r.Size() - 1
  {
  }

  /** `concat`: from the first of `r1` to the last of `r2`. */
  function Concat(r1: Range, r2: Range): (r: Range)
    ensures r.first == r1.first && r.last == r2.last
  {
    Range(r1.first, r2.last)
  }

  /** Concatenating adjacent valid ranges adds their sizes and keeps validity. */
  lemma ConcatAdjacent(r1: Range, r2: Range)
    requires r1.Valid() && r2.Valid() && r1.last == r2.first
    ensures Concat(r1, r2).Valid()
    ensures Concat(r1, r2).Size() == r1.Size() + r2.Size()
  {
  }

  /** The contents of range `r` of array `a`. */
  function Contents(a: array<Elem>, r: Range): seq<Elem>
    requires r.In(a.Length)
    reads a
  {
    a[r.first..r.last]
  }

  /**
   * `init_move(dest, src)`: moves `src` to the start of `dest` and returns
   * the prefix of `dest` that received it; empty at `dest.first` for an
   * empty `src`.
   */
  method InitMove(dst: array<Elem>, dest: Range, src: array<Elem>, s: Range) returns (r: Range)
    requires src != dst
    requires s.In(src.Length) && 0 <= dest.first && dest.first + s.Size() <= dst.Length
    modifies dst
    ensures r == Range(dest.first, dest.first + s.Size())
    ensures Contents(dst, r) == Contents(src, s)
    ensures UnchangedOutside(dst, r.first, r.last)
  {
    if s.Size() == 0 {
      return Range(dest.first, dest.first);
    }
    var e := LowLevel.InitMove(src, s.first, s.last, dst, dest.first);
    r := Range(dest.first, e);
  }

  /** `uninit_move(dest, src)`: `init_move` into storage that held no objects. */
  method UninitMove(dst: array<Elem>, dest: Range, src: array<Elem>, s: Range) returns (r: Range)
    requires src != dst
    requires s.In(src.Length) && 0 <= dest.first && dest.first + s.Size() <= dst.Length
    modifies dst
    ensures r == Range(dest.first, dest.first + s.Size())
    ensures Contents(dst, r) == Contents(src, s)
    ensures UnchangedOutside(dst, r.first, r.last)
  {
    if s.Size() == 0 {
      return Range(dest.first, dest.first);
    }
    var e := LowLevel.UninitMove(src, s.first, s.last, dst, dest.first);
    r := Range(dest.first, e);
  }

  /**
   * `is_mergeable(src1, src2)`: the first element of `src2` is less than
   * the last element of `src1`.
   */
  predicate IsMergeable(a1: array<Elem>, r1: Range, a2: array<Elem>, r2: Range)
    requires r1.In(a1.Length) && r1.NotEmpty() && r2.In(a2.Length) && r2.NotEmpty()
    reads a1, a2
  {
    Less(a2[r2.Front()], a1[r1.Back()])
  }

  /**
   * For sorted ranges, `is_mergeable` holds exactly when their concatenation
   * is out of order, and otherwise merging them only concatenates them.
   */
  lemma IsMergeableIff(a1: array<Elem>, r1: Range, a2: array<Elem>, r2: Range)
    requires r1.In(a1.Length) && r1.NotEmpty() && r2.In(a2.Length) && r2.NotEmpty()
    requires Sorted(Contents(a1, r1)) && Sorted(Contents(a2, r2))
    ensures IsMergeable(a1, r1, a2, r2) <==> !Sorted(Contents(a1, r1) + Contents(a2, r2))
    ensures !IsMergeable(a1, r1, a2, r2) ==>
              Merge(Contents(a1, r1), Contents(a2, r2)) == Contents(a1, r1) + Contents(a2, r2)
  {
    var s, t := Contents(a1, r1), Contents(a2, r2);
    assert s[|s| - 1] == a1[r1.Back()] && t[0] == a2[r2.Front()];
    if IsMergeable(a1, r1, a2, r2) {
      assert (s + t)[|s| - 1] == s[|s| - 1] && (s + t)[|s|] == t[0];
    } else {
      forall i, j | 0 <= i < j < |s + t|
        ensures (s + t)[i].key <= (s + t)[j].key
      {
        if j < |s| {
        } else if i >= |s| {
          assert (s + t)[i] == t[i - |s|] && (s + t)[j] == t[j - |s|];
        } else {
          assert (s + t)[i] == s[i] && (s + t)[j] == t[j - |s|];
          assert s[i].key <= s[|s| - 1].key && t[0].key <= t[j - |s|].key;
        }
      }
      MergeOrdered(s, t);
    }
  }

  /**
   * `full_merge(dest, src1, src2)`: merges the two ranges to the start of
   * `dest` and returns the range written, of size `|src1| + |src2|`.
   */
  method FullMerge(dst: array<Elem>, dest: Range, src: array<Elem>, s1: Range, s2: Range)
    returns (r: Range)
    requires src != dst
    requires s1.In(src.Length) && s2.In(src.Length)
    requires 0 <= dest.first && dest.first + s1.Size() + s2.Size() <= dst.Length
    modifies dst
    ensures r == Range(dest.first, dest.first + s1.Size() + s2.Size())
    ensures Contents(dst, r) == Merge(Contents(src, s1), Contents(src, s2))
    ensures UnchangedOutside(dst, r.first, r.last)
  {
    var e := LowLevel.FullMerge(src, s1.first, s1.last, s2.first, s2.last, dst, dest.first);
    r := Range(dest.first, e);
  }

  /** `uninit_full_merge(dest, src1, src2)`: `full_merge` into fresh storage. */
  method UninitFullMerge(dst: array<Elem>, dest: Range, src: array<Elem>, s1: Range, s2: Range)
    returns (r: Range)
    requires src != dst
    requires s1.In(src.Length) && s2.In(src.Length)
    requires 0 <= dest.first && dest.first + s1.Size() + s2.Size() <= dst.Length
    modifies dst
    ensures r == Range(dest.first, dest.first + s1.Size() + s2.Size())
    ensures Contents(dst, r) == Merge(Contents(src, s1), Contents(src, s2))
    ensures UnchangedOutside(dst, r.first, r.last)
  {
    var e := LowLevel.UninitFullMerge(src, s1.first, s1.last, s2.first, s2.last, dst, dest.first);
    r := Range(dest.first, e);
  }

  /**
   * `half_merge(dest, src1, src2)`: `src1` in a separate buffer, `src2` in
   * `dst` right after `|src1|` free cells that start at `dest.first`.
   * Returns the range [dest.first, src2.last) that holds the merge.
   */
  method HalfMerge(dst: array<Elem>, dest: Range, x: array<Elem>, s1: Range, s2: Range)
    returns (r: Range)
    requires x != dst
    requires s1.In(x.Length) && s2.In(dst.Length)
    requires 0 <= dest.first && dest.first + s1.Size() == s2.first
    modifies dst
    ensures r == Range(dest.first, dest.first + s1.Size() + s2.Size())
    ensures Contents(dst, r) == Merge(Contents(x, s1), old(Contents(dst, s2)))
    ensures UnchangedOutside(dst, r.first, r.last)
  {
    var e := LowLevel.HalfMerge(x, s1.first, s1.last, dst, s2.first, s2.last, dest.first);
    r := Range(dest.first, e);
  }

  /** `in_place_merge_uncontiguous(src1, src2, aux)` on ranges. */
  method InPlaceMergeUncontiguous(a: array<Elem>, s1: Range, s2: Range, aux: array<Elem>, ra: Range)
    returns (untouched: bool)
    requires a != aux
    requires s1.In(a.Length) && s2.In(a.Length) && Disjoint(s1.first, s1.last, s2.first, s2.last)
    requires ra.In(aux.Length) && s1.Size() <= ra.Size()
    modifies a, aux
    ensures untouched == (s1.Empty() || s2.Empty() || old(!IsMergeable(a, s1, a, s2)))
    ensures untouched ==> unchanged(a)
    ensures !untouched ==> Contents(a, s1) + Contents(a, s2)
                           == Merge(old(Contents(a, s1)), old(Contents(a, s2)))
    ensures UnchangedOutside2(a, s1.first, s1.last, s2.first, s2.last)
  {
    untouched := LowLevel.InPlaceMergeUncontiguous(a, s1.first, s1.last, s2.first, s2.last, aux);
  }

  /**
   * `in_place_merge(src1, src2, buf)`: merges the adjacent ranges through
   * `buf` and always returns `concat(src1, src2)`.
   */
  method InPlaceMerge(a: array<Elem>, s1: Range, s2: Range, buf: array<Elem>, rb: Range)
    returns (r: Range)
    requires a != buf
    requires s1.In(a.Length) && s2.In(a.Length) && s1.last == s2.first
    requires rb.In(buf.Length) && s1.Size() <= rb.Size()
    requires Sorted(Contents(a, s1))
    modifies a, buf
    ensures r == Concat(s1, s2)
    ensures Contents(a, r) == Merge(old(Contents(a, s1)), old(Contents(a, s2)))
    ensures UnchangedOutside(a, r.first, r.last)
  {
    ghost var A, B := a[s1.first..s1.last], a[s2.first..s2.last];
    var untouched := LowLevel.InPlaceMerge(a, s1.first, s2.first, s2.last, buf);
    r := Concat(s1, s2);
    if untouched {
      SliceSplit(a[..], s1.first, s1.last, s2.last);
      if s1.first != s1.last && s2.first != s2.last {
        MergeOrderedRuns(a, s1, s2);
      }
    }
  }

  /**
   * Two adjacent sorted runs whose boundary is in order merge to their
   * concatenation. (Helper for the untouched case of `in_place_merge`.)
   */
  lemma MergeOrderedRuns(a: array<Elem>, s1: Range, s2: Range)
    requires s1.In(a.Length) && s2.In(a.Length) && s1.NotEmpty() && s2.NotEmpty()
    requires !Less(a[s2.first], a[s1.last - 1])
    ensures Sorted(Contents(a, s1)) ==> Merge(Contents(a, s1), Contents(a, s2)) == Contents(a, s1) + Contents(a, s2)
  {
    var s, t := Contents(a, s1), Contents(a, s2);
    assert s[|s| - 1] == a[s1.last - 1] && t[0] == a[s2.first];
    if Sorted(s) {
      MergeOrdered(s, t);
    }
  }

  /**
   * The merge loop of `merge_flow` on the starts `o`, `b2`, `bb` of `rng1`,
   * `rng2`, `rbuf` and their common size `n`: fills all of `rng1` from the
   * heads of `rng2` and `rbuf`, taking from `rbuf` only when its head is
   * strictly less. Neither source can run dry first: each holds as many
   * elements as `rng1` has cells.
   */
  method MergeFlowLoop(a: array<Elem>, o: int, b2: int, buf: array<Elem>, bb: int, n: int)
    returns (i2: int, ib: int, ghost done: seq<Elem>, ghost p: nat, ghost q: nat)
    requires a != buf
    requires 0 <= n && 0 <= o && o + n <= a.Length && 0 <= b2 && b2 + n <= a.Length
    requires 0 <= bb && bb + n <= buf.Length
    requires o + n <= b2 || b2 + n <= o
    modifies a
    ensures p == i2 - b2 && q == ib - bb && p + q == n
    ensures b2 <= i2 <= b2 + n && bb <= ib <= bb + n
    ensures |done| == n
    ensures forall j :: o <= j < o + n ==> a[j] == done[j - o]
    ensures MergeInv(old(a[b2..b2 + n]), buf[bb..bb + n], done, p, q)
    ensures UnchangedOutside(a, o, o + n)
  {
    ghost var A, B := a[b2..b2 + n], buf[bb..bb + n];
    done := [];
    p, q := 0, 0;
    MergeInvStart(A, B);
    var k := o;
    i2, ib := b2, bb;
    while k != o + n
      invariant p == i2 - b2 && q == ib - bb && k == o + p + q
      invariant o <= k <= o + n
      invariant |done| == k - o
      invariant forall j :: o <= j < k ==> a[j] == done[j - o]
      invariant MergeInv(A, B, done, p, q)
      invariant UnchangedOutside(a, o, k)
    {
      var x2, xb := a[i2], buf[ib];
      MergeInvStep(A, B, done, p, q, x2, xb);
      if Less(xb, x2) {
        a[k] := xb;
        done, q, ib := done + [xb], q + 1, ib + 1;
      } else {
        a[k] := x2;
        done, p, i2 := done + [x2], p + 1, i2 + 1;
      }
      k := k + 1;
    }
  }

  /**
   * The tail of `merge_flow` once `rng1` is full: nothing left of `rng2`
   * means `rbuf` already holds the rest; an exhausted `rbuf` receives all of
   * `rng2`; otherwise the rests are half-merged into `rbuf`, whose consumed
   * prefix is exactly as long as the rest of `rng2`.
   */
  method MergeFlowTail(a: array<Elem>, b2: int, i2: int, buf: array<Elem>, bb: int, ib: int, n: int,
                       ghost A: seq<Elem>, ghost B: seq<Elem>, ghost p: nat, ghost q: nat)
    requires a != buf
    requires 0 <= n && 0 <= b2 && b2 + n <= a.Length && 0 <= bb && bb + n <= buf.Length
    requires p == i2 - b2 && q == ib - bb && p + q == n && |A| == |B| == n
    requires a[i2..b2 + n] == A[p..] && buf[ib..bb + n] == B[q..]
    modifies buf
    ensures buf[bb..bb + n] == Merge(A[p..], B[q..])
    ensures UnchangedOutside(buf, bb, bb + n)
  {
    if i2 == b2 + n {
      assert buf[ib..bb + n] == buf[bb..bb + n];
    } else if ib == bb + n {
      assert a[b2..b2 + n] == A[p..];
      var moved := InitMove(buf, Range(bb, bb + n), a, Range(b2, b2 + n));
    } else {
      var merged := HalfMerge(buf, Range(bb, bb + n), a, Range(i2, b2 + n), Range(ib, bb + n));
    }
  }

  /**
   * `rng1` filled by the merge loop: with `A` and `B` the old contents of
   * `rng2` and `rbuf`, it holds the first `n` elements of their merge, and
   * what follows them is the merge of the rests of both, still in place.
   */
  method MergeFlowFront(a: array<Elem>, o: int, b2: int, buf: array<Elem>, bb: int, n: int)
    returns (i2: int, ib: int, ghost p: nat, ghost q: nat, ghost A: seq<Elem>, ghost B: seq<Elem>)
    requires a != buf
    requires 0 <= n && 0 <= o && o + n <= a.Length && 0 <= b2 && b2 + n <= a.Length
    requires 0 <= bb && bb + n <= buf.Length
    requires o + n <= b2 || b2 + n <= o
    modifies a
    ensures A == old(a[b2..b2 + n]) && B == buf[bb..bb + n]
    ensures p == i2 - b2 && q == ib - bb && p + q == n
    ensures b2 <= i2 <= b2 + n && bb <= ib <= bb + n
    ensures a[i2..b2 + n] == A[p..] && buf[ib..bb + n] == B[q..]
    ensures a[o..o + n] + Merge(A[p..], B[q..]) == Merge(A, B)
    ensures UnchangedOutside(a, o, o + n)
  {
    A, B := a[b2..b2 + n], buf[bb..bb + n];
    ghost var done;
    i2, ib, done, p, q := MergeFlowLoop(a, o, b2, buf, bb, n);
    FlowFrontCells(a[..], old(a[..]), o, b2, n, done);
    FlowFrontRests(a[..], buf[..], b2, bb, n, i2, ib, A, B, done, p, q);
  }

  /** What the merge loop's cell-by-cell postconditions say about slices. */
  lemma FlowFrontCells(cur: seq<Elem>, was: seq<Elem>, o: int, b2: int, n: int, done: seq<Elem>)
    requires |cur| == |was| && 0 <= n && 0 <= o && o + n <= |cur| && 0 <= b2 && b2 + n <= |cur|
    requires o + n <= b2 || b2 + n <= o
    requires |done| == n
    requires forall j :: o <= j < o + n ==> cur[j] == done[j - o]
    requires forall i :: 0 <= i < |cur| && !(o <= i < o + n) ==> cur[i] == was[i]
    ensures cur[o..o + n] == done && cur[b2..b2 + n] == was[b2..b2 + n]
  {
    SliceFromCells(cur, o, o + n, done);
    KeptSlice(cur, was, b2, b2 + n, o, o + n);
  }

  /** The rests of both sources once the merge loop has filled `rng1`. */
  lemma FlowFrontRests(cur: seq<Elem>, bs: seq<Elem>, b2: int, bb: int, n: int, i2: int, ib: int,
                       A: seq<Elem>, B: seq<Elem>, done: seq<Elem>, p: nat, q: nat)
    requires 0 <= n && 0 <= b2 && b2 + n <= |cur| && 0 <= bb && bb + n <= |bs|
    requires cur[b2..b2 + n] == A && bs[bb..bb + n] == B
    requires p == i2 - b2 && q == ib - bb && p + q == n
    requires MergeInv(A, B, done, p, q)
    ensures cur[i2..b2 + n] == A[p..] && bs[ib..bb + n] == B[q..]
    ensures done + Merge(A[p..], B[q..]) == Merge(A, B)
  {
    MergeInvEnd(A, B, done, p, q);
    SliceSuffix(cur, b2, i2, b2 + n);
    SliceSuffix(bs, bb, ib, bb + n);
  }

  /** `merge_flow` on the starts of `rng1`, `rng2`, `rbuf` and their common size `n`. */
  method MergeFlowAt(a: array<Elem>, o: int, b2: int, buf: array<Elem>, bb: int, n: int)
    requires a != buf
    requires 0 <= n && 0 <= o && o + n <= a.Length && 0 <= b2 && b2 + n <= a.Length
    requires 0 <= bb && bb + n <= buf.Length
    requires o + n <= b2 || b2 + n <= o
    modifies a, buf
    ensures a[o..o + n] + buf[bb..bb + n] == Merge(old(a[b2..b2 + n]), old(buf[bb..bb + n]))
    ensures UnchangedOutside(a, o, o + n)
    ensures UnchangedOutside(buf, bb, bb + n)
  {
    var i2, ib;
    ghost var p, q, A, B;
    i2, ib, p, q, A, B := MergeFlowFront(a, o, b2, buf, bb, n);
    ghost var front := a[o..o + n];
    MergeFlowTail(a, b2, i2, buf, bb, ib, n, A, B, p, q);
    assert a[o..o + n] == front;
  }

  /**
   * `merge_flow(rng1, rbuf, rng2)`: with the three ranges of one size, the
   * merge of `rng2` and `rbuf` (ties to `rng2`) flows into `rng1` and then
   * back into `rbuf`: `rng1` receives its first half and `rbuf` the rest.
   */
  method MergeFlow(a: array<Elem>, r1: Range, r2: Range, buf: array<Elem>, rb: Range)
    requires a != buf
    requires r1.In(a.Length) && r2.In(a.Length) && rb.In(buf.Length)
    requires r1.Size() == r2.Size() == rb.Size()
    requires Disjoint(r1.first, r1.last, r2.first, r2.last)
    modifies a, buf
    ensures Contents(a, r1) + Contents(buf, rb) == Merge(old(Contents(a, r2)), old(Contents(buf, rb)))
    ensures UnchangedOutside(a, r1.first, r1.last)
    ensures UnchangedOutside(buf, rb.first, rb.last)
  {
    MergeFlowAt(a, r1.first, r2.first, buf, rb.first, r1.Size());
  }

  /**
   * What `merge_flow` promises for sorted `rng2` and `rbuf`: both results are
   * sorted, no element of `rng1` is greater than one of `rbuf`, and together
   * they hold exactly the elements of `rng2` and `rbuf`.
   */
  lemma {:induction false} MergeFlowSplit(a2: seq<Elem>, b: seq<Elem>, n: nat)
    requires Sorted(a2) && Sorted(b) && n <= |a2| + |b|
    ensures Sorted(Merge(a2, b)[..n]) && Sorted(Merge(a2, b)[n..])
    ensures forall i, j :: 0 <= i < n <= j < |a2| + |b| ==> Merge(a2, b)[i].key <= Merge(a2, b)[j].key
    ensures multiset(Merge(a2, b)[..n]) + multiset(Merge(a2, b)[n..]) == multiset(a2) + multiset(b)
  {
    var m := Merge(a2, b);
    MergeSorted(a2, b);
    MergeMultiset(a2, b);
    assert m == m[..n] + m[n..];
  }
}
