// Element moving and merging primitives over iterator pairs
// (detail/util/low_level.hpp). Iterators are indices into arrays; the
// uninitialised-memory variants are plain writes.

module LowLevel {
  import opened Order
  import opened Arrays

  /**
   * `init`: fills [lo, hi) by moving `val` into the first cell and then
   * each cell into the next one; the last cell is moved back into `val`.
   */
  method Init(a: array<Elem>, lo: int, hi: int, val: Elem) returns (valOut: Elem)
    requires 0 <= lo <= hi <= a.Length
    modifies a
    ensures forall i :: lo <= i < hi ==> a[i] == val
    ensures valOut == val
    ensures UnchangedOutside(a, lo, hi)
  {
    valOut := val;
    if lo == hi {
      return;
    }
    a[lo] := val;
    var i := lo + 1;
    while i != hi
      invariant lo + 1 <= i <= hi
      invariant forall j :: lo <= j < i ==> a[j] == val
      invariant UnchangedOutside(a, lo, hi)
    {
      a[i] := a[i - 1];
      i := i + 1;
    }
    valOut := a[hi - 1];
  }

  /**
   * `init_move`: moves [b, e) of `src` to `dst` from `o` on, in order, and
   * returns the end of what was written. Within one array the copy runs
   * forwards, so it is correct when the target does not start inside the
   * source range.
   */
  method InitMove(src: array<Elem>, b: int, e: int, dst: array<Elem>, o: int) returns (r: int)
    requires 0 <= b <= e <= src.Length
    requires 0 <= o && o + (e - b) <= dst.Length
    requires src != dst || o <= b || e <= o
    modifies dst
    ensures r == o + (e - b)
    ensures dst[o..r] == old(src[b..e])
    ensures UnchangedOutside(dst, o, r)
  {
    ghost var S := src[b..e];
    var i := b;
    r := o;
    while i != e
      invariant b <= i <= e && r == o + (i - b)
      invariant forall j :: o <= j < r ==> dst[j] == S[j - o]
      invariant forall j :: i <= j < e ==> src[j] == S[j - b]
      invariant UnchangedOutside(dst, o, r)
    {
      dst[r] := src[i];
      r, i := r + 1, i + 1;
    }
    SliceFromCells(dst[..], o, r, S);
  }

  /** `uninit_move`: `init_move` into storage that held no objects. */
  method UninitMove(src: array<Elem>, b: int, e: int, dst: array<Elem>, o: int) returns (r: int)
    requires 0 <= b <= e <= src.Length
    requires 0 <= o && o + (e - b) <= dst.Length
    requires src != dst || o <= b || e <= o
    modifies dst
    ensures r == o + (e - b)
    ensures dst[o..r] == old(src[b..e])
    ensures UnchangedOutside(dst, o, r)
  {
    r := InitMove(src, b, e, dst, o);
  }

  /**
   * `init_move` at the end of output already written at [o, k): the moved
   * elements extend it.
   */
  method AppendMove(src: array<Elem>, b: int, e: int, dst: array<Elem>, o: int, k: int)
    returns (r: int)
    requires 0 <= b <= e <= src.Length
    requires 0 <= o <= k && k + (e - b) <= dst.Length
    requires src != dst || k <= b || e <= k
    modifies dst
    ensures r == k + (e - b)
    ensures dst[o..r] == old(dst[o..k]) + old(src[b..e])
    ensures UnchangedOutside(dst, k, r)
  {
    ghost var D, S := dst[o..k], src[b..e];
    r := InitMove(src, b, e, dst, k);
    KeptSlice(dst[..], old(dst[..]), o, k, k, r);
    Glue(dst[..], o, k, r, D, S);
  }

  /**
   * The merge loop of `full_merge`: stops as soon as one run is used up,
   * with the output written so far in [o, k).
   */
  method FullMergeLoop(src: array<Elem>, b1: int, e1: int, b2: int, e2: int,
                       dst: array<Elem>, o: int)
    returns (i1: int, i2: int, k: int, ghost done: seq<Elem>, ghost p: nat, ghost q: nat)
    requires src != dst
    requires 0 <= b1 <= e1 <= src.Length && 0 <= b2 <= e2 <= src.Length
    requires 0 <= o && o + (e1 - b1) + (e2 - b2) <= dst.Length
    modifies dst
    ensures p == i1 - b1 && q == i2 - b2 && (i1 == e1 || i2 == e2)
    ensures b1 <= i1 <= e1 && b2 <= i2 <= e2 && k == o + p + q
    ensures |done| == k - o
    ensures forall j :: o <= j < k ==> dst[j] == done[j - o]
    ensures MergeInv(src[b1..e1], src[b2..e2], done, p, q)
    ensures UnchangedOutside(dst, o, k)
  {
    ghost var A, B := src[b1..e1], src[b2..e2];
    done := [];
    p, q := 0, 0;
    MergeInvStart(A, B);
    i1, i2, k := b1, b2, o;
    while i1 != e1 && i2 != e2
      invariant p == i1 - b1 && q == i2 - b2
      invariant b1 <= i1 <= e1 && b2 <= i2 <= e2
      invariant k == o + p + q
      invariant |done| == k - o
      invariant forall j :: o <= j < k ==> dst[j] == done[j - o]
      invariant MergeInv(A, B, done, p, q)
      invariant UnchangedOutside(dst, o, k)
    {
      var x1, x2 := src[i1], src[i2];
      MergeInvStep(A, B, done, p, q, x1, x2);
      if !Less(x2, x1) {
        dst[k] := x1;
        done, p, i1 := done + [x1], p + 1, i1 + 1;
      } else {
        dst[k] := x2;
        done, q, i2 := done + [x2], q + 1, i2 + 1;
      }
      k := k + 1;
    }
  }

  /**
   * `full_merge`: merges the runs [b1, e1) and [b2, e2) of `src` into `dst`
   * from `o` on, taking run 1 on equal keys, and returns the end of the
   * output.
   */
  method FullMerge(src: array<Elem>, b1: int, e1: int, b2: int, e2: int,
                   dst: array<Elem>, o: int) returns (r: int)
    requires src != dst
    requires 0 <= b1 <= e1 <= src.Length && 0 <= b2 <= e2 <= src.Length
    requires 0 <= o && o + (e1 - b1) + (e2 - b2) <= dst.Length
    modifies dst
    ensures r == o + (e1 - b1) + (e2 - b2)
    ensures dst[o..r] == Merge(src[b1..e1], src[b2..e2])
    ensures UnchangedOutside(dst, o, r)
  {
    ghost var A, B := src[b1..e1], src[b2..e2];
    var i1, i2, k;
    ghost var done, p, q;
    i1, i2, k, done, p, q := FullMergeLoop(src, b1, e1, b2, e2, dst, o);
    MergeInvEnd(A, B, done, p, q);
    SliceFromCells(dst[..], o, k, done);
    if i1 == e1 {
      assert src[i2..e2] == B[q..];
      r := AppendMove(src, i2, e2, dst, o, k);
    } else {
      assert src[i1..e1] == A[p..];
      r := AppendMove(src, i1, e1, dst, o, k);
    }
  }

  /**
   * The merge loop of `full_merge` when the runs [b, m) and [m, e) and the
   * output lie in one array, the output wholly after the runs.
   */
  method MergeWithinAfterLoop(a: array<Elem>, b: int, m: int, e: int, o: int)
    returns (i1: int, i2: int, k: int, ghost done: seq<Elem>, ghost p: nat, ghost q: nat)
    requires 0 <= b <= m <= e <= o && o + (e - b) <= a.Length
    modifies a
    ensures p == i1 - b && q == i2 - m && (i1 == m || i2 == e)
    ensures b <= i1 <= m <= i2 <= e && k == o + p + q
    ensures |done| == k - o
    ensures forall j :: o <= j < k ==> a[j] == done[j - o]
    ensures MergeInv(old(a[b..m]), old(a[m..e]), done, p, q)
    ensures UnchangedOutside(a, o, k)
  {
    ghost var A, B := a[b..m], a[m..e];
    done := [];
    p, q := 0, 0;
    MergeInvStart(A, B);
    i1, i2, k := b, m, o;
    while i1 != m && i2 != e
      invariant p == i1 - b && q == i2 - m
      invariant b <= i1 <= m <= i2 <= e
      invariant k == o + p + q
      invariant |done| == k - o
      invariant forall j :: o <= j < k ==> a[j] == done[j - o]
      invariant MergeInv(A, B, done, p, q)
      invariant UnchangedOutside(a, o, k)
    {
      var x1, x2 := a[i1], a[i2];
      MergeInvStep(A, B, done, p, q, x1, x2);
      if !Less(x2, x1) {
        a[k] := x1;
        done, p, i1 := done + [x1], p + 1, i1 + 1;
      } else {
        a[k] := x2;
        done, q, i2 := done + [x2], q + 1, i2 + 1;
      }
      k := k + 1;
    }
  }

  /**
   * The merge loop of `full_merge` when the runs [b, m) and [m, e) and the
   * output lie in one array, the output wholly before the runs.
   */
  method MergeWithinBeforeLoop(a: array<Elem>, b: int, m: int, e: int, o: int)
    returns (i1: int, i2: int, k: int, ghost done: seq<Elem>, ghost p: nat, ghost q: nat)
    requires 0 <= o && o + (e - b) <= b <= m <= e <= a.Length
    modifies a
    ensures p == i1 - b && q == i2 - m && (i1 == m || i2 == e)
    ensures b <= i1 <= m <= i2 <= e && k == o + p + q
    ensures |done| == k - o
    ensures forall j :: o <= j < k ==> a[j] == done[j - o]
    ensures MergeInv(old(a[b..m]), old(a[m..e]), done, p, q)
    ensures UnchangedOutside(a, o, k)
  {
    ghost var A, B := a[b..m], a[m..e];
    done := [];
    p, q := 0, 0;
    MergeInvStart(A, B);
    i1, i2, k := b, m, o;
    while i1 != m && i2 != e
      invariant p == i1 - b && q == i2 - m
      invariant b <= i1 <= m <= i2 <= e
      invariant k == o + p + q
      invariant |done| == k - o
      invariant forall j :: o <= j < k ==> a[j] == done[j - o]
      invariant MergeInv(A, B, done, p, q)
      invariant UnchangedOutside(a, o, k)
    {
      var x1, x2 := a[i1], a[i2];
      MergeInvStep(A, B, done, p, q, x1, x2);
      if !Less(x2, x1) {
        a[k] := x1;
        done, p, i1 := done + [x1], p + 1, i1 + 1;
      } else {
        a[k] := x2;
        done, q, i2 := done + [x2], q + 1, i2 + 1;
      }
      k := k + 1;
    }
  }

  /** `full_merge` within one array, the output wholly after the runs [b, m), [m, e). */
  method FullMergeAfter(a: array<Elem>, b: int, m: int, e: int, o: int) returns (r: int)
    requires 0 <= b <= m <= e <= o && o + (e - b) <= a.Length
    modifies a
    ensures r == o + (e - b)
    ensures a[o..r] == Merge(old(a[b..m]), old(a[m..e]))
    ensures UnchangedOutside(a, o, r)
  {
    ghost var A, B := a[b..m], a[m..e];
    var i1, i2, k;
    ghost var done, p, q;
    i1, i2, k, done, p, q := MergeWithinAfterLoop(a, b, m, e, o);
    MergeInvEnd(A, B, done, p, q);
    SliceFromCells(a[..], o, k, done);
    KeptSlice(a[..], old(a[..]), b, m, o, k);
    KeptSlice(a[..], old(a[..]), m, e, o, k);
    if i1 == m {
      assert a[i2..e] == B[q..];
      r := AppendMove(a, i2, e, a, o, k);
    } else {
      assert a[i1..m] == A[p..];
      r := AppendMove(a, i1, m, a, o, k);
    }
  }

  /** `full_merge` within one array, the output wholly before the runs [b, m), [m, e). */
  method FullMergeBefore(a: array<Elem>, b: int, m: int, e: int, o: int) returns (r: int)
    requires 0 <= o && o + (e - b) <= b <= m <= e <= a.Length
    modifies a
    ensures r == o + (e - b)
    ensures a[o..r] == Merge(old(a[b..m]), old(a[m..e]))
    ensures UnchangedOutside(a, o, r)
  {
    ghost var A, B := a[b..m], a[m..e];
    var i1, i2, k;
    ghost var done, p, q;
    i1, i2, k, done, p, q := MergeWithinBeforeLoop(a, b, m, e, o);
    MergeInvEnd(A, B, done, p, q);
    SliceFromCells(a[..], o, k, done);
    KeptSlice(a[..], old(a[..]), b, m, o, k);
    KeptSlice(a[..], old(a[..]), m, e, o, k);
    if i1 == m {
      assert a[i2..e] == B[q..];
      r := AppendMove(a, i2, e, a, o, k);
    } else {
      assert a[i1..m] == A[p..];
      r := AppendMove(a, i1, m, a, o, k);
    }
  }

  /**
   * `full_merge` with the adjacent runs [b, m), [m, e) and the output in one
   * array: the output [o, o + (e - b)) must lie wholly before or wholly after
   * the runs.
   */
  method FullMergeWithin(a: array<Elem>, b: int, m: int, e: int, o: int) returns (r: int)
    requires 0 <= b <= m <= e <= a.Length
    requires 0 <= o && o + (e - b) <= a.Length
    requires o + (e - b) <= b || e <= o
    modifies a
    ensures r == o + (e - b)
    ensures a[o..r] == Merge(old(a[b..m]), old(a[m..e]))
    ensures UnchangedOutside(a, o, r)
  {
    if e <= o {
      r := FullMergeAfter(a, b, m, e, o);
    } else {
      r := FullMergeBefore(a, b, m, e, o);
    }
  }

  /** `uninit_full_merge`: `full_merge` into storage that held no objects. */
  method UninitFullMerge(src: array<Elem>, b1: int, e1: int, b2: int, e2: int,
                         dst: array<Elem>, o: int) returns (r: int)
    requires src != dst
    requires 0 <= b1 <= e1 <= src.Length && 0 <= b2 <= e2 <= src.Length
    requires 0 <= o && o + (e1 - b1) + (e2 - b2) <= dst.Length
    modifies dst
    ensures r == o + (e1 - b1) + (e2 - b2)
    ensures dst[o..r] == Merge(src[b1..e1], src[b2..e2])
    ensures UnchangedOutside(dst, o, r)
  {
    r := FullMerge(src, b1, e1, b2, e2, dst, o);
  }

  /**
   * The merge loop of `half_merge`: the output never catches up with the
   * unread part of run 2, so [i2, e2) keeps its contents.
   */
  method HalfMergeLoop(x: array<Elem>, b1: int, e1: int, y: array<Elem>, b2: int, e2: int,
                       o: int) returns (i1: int, i2: int, k: int, ghost done: seq<Elem>,
                                        ghost p: nat, ghost q: nat)
    requires x != y
    requires 0 <= b1 <= e1 <= x.Length
    requires 0 <= o && o + (e1 - b1) == b2 && b2 <= e2 <= y.Length
    modifies y
    ensures p == i1 - b1 && q == i2 - b2 && (i1 == e1 || i2 == e2)
    ensures b1 <= i1 <= e1 && b2 <= i2 <= e2 && k == o + p + q
    ensures |done| == k - o
    ensures forall j :: o <= j < k ==> y[j] == done[j - o]
    ensures MergeInv(x[b1..e1], old(y[b2..e2]), done, p, q)
    ensures HalfMergeStop(x[b1..e1], old(y[b2..e2]), 0, 0) == q
    ensures UnchangedOutside(y, o, k)
  {
    ghost var A, B := x[b1..e1], y[b2..e2];
    ghost var Y0 := y[..];
    done := [];
    p, q := 0, 0;
    MergeInvStart(A, B);
    i1, i2, k := b1, b2, o;
    while i1 != e1 && i2 != e2
      invariant p == i1 - b1 && q == i2 - b2
      invariant b1 <= i1 <= e1 && b2 <= i2 <= e2
      invariant k == o + p + q
      invariant |done| == k - o
      invariant forall j :: o <= j < k ==> y[j] == done[j - o]
      invariant MergeInv(A, B, done, p, q)
      invariant HalfMergeStop(A, B, p, q) == HalfMergeStop(A, B, 0, 0)
      invariant forall j :: 0 <= j < y.Length && !(o <= j < k) ==> y[j] == Y0[j]
      decreases (e1 - i1) + (e2 - i2)
    {
      i1, i2, k, done, p, q := HalfMergeStep(x, b1, e1, y, b2, e2, o, i1, i2, k, A, B, Y0, done, p, q);
    }
  }

  /** One step of the `half_merge` loop: the smaller head moves to `k`. */
  method HalfMergeStep(x: array<Elem>, b1: int, e1: int, y: array<Elem>, b2: int, e2: int, o: int,
                       i1: int, i2: int, k: int, ghost A: seq<Elem>, ghost B: seq<Elem>,
                       ghost Y0: seq<Elem>, ghost done: seq<Elem>, ghost p: nat, ghost q: nat)
    returns (i1': int, i2': int, k': int, ghost done': seq<Elem>, ghost p': nat, ghost q': nat)
    requires x != y && 0 <= b1 <= e1 <= x.Length && 0 <= o && o + (e1 - b1) == b2 && b2 <= e2 <= y.Length
    requires |Y0| == y.Length && A == x[b1..e1] && B == Y0[b2..e2]
    requires p == i1 - b1 && q == i2 - b2 && b1 <= i1 < e1 && b2 <= i2 < e2 && k == o + p + q
    requires |done| == k - o && forall j :: o <= j < k ==> y[j] == done[j - o]
    requires MergeInv(A, B, done, p, q)
    requires HalfMergeStop(A, B, p, q) == HalfMergeStop(A, B, 0, 0)
    requires forall j :: 0 <= j < y.Length && !(o <= j < k) ==> y[j] == Y0[j]
    modifies y
    ensures p' == i1' - b1 && q' == i2' - b2 && b1 <= i1' <= e1 && b2 <= i2' <= e2 && k' == o + p' + q'
    ensures i1' + i2' == i1 + i2 + 1
    ensures |done'| == k' - o && forall j :: o <= j < k' ==> y[j] == done'[j - o]
    ensures MergeInv(A, B, done', p', q')
    ensures HalfMergeStop(A, B, p', q') == HalfMergeStop(A, B, 0, 0)
    ensures forall j :: 0 <= j < y.Length && !(o <= j < k') ==> y[j] == Y0[j]
  {
    var x1, x2 := x[i1], y[i2];
    assert x1 == A[p] && x2 == B[q] && k < i2;
    MergeInvStep(A, B, done, p, q, x1, x2);
    HalfMergeStopStep(A, B, p, q, x1, x2);
    if !Less(x2, x1) {
      y[k] := x1;
      done', p', q', i1', i2' := done + [x1], p + 1, q, i1 + 1, i2;
    } else {
      y[k] := x2;
      done', p', q', i1', i2' := done + [x2], p, q + 1, i1, i2 + 1;
    }
    k' := k + 1;
  }

  /**
   * `half_merge`: run 1 sits in a separate buffer `x`, run 2 at [b2, e2) of
   * `y`, and the output starts `|run 1|` cells before run 2, so that the
   * merge fills exactly [o, e2). Returns `end_buf2`.
   */
  method HalfMerge(x: array<Elem>, b1: int, e1: int, y: array<Elem>, b2: int, e2: int,
                   o: int) returns (r: int)
    requires x != y
    requires 0 <= b1 <= e1 <= x.Length
    requires 0 <= o && o + (e1 - b1) == b2 && b2 <= e2 <= y.Length
    modifies y
    ensures r == e2
    ensures y[o..e2] == Merge(x[b1..e1], old(y[b2..e2]))
    ensures UnchangedOutside(y, o, e2)
  {
    ghost var A, B := x[b1..e1], y[b2..e2];
    var i1, i2, k;
    ghost var done, p, q;
    i1, i2, k, done, p, q := HalfMergeLoop(x, b1, e1, y, b2, e2, o);
    MergeInvEnd(A, B, done, p, q);
    SliceFromCells(y[..], o, k, done);
    if i2 == e2 {
      assert x[i1..e1] == A[p..];
      r := AppendMove(x, i1, e1, y, o, k);
    } else {
      KeptSlice(y[..], old(y[..]), i2, e2, o, k);
      assert y[i2..e2] == B[q..];
      SliceSplit(y[..], o, k, e2);
      r := e2;
    }
  }

  /**
   * The scan that opens both in-place merges: advances from `lo` past every
   * element of [lo, hi) that `x` does not undercut, and stops at the first
   * one it does.
   */
  method SkipNotGreater(a: array<Elem>, lo: int, hi: int, x: Elem) returns (i: int)
    requires 0 <= lo <= hi <= a.Length
    ensures lo <= i <= hi
    ensures forall j :: lo <= j < i ==> !Less(x, a[j])
    ensures i < hi ==> Less(x, a[i])
  {
    i := lo;
    while i != hi && !Less(x, a[i])
      invariant lo <= i <= hi
      invariant forall j :: lo <= j < i ==> !Less(x, a[j])
    {
      i := i + 1;
    }
  }

  /**
   * `in_place_merge_uncontiguous`: merges two sorted runs that live in
   * separate places of one array, through `aux`, so that run 1's place gets
   * the first `|run 1|` merged elements and run 2's place the rest. Returns
   * true, having changed nothing, when a run is empty or the runs are
   * already in order.
   */
  method InPlaceMergeUncontiguous(a: array<Elem>, s1: int, e1: int, s2: int, e2: int,
                                  aux: array<Elem>) returns (untouched: bool)
    requires a != aux
    requires 0 <= s1 <= e1 <= a.Length && 0 <= s2 <= e2 <= a.Length
    requires Disjoint(s1, e1, s2, e2)
    requires e1 - s1 <= aux.Length
    modifies a, aux
    ensures untouched == (s1 == e1 || s2 == e2 || !Less(old(a[s2]), old(a[e1 - 1])))
    ensures untouched ==> unchanged(a)
    ensures !untouched ==> a[s1..e1] + a[s2..e2] == Merge(old(a[s1..e1]), old(a[s2..e2]))
    ensures UnchangedOutside2(a, s1, e1, s2, e2)
  {
    if s1 == e1 || s2 == e2 || !Less(a[s2], a[e1 - 1]) {
      return true;
    }
    ghost var A, B := a[s1..e1], a[s2..e2];
    var i := SkipNotGreater(a, s1, e1, a[s2]);
    ghost var P, X := a[s1..i], a[i..e1];
    SliceSplit(a[..], s1, i, e1);
    MergePrefix(P, X, B);
    var nx := e1 - i;
    var endAux := InitMove(a, i, e1, aux, 0);
    label start:
    MergeParts(a, i, e1, s2, e2, aux, nx, X, B);
    KeptSlice2(a[..], old@start(a[..]), s1, i, i, e1, s2, e2);
    GlueFront(a[..], s1, i, e1, s2, e2, P, Merge(X, B));
    untouched := false;
  }

  /**
   * The merge loop of `in_place_merge_uncontiguous`: merges `X` (in `aux`)
   * and run 2 into run 1's free tail [i, e1), stopping when that tail is
   * full or run 2 is used up.
   */
  method MergePartsLoop(a: array<Elem>, i: int, e1: int, s2: int, e2: int,
                        aux: array<Elem>, nx: int, ghost X: seq<Elem>, ghost B: seq<Elem>)
    returns (p: int, i2: int, k: int, ghost done: seq<Elem>, ghost q: nat)
    requires a != aux
    requires 0 <= i <= e1 <= a.Length && 0 <= s2 <= e2 <= a.Length
    requires Disjoint(i, e1, s2, e2)
    requires nx == e1 - i && nx <= aux.Length
    requires aux[..nx] == X && a[s2..e2] == B
    modifies a
    ensures q == i2 - s2 && (k == e1 || i2 == e2)
    ensures 0 <= p <= nx && s2 <= i2 <= e2 && k == i + p + q && k <= e1
    ensures |done| == k - i
    ensures forall j :: i <= j < k ==> a[j] == done[j - i]
    ensures MergeInv(X, B, done, p, q)
    ensures UnchangedOutside(a, i, k)
  {
    done := [];
    q := 0;
    MergeInvStart(X, B);
    p, i2, k := 0, s2, i;
    while k != e1 && i2 != e2
      invariant q == i2 - s2
      invariant 0 <= p <= nx && s2 <= i2 <= e2 && k == i + p + q && k <= e1
      invariant |done| == k - i
      invariant forall j :: i <= j < k ==> a[j] == done[j - i]
      invariant MergeInv(X, B, done, p, q)
      invariant UnchangedOutside(a, i, k)
    {
      var x1, x2 := aux[p], a[i2];
      MergeInvStep(X, B, done, p, q, x1, x2);
      if !Less(x2, x1) {
        a[k] := x1;
        done, p := done + [x1], p + 1;
      } else {
        a[k] := x2;
        done, q, i2 := done + [x2], q + 1, i2 + 1;
      }
      k := k + 1;
    }
  }

  /**
   * The end of `in_place_merge_uncontiguous` once run 2 is used up: the
   * rest `R` of the buffered elements fills run 1's place from `k` on and
   * then run 2's place.
   */
  method MergePartsFlush(a: array<Elem>, k: int, e1: int, s2: int, e2: int,
                         aux: array<Elem>, p: int, nx: int, ghost R: seq<Elem>)
    requires a != aux
    requires 0 <= k <= e1 <= a.Length && 0 <= s2 <= e2 <= a.Length
    requires Disjoint(k, e1, s2, e2)
    requires 0 <= p <= nx <= aux.Length && aux[p..nx] == R
    requires nx - p == (e1 - k) + (e2 - s2)
    modifies a
    ensures a[k..e1] + a[s2..e2] == R
    ensures UnchangedOutside2(a, k, e1, s2, e2)
  {
    var cut := p + (e1 - k);
    ghost var R1, R2 := R[..e1 - k], R[e1 - k..];
    assert R == R1 + R2;
    assert aux[p..cut] == R1 && aux[cut..nx] == R2;
    var r1 := InitMove(aux, p, cut, a, k);
    label second:
    var r2 := InitMove(aux, cut, nx, a, s2);
    KeptSlice(a[..], old@second(a[..]), k, e1, s2, e2);
    assert a[k..e1] == R1 && a[s2..e2] == R2;
  }

  /**
   * The part of `in_place_merge_uncontiguous` after the displaced suffix `X`
   * of run 1 has been moved to `aux`: run 1's free tail [i, e1) and run 2's
   * place [s2, e2) receive the merge of `X` and run 2.
   */
  method MergeParts(a: array<Elem>, i: int, e1: int, s2: int, e2: int,
                    aux: array<Elem>, nx: int, ghost X: seq<Elem>, ghost B: seq<Elem>)
    requires a != aux
    requires 0 <= i <= e1 <= a.Length && 0 <= s2 <= e2 <= a.Length
    requires Disjoint(i, e1, s2, e2)
    requires nx == e1 - i && nx <= aux.Length
    requires aux[..nx] == X && a[s2..e2] == B
    modifies a
    ensures a[i..e1] + a[s2..e2] == Merge(X, B)
    ensures UnchangedOutside2(a, i, e1, s2, e2)
  {
    var p, i2, k;
    ghost var done, q;
    p, i2, k, done, q := MergePartsLoop(a, i, e1, s2, e2, aux, nx, X, B);
    MergeInvEnd(X, B, done, p, q);
    SliceFromCells(a[..], i, k, done);
    label merging:
    if i2 == e2 {
      assert aux[p..nx] == X[p..];
      MergePartsFlush(a, k, e1, s2, e2, aux, p, nx, X[p..]);
      KeptSlice2(a[..], old@merging(a[..]), i, k, k, e1, s2, e2);
      GlueFront(a[..], i, k, e1, s2, e2, done, X[p..]);
    } else {
      KeptSlice(a[..], old(a[..]), i2, e2, i, k);
      assert a[i2..e2] == B[q..];
      var r := HalfMerge(aux, p, nx, a, i2, e2, s2);
      KeptSlice(a[..], old@merging(a[..]), i, e1, s2, e2);
    }
  }

  /**
   * `in_place_merge`: merges the adjacent sorted runs [s1, s2) and
   * [s2, e2), moving into `buf` only the suffix of run 1 that the head of
   * run 2 undercuts. Returns true, having changed nothing, when a run is
   * empty or the runs are already in order.
   */
  method InPlaceMerge(a: array<Elem>, s1: int, s2: int, e2: int, buf: array<Elem>)
    returns (untouched: bool)
    requires a != buf
    requires 0 <= s1 <= s2 <= e2 <= a.Length
    requires s2 - s1 <= buf.Length
    modifies a, buf
    ensures untouched == (s1 == s2 || s2 == e2 || !Less(old(a[s2]), old(a[s2 - 1])))
    ensures untouched ==> unchanged(a)
    ensures !untouched ==> a[s1..e2] == Merge(old(a[s1..s2]), old(a[s2..e2]))
    ensures UnchangedOutside(a, s1, e2)
  {
    if s1 == s2 || s2 == e2 || !Less(a[s2], a[s2 - 1]) {
      return true;
    }
    ghost var A, B := a[s1..s2], a[s2..e2];
    var i := SkipNotGreater(a, s1, s2, a[s2]);
    // the check `src1 == end_src1` of the source cannot succeed here:
    // the scan stops at the latest on the last element of run 1
    assert i < s2;
    var nx := s2 - i;
    ghost var P, X := a[s1..i], a[i..s2];
    SliceSplit(a[..], s1, i, s2);
    MergePrefix(P, X, B);
    var endBuf := InitMove(a, i, s2, buf, 0);
    assert buf[0..nx] == X;
    label merging:
    var r := HalfMerge(buf, 0, nx, a, s2, e2, i);
    KeptSlice(a[..], old@merging(a[..]), s1, i, i, e2);
    Glue(a[..], s1, i, e2, P, Merge(X, B));
    untouched := false;
  }
}
