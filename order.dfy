// The ordering every algorithm of the library is specified against.
//
// Elements carry a sort key and a tag that identifies them; the comparator
// of the library (`comp`, by default `std::less`) is modelled as the strict
// weak order `x.key < y.key`, so two elements with equal keys are
// "equivalent" but still distinguishable through their tags. This is what
// lets stability be stated.

module Order {

  datatype Elem = Elem(key: int, tag: int)

  /** `comp(x, y)` of the library. */
  predicate Less(x: Elem, y: Elem) { x.key < y.key }

  /** Nondecreasing under `comp`: no element is less than one before it. */
  predicate Sorted(s: seq<Elem>) {
    forall i, j :: 0 <= i < j < |s| ==> s[i].key <= s[j].key
  }

  /** The elements of `s` whose key is `k`, in their order in `s`. */
  function KeyFilter(s: seq<Elem>, k: int): seq<Elem>
  {
    if s == [] then []
    else (if s[0].key == k then [s[0]] else []) + KeyFilter(s[1..], k)
  }

  /** `t` orders the equivalent elements of `s` exactly as `s` does. */
  ghost predicate SameKeyOrder(t: seq<Elem>, s: seq<Elem>) {
    forall k :: KeyFilter(t, k) == KeyFilter(s, k)
  }

  /** `t` is a stable sort of `s`. */
  ghost predicate StableSortOf(t: seq<Elem>, s: seq<Elem>) {
    Sorted(t) && SameKeyOrder(t, s)
  }

  /**
   * Stable merge of two runs: the head of `b` goes first only when it is
   * strictly less than the head of `a`; on equal keys `a` wins.
   */
  function Merge(a: seq<Elem>, b: seq<Elem>): (m: seq<Elem>)
    ensures |m| == |a| + |b|
    decreases |a| + |b|
  {
    if a == [] then b
    else if b == [] then a
    else if Less(b[0], a[0]) then [b[0]] + Merge(a, b[1..])
    else [a[0]] + Merge(a[1..], b)
  }

  /**
   * Inserts `x` after the last element of `s` that is not greater than it,
   * walking from the right end as the insertion sort loops do.
   */
  function Insert(s: seq<Elem>, x: Elem): seq<Elem>
    decreases |s|
  {
    if s == [] || !Less(x, s[|s| - 1]) then s + [x]
    else Insert(s[..|s| - 1], x) + [s[|s| - 1]]
  }

  /** The reference stable sort: insertion of each element in turn. */
  function StableSort(s: seq<Elem>): seq<Elem>
    decreases |s|
  {
    if s == [] then [] else Insert(StableSort(s[..|s| - 1]), s[|s| - 1])
  }

  // ---------------------------------------------------------------------
  // KeyFilter
  // ---------------------------------------------------------------------

  lemma {:induction false} KeyFilterConcat(a: seq<Elem>, b: seq<Elem>, k: int)
    ensures KeyFilter(a + b, k) == KeyFilter(a, k) + KeyFilter(b, k)
    decreases |a|
  {
    if a == [] {
      assert a + b == b;
    } else {
      var head := if a[0].key == k then [a[0]] else [];
      assert (a + b)[0] == a[0] && (a + b)[1..] == a[1..] + b;
      KeyFilterConcat(a[1..], b, k);
      assert KeyFilter(a + b, k) == head + (KeyFilter(a[1..], k) + KeyFilter(b, k));
    }
  }

  lemma {:induction false} KeyFilterNone(s: seq<Elem>, k: int)
    requires forall i :: 0 <= i < |s| ==> s[i].key != k
    ensures KeyFilter(s, k) == []
    decreases |s|
  {
    if s != [] {
      KeyFilterNone(s[1..], k);
    }
  }

  /** Every element of `s` shows up in the filter of its own key. */
  lemma {:induction false} KeyFilterHas(s: seq<Elem>, i: int)
    requires 0 <= i < |s|
    ensures s[i] in KeyFilter(s, s[i].key)
    decreases |s|
  {
    if i > 0 {
      KeyFilterHas(s[1..], i - 1);
    }
  }

  /** In a sorted sequence, a key that occurs is at least the first key. */
  lemma {:induction false} KeyFilterSortedHead(s: seq<Elem>, k: int)
    requires Sorted(s) && KeyFilter(s, k) != []
    ensures s[0].key <= k
    decreases |s|
  {
    if s[0].key != k {
      KeyFilterSortedHead(s[1..], k);
    }
  }

  lemma {:induction false} KeyFilterMultiset(s: seq<Elem>, x: Elem)
    ensures multiset(s)[x] == multiset(KeyFilter(s, x.key))[x]
    decreases |s|
  {
    if s != [] {
      assert s == [s[0]] + s[1..];
      KeyFilterMultiset(s[1..], x);
    }
  }

  // ---------------------------------------------------------------------
  // Uniqueness: a stable sort is determined by its input
  // ---------------------------------------------------------------------

  lemma {:induction false} SortedSameKeyOrderEqual(t: seq<Elem>, u: seq<Elem>)
    requires Sorted(t) && Sorted(u) && SameKeyOrder(t, u)
    ensures t == u
    decreases |t|
  {
    if t == [] || u == [] {
      if t != [] || u != [] {
        // the first element of the non-empty one has no partner in the other
        KeyFilterHas(if t != [] then t else u, 0);
      }
    } else {
      var k0, k1 := t[0].key, u[0].key;
      assert KeyFilter(t, k0) == KeyFilter(u, k0);
      assert KeyFilter(t, k1) == KeyFilter(u, k1);
      KeyFilterSortedHead(u, k0);
      KeyFilterSortedHead(t, k1);
      assert k0 == k1;
      assert t[0] == KeyFilter(t, k0)[0] == KeyFilter(u, k0)[0] == u[0];
      forall k ensures KeyFilter(t[1..], k) == KeyFilter(u[1..], k) {
        var h := if k0 == k then [t[0]] else [];
        assert KeyFilter(t, k) == h + KeyFilter(t[1..], k);
        assert KeyFilter(u, k) == h + KeyFilter(u[1..], k);
        assert KeyFilter(t, k) == KeyFilter(u, k);
        assert KeyFilter(t[1..], k) == KeyFilter(t, k)[|h|..];
        assert KeyFilter(u[1..], k) == KeyFilter(u, k)[|h|..];
      }
      SortedSameKeyOrderEqual(t[1..], u[1..]);
      assert t == [t[0]] + t[1..];
      assert u == [u[0]] + u[1..];
    }
  }

  /** Any stable sort of `s` is the reference stable sort of `s`. */
  lemma StableSortUnique(t: seq<Elem>, s: seq<Elem>)
    requires StableSortOf(t, s)
    ensures t == StableSort(s)
  {
    StableSortIsStableSortOf(s);
    SortedSameKeyOrderEqual(t, StableSort(s));
  }

  // ---------------------------------------------------------------------
  // Insert and StableSort
  // ---------------------------------------------------------------------

  lemma {:induction false} InsertKeyFilter(s: seq<Elem>, x: Elem, k: int)
    ensures KeyFilter(Insert(s, x), k) == KeyFilter(s + [x], k)
    decreases |s|
  {
    if s == [] || !Less(x, s[|s| - 1]) {
    } else {
      var p, y := s[..|s| - 1], s[|s| - 1];
      InsertKeyFilter(p, x, k);
      KeyFilterConcat(Insert(p, x), [y], k);
      KeyFilterConcat(p + [x], [y], k);
      KeyFilterConcat(p, [x], k);
      KeyFilterConcat(p + [y], [x], k);
      KeyFilterConcat(p, [y], k);
      assert s == p + [y];
    }
  }

  lemma {:induction false} InsertMultiset(s: seq<Elem>, x: Elem)
    ensures multiset(Insert(s, x)) == multiset(s) + multiset{x}
    decreases |s|
  {
    if s == [] || !Less(x, s[|s| - 1]) {
    } else {
      InsertMultiset(s[..|s| - 1], x);
      assert s == s[..|s| - 1] + [s[|s| - 1]];
    }
  }

  /** All elements of `Insert(s, x)` are those of `s` and `x`. */
  lemma InsertMember(s: seq<Elem>, x: Elem, y: Elem)
    requires y in Insert(s, x)
    ensures y in s || y == x
  {
    InsertMultiset(s, x);
    assert y in multiset(Insert(s, x));
  }

  lemma {:induction false} InsertSorted(s: seq<Elem>, x: Elem)
    requires Sorted(s)
    ensures Sorted(Insert(s, x))
    ensures |Insert(s, x)| == |s| + 1
    decreases |s|
  {
    if s == [] || !Less(x, s[|s| - 1]) {
    } else {
      var p, y := s[..|s| - 1], s[|s| - 1];
      InsertSorted(p, x);
      var r := Insert(p, x);
      forall i | 0 <= i < |r| ensures r[i].key <= y.key {
        InsertMember(p, x, r[i]);
      }
    }
  }

  lemma {:induction false} StableSortIsStableSortOf(s: seq<Elem>)
    ensures StableSortOf(StableSort(s), s)
    ensures |StableSort(s)| == |s|
    decreases |s|
  {
    if s != [] {
      var p, x := s[..|s| - 1], s[|s| - 1];
      StableSortIsStableSortOf(p);
      InsertSorted(StableSort(p), x);
      forall k ensures KeyFilter(StableSort(s), k) == KeyFilter(s, k) {
        InsertKeyFilter(StableSort(p), x, k);
        KeyFilterConcat(StableSort(p), [x], k);
        KeyFilterConcat(p, [x], k);
        assert s == p + [x];
      }
    }
  }

  /** The reference sort is a permutation of its input. */
  lemma {:induction false} StableSortPermutation(s: seq<Elem>)
    ensures multiset(StableSort(s)) == multiset(s)
    ensures |StableSort(s)| == |s|
    decreases |s|
  {
    if s != [] {
      var p, x := s[..|s| - 1], s[|s| - 1];
      StableSortPermutation(p);
      InsertMultiset(StableSort(p), x);
      assert s == p + [x];
    }
  }

  /** A stable sort of `s` is a permutation of `s`. */
  lemma StableSortOfPermutation(t: seq<Elem>, s: seq<Elem>)
    requires StableSortOf(t, s)
    ensures multiset(t) == multiset(s)
  {
    forall x ensures multiset(t)[x] == multiset(s)[x] {
      KeyFilterMultiset(t, x);
      KeyFilterMultiset(s, x);
    }
  }

  /** Sorting a sorted sequence changes nothing. */
  lemma StableSortOfSorted(s: seq<Elem>)
    requires Sorted(s)
    ensures StableSort(s) == s
  {
    StableSortUnique(s, s);
  }

  /** The reference stable sort is sorted and keeps the length of its input. */
  lemma StableSortSorted(s: seq<Elem>)
    ensures Sorted(StableSort(s))
    ensures |StableSort(s)| == |s|
  {
    StableSortIsStableSortOf(s);
  }

  // ---------------------------------------------------------------------
  // Merge
  // ---------------------------------------------------------------------

  lemma {:induction false} MergeMultiset(a: seq<Elem>, b: seq<Elem>)
    ensures multiset(Merge(a, b)) == multiset(a) + multiset(b)
    ensures |Merge(a, b)| == |a| + |b|
    decreases |a| + |b|
  {
    if a == [] || b == [] {
    } else if Less(b[0], a[0]) {
      MergeMultiset(a, b[1..]);
      assert b == [b[0]] + b[1..];
    } else {
      MergeMultiset(a[1..], b);
      assert a == [a[0]] + a[1..];
    }
  }

  lemma MergeMember(a: seq<Elem>, b: seq<Elem>, y: Elem)
    requires y in Merge(a, b)
    ensures y in a || y in b
  {
    MergeMultiset(a, b);
    assert y in multiset(Merge(a, b));
  }

  lemma {:induction false} MergeSorted(a: seq<Elem>, b: seq<Elem>)
    requires Sorted(a) && Sorted(b)
    ensures Sorted(Merge(a, b))
    decreases |a| + |b|
  {
    if a == [] || b == [] {
    } else {
      var x, r := if Less(b[0], a[0]) then b[0] else a[0],
                  if Less(b[0], a[0]) then Merge(a, b[1..]) else Merge(a[1..], b);
      if Less(b[0], a[0]) { MergeSorted(a, b[1..]); } else { MergeSorted(a[1..], b); }
      forall i | 0 <= i < |r| ensures x.key <= r[i].key {
        if Less(b[0], a[0]) { MergeMember(a, b[1..], r[i]); } else { MergeMember(a[1..], b, r[i]); }
      }
      assert Merge(a, b) == [x] + r;
    }
  }

  lemma {:induction false} MergeKeyFilter(a: seq<Elem>, b: seq<Elem>, k: int)
    requires Sorted(a)
    ensures KeyFilter(Merge(a, b), k) == KeyFilter(a, k) + KeyFilter(b, k)
    decreases |a| + |b|
  {
    if a == [] || b == [] {
    } else if Less(b[0], a[0]) {
      MergeKeyFilter(a, b[1..], k);
      if k == b[0].key {
        KeyFilterNone(a, k);
      }
    } else {
      MergeKeyFilter(a[1..], b, k);
    }
  }

  /** Merging two sorted runs is the stable sort of their concatenation. */
  lemma MergeIsStableSort(a: seq<Elem>, b: seq<Elem>)
    requires Sorted(a) && Sorted(b)
    ensures Merge(a, b) == StableSort(a + b)
  {
    MergeSorted(a, b);
    forall k ensures KeyFilter(Merge(a, b), k) == KeyFilter(a + b, k) {
      MergeKeyFilter(a, b, k);
      KeyFilterConcat(a, b, k);
    }
    StableSortUnique(Merge(a, b), a + b);
  }

  /**
   * `Merge(a[p..], b[q..])`, indexed the way the merge loops advance their
   * two read positions.
   */
  function MergeFrom(a: seq<Elem>, b: seq<Elem>, p: nat, q: nat): seq<Elem>
    requires p <= |a| && q <= |b|
    decreases |a| - p + |b| - q
  {
    if p == |a| then b[q..]
    else if q == |b| then a[p..]
    else if Less(b[q], a[p]) then [b[q]] + MergeFrom(a, b, p, q + 1)
    else [a[p]] + MergeFrom(a, b, p + 1, q)
  }

  lemma {:induction false} MergeFromIsMerge(a: seq<Elem>, b: seq<Elem>, p: nat, q: nat)
    requires p <= |a| && q <= |b|
    ensures MergeFrom(a, b, p, q) == Merge(a[p..], b[q..])
    decreases |a| - p + |b| - q
  {
    if p == |a| {
      assert a[p..] == [];
    } else if q == |b| {
      assert b[q..] == [];
    } else {
      assert a[p..][0] == a[p] && a[p..][1..] == a[p + 1..];
      assert b[q..][0] == b[q] && b[q..][1..] == b[q + 1..];
      if Less(b[q], a[p]) {
        MergeFromIsMerge(a, b, p, q + 1);
      } else {
        MergeFromIsMerge(a, b, p + 1, q);
      }
    }
  }

  /**
   * One step of a merge loop: with `done` already written, emitting the
   * element the comparison picks keeps `done + rest` equal to the whole merge.
   */
  lemma MergeFromStep(a: seq<Elem>, b: seq<Elem>, p: nat, q: nat, done: seq<Elem>)
    requires p < |a| && q < |b|
    requires done + MergeFrom(a, b, p, q) == MergeFrom(a, b, 0, 0)
    ensures Less(b[q], a[p]) ==> (done + [b[q]]) + MergeFrom(a, b, p, q + 1) == MergeFrom(a, b, 0, 0)
    ensures !Less(b[q], a[p]) ==> (done + [a[p]]) + MergeFrom(a, b, p + 1, q) == MergeFrom(a, b, 0, 0)
  {
    if Less(b[q], a[p]) {
      assert (done + [b[q]]) + MergeFrom(a, b, p, q + 1) == done + ([b[q]] + MergeFrom(a, b, p, q + 1));
    } else {
      assert (done + [a[p]]) + MergeFrom(a, b, p + 1, q) == done + ([a[p]] + MergeFrom(a, b, p + 1, q));
    }
  }

  /** The indexed merge from the heads of both runs is the whole merge. */
  lemma MergeFromStart(a: seq<Elem>, b: seq<Elem>)
    ensures MergeFrom(a, b, 0, 0) == Merge(a, b)
  {
    MergeFromIsMerge(a, b, 0, 0);
    assert a[0..] == a && b[0..] == b;
  }

  /**
   * Invariant of the merge loops: `done`, the output written so far, followed
   * by the merge of what is left of the runs from positions p and q, is the
   * whole merge.
   */
  ghost predicate MergeInv(a: seq<Elem>, b: seq<Elem>, done: seq<Elem>, p: nat, q: nat) {
    p <= |a| && q <= |b| && done + MergeFrom(a, b, p, q) == MergeFrom(a, b, 0, 0)
  }

  /** Nothing written, nothing consumed: the invariant holds at the start. */
  lemma MergeInvStart(a: seq<Elem>, b: seq<Elem>)
    ensures MergeInv(a, b, [], 0, 0)
  {
  }

  /**
   * Emitting the element the comparison picks (run 1 on ties) keeps the
   * invariant; `x` and `y` are the heads of the runs, as the loop read them.
   */
  lemma MergeInvStep(a: seq<Elem>, b: seq<Elem>, done: seq<Elem>, p: nat, q: nat, x: Elem, y: Elem)
    requires MergeInv(a, b, done, p, q) && p < |a| && q < |b| && x == a[p] && y == b[q]
    ensures !Less(y, x) ==> MergeInv(a, b, done + [x], p + 1, q)
    ensures Less(y, x) ==> MergeInv(a, b, done + [y], p, q + 1)
  {
    MergeFromStep(a, b, p, q, done);
  }

  /**
   * Under the invariant, what is still to be written is the merge of the
   * unread parts; when a run is used up, that is the rest of the other one.
   */
  lemma MergeInvEnd(a: seq<Elem>, b: seq<Elem>, done: seq<Elem>, p: nat, q: nat)
    requires MergeInv(a, b, done, p, q)
    ensures done + Merge(a[p..], b[q..]) == Merge(a, b)
    ensures p == |a| ==> done + b[q..] == Merge(a, b)
    ensures q == |b| ==> done + a[p..] == Merge(a, b)
  {
    MergeFromStart(a, b);
    MergeFromIsMerge(a, b, p, q);
  }

  /**
   * How many elements of `b` a merge loop that starts at positions p and q
   * has consumed when it stops, the loop stopping as soon as one run is used
   * up.
   */
  function HalfMergeStop(a: seq<Elem>, b: seq<Elem>, p: nat, q: nat): (n: nat)
    requires p <= |a| && q <= |b|
    ensures q <= n <= |b|
    decreases |a| - p + |b| - q
  {
    if p == |a| || q == |b| then q
    else if Less(b[q], a[p]) then HalfMergeStop(a, b, p, q + 1)
    else HalfMergeStop(a, b, p + 1, q)
  }

  /** One loop step leaves the final stop position where it was. */
  lemma HalfMergeStopStep(a: seq<Elem>, b: seq<Elem>, p: nat, q: nat, x: Elem, y: Elem)
    requires p < |a| && q < |b| && x == a[p] && y == b[q]
    ensures !Less(y, x) ==> HalfMergeStop(a, b, p + 1, q) == HalfMergeStop(a, b, p, q)
    ensures Less(y, x) ==> HalfMergeStop(a, b, p, q + 1) == HalfMergeStop(a, b, p, q)
  {
  }

  /**
   * Where the loop stops splits the merge: the merge of `a` with the consumed
   * prefix of `b`, then the rest of `b` untouched.
   */
  lemma {:induction false} HalfMergeStopSplit(a: seq<Elem>, b: seq<Elem>, p: nat, q: nat)
    requires p <= |a| && q <= |b|
    ensures MergeFrom(a, b, p, q)
            == MergeFrom(a, b[..HalfMergeStop(a, b, p, q)], p, q) + b[HalfMergeStop(a, b, p, q)..]
    decreases |a| - p + |b| - q
  {
    var n := HalfMergeStop(a, b, p, q);
    var c := b[..n];
    if p == |a| {
      assert c[q..] == [];
    } else if q == |b| {
      assert c == b;
    } else if Less(b[q], a[p]) {
      HalfMergeStopSplit(a, b, p, q + 1);
      assert c[q] == b[q];
    } else {
      HalfMergeStopSplit(a, b, p + 1, q);
      if q == n {
        assert MergeFrom(a, c, p + 1, q) == a[p + 1..];
        assert a[p..] == [a[p]] + a[p + 1..];
      } else {
        assert c[q] == b[q];
      }
    }
  }

  /**
   * Run 2 can outlast run 1: with `a = [(1, 0)]` and `b = [(2, 1)]` the loop
   * stops with `b` untouched.
   */
  lemma HalfMergeStopEarly()
    ensures HalfMergeStop([Elem(1, 0)], [Elem(2, 1)], 0, 0) == 0
  {
    assert HalfMergeStop([Elem(1, 0)], [Elem(2, 1)], 1, 0) == 0;
  }

  /** When the runs are already in order, merging only concatenates them. */
  lemma {:induction false} MergeOrdered(a: seq<Elem>, b: seq<Elem>)
    requires b == [] || a == [] || !Less(b[0], a[|a| - 1])
    requires Sorted(a)
    ensures Merge(a, b) == a + b
    decreases |a|
  {
    if a != [] && b != [] {
      assert !Less(b[0], a[0]);
      MergeOrdered(a[1..], b);
      assert a == [a[0]] + a[1..];
    }
  }

  /** A prefix of run 1 that no head of run 2 undercuts is copied unchanged. */
  lemma {:induction false} MergePrefix(p: seq<Elem>, q: seq<Elem>, b: seq<Elem>)
    requires b != [] ==> forall i :: 0 <= i < |p| ==> !Less(b[0], p[i])
    ensures Merge(p + q, b) == p + Merge(q, b)
    decreases |p|
  {
    if p != [] {
      assert (p + q)[0] == p[0];
      assert (p + q)[1..] == p[1..] + q;
      MergePrefix(p[1..], q, b);
      if b == [] {
        assert Merge(q, b) == q;
      }
    } else {
      assert p + q == q;
    }
  }

  /** Merging the stable sorts of two halves is the stable sort of the whole. */
  lemma MergeStableSorts(p: seq<Elem>, q: seq<Elem>)
    ensures Merge(StableSort(p), StableSort(q)) == StableSort(p + q)
  {
    var sp, sq := StableSort(p), StableSort(q);
    StableSortIsStableSortOf(p);
    StableSortIsStableSortOf(q);
    MergeSorted(sp, sq);
    forall k ensures KeyFilter(Merge(sp, sq), k) == KeyFilter(p + q, k) {
      MergeKeyFilter(sp, sq, k);
      KeyFilterConcat(p, q, k);
    }
    StableSortUnique(Merge(sp, sq), p + q);
  }

  /** The stable sort of a sequence and of its stable sort agree. */
  lemma StableSortIdempotent(s: seq<Elem>)
    ensures StableSort(StableSort(s)) == StableSort(s)
  {
    StableSortSorted(s);
    StableSortOfSorted(StableSort(s));
  }
}
