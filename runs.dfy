// Several sorted runs taken together: the facts the 4-way merge and the
// level-by-level merge of a vector of ranges are proved from.

module Runs {
  import opened Order

  /** The runs of `rs` one after the other, in index order. */
  function Flatten(rs: seq<seq<Elem>>): seq<Elem>
  {
    if rs == [] then [] else rs[0] + Flatten(rs[1..])
  }

  /** Every run of `rs` is sorted. */
  predicate AllSorted(rs: seq<seq<Elem>>) {
    forall j :: 0 <= j < |rs| ==> Sorted(rs[j])
  }

  /** Every element of every run has a key of at least `k`. */
  predicate KeysAtLeast(rs: seq<seq<Elem>>, k: int) {
    forall j, m :: 0 <= j < |rs| && 0 <= m < |rs[j]| ==> rs[j][m].key >= k
  }

  lemma {:induction false} FlattenAppend(rs: seq<seq<Elem>>, ts: seq<seq<Elem>>)
    ensures Flatten(rs + ts) == Flatten(rs) + Flatten(ts)
    decreases |rs|
  {
    if rs == [] {
      assert rs + ts == ts;
    } else {
      assert (rs + ts)[1..] == rs[1..] + ts;
      FlattenAppend(rs[1..], ts);
    }
  }

  /** Flattening around the run at `i`. */
  lemma {:induction false} FlattenSplit(rs: seq<seq<Elem>>, i: int)
    requires 0 <= i < |rs|
    ensures Flatten(rs) == Flatten(rs[..i]) + rs[i] + Flatten(rs[i + 1..])
    decreases i
  {
    if i == 0 {
      assert rs[..0] == [];
    } else {
      FlattenSplit(rs[1..], i - 1);
      assert rs[1..][..i - 1] == rs[..i][1..];
      assert rs[1..][i - 1 + 1..] == rs[i + 1..];
    }
  }

  /** Flattening after the run at `i` is replaced by `s`. */
  lemma FlattenUpdate(rs: seq<seq<Elem>>, i: int, s: seq<Elem>)
    requires 0 <= i < |rs|
    ensures Flatten(rs[i := s]) == Flatten(rs[..i]) + s + Flatten(rs[i + 1..])
  {
    FlattenSplit(rs[i := s], i);
    assert rs[i := s][..i] == rs[..i];
    assert rs[i := s][i + 1..] == rs[i + 1..];
  }

  /** A lower bound on the keys of all runs bounds the keys of their flattening. */
  lemma {:induction false} FlattenKeysAtLeast(rs: seq<seq<Elem>>, k: int)
    requires KeysAtLeast(rs, k)
    ensures forall m :: 0 <= m < |Flatten(rs)| ==> Flatten(rs)[m].key >= k
    decreases |rs|
  {
    if rs != [] {
      FlattenKeysAtLeast(rs[1..], k);
      forall m | 0 <= m < |Flatten(rs)|
        ensures Flatten(rs)[m].key >= k
      {
        if m >= |rs[0]| {
          assert Flatten(rs)[m] == Flatten(rs[1..])[m - |rs[0]|];
        } else {
          assert Flatten(rs)[m] == rs[0][m];
        }
      }
    }
  }

  /** Concatenation keeps the order of equivalent elements piecewise. */
  lemma SameKeyOrderConcat(t1: seq<Elem>, s1: seq<Elem>, t2: seq<Elem>, s2: seq<Elem>)
    requires SameKeyOrder(t1, s1) && SameKeyOrder(t2, s2)
    ensures SameKeyOrder(t1 + t2, s1 + s2)
  {
    forall k
      ensures KeyFilter(t1 + t2, k) == KeyFilter(s1 + s2, k)
    {
      KeyFilterConcat(t1, t2, k);
      KeyFilterConcat(s1, s2, k);
    }
  }

  /** Sequences that order their equivalent elements alike sort stably alike. */
  lemma SameKeyOrderStableSort(t: seq<Elem>, s: seq<Elem>)
    requires SameKeyOrder(t, s)
    ensures StableSort(t) == StableSort(s)
  {
    StableSortIsStableSortOf(t);
    StableSortUnique(StableSort(t), s);
  }

  /**
   * The position order of the 4-way merge on range heads: `x` from range
   * `i` comes before `y` from range `j` when its key is smaller, or equal
   * and its range index not larger.
   */
  predicate HeadBefore(x: Elem, i: int, y: Elem, j: int) {
    x.key < y.key || (x.key == y.key && i <= j)
  }

  /** Every element of `s` has a key of at least `k`, and so does its stable sort. */
  lemma StableSortKeysAtLeast(s: seq<Elem>, k: int)
    requires forall m :: 0 <= m < |s| ==> s[m].key >= k
    ensures forall m :: 0 <= m < |StableSort(s)| ==> StableSort(s)[m].key >= k
  {
    StableSortPermutation(s);
    forall m | 0 <= m < |StableSort(s)|
      ensures StableSort(s)[m].key >= k
    {
      var e := StableSort(s)[m];
      assert e in multiset(StableSort(s));
      assert e in multiset(s);
      var w :| 0 <= w < |s| && s[w] == e;
    }
  }

  /** A sorted sequence stays sorted behind an element not greater than any of it. */
  lemma SortedCons(x: Elem, s: seq<Elem>)
    requires Sorted(s) && forall m :: 0 <= m < |s| ==> s[m].key >= x.key
    ensures Sorted([x] + s)
  {
    var t := [x] + s;
    forall a, b | 0 <= a < b < |t|
      ensures t[a].key <= t[b].key
    {
      if a > 0 {
        assert t[a] == s[a - 1];
      }
      assert t[b] == s[b - 1];
    }
  }

  /**
   * Moving `x` to the front does not change the order of the elements of
   * its key as long as nothing before it has that key.
   */
  lemma MoveFrontKeyFilter(p: seq<Elem>, x: Elem, r: seq<Elem>, s: seq<Elem>, k: int)
    requires x.key == k ==> KeyFilter(p, k) == []
    ensures KeyFilter([x] + (p + r + s), k) == KeyFilter(p + ([x] + r) + s, k)
  {
    KeyFilterConcat([x], p + r + s, k);
    KeyFilterConcat(p + r, s, k);
    KeyFilterConcat(p, r, k);
    KeyFilterConcat(p + ([x] + r), s, k);
    KeyFilterConcat(p, [x] + r, k);
    KeyFilterConcat([x], r, k);
    if x.key != k {
      assert KeyFilter([x], k) == [];
    }
    SwapEmpty(KeyFilter(p, k), KeyFilter([x], k), KeyFilter(r, k), KeyFilter(s, k));
  }

  /** When one of `u`, `v` is empty, they may trade places. */
  lemma SwapEmpty(u: seq<Elem>, v: seq<Elem>, r: seq<Elem>, s: seq<Elem>)
    requires u == [] || v == []
    ensures v + (u + r + s) == u + (v + r) + s
  {
  }

  /** With `i`'s head first in `HeadBefore` order, no element that remains is less than it. */
  lemma RestKeysAtLeastHead(rs: seq<seq<Elem>>, i: int)
    requires 0 <= i < |rs| && rs[i] != [] && AllSorted(rs)
    requires forall j :: 0 <= j < |rs| && rs[j] != [] ==> HeadBefore(rs[i][0], i, rs[j][0], j)
    ensures KeysAtLeast(rs[i := rs[i][1..]], rs[i][0].key)
  {
    var rest: seq<seq<Elem>> := rs[i := rs[i][1..]];
    forall j: int, m: int | 0 <= j < |rest| && 0 <= m < |rest[j]|
      ensures rest[j][m].key >= rs[i][0].key
    {
      if j == i {
        assert rest[j][m] == rs[i][m + 1];
      } else {
        assert rs[j][0].key <= rs[j][m].key;
      }
    }
  }

  /** ... and every run before `i` holds only greater keys. */
  lemma BeforeKeysAboveHead(rs: seq<seq<Elem>>, i: int)
    requires 0 <= i < |rs| && rs[i] != [] && AllSorted(rs)
    requires forall j :: 0 <= j < |rs| && rs[j] != [] ==> HeadBefore(rs[i][0], i, rs[j][0], j)
    ensures KeysAtLeast(rs[..i], rs[i][0].key + 1)
  {
    forall j: int, m: int | 0 <= j < |rs[..i]| && 0 <= m < |rs[..i][j]|
      ensures rs[..i][j][m].key >= rs[i][0].key + 1
    {
      assert rs[..i][j] == rs[j];
      assert rs[j][0].key <= rs[j][m].key;
    }
  }

  /**
   * The head that comes first in `HeadBefore` order among the non-empty
   * sorted runs is the first element of the stable sort of all the runs,
   * and the stable sort of what remains follows it.
   */
  lemma TakeFirstHead(rs: seq<seq<Elem>>, i: int)
    requires 0 <= i < |rs| && rs[i] != [] && AllSorted(rs)
    requires forall j :: 0 <= j < |rs| && rs[j] != [] ==> HeadBefore(rs[i][0], i, rs[j][0], j)
    ensures StableSort(Flatten(rs)) == [rs[i][0]] + StableSort(Flatten(rs[i := rs[i][1..]]))
  {
    var x, r := rs[i][0], rs[i][1..];
    var rest: seq<seq<Elem>> := rs[i := r];
    var p, s := Flatten(rs[..i]), Flatten(rs[i + 1..]);
    FlattenSplit(rs, i);
    FlattenUpdate(rs, i, r);
    assert rs[i] == [x] + r;
    var f, f' := Flatten(rs), Flatten(rest);
    assert f == p + ([x] + r) + s && f' == p + r + s;
    RestKeysAtLeastHead(rs, i);
    FlattenKeysAtLeast(rest, x.key);
    StableSortKeysAtLeast(f', x.key);
    StableSortIsStableSortOf(f');
    var t := [x] + StableSort(f');
    SortedCons(x, StableSort(f'));
    BeforeKeysAboveHead(rs, i);
    FlattenKeysAtLeast(rs[..i], x.key + 1);
    forall k
      ensures KeyFilter(t, k) == KeyFilter(f, k)
    {
      KeyFilterConcat([x], StableSort(f'), k);
      KeyFilterConcat([x], f', k);
      if x.key == k {
        KeyFilterNone(p, k);
      }
      MoveFrontKeyFilter(p, x, r, s, k);
    }
    StableSortUnique(t, f);
  }
}
