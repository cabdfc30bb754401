/**
 * The index the indirect sorts build and sort. `less_ptr_no_null` compares
 * two index entries through the elements they point at, and the data does
 * not change while the index is sorted, so an entry is modelled as an
 * element whose key is the key of its pointee and whose tag is the
 * position it holds. Sorting the entries is then sorting the index by
 * pointee, and the positions the sorted entries carry are the index that
 * `sort_index` applies.
 */
module IndexEntries
{
  import opened Order
  import opened Indirect
  import opened Arrays

  /** The entries of the index `create_index` builds over the data `d` at `lo`: position `lo + k`, compared as `d[k]`. */
  function Entries(d: seq<Elem>, lo: int): (e: seq<Elem>)
    ensures |e| == |d|
  {
    seq(|d|, k requires 0 <= k < |d| => Elem(d[k].key, lo + k))
  }

  /** The positions carried by a sequence of entries: the index itself. */
  function Positions(e: seq<Elem>): (p: seq<int>)
    ensures |p| == |e| && forall k :: 0 <= k < |e| ==> p[k] == e[k].tag
  {
    seq(|e|, k requires 0 <= k < |e| => e[k].tag)
  }

  /** Every entry points into the data at `lo` and is compared as its pointee. */
  ghost predicate Pointing(t: seq<Elem>, d: seq<Elem>, lo: int)
  {
    forall k :: 0 <= k < |t| ==> lo <= t[k].tag < lo + |d| && t[k].key == d[t[k].tag - lo].key
  }

  /** Entries with distinct positions. */
  ghost predicate DistinctPositions(t: seq<Elem>)
  {
    forall i, j :: 0 <= i < j < |t| ==> t[i].tag != t[j].tag
  }

  /** A sequence whose elements have distinct tags holds each element at most once. */
  lemma {:induction false} DistinctCountOne(s: seq<Elem>, x: Elem)
    requires DistinctPositions(s)
    ensures multiset(s)[x] <= 1
    decreases |s|
  {
    if s != [] {
      var s' := s[..|s| - 1];
      assert s == s' + [s[|s| - 1]];
      DistinctCountOne(s', x);
      if x == s[|s| - 1] {
        forall k | 0 <= k < |s'|
          ensures s'[k] != x
        {
          assert s[k].tag != s[|s| - 1].tag;
        }
      }
    }
  }

  /** An element found at two places of a sequence is counted at least twice. */
  lemma TwiceCounted(t: seq<Elem>, i: int, j: int)
    requires 0 <= i < j < |t|
    ensures t[i] == t[j] ==> multiset(t)[t[i]] >= 2
  {
    if t[i] == t[j] {
      assert t == t[..j] + [t[j]] + t[j + 1..];
      assert t[..j][i] == t[i];
    }
  }

  /** A rearrangement of the entries still points into the data, each entry compared as its pointee. */
  lemma {:induction false} EntriesPointing(t: seq<Elem>, d: seq<Elem>, lo: int)
    requires multiset(t) == multiset(Entries(d, lo))
    ensures |t| == |d| && Pointing(t, d, lo)
  {
    var e := Entries(d, lo);
    assert |t| == |multiset(t)| == |multiset(e)| == |e|;
    forall k | 0 <= k < |t|
      ensures lo <= t[k].tag < lo + |d| && t[k].key == d[t[k].tag - lo].key
    {
      assert t[k] in multiset(e);
      var m :| 0 <= m < |e| && e[m] == t[k];
    }
  }

  /** A rearrangement of the entries holds every position once. */
  lemma {:induction false} EntriesDistinct(t: seq<Elem>, d: seq<Elem>, lo: int)
    requires multiset(t) == multiset(Entries(d, lo)) && Pointing(t, d, lo)
    ensures DistinctPositions(t)
  {
    var e := Entries(d, lo);
    assert DistinctPositions(e);
    forall i, j | 0 <= i < j < |t|
      ensures t[i].tag != t[j].tag
    {
      TwiceCounted(t, i, j);
      DistinctCountOne(e, t[i]);
    }
  }

  /**
   * Any rearrangement of the entries `create_index` builds is a permutation
   * index of the data's positions, and reading the data through it gives,
   * position by position, elements with the keys of the entries: sorted
   * entries give sorted data.
   */
  lemma {:induction false} EntriesPermutation(t: seq<Elem>, d: seq<Elem>, lo: int)
    requires multiset(t) == multiset(Entries(d, lo))
    ensures |t| == |d| && IsIndex(Positions(t), lo)
    ensures forall k :: 0 <= k < |t| ==> Gather(d, Positions(t), lo)[k].key == t[k].key
    ensures Sorted(t) ==> Sorted(Gather(d, Positions(t), lo))
  {
    EntriesPointing(t, d, lo);
    EntriesDistinct(t, d, lo);
    var p := Positions(t);
    var g := Gather(d, p, lo);
    forall i, j | 0 <= i < j < |g| && Sorted(t)
      ensures g[i].key <= g[j].key
    {
      assert t[i].key <= t[j].key;
    }
  }

  /**
   * Applying an index under which the data reads sorted leaves the indexed
   * window sorted, holding the same elements, and everything else as it
   * was.
   */
  lemma {:induction false} ApplySortedIndex(s: seq<Elem>, p: seq<int>, lo: int, hi: int, r: seq<Elem>)
    requires 0 <= lo && hi == lo + |p| && hi <= |s| && IsIndex(p, lo)
    requires Sorted(Gather(s[lo..hi], p, lo)) && r == Permute(s, p, lo)
    ensures Sorted(r[lo..hi]) && multiset(r[lo..hi]) == multiset(s[lo..hi])
    ensures forall i :: 0 <= i < |s| && !(lo <= i < hi) ==> r[i] == s[i]
  {
    PermuteIsGather(s, p, lo);
    GatherPermutation(s[lo..hi], p, lo);
  }

  /** `create_index` over [lo, hi), with each entry compared as the element it points at. */
  method BuildEntries(a: array<Elem>, lo: int, hi: int) returns (ix: array<Elem>)
    requires 0 <= lo <= hi <= a.Length
    ensures fresh(ix) && ix[..] == Entries(a[lo..hi], lo)
  {
    var vp := CreateIndex(lo, hi);
    ix := new Elem[hi - lo](k requires 0 <= k < hi - lo reads a => Elem(a[vp[k]].key, vp[k]));
  }

  /** The positions the sorted entries hold: the index `sort_index` applies. */
  method TakePositions(ix: array<Elem>) returns (v: array<int>)
    ensures fresh(v) && v[..] == Positions(ix[..])
  {
    v := new int[ix.Length](k requires 0 <= k < ix.Length reads ix => ix[k].tag);
  }

  /**
   * The entry sequence `d` would be if each entry were replaced by the
   * element it points at (an entry pointing outside `d` is kept as it is).
   */
  ghost function Deref(d: seq<Elem>, u: seq<Elem>, lo: int): (r: seq<Elem>)
    ensures |r| == |u|
  {
    seq(|u|, i requires 0 <= i < |u| => if lo <= u[i].tag < lo + |d| then d[u[i].tag - lo] else u[i])
  }

  /** Each entry that points into `d` carries the key of its pointee. */
  ghost predicate KeysAgree(d: seq<Elem>, u: seq<Elem>, lo: int)
  {
    forall i :: 0 <= i < |u| && lo <= u[i].tag < lo + |d| ==> d[u[i].tag - lo].key == u[i].key
  }

  /** Dereferencing distributes over concatenation. */
  lemma DerefConcat(d: seq<Elem>, u: seq<Elem>, v: seq<Elem>, lo: int)
    ensures Deref(d, u + v, lo) == Deref(d, u, lo) + Deref(d, v, lo)
  {
    var l, r := Deref(d, u + v, lo), Deref(d, u, lo) + Deref(d, v, lo);
    forall i | 0 <= i < |l|
      ensures l[i] == r[i]
    {
      if i < |u| {
        assert (u + v)[i] == u[i];
      } else {
        assert (u + v)[i] == v[i - |u|];
      }
    }
  }

  /**
   * Dereferencing keeps keys, so it commutes with picking the elements of
   * one key: the pointees of the entries of key `k` are the elements of
   * key `k` among the pointees.
   */
  lemma {:induction false} KeyFilterDeref(d: seq<Elem>, u: seq<Elem>, lo: int, k: int)
    requires KeysAgree(d, u, lo)
    ensures KeyFilter(Deref(d, u, lo), k) == Deref(d, KeyFilter(u, k), lo)
    decreases |u|
  {
    if u != [] {
      var t := u[1..];
      assert KeysAgree(d, t, lo) by {
        forall i | 0 <= i < |t| && lo <= t[i].tag < lo + |d|
          ensures d[t[i].tag - lo].key == t[i].key
        {
          assert t[i] == u[i + 1];
        }
      }
      KeyFilterDeref(d, t, lo, k);
      var du := Deref(d, u, lo);
      assert du[1..] == Deref(d, t, lo);
      var head := if u[0].key == k then [u[0]] else [];
      DerefConcat(d, head, KeyFilter(t, k), lo);
      assert Deref(d, head, lo) == (if du[0].key == k then [du[0]] else []);
    }
  }

  /** Entries that point into the data read, through their positions, as their pointees. */
  lemma GatherIsDeref(d: seq<Elem>, t: seq<Elem>, lo: int)
    requires |t| == |d| && Pointing(t, d, lo)
    ensures Gather(d, Positions(t), lo) == Deref(d, t, lo)
  {
  }

  /** Dereferencing the entries `create_index` builds gives back the data. */
  lemma EntriesDeref(d: seq<Elem>, lo: int)
    ensures Deref(d, Entries(d, lo), lo) == d && KeysAgree(d, Entries(d, lo), lo)
  {
    var e := Entries(d, lo);
    var r := Deref(d, e, lo);
    forall i | 0 <= i < |d|
      ensures e[i].tag - lo == i && r[i] == d[i] && d[e[i].tag - lo].key == e[i].key
    {
      assert e[i] == Elem(d[i].key, lo + i);
    }
    assert r == d;
  }

  /** Two entry sequences of the same key order dereference to the same key order. */
  lemma {:induction false} DerefSameKeyOrder(d: seq<Elem>, t: seq<Elem>, e: seq<Elem>, lo: int)
    requires KeysAgree(d, t, lo) && KeysAgree(d, e, lo) && SameKeyOrder(t, e)
    ensures SameKeyOrder(Deref(d, t, lo), Deref(d, e, lo))
  {
    forall k
      ensures KeyFilter(Deref(d, t, lo), k) == KeyFilter(Deref(d, e, lo), k)
    {
      KeyFilterDeref(d, t, lo, k);
      KeyFilterDeref(d, e, lo, k);
    }
  }

  /**
   * Stably sorting the entries and reading the data through the positions
   * they carry gives the stable sort of the data: an indirect sort with a
   * stable algorithm is stable.
   */
  lemma {:induction false} EntriesStable(d: seq<Elem>, lo: int)
    ensures IsIndex(Positions(StableSort(Entries(d, lo))), lo)
    ensures |StableSort(Entries(d, lo))| == |d|
    ensures Gather(d, Positions(StableSort(Entries(d, lo))), lo) == StableSort(d)
  {
    var e := Entries(d, lo);
    var t := StableSort(e);
    StableSortPermutation(e);
    StableSortIsStableSortOf(e);
    StableSortSorted(e);
    EntriesPermutation(t, d, lo);
    EntriesPointing(t, d, lo);
    GatherIsDeref(d, t, lo);
    EntriesDeref(d, lo);
    DerefSameKeyOrder(d, t, e, lo);
    StableSortUnique(Gather(d, Positions(t), lo), d);
  }

  /**
   * The sequence reasoning of `ApplyStableEntries`: permuting the data by
   * the positions of the stably sorted entries leaves the stable sort in
   * the window and the rest as it was.
   */
  lemma PermutedEntries(s: seq<Elem>, t: seq<Elem>, d: seq<Elem>, p: seq<int>, lo: int, hi: int)
    requires 0 <= lo <= hi <= |s| && s[lo..hi] == d
    requires p == Positions(StableSort(Entries(d, lo)))
    requires IsIndex(p, lo) && |p| == hi - lo && t == Permute(s, p, lo)
    ensures |t| == |s| && t[lo..hi] == StableSort(d)
    ensures forall i :: 0 <= i < |s| && !(lo <= i < hi) ==> t[i] == s[i]
  {
    EntriesStable(d, lo);
    PermuteIsGather(s, p, lo);
  }

  /**
   * `sort_index` with the positions of the stably sorted entries: the
   * indexed window of `a` becomes the stable sort of what it held, and
   * nothing else changes.
   */
  method ApplyStableEntries(a: array<Elem>, lo: int, hi: int, ix: array<Elem>, ghost d: seq<Elem>)
    requires 0 <= lo <= hi <= a.Length && a[lo..hi] == d
    requires ix[..] == StableSort(Entries(d, lo))
    modifies a
    ensures a[lo..hi] == StableSort(d)
    ensures UnchangedOutside(a, lo, hi)
  {
    EntriesStable(d, lo);
    var v := TakePositions(ix);
    ghost var s, p := a[..], v[..];
    SortIndex(a, lo, v);
    PermutedEntries(s, a[..], d, p, lo, hi);
  }

  /**
   * `sort_index` with the positions of entries sorted by any algorithm:
   * the indexed window of `a` becomes a sorted rearrangement of what it
   * held, and nothing else changes.
   */
  method ApplySortedEntries(a: array<Elem>, lo: int, hi: int, ix: array<Elem>, ghost d: seq<Elem>)
    requires 0 <= lo <= hi <= a.Length && a[lo..hi] == d && ix != a
    requires multiset(ix[..]) == multiset(Entries(d, lo)) && Sorted(ix[..])
    modifies a
    ensures Sorted(a[lo..hi]) && multiset(a[lo..hi]) == multiset(d)
    ensures UnchangedOutside(a, lo, hi)
  {
    ghost var e := ix[..];
    EntriesPermutation(e, d, lo);
    var v := TakePositions(ix);
    ghost var s, p := a[..], v[..];
    SortIndex(a, lo, v);
    PermutedSorted(s, a[..], d, e, p, lo, hi);
  }

  /**
   * The sequence reasoning of `ApplySortedEntries`: permuting the data by
   * the positions of sorted entries leaves a sorted rearrangement in the
   * window and the rest as it was.
   */
  lemma PermutedSorted(s: seq<Elem>, t: seq<Elem>, d: seq<Elem>, e: seq<Elem>, p: seq<int>, lo: int, hi: int)
    requires 0 <= lo <= hi <= |s| && s[lo..hi] == d
    requires multiset(e) == multiset(Entries(d, lo)) && Sorted(e)
    requires p == Positions(e) && |p| == hi - lo && IsIndex(p, lo) && t == Permute(s, p, lo)
    ensures Sorted(t[lo..hi])
    ensures multiset(t[lo..hi]) == multiset(d)
    ensures forall i :: 0 <= i < |s| && !(lo <= i < hi) ==> t[i] == s[i]
  {
    EntriesPermutation(e, d, lo);
    ApplySortedIndex(s, p, lo, hi, t);
  }
}
