/**
 * Indirect sorting bookkeeping, kept in two identical copies
 * (detail/indirect.hpp and algorithm/indirect.hpp): an index of positions
 * into the data is built, sorted by the values it points to, and then the
 * data is permuted in place to follow the index, cycle by cycle, while the
 * index is reset to the identity.
 *
 * Iterators are absolute positions in the data array; `first` is `lo`.
 */
module Indirect
{
  import opened Order
  import opened Arrays

  /** `less_ptr_no_null`: two positions compared through the values they point at. */
  predicate LessPtr(d: seq<Elem>, i: int, j: int)
    requires 0 <= i < |d| && 0 <= j < |d|
  {
    Less(d[i], d[j])
  }

  /** `p` is an index of `n` distinct positions of `[lo, lo + n)`: a permutation of them. */
  predicate IsIndex(p: seq<int>, lo: int)
  {
    (forall i :: 0 <= i < |p| ==> lo <= p[i] < lo + |p|) &&
    (forall i, j :: 0 <= i < j < |p| ==> p[i] != p[j])
  }

  /** The data read through the index: element `i` is the one `p[i]` points at. */
  ghost function Gather(d: seq<Elem>, p: seq<int>, lo: int): (g: seq<Elem>)
    requires forall i :: 0 <= i < |p| ==> lo <= p[i] < lo + |d|
    ensures |g| == |p|
  {
    seq(|p|, i requires 0 <= i < |p| => d[p[i] - lo])
  }

  /** Read through an index, the data is ordered exactly when no pointee is less than an earlier one. */
  lemma {:induction false} GatherSortedIff(d: seq<Elem>, p: seq<int>, lo: int)
    requires IsIndex(p, lo) && |d| == |p|
    ensures Sorted(Gather(d, p, lo)) <==>
            forall i, j :: 0 <= i < j < |p| ==> !LessPtr(d, p[j] - lo, p[i] - lo)
  {
    var g := Gather(d, p, lo);
    if Sorted(g) {
      forall i, j | 0 <= i < j < |p|
        ensures !LessPtr(d, p[j] - lo, p[i] - lo)
      {
        assert g[i].key <= g[j].key;
      }
    }
    if forall i, j :: 0 <= i < j < |p| ==> !LessPtr(d, p[j] - lo, p[i] - lo) {
      forall i, j | 0 <= i < j < |g|
        ensures g[i].key <= g[j].key
      {
        assert !LessPtr(d, p[j] - lo, p[i] - lo);
      }
    }
  }

  /**
   * The index without its last entry, on the data without its last
   * element: the entry that pointed at the last element points where the
   * last entry pointed, and that element is moved there.
   */
  function Redirect(p: seq<int>, lo: int): (q: seq<int>)
    requires |p| > 0
    ensures |q| == |p| - 1
  {
    seq(|p| - 1, i requires 0 <= i < |p| - 1 => if p[i] == lo + |p| - 1 then p[|p| - 1] else p[i])
  }

  function DropAt(d: seq<Elem>, j: int): (e: seq<Elem>)
    requires 0 <= j < |d|
    ensures |e| == |d| - 1
  {
    d[j := d[|d| - 1]][..|d| - 1]
  }

  lemma {:induction false} RedirectIsIndex(p: seq<int>, lo: int)
    requires IsIndex(p, lo) && |p| > 0
    ensures IsIndex(Redirect(p, lo), lo)
  {
    var q := Redirect(p, lo);
    var n := |p|;
    forall i | 0 <= i < |q|
      ensures lo <= q[i] < lo + |q|
    {
      assert p[i] != p[n - 1];
    }
    forall i, k | 0 <= i < k < |q|
      ensures q[i] != q[k]
    {
      assert p[i] != p[k] && p[i] != p[n - 1] && p[k] != p[n - 1];
    }
  }

  lemma {:induction false} GatherRedirect(d: seq<Elem>, p: seq<int>, lo: int)
    requires IsIndex(p, lo) && |d| == |p| > 0
    ensures IsIndex(Redirect(p, lo), lo)
    ensures Gather(d, p, lo) == Gather(DropAt(d, p[|p| - 1] - lo), Redirect(p, lo), lo) + [d[p[|p| - 1] - lo]]
  {
    RedirectIsIndex(p, lo);
    var n := |p|;
    var j := p[n - 1] - lo;
    var g, e, q := Gather(d, p, lo), DropAt(d, j), Redirect(p, lo);
    var h := Gather(e, q, lo);
    forall i | 0 <= i < n - 1
      ensures g[i] == h[i]
    {
      assert p[i] != p[n - 1];
    }
  }

  lemma {:induction false} DropAtMultiset(d: seq<Elem>, j: int)
    requires 0 <= j < |d|
    ensures multiset(d) == multiset(DropAt(d, j)) + multiset{d[j]}
  {
    var n := |d|;
    if j < n - 1 {
      assert d == d[..j] + [d[j]] + d[j + 1..n - 1] + [d[n - 1]];
      assert DropAt(d, j) == d[..j] + [d[n - 1]] + d[j + 1..n - 1];
    } else {
      assert d == DropAt(d, j) + [d[j]];
    }
  }

  /** Reading the data through a permutation index keeps its multiset of elements. */
  lemma {:induction false} GatherPermutation(d: seq<Elem>, p: seq<int>, lo: int)
    requires IsIndex(p, lo) && |d| == |p|
    ensures multiset(Gather(d, p, lo)) == multiset(d)
    decreases |p|
  {
    if |p| == 0 {
      return;
    }
    var j := p[|p| - 1] - lo;
    GatherRedirect(d, p, lo);
    GatherPermutation(DropAt(d, j), Redirect(p, lo), lo);
    DropAtMultiset(d, j);
  }

  /**
   * The whole array after `sort_index`: position `lo + i` holds what
   * position `p[i]` held, and every other position keeps its element.
   */
  ghost function Permute(s: seq<Elem>, p: seq<int>, lo: int): (r: seq<Elem>)
    requires 0 <= lo && lo + |p| <= |s| && forall i :: 0 <= i < |p| ==> lo <= p[i] < lo + |p|
    ensures |r| == |s|
  {
    seq(|s|, i requires 0 <= i < |s| => if lo <= i < lo + |p| then s[p[i - lo]] else s[i])
  }

  /** Inside the indexed positions the permuted array is the data read through the index; outside it is unchanged. */
  lemma {:induction false} PermuteIsGather(s: seq<Elem>, p: seq<int>, lo: int)
    requires 0 <= lo && lo + |p| <= |s| && IsIndex(p, lo)
    ensures Permute(s, p, lo)[lo..lo + |p|] == Gather(s[lo..lo + |p|], p, lo)
    ensures Permute(s, p, lo)[..lo] == s[..lo] && Permute(s, p, lo)[lo + |p|..] == s[lo + |p|..]
  {
    var r, g := Permute(s, p, lo), Gather(s[lo..lo + |p|], p, lo);
    forall i | 0 <= i < |p|
      ensures r[lo + i] == g[i]
    {
    }
  }

  /** The identity index reads the data unchanged. */
  lemma {:induction false} GatherIdentity(d: seq<Elem>, p: seq<int>, lo: int)
    requires |p| == |d| && forall i :: 0 <= i < |p| ==> p[i] == lo + i
    ensures Gather(d, p, lo) == d
  {
  }

  /**
   * `create_index(first, last, v)`: the index of every position of
   * `[lo, hi)`, in order.
   */
  method CreateIndex(lo: int, hi: int) returns (v: seq<int>)
    requires lo <= hi
    ensures |v| == hi - lo
    ensures forall i :: 0 <= i < |v| ==> v[i] == lo + i
    ensures IsIndex(v, lo)
  {
    v := [];
    var first := lo;
    while first != hi
      invariant lo <= first <= hi && |v| == first - lo
      invariant forall i :: 0 <= i < |v| ==> v[i] == lo + i
      decreases hi - first
    {
      v := v + [first];
      first := first + 1;
    }
  }

  // ---------------------------------------------------------------------
  // State of `sort_index` while it follows cycles. Position `i` is done
  // once `v[i] == lo + i`; it then holds the element the original index
  // pointed at. A position not done still has its original index entry
  // and its original element.
  // ---------------------------------------------------------------------

  ghost predicate Placed(av: seq<Elem>, vv: seq<int>, lo: int, d: seq<Elem>, p: seq<int>)
  {
    |vv| == |p| == |d| && 0 <= lo && lo + |p| <= |av| && IsIndex(p, lo) &&
    (forall i {:trigger vv[i], p[i]} :: 0 <= i < |vv| && vv[i] == lo + i ==> av[lo + i] == d[p[i] - lo]) &&
    (forall i {:trigger vv[i], p[i]} :: 0 <= i < |vv| && vv[i] != lo + i ==> vv[i] == p[i] && av[lo + i] == d[i])
  }

  /** The positions not done: the measure of the cycle loops. */
  ghost predicate Todo(vv: seq<int>, lo: int, todo: set<int>)
  {
    (forall i :: i in todo ==> 0 <= i < |vv|) &&
    (forall i :: 0 <= i < |vv| ==> (i in todo <==> vv[i] != lo + i))
  }

  /** Positions not done form whole cycles: a pending position points at a pending one. */
  ghost predicate Closed(vv: seq<int>, lo: int, p: seq<int>)
    requires |vv| == |p| && IsIndex(p, lo)
  {
    forall i {:trigger p[i]} :: 0 <= i < |vv| && vv[i] != lo + i ==> vv[p[i] - lo] != p[i]
  }

  /**
   * While the cycle through `pos` is being followed, with `ax` the position
   * to fill next: every pending position points at a pending one or back at
   * `pos`, and once `pos` is done no pending position other than the
   * previous one points at `ax`.
   */
  ghost predicate Following(vv: seq<int>, lo: int, p: seq<int>, pos: int, ax: int)
    requires |vv| == |p| && IsIndex(p, lo)
  {
    0 <= pos < |vv| && 0 <= ax < |vv| &&
    (forall i {:trigger p[i]} :: 0 <= i < |vv| && vv[i] != lo + i ==> vv[p[i] - lo] != p[i] || p[i] == lo + pos) &&
    (ax != pos ==> forall i {:trigger p[i]} :: 0 <= i < |vv| && vv[i] != lo + i ==> p[i] != lo + ax)
  }

  lemma {:induction false} StartCycle(av: seq<Elem>, vv: seq<int>, lo: int, d: seq<Elem>, p: seq<int>,
                                      todo: set<int>, pos: int)
    requires Placed(av, vv, lo, d, p) && Todo(vv, lo, todo) && Closed(vv, lo, p)
    requires 0 <= pos < |vv| && vv[pos] != lo + pos
    ensures Following(vv, lo, p, pos, pos) && vv[pos] == p[pos] && av[lo + pos] == d[pos]
    ensures pos in todo
  {
    assert vv[pos] == p[pos];
  }

  /** Position `ax`, still pending, is done by writing `x`, the element its index entry points at. */
  lemma {:induction false} PlaceOne(av: seq<Elem>, vv: seq<int>, lo: int, d: seq<Elem>, p: seq<int>,
                                    ax: int, x: Elem)
    requires Placed(av, vv, lo, d, p) && 0 <= ax < |vv| && vv[ax] != lo + ax
    requires x == d[p[ax] - lo]
    ensures Placed(av[lo + ax := x], vv[ax := lo + ax], lo, d, p)
  {
    var av', vv' := av[lo + ax := x], vv[ax := lo + ax];
    forall i | 0 <= i < |vv'| && vv'[i] == lo + i
      ensures av'[lo + i] == d[p[i] - lo]
    {
      if i != ax {
        assert vv[i] == lo + i && p[i] == p[i];
      }
    }
    forall i | 0 <= i < |vv'| && vv'[i] != lo + i
      ensures vv'[i] == p[i] && av'[lo + i] == d[i]
    {
      assert i != ax && vv[i] != lo + i && p[i] == p[i];
    }
  }

  /** A pending position still holds its original element and index entry. */
  lemma {:induction false} PendingCell(av: seq<Elem>, vv: seq<int>, lo: int, d: seq<Elem>, p: seq<int>, j: int)
    requires Placed(av, vv, lo, d, p) && 0 <= j < |vv| && vv[j] != lo + j
    ensures vv[j] == p[j] && av[lo + j] == d[j]
  {
    assert p[j] == p[j];
  }

  /** The state before the first cycle: nothing moved, fixed points of the index already done. */
  lemma {:induction false} InitialState(s: seq<Elem>, lo: int, d: seq<Elem>, p: seq<int>, todo: set<int>)
    requires IsIndex(p, lo) && 0 <= lo && lo + |p| <= |s| && d == s[lo..lo + |p|]
    requires todo == set i | 0 <= i < |p| && p[i] != lo + i
    ensures Placed(s, p, lo, d, p) && Todo(p, lo, todo) && Closed(p, lo, p)
  {
    forall i | 0 <= i < |p| && p[i] == lo + i
      ensures s[lo + i] == d[p[i] - lo]
    {
    }
    forall i | 0 <= i < |p| && p[i] != lo + i
      ensures p[p[i] - lo] != p[i]
    {
      assert p[p[i] - lo] != p[i - 0];
    }
  }

  /** Position `ax` leaves the pending set. */
  lemma {:induction false} TodoOne(vv: seq<int>, lo: int, todo: set<int>, ax: int)
    requires Todo(vv, lo, todo) && 0 <= ax < |vv| && vv[ax] != lo + ax
    ensures ax in todo && Todo(vv[ax := lo + ax], lo, todo - {ax})
  {
  }

  /** Following the cycle one position further, from `ax` to `bx`. */
  lemma {:induction false} FollowingStep(vv: seq<int>, lo: int, p: seq<int>, pos: int, ax: int, bx: int)
    requires |vv| == |p| && IsIndex(p, lo) && Following(vv, lo, p, pos, ax)
    requires vv[ax] == p[ax] && vv[ax] != lo + ax && bx == vv[ax] - lo && bx != pos
    ensures 0 <= bx < |vv| && vv[bx] != lo + bx
    ensures Following(vv[ax := lo + ax], lo, p, pos, bx)
  {
    assert p[ax] == p[ax];
    var vv' := vv[ax := lo + ax];
    forall i | 0 <= i < |vv'| && vv'[i] != lo + i
      ensures vv'[p[i] - lo] != p[i] || p[i] == lo + pos
    {
      assert i != ax && vv[i] != lo + i;
      if p[i] == lo + ax {
        assert ax == pos;
      }
    }
    forall i | 0 <= i < |vv'| && vv'[i] != lo + i
      ensures p[i] != lo + bx
    {
      assert i != ax;
    }
  }

  /** The cycle closes at `ax`, whose entry points back at `pos`: pending positions form whole cycles again. */
  lemma {:induction false} ClosedEnd(vv: seq<int>, lo: int, p: seq<int>, pos: int, ax: int)
    requires |vv| == |p| && IsIndex(p, lo) && Following(vv, lo, p, pos, ax)
    requires vv[ax] == p[ax] && p[ax] == lo + pos && (ax == pos || vv[pos] == lo + pos)
    ensures Closed(vv[ax := lo + ax], lo, p)
  {
    var vv' := vv[ax := lo + ax];
    forall i | 0 <= i < |vv'| && vv'[i] != lo + i
      ensures vv'[p[i] - lo] != p[i]
    {
      assert i != ax;
    }
  }

  /**
   * The inner loop of `sort_index` for the cycle through the pending
   * position `pos`: the element at `pos` is saved, each position of the
   * cycle takes the element its index entry points at, and the last one
   * takes the saved element.
   */
  method FollowCycle(a: array<Elem>, lo: int, v: array<int>, pos: int,
                     ghost d: seq<Elem>, ghost p: seq<int>, ghost todo: set<int>)
    returns (ghost todo': set<int>)
    requires Placed(a[..], v[..], lo, d, p) && Todo(v[..], lo, todo) && Closed(v[..], lo, p)
    requires 0 <= pos < v.Length && v[pos] != lo + pos && forall i :: i in todo ==> pos <= i
    modifies a, v
    ensures Placed(a[..], v[..], lo, d, p) && Todo(v[..], lo, todo') && Closed(v[..], lo, p)
    ensures todo' < todo && forall i :: i in todo' ==> pos + 1 <= i
    ensures UnchangedOutside(a, lo, lo + v.Length)
  {
    StartCycle(a[..], v[..], lo, d, p, todo, pos);
    var ax := pos;
    var aux := a[lo + ax];
    var bx := v[ax] - lo;
    todo' := todo;
    while bx != pos
      invariant Placed(a[..], v[..], lo, d, p) && Todo(v[..], lo, todo') && Following(v[..], lo, p, pos, ax)
      invariant v[ax] == p[ax] && v[ax] != lo + ax && bx == v[ax] - lo && aux == d[pos]
      invariant ax == pos || v[pos] == lo + pos
      invariant todo' <= todo && pos in todo
      invariant ax != pos ==> todo' < todo
      invariant UnchangedOutside(a, lo, lo + v.Length)
      decreases |todo'|
    {
      todo' := MoveOne(a, lo, v, pos, ax, bx, d, p, todo');
      ax := bx;
      bx := v[ax] - lo;
    }
    todo' := CloseCycle(a, lo, v, pos, ax, aux, d, p, todo');
  }

  /** One pass of the inner loop: position `ax` takes the element at `bx`, where its entry points. */
  method MoveOne(a: array<Elem>, lo: int, v: array<int>, pos: int, ax: int, bx: int,
                 ghost d: seq<Elem>, ghost p: seq<int>, ghost todo: set<int>)
    returns (ghost todo': set<int>)
    requires Placed(a[..], v[..], lo, d, p) && Todo(v[..], lo, todo) && Following(v[..], lo, p, pos, ax)
    requires v[ax] == p[ax] && v[ax] != lo + ax && bx == v[ax] - lo && bx != pos
    requires ax == pos || v[pos] == lo + pos
    modifies a, v
    ensures Placed(a[..], v[..], lo, d, p) && Todo(v[..], lo, todo') && Following(v[..], lo, p, pos, bx)
    ensures v[bx] == p[bx] && v[bx] != lo + bx && v[pos] == lo + pos
    ensures ax in todo && todo' == todo - {ax}
    ensures UnchangedOutside(a, lo, lo + v.Length)
  {
    ghost var av, vv := a[..], v[..];
    FollowingStep(vv, lo, p, pos, ax, bx);
    PendingCell(av, vv, lo, d, p, bx);
    PlaceOne(av, vv, lo, d, p, ax, av[lo + bx]);
    TodoOne(vv, lo, todo, ax);
    v[ax] := lo + ax;
    a[lo + ax] := a[lo + bx];
    assert v[..] == vv[ax := lo + ax];
    assert a[..] == av[lo + ax := av[lo + bx]];
    todo' := todo - {ax};
  }

  /** The end of the inner loop: the last position of the cycle takes the element saved from `pos`. */
  method CloseCycle(a: array<Elem>, lo: int, v: array<int>, pos: int, ax: int, aux: Elem,
                    ghost d: seq<Elem>, ghost p: seq<int>, ghost todo: set<int>)
    returns (ghost todo': set<int>)
    requires Placed(a[..], v[..], lo, d, p) && Todo(v[..], lo, todo) && Following(v[..], lo, p, pos, ax)
    requires v[ax] == p[ax] && v[ax] != lo + ax && v[ax] - lo == pos && aux == d[pos]
    requires ax == pos || v[pos] == lo + pos
    modifies a, v
    ensures Placed(a[..], v[..], lo, d, p) && Todo(v[..], lo, todo') && Closed(v[..], lo, p)
    ensures todo' <= todo && pos !in todo'
    ensures UnchangedOutside(a, lo, lo + v.Length)
  {
    ghost var av, vv := a[..], v[..];
    PlaceOne(av, vv, lo, d, p, ax, aux);
    TodoOne(vv, lo, todo, ax);
    ClosedEnd(vv, lo, p, pos, ax);
    a[lo + ax] := aux;
    v[ax] := lo + ax;
    assert v[..] == vv[ax := lo + ax];
    assert a[..] == av[lo + ax := aux];
    todo' := todo - {ax};
  }

  /**
   * `sort_index(first, v)`: with `v` a permutation index of
   * `[lo, lo + |v|)`, the data ends up read through the index
   * (`a[lo + i]` is the element `v[i]` pointed at) and the index is reset
   * to the identity. Positions the index already maps to themselves are
   * skipped, and nothing outside the indexed positions changes.
   */
  method SortIndex(a: array<Elem>, lo: int, v: array<int>)
    requires 0 <= lo && lo + v.Length <= a.Length && IsIndex(v[..], lo)
    modifies a, v
    ensures a[..] == Permute(old(a[..]), old(v[..]), lo)
    ensures forall i :: 0 <= i < v.Length ==> v[i] == lo + i
  {
    ghost var s, p := a[..], v[..];
    ghost var d := s[lo..lo + |p|];
    ghost var todo := set i | 0 <= i < |p| && p[i] != lo + i;
    InitialState(s, lo, d, p, todo);
    FollowAll(a, lo, v, s, d, p, todo);
  }

  /** The outer loop of `sort_index`: every pending cycle in turn, from the lowest position up. */
  method FollowAll(a: array<Elem>, lo: int, v: array<int>,
                   ghost s: seq<Elem>, ghost d: seq<Elem>, ghost p: seq<int>, ghost todo: set<int>)
    requires Placed(a[..], v[..], lo, d, p) && Todo(v[..], lo, todo) && Closed(v[..], lo, p)
    requires a[..] == s && d == s[lo..lo + |p|]
    modifies a, v
    ensures a[..] == Permute(s, p, lo)
    ensures forall i :: 0 <= i < v.Length ==> v[i] == lo + i
  {
    var n := v.Length;
    var pos := 0;
    ghost var todo := todo;
    while pos < n
      invariant 0 <= pos <= n
      invariant Placed(a[..], v[..], lo, d, p)
      invariant Todo(v[..], lo, todo)
      invariant Closed(v[..], lo, p)
      invariant forall i :: i in todo ==> pos <= i
      invariant UnchangedOutside(a, lo, lo + n)
      decreases n - pos
    {
      pos := SkipDone(v, lo, pos, todo);
      if pos == n {
        break;
      }
      todo := FollowCycle(a, lo, v, pos, d, p, todo);
      pos := pos + 1;
    }
    TodoDone(v[..], lo, todo, pos);
    ghost var av := a[..];
    assert forall i :: 0 <= i < lo || lo + n <= i < a.Length ==> av[i] == s[i];
    PlacedDone(av, v[..], lo, d, p, s);
  }

  /** The skipping loop of `sort_index`: the next position, from `pos` on, that is not done. */
  method SkipDone(v: array<int>, lo: int, pos: int, ghost todo: set<int>) returns (pos': int)
    requires 0 <= pos <= v.Length && Todo(v[..], lo, todo) && forall i :: i in todo ==> pos <= i
    ensures pos <= pos' <= v.Length && (pos' < v.Length ==> v[pos'] != lo + pos')
    ensures forall i :: i in todo ==> pos' <= i
  {
    pos' := pos;
    while pos' < v.Length && v[pos'] - lo == pos'
      invariant pos <= pos' <= v.Length
      invariant forall i :: i in todo ==> pos' <= i
      decreases v.Length - pos'
    {
      assert v[..][pos'] == lo + pos';
      pos' := pos' + 1;
    }
  }

  /** With every pending position at or after the end, every position is done. */
  lemma {:induction false} TodoDone(vv: seq<int>, lo: int, todo: set<int>, pos: int)
    requires Todo(vv, lo, todo) && (forall i :: i in todo ==> pos <= i) && pos >= |vv|
    ensures forall i :: 0 <= i < |vv| ==> vv[i] == lo + i
  {
  }

  /** Once every position is done, the data is the original permuted along the index. */
  lemma {:induction false} PlacedDone(av: seq<Elem>, vv: seq<int>, lo: int, d: seq<Elem>, p: seq<int>, s: seq<Elem>)
    requires Placed(av, vv, lo, d, p) && forall i :: 0 <= i < |vv| ==> vv[i] == lo + i
    requires |s| == |av| && d == s[lo..lo + |p|]
    requires forall i :: 0 <= i < lo || lo + |p| <= i < |av| ==> av[i] == s[i]
    ensures av == Permute(s, p, lo)
  {
    var r := Permute(s, p, lo);
    forall i | 0 <= i < |av|
      ensures av[i] == r[i]
    {
      if lo <= i < lo + |p| {
        assert vv[i - lo] == lo + (i - lo) && p[i - lo] == p[i - lo];
      }
    }
  }

  /**
   * The last step of the indirect sorts: permuting the data along an index
   * that is ordered by pointee leaves the data sorted and a permutation of
   * what it held.
   */
  lemma {:induction false} SortIndexSorts(d: seq<Elem>, p: seq<int>, lo: int)
    requires IsIndex(p, lo) && |d| == |p|
    requires forall i, j :: 0 <= i < j < |p| ==> !LessPtr(d, p[j] - lo, p[i] - lo)
    ensures Sorted(Gather(d, p, lo)) && multiset(Gather(d, p, lo)) == multiset(d)
  {
    GatherSortedIff(d, p, lo);
    GatherPermutation(d, p, lo);
  }
}
