/**
 * The cycle decomposition of the block index, shared by `move_blocks`
 * of detail/block_indirect_sort.hpp and `sort_blocks` of
 * algorithm/block_indirect_sort.hpp.
 *
 * After the blocks are sorted by their first elements, entry `i` of the
 * index names the block whose contents belong at position `i`. The
 * index read as positions is a permutation `P`; it is split into its
 * cycles, each listed from its smallest position `c[0]` along
 * `c[j] == P[c[j-1]]`, and every entry is reset to name its own
 * position. Rotating the block contents along every cycle then puts the
 * contents of block `P[q]` at position `q`.
 *
 * The index entries are of a type `E` with a position read by `pos` and
 * replaced by `setPos`.
 */
module BlockCycles {
  import opened BlockGeometry

  /** The block position named by each index entry. */
  function Positions<E>(s: seq<E>, pos: E -> nat): (p: seq<nat>)
    ensures |p| == |s| && forall i :: 0 <= i < |s| ==> p[i] == pos(s[i])
  {
    seq(|s|, i requires 0 <= i < |s| => pos(s[i]))
  }

  /** `P` names every position below `|P|` exactly once. */
  predicate IsPermutation(P: seq<nat>) {
    Below(P, |P|) && Distinct(P)
  }

  /**
   * `c` is a cycle of `P` listed from its smallest position: each
   * position is followed by the one `P` names for it, and `P` names the
   * first for the last.
   */
  predicate IsCycle(P: seq<nat>, c: seq<nat>) {
    && |c| >= 2 && Below(c, |P|) && Distinct(c)
    && (forall j :: 0 < j < |c| ==> c[j] == P[c[j - 1]])
    && P[c[|c| - 1]] == c[0]
    && (forall j :: 0 <= j < |c| ==> c[0] <= c[j])
  }

  /** The positions listed in a list of cycles. */
  function Members(cs: seq<seq<nat>>): set<nat> {
    set k, j | 0 <= k < |cs| && 0 <= j < |cs[k]| :: cs[k][j]
  }

  /** The positions of one list. */
  function Elements(c: seq<nat>): set<nat> {
    set j | 0 <= j < |c| :: c[j]
  }

  lemma MembersSnoc(cs: seq<seq<nat>>, c: seq<nat>)
    ensures Members(cs + [c]) == Members(cs) + Elements(c)
  {
    var ds := cs + [c];
    forall x | x in Members(ds)
      ensures x in Members(cs) + Elements(c)
    {
      var k, j :| 0 <= k < |ds| && 0 <= j < |ds[k]| && ds[k][j] == x;
      if k < |cs| {
        assert cs[k][j] == x;
      } else {
        assert c[j] == x;
      }
    }
    forall x | x in Members(cs) + Elements(c)
      ensures x in Members(ds)
    {
      if x in Members(cs) {
        var k, j :| 0 <= k < |cs| && 0 <= j < |cs[k]| && cs[k][j] == x;
        assert ds[k][j] == x;
      } else {
        var j :| 0 <= j < |c| && c[j] == x;
        assert ds[|cs|][j] == x;
      }
    }
  }

  /**
   * `cs` is the decomposition of `P` into cycles: the cycles are listed
   * by increasing first position, no two share a position, and they list
   * exactly the positions `P` does not keep in place.
   */
  predicate IsDecomposition(P: seq<nat>, cs: seq<seq<nat>>) {
    && (forall k :: 0 <= k < |cs| ==> IsCycle(P, cs[k]))
    && (forall k, l :: 0 <= k < l < |cs| ==> cs[k][0] < cs[l][0])
    && (forall k :: 0 <= k < |cs| ==> Elements(cs[k]) !! Members(cs[..k]))
    && (forall q {:trigger P[q]} :: 0 <= q < |P| ==> (q in Members(cs) <==> P[q] != q))
  }

  /** A list of distinct positions below `n` has at most `n` entries. */
  lemma {:induction false} DistinctBound(s: seq<nat>, n: nat)
    requires Distinct(s) && Below(s, n)
    ensures |s| <= n
    decreases n
  {
    if n != 0 {
      var r := Without(s, n - 1);
      WithoutFacts(s, n - 1);
      DistinctBound(r, n - 1);
    }
  }

  /** `s` with every occurrence of `v` removed. */
  function Without(s: seq<nat>, v: nat): seq<nat> {
    if s == [] then []
    else (if s[0] == v then [] else [s[0]]) + Without(s[1..], v)
  }

  lemma {:induction false} WithoutFacts(s: seq<nat>, v: nat)
    requires Distinct(s)
    ensures forall x :: x in Without(s, v) <==> x in s && x != v
    ensures Distinct(Without(s, v))
    ensures |Without(s, v)| + 1 >= |s|
    ensures v !in s ==> Without(s, v) == s
    ensures Below(s, v + 1) ==> Below(Without(s, v), v)
  {
    if s != [] {
      WithoutFacts(s[1..], v);
      var t := Without(s[1..], v);
      assert s == [s[0]] + s[1..];
      if s[0] == v {
        assert v !in s[1..];
      } else {
        assert s[0] !in t;
      }
    }
  }

  lemma ElementsSnoc(c: seq<nat>, x: nat)
    ensures Elements(c + [x]) == Elements(c) + {x}
  {
    assert (c + [x])[|c|] == x;
    forall y | y in Elements(c)
      ensures y in Elements(c + [x])
    {
      var j :| 0 <= j < |c| && c[j] == y;
      assert (c + [x])[j] == y;
    }
  }

  /**
   * The cycles found before position `ini`: each is a cycle of `P`
   * starting at or before `ini`, in increasing order of start, sharing no
   * position; together they are closed under `P`, and every position
   * before `ini` is in one of them or kept in place.
   */
  predicate CyclesSoFar(P: seq<nat>, cs: seq<seq<nat>>, ini: nat) {
    && ini <= |P|
    && (forall k :: 0 <= k < |cs| ==> IsCycle(P, cs[k]) && cs[k][0] <= ini)
    && (forall k, l :: 0 <= k < l < |cs| ==> cs[k][0] < cs[l][0])
    && (forall k :: 0 <= k < |cs| ==> Elements(cs[k]) !! Members(cs[..k]))
    && Closed(P, Members(cs))
    && (forall q {:trigger P[q]} :: 0 <= q < ini ==> q in Members(cs) || P[q] == q)
  }

  /** `S` holds only displaced positions, and `P` maps `S` onto itself. */
  predicate Closed(P: seq<nat>, S: set<nat>) {
    && (forall q :: q in S ==> q < |P|)
    && (forall q {:trigger P[q]} :: 0 <= q < |P| ==> (q in S ==> P[q] != q) && (q in S <==> P[q] in S))
  }

  /** Resetting an entry to a position below `n` makes it name that position. */
  ghost predicate Resets<E(!new)>(pos: E -> nat, setPos: (E, nat) -> E, n: nat) {
    forall e, p: nat :: p < n ==> pos(setPos(e, p)) == p
  }

  /** The entries at the positions of `S` were reset to name their own position; the others are as in `A0`. */
  predicate Placed<E(==)>(A0: seq<E>, A: seq<E>, setPos: (E, nat) -> E, S: set<nat>) {
    |A| == |A0| && forall i :: 0 <= i < |A| ==> A[i] == if i in S then setPos(A0[i], i) else A0[i]
  }

  /** The chain `sq` followed through `P` from `sq[0]`, outside every cycle found so far. */
  predicate IsChain(P: seq<nat>, cs: seq<seq<nat>>, sq: seq<nat>) {
    && |sq| >= 1 && Below(sq, |P|) && Distinct(sq)
    && (forall j :: 0 < j < |sq| ==> sq[j] == P[sq[j - 1]])
    && (forall j :: 0 <= j < |sq| ==> sq[j] !in Members(cs) && sq[0] <= sq[j])
  }

  /** What an entry names: its own position once reset, its original position otherwise. */
  lemma PlacedPos<E(!new)>(A0: seq<E>, A: seq<E>, pos: E -> nat, setPos: (E, nat) -> E, S: set<nat>, i: nat)
    requires Resets(pos, setPos, |A0|)
    requires Placed(A0, A, setPos, S) && i < |A|
    ensures i in S ==> pos(A[i]) == i
    ensures i !in S ==> A[i] == A0[i] && pos(A[i]) == Positions(A0, pos)[i]
  {
  }

  /** Resetting one more entry. */
  lemma PlacedAdd<E>(A0: seq<E>, A: seq<E>, setPos: (E, nat) -> E, S: set<nat>, i: nat)
    requires Placed(A0, A, setPos, S) && i < |A| && i !in S
    ensures Placed(A0, A[i := setPos(A[i], i)], setPos, S + {i})
  {
  }

  /** A chain starts at a displaced position outside every cycle found so far. */
  lemma ChainStart(P: seq<nat>, cs: seq<seq<nat>>, ini: nat)
    requires CyclesSoFar(P, cs, ini) && ini < |P| && ini !in Members(cs) && P[ini] != ini
    ensures IsChain(P, cs, [ini])
  {
  }

  /** The last position of a chain is neither in a cycle nor earlier in the chain. */
  lemma ChainLastFree(P: seq<nat>, cs: seq<seq<nat>>, sq: seq<nat>)
    requires IsChain(P, cs, sq)
    ensures sq[|sq| - 1] !in Members(cs) + Elements(sq[..|sq| - 1])
  {
  }

  /**
   * Following the chain one step reaches a position that is new to the
   * chain and to every cycle, and not before the chain's start.
   */
  lemma ChainStep(P: seq<nat>, cs: seq<seq<nat>>, ini: nat, sq: seq<nat>)
    requires IsPermutation(P) && CyclesSoFar(P, cs, ini)
    requires IsChain(P, cs, sq) && sq[0] == ini && P[sq[|sq| - 1]] != ini
    ensures |sq| < |P|
    ensures IsChain(P, cs, sq + [P[sq[|sq| - 1]]])
    ensures Elements((sq + [P[sq[|sq| - 1]]])[..|sq|]) == Elements(sq[..|sq| - 1]) + {sq[|sq| - 1]}
  {
    var dest := sq[|sq| - 1];
    var src := P[dest];
    forall j | 0 <= j < |sq|
      ensures sq[j] != src
    {
      if j > 0 {
        assert P[sq[j - 1]] != P[dest];
      }
    }
    assert src !in Members(cs) by {
      assert dest !in Members(cs);
    }
    assert P[src] != src by {
      assert src != dest;
    }
    var sq' := sq + [src];
    assert Distinct(sq');
    DistinctBound(sq', |P|);
    assert sq'[..|sq|] == sq == sq[..|sq| - 1] + [dest];
    ElementsSnoc(sq[..|sq| - 1], dest);
  }

  /** A chain that leads back to its start is a cycle. */
  lemma ChainCycle(P: seq<nat>, cs: seq<seq<nat>>, sq: seq<nat>)
    requires IsChain(P, cs, sq) && P[sq[0]] != sq[0] && P[sq[|sq| - 1]] == sq[0]
    ensures IsCycle(P, sq)
  {
  }

  /** The positions of a cycle are closed under a permutation. */
  lemma CycleClosed(P: seq<nat>, c: seq<nat>)
    requires IsPermutation(P) && IsCycle(P, c)
    ensures Closed(P, Elements(c))
  {
    forall q | 0 <= q < |P| && q in Elements(c)
      ensures P[q] != q && P[q] in Elements(c)
    {
      CycleForward(P, c, q);
    }
    forall q | 0 <= q < |P| && P[q] in Elements(c)
      ensures q in Elements(c)
    {
      CycleBackward(P, c, q);
    }
  }

  /** A position of a cycle leads to another position of it. */
  lemma CycleForward(P: seq<nat>, c: seq<nat>, q: nat)
    requires IsCycle(P, c) && q in Elements(c)
    ensures q < |P| && P[q] != q && P[q] in Elements(c)
  {
    var j :| 0 <= j < |c| && c[j] == q;
    var i := if j + 1 < |c| then j + 1 else 0;
    assert P[q] == c[i];
  }

  /** Only a position of a cycle leads into it, when `P` is a permutation. */
  lemma CycleBackward(P: seq<nat>, c: seq<nat>, q: nat)
    requires IsPermutation(P) && IsCycle(P, c) && q < |P| && P[q] in Elements(c)
    ensures q in Elements(c)
  {
    var j :| 0 <= j < |c| && c[j] == P[q];
    var i := if j > 0 then j - 1 else |c| - 1;
    assert P[q] == P[c[i]];
    assert q == c[i];
  }

  lemma ClosedUnion(P: seq<nat>, S: set<nat>, T: set<nat>)
    requires Closed(P, S) && Closed(P, T)
    ensures Closed(P, S + T)
  {
  }

  /** A cycle sharing no position with the earlier ones keeps them pairwise disjoint. */
  lemma DisjointSnoc(cs: seq<seq<nat>>, c: seq<nat>)
    requires forall k :: 0 <= k < |cs| ==> Elements(cs[k]) !! Members(cs[..k])
    requires Elements(c) !! Members(cs)
    ensures forall k :: 0 <= k < |cs + [c]| ==> Elements((cs + [c])[k]) !! Members((cs + [c])[..k])
  {
    var ds := cs + [c];
    forall k | 0 <= k < |ds|
      ensures Elements(ds[k]) !! Members(ds[..k])
    {
      if k == |cs| {
        assert ds[..k] == cs;
      } else {
        assert ds[..k] == cs[..k];
      }
    }
  }

  lemma InMembers(cs: seq<seq<nat>>, k: nat, j: nat)
    requires k < |cs| && j < |cs[k]|
    ensures cs[k][j] in Members(cs)
  {
  }

  /** Cycles starting at or before a position none of them lists start before it. */
  lemma StartsBefore(cs: seq<seq<nat>>, ini: nat)
    requires forall k :: 0 <= k < |cs| ==> |cs[k]| > 0 && cs[k][0] <= ini
    requires ini !in Members(cs)
    ensures forall k :: 0 <= k < |cs| ==> cs[k][0] < ini
  {
    forall k | 0 <= k < |cs|
      ensures cs[k][0] < ini
    {
      InMembers(cs, k, 0);
    }
  }

  /** A cycle starting after every earlier one keeps the starts increasing. */
  lemma StartsSnoc(cs: seq<seq<nat>>, c: seq<nat>)
    requires forall k :: 0 <= k < |cs| ==> |cs[k]| > 0
    requires forall k, l :: 0 <= k < l < |cs| ==> cs[k][0] < cs[l][0]
    requires |c| > 0 && forall k :: 0 <= k < |cs| ==> cs[k][0] < c[0]
    ensures forall k, l :: 0 <= k < l < |cs + [c]| ==> (cs + [c])[k][0] < (cs + [c])[l][0]
  {
  }

  /** The positions of a list are those of all but its last, and its last. */
  lemma ChainElements(sq: seq<nat>)
    requires |sq| > 0
    ensures Elements(sq) == Elements(sq[..|sq| - 1]) + {sq[|sq| - 1]}
    ensures sq[0] in Elements(sq)
  {
    assert sq == sq[..|sq| - 1] + [sq[|sq| - 1]];
    ElementsSnoc(sq[..|sq| - 1], sq[|sq| - 1]);
  }

  /** A chain lists no position of the cycles found so far. */
  lemma ChainDisjoint(cs: seq<seq<nat>>, sq: seq<nat>)
    requires forall j :: 0 <= j < |sq| ==> sq[j] !in Members(cs)
    ensures Elements(sq) !! Members(cs)
  {
    forall x | x in Elements(sq)
      ensures x !in Members(cs)
    {
      var j :| 0 <= j < |sq| && sq[j] == x;
    }
  }

  lemma CyclesSnoc(P: seq<nat>, cs: seq<seq<nat>>, c: seq<nat>, ini: nat)
    requires forall k :: 0 <= k < |cs| ==> IsCycle(P, cs[k]) && cs[k][0] <= ini
    requires IsCycle(P, c) && c[0] <= ini
    ensures forall k :: 0 <= k < |cs + [c]| ==> IsCycle(P, (cs + [c])[k]) && (cs + [c])[k][0] <= ini
  {
  }

  /** Closing the chain adds a cycle and keeps the state of the outer loop. */
  lemma ChainClose(P: seq<nat>, cs: seq<seq<nat>>, ini: nat, sq: seq<nat>)
    requires IsPermutation(P) && CyclesSoFar(P, cs, ini) && ini < |P| && P[ini] != ini
    requires IsChain(P, cs, sq) && sq[0] == ini && P[sq[|sq| - 1]] == ini
    ensures CyclesSoFar(P, cs + [sq], ini)
    ensures ini in Members(cs + [sq])
  {
    ChainCycle(P, cs, sq);
    CycleClosed(P, sq);
    ClosedUnion(P, Members(cs), Elements(sq));
    MembersSnoc(cs, sq);
    ChainElements(sq);
    ChainDisjoint(cs, sq);
    DisjointSnoc(cs, sq);
    StartsBefore(cs, ini);
    StartsSnoc(cs, sq);
    CyclesSnoc(P, cs, sq, ini);
  }

  /** The positions of the cycles once the chain is closed. */
  lemma ChainMembers(cs: seq<seq<nat>>, sq: seq<nat>)
    requires |sq| > 0
    ensures Members(cs + [sq]) == Members(cs) + Elements(sq[..|sq| - 1]) + {sq[|sq| - 1]}
  {
    MembersSnoc(cs, sq);
    ChainElements(sq);
  }

  /** Passing a position that is in a cycle or kept in place. */
  lemma SkipPlaced(P: seq<nat>, cs: seq<seq<nat>>, ini: nat)
    requires CyclesSoFar(P, cs, ini) && ini < |P| && (ini in Members(cs) || P[ini] == ini)
    ensures CyclesSoFar(P, cs, ini + 1)
  {
  }

  /** At the end the cycles are the decomposition and every entry names its own position. */
  lemma Finished<E(!new)>(A0: seq<E>, A: seq<E>, pos: E -> nat, setPos: (E, nat) -> E, cs: seq<seq<nat>>)
    requires Resets(pos, setPos, |A0|)
    requires CyclesSoFar(Positions(A0, pos), cs, |A0|) && Placed(A0, A, setPos, Members(cs))
    ensures IsDecomposition(Positions(A0, pos), cs)
    ensures forall i :: 0 <= i < |A| ==> pos(A[i]) == i
  {
    forall i | 0 <= i < |A|
      ensures pos(A[i]) == i
    {
      PlacedPos(A0, A, pos, setPos, Members(cs), i);
    }
  }

  /**
   * The loop of `move_blocks` and `sort_blocks`: starting at each
   * position the index does not keep in place and that no earlier cycle
   * lists, follow the index until it leads back, recording the cycle and
   * resetting each visited entry to name its own position.
   */
  method Decompose<E(==,!new)>(a: array<E>, pos: E -> nat, setPos: (E, nat) -> E) returns (cycles: seq<seq<nat>>)
    requires Resets(pos, setPos, a.Length)
    requires IsPermutation(Positions(a[..], pos))
    modifies a
    ensures IsDecomposition(Positions(old(a[..]), pos), cycles)
    ensures forall i :: 0 <= i < a.Length ==> pos(a[i]) == i
    ensures Placed(old(a[..]), a[..], setPos, Members(cycles))
  {
    ghost var A0 := a[..];
    ghost var P := Positions(A0, pos);
    cycles := [];
    var ini := 0;
    while ini < a.Length
      invariant CyclesSoFar(P, cycles, ini) && Placed(A0, a[..], setPos, Members(cycles))
      decreases a.Length - ini, if ini < a.Length && pos(a[ini]) == ini then 0 else 1
    {
      ghost var ini0 := ini;
      ghost var kept0 := pos(a[ini]) == ini;
      while ini < a.Length && pos(a[ini]) == ini
        invariant ini0 <= ini
        invariant CyclesSoFar(P, cycles, ini) && Placed(A0, a[..], setPos, Members(cycles))
      {
        PlacedPos(A0, a[..], pos, setPos, Members(cycles), ini);
        SkipPlaced(P, cycles, ini);
        ini := ini + 1;
      }
      if ini == a.Length {
        break;
      }
      assert ini == ini0 ==> !kept0;
      PlacedPos(A0, a[..], pos, setPos, Members(cycles), ini);
      var sq := FollowCycle(a, pos, setPos, ini, A0, P, cycles);
      cycles := cycles + [sq];
      PlacedPos(A0, a[..], pos, setPos, Members(cycles), ini);
      assert pos(a[ini]) == ini;
    }
    Finished(A0, a[..], pos, setPos, cycles);
  }

  /**
   * The inner loop of `move_blocks` and `sort_blocks`: from `ini`, follow
   * the index until it leads back to `ini`, resetting each visited entry.
   */
  method FollowCycle<E(==,!new)>(a: array<E>, pos: E -> nat, setPos: (E, nat) -> E, ini: nat,
                                 ghost A0: seq<E>, ghost P: seq<nat>, ghost cycles: seq<seq<nat>>)
    returns (sq: seq<nat>)
    requires |A0| == a.Length && P == Positions(A0, pos) && Resets(pos, setPos, |A0|) && IsPermutation(P)
    requires CyclesSoFar(P, cycles, ini) && ini < a.Length && Placed(A0, a[..], setPos, Members(cycles))
    requires ini !in Members(cycles) && P[ini] != ini
    modifies a
    ensures CyclesSoFar(P, cycles + [sq], ini) && ini in Members(cycles + [sq])
    ensures Placed(A0, a[..], setPos, Members(cycles + [sq]))
  {
    PlacedPos(A0, a[..], pos, setPos, Members(cycles), ini);
    ChainStart(P, cycles, ini);
    sq := [ini];
    var dest := ini;
    assert sq[..0] == [];
    while pos(a[dest]) != ini
      invariant IsChain(P, cycles, sq) && sq[0] == ini && dest == sq[|sq| - 1]
      invariant Placed(A0, a[..], setPos, Members(cycles) + Elements(sq[..|sq| - 1]))
      invariant pos(a[dest]) == P[dest]
      decreases a.Length - |sq|
    {
      ChainStep(P, cycles, ini, sq);
      ChainLastFree(P, cycles, sq);
      ghost var S := Members(cycles) + Elements(sq[..|sq| - 1]);
      ghost var before := a[..];
      PlacedAdd(A0, before, setPos, S, dest);
      var src := pos(a[dest]);
      sq := sq + [src];
      a[dest] := setPos(a[dest], dest);
      assert a[..] == before[dest := setPos(before[dest], dest)];
      assert S + {dest} == Members(cycles) + Elements(sq[..|sq| - 1]);
      dest := src;
      ChainLastFree(P, cycles, sq);
      PlacedPos(A0, a[..], pos, setPos, Members(cycles) + Elements(sq[..|sq| - 1]), dest);
    }
    ChainClose(P, cycles, ini, sq);
    ChainMembers(cycles, sq);
    ChainLastFree(P, cycles, sq);
    ghost var S := Members(cycles) + Elements(sq[..|sq| - 1]);
    ghost var before := a[..];
    PlacedAdd(A0, before, setPos, S, dest);
    a[dest] := setPos(a[dest], dest);
    assert a[..] == before[dest := setPos(before[dest], dest)];
    assert Members(cycles + [sq]) == S + {dest};
  }
}
