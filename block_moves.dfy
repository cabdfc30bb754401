/**
 * Moving the blocks of the block indirect sort to the places the sorted
 * index gives them: `move_blocks` of detail/block_indirect_sort.hpp and
 * `sort_blocks`, `move_simple_blocks` and `move_blocks` of
 * algorithm/block_indirect_sort.hpp, with the deferred second pass of
 * `tk_move` in algorithm/tk_block_indirect_sort.hpp.
 *
 * Entry `q` of the index names the block whose contents belong at
 * position `q`. The index is split into its cycles (BlockCycles), and
 * rotating the block contents along each cycle puts the old contents of
 * block `P[q]` at position `q`. The algorithm version cuts a long cycle
 * into chunks, rotates each chunk, and then rotates along the last
 * positions of the chunks, which is the same rotation.
 */
module BlockMoves {
  import opened Order
  import opened BlockGeometry
  import opened BlockCycles
  import BP = DetailBlockPos
  import BL = BlockLayout
  import Arrays

  /* ---------------------------------------------------------------- */
  /* Rotating along the cycles places every block                      */
  /* ---------------------------------------------------------------- */

  /**
   * Every position of `S` holds what block `P[q]` held in `B0`, and every
   * other position holds its own old contents.
   */
  predicate PlacedOn<X(==)>(B0: seq<X>, V: seq<X>, P: seq<nat>, S: set<nat>)
    requires |P| == |B0| && Below(P, |B0|)
  {
    && |V| == |B0|
    && forall q :: 0 <= q < |B0| ==> V[q] == if q in S then B0[P[q]] else B0[q]
  }

  /** After rotating along the first `k` cycles, the positions of those cycles are placed. */
  predicate PlacedUpTo<X(==)>(B0: seq<X>, V: seq<X>, P: seq<nat>, cs: seq<seq<nat>>, k: nat)
    requires k <= |cs| && |P| == |B0| && Below(P, |B0|)
  {
    PlacedOn(B0, V, P, Members(cs[..k]))
  }

  /** Rotating along one more cycle, apart from the placed positions, places its positions too. */
  lemma CycleStep<X>(B0: seq<X>, V: seq<X>, V1: seq<X>, P: seq<nat>, c: seq<nat>, S: set<nat>)
    requires |P| == |B0| && Below(P, |B0|) && IsCycle(P, c) && Elements(c) !! S
    requires PlacedOn(B0, V, P, S)
    requires IsRotation(V, V1, c)
    ensures PlacedOn(B0, V1, P, S + Elements(c))
  {
    forall q | 0 <= q < |B0|
      ensures V1[q] == if q in S + Elements(c) then B0[P[q]] else B0[q]
    {
      if q in Elements(c) {
        var j :| 0 <= j < |c| && c[j] == q;
        if j < |c| - 1 {
          assert V1[c[j]] == V[c[j + 1]];
          assert c[j + 1] in Elements(c);
        } else {
          assert V1[c[|c| - 1]] == V[c[0]];
          assert c[0] in Elements(c);
        }
      } else {
        assert q !in c;
      }
    }
  }

  /** Rotating along the next cycle places the positions of that cycle. */
  lemma RotationStep<X>(B0: seq<X>, V: seq<X>, V1: seq<X>, P: seq<nat>, cs: seq<seq<nat>>, k: nat)
    requires |P| == |B0| && Below(P, |B0|) && k < |cs|
    requires IsCycle(P, cs[k]) && Elements(cs[k]) !! Members(cs[..k])
    requires PlacedUpTo(B0, V, P, cs, k)
    requires IsRotation(V, V1, cs[k])
    ensures PlacedUpTo(B0, V1, P, cs, k + 1)
  {
    MembersPrefix(cs, k);
    CycleStep(B0, V, V1, P, cs[k], Members(cs[..k]));
  }

  /** The first `k + 1` cycles list the positions of the first `k` and those of cycle `k`. */
  lemma MembersPrefix(cs: seq<seq<nat>>, k: nat)
    requires k < |cs|
    ensures Members(cs[..k + 1]) == Members(cs[..k]) + Elements(cs[k])
  {
    assert cs[..k + 1] == cs[..k] + [cs[k]];
    MembersSnoc(cs[..k], cs[k]);
  }

  /** Once every cycle is rotated, position `q` holds the old contents of block `P[q]`. */
  lemma PlacedAll<X>(B0: seq<X>, V: seq<X>, P: seq<nat>, cs: seq<seq<nat>>)
    requires IsPermutation(P) && |P| == |B0| && IsDecomposition(P, cs)
    requires PlacedUpTo(B0, V, P, cs, |cs|)
    ensures forall q :: 0 <= q < |P| ==> V[q] == B0[P[q]]
  {
    assert cs[..|cs|] == cs;
  }

  /** The views `Bs[0..k]` are the first `k` rotations along the cycles. */
  predicate Rotations<X(==)>(Bs: seq<seq<X>>, P: seq<nat>, cs: seq<seq<nat>>)
    requires |Bs| == |cs| + 1
  {
    forall k :: 0 <= k < |cs| ==> |Bs[k]| == |P| && Below(cs[k], |P|) && IsRotation(Bs[k], Bs[k + 1], cs[k])
  }

  /**
   * Rotating the block contents along every cycle of the index, in any
   * sequence of views `Bs` where each view is the rotation of the one
   * before along the next cycle, leaves at every position `q` the
   * contents block `P[q]` had at the start.
   */
  lemma {:induction false} CyclesPlaceBlocks<X>(Bs: seq<seq<X>>, P: seq<nat>, cs: seq<seq<nat>>)
    requires IsPermutation(P) && IsDecomposition(P, cs)
    requires |Bs| == |cs| + 1 && |Bs[0]| == |P| && Rotations(Bs, P, cs)
    ensures |Bs[|cs|]| == |P| && forall q :: 0 <= q < |P| ==> Bs[|cs|][q] == Bs[0][P[q]]
  {
    PlacedPrefix(Bs, P, cs, |cs|);
    PlacedAll(Bs[0], Bs[|cs|], P, cs);
  }

  /** Each cycle shares no position with the cycles before it. */
  predicate CyclesApart(P: seq<nat>, cs: seq<seq<nat>>) {
    forall k :: 0 <= k < |cs| ==> IsCycle(P, cs[k]) && Elements(cs[k]) !! Members(cs[..k])
  }

  /** After `k` rotations, the first `k` cycles are placed. */
  lemma {:induction false} PlacedPrefix<X>(Bs: seq<seq<X>>, P: seq<nat>, cs: seq<seq<nat>>, k: nat)
    requires Below(P, |P|) && CyclesApart(P, cs)
    requires |Bs| == |cs| + 1 && |Bs[0]| == |P| && Rotations(Bs, P, cs) && k <= |cs|
    ensures PlacedUpTo(Bs[0], Bs[k], P, cs, k)
  {
    if k == 0 {
      assert cs[..0] == [];
    } else {
      PlacedPrefix(Bs, P, cs, k - 1);
      RotationStep(Bs[0], Bs[k - 1], Bs[k], P, cs, k - 1);
    }
  }

  /* ---------------------------------------------------------------- */
  /* move_blocks of detail/block_indirect_sort.hpp                     */
  /* ---------------------------------------------------------------- */

  /** The position an index entry names. */
  function PosOf(b: BP.BlockPos): (p: nat)
    ensures p < BP.PosMod
  {
    b.Pos()
  }

  /** The `pos(position)` setter on positions it can hold; other positions leave the entry as it is. */
  function SetPosTo(b: BP.BlockPos, p: nat): (r: BP.BlockPos)
    ensures r.Side() <==> b.Side()
    ensures p < BP.PosMod ==> r.Pos() == p
  {
    if p < BP.PosMod then b.SetPos(p) else b
  }

  /** An index that is a permutation has fewer than 2^63 entries, so every reset sticks. */
  lemma BlockPosResets(s: seq<BP.BlockPos>)
    requires IsPermutation(Positions(s, PosOf))
    ensures Resets(PosOf, SetPosTo, |s|)
  {
    var P := Positions(s, PosOf);
    DistinctBound(P, BP.PosMod);
  }

  /**
   * `move_blocks`: split the index into its cycles, resetting every entry
   * to name its own position and keeping its side flag, then rotate the
   * block contents along each cycle with `move_sequence`. Afterwards
   * block `q` holds what block `index[q].pos()` held.
   */
  method MoveBlocks(index: array<BP.BlockPos>, a: array<Elem>, first: int, bs: nat, buf: array<Elem>)
    requires a != buf && Layout(a.Length, first, bs, index.Length) && bs <= buf.Length
    requires IsPermutation(Positions(index[..], PosOf))
    modifies index, a, buf
    ensures forall q :: 0 <= q < index.Length ==>
              View(a[..], first, bs, index.Length)[q] == View(old(a[..]), first, bs, index.Length)[old(index[q]).Pos()]
    ensures forall i :: 0 <= i < index.Length ==> index[i].Pos() == i && (index[i].Side() <==> old(index[i]).Side())
    ensures forall k :: 0 <= k < a.Length && OutsideBlocks(first, bs, index.Length, k) ==> a[k] == old(a[k])
  {
    var nb := index.Length;
    ghost var I0 := index[..];
    ghost var B0 := View(a[..], first, bs, nb);
    ghost var P := Positions(I0, PosOf);
    BlockPosResets(I0);
    var cycles := Decompose(index, PosOf, SetPosTo);
    ResetKeepsSides(I0, index[..], Members(cycles));
    assert cycles[..0] == [];
    var i := 0;
    while i < |cycles|
      modifies a, buf
      invariant 0 <= i <= |cycles|
      invariant PlacedUpTo(B0, View(a[..], first, bs, nb), P, cycles, i)
      invariant forall k :: 0 <= k < a.Length && OutsideBlocks(first, bs, nb, k) ==> a[k] == old(a[k])
    {
      ghost var V := View(a[..], first, bs, nb);
      RotateBlocks(a, first, bs, nb, cycles[i], buf);
      RotationStep(B0, V, View(a[..], first, bs, nb), P, cycles, i);
      i := i + 1;
    }
    PlacedAll(B0, View(a[..], first, bs, nb), P, cycles);
  }

  /** Resetting the positions of the index entries keeps their side flags. */
  lemma ResetKeepsSides(I0: seq<BP.BlockPos>, I: seq<BP.BlockPos>, S: set<nat>)
    requires Placed(I0, I, SetPosTo, S)
    ensures forall j :: 0 <= j < |I| ==> (I[j].Side() <==> I0[j].Side())
  {
    forall j | 0 <= j < |I|
      ensures I[j].Side() <==> I0[j].Side()
    {
      assert I[j] == if j in S then SetPosTo(I0[j], j) else I0[j];
    }
  }

  /* ---------------------------------------------------------------- */
  /* sort_blocks of algorithm/block_indirect_sort.hpp                  */
  /* ---------------------------------------------------------------- */

  /** The position a `blk` entry names. */
  function BlkPos(b: BL.Blk): nat {
    b.pos
  }

  /** `V[pos].pos = pos`: the position is replaced and the side kept. */
  function BlkSetPos(b: BL.Blk, p: nat): BL.Blk {
    b.(pos := p)
  }

  lemma BlkResets(n: nat)
    ensures Resets(BlkPos, BlkSetPos, n)
  {
  }

  /** The cycles shorter than `limit`, in order. */
  function Shorter(cs: seq<seq<nat>>, limit: nat): (r: seq<seq<nat>>)
    ensures forall c :: c in r <==> c in cs && |c| < limit
    ensures |r| <= |cs|
  {
    if cs == [] then []
    else
      var last := cs[|cs| - 1];
      Shorter(cs[..|cs| - 1], limit) + (if |last| < limit then [last] else [])
  }

  /** The cycles of at least `limit` positions, in order. */
  function NotShorter(cs: seq<seq<nat>>, limit: nat): (r: seq<seq<nat>>)
    ensures forall c :: c in r <==> c in cs && |c| >= limit
    ensures |r| <= |cs|
  {
    if cs == [] then []
    else
      var last := cs[|cs| - 1];
      NotShorter(cs[..|cs| - 1], limit) + (if |last| >= limit then [last] else [])
  }

  /** Every cycle goes to exactly one of the two lists. */
  lemma {:induction false} SplitPartition(cs: seq<seq<nat>>, limit: nat)
    ensures multiset(Shorter(cs, limit)) + multiset(NotShorter(cs, limit)) == multiset(cs)
  {
    if cs != [] {
      var init, last := cs[..|cs| - 1], cs[|cs| - 1];
      assert cs == init + [last];
      SplitPartition(init, limit);
    }
  }

  /** Taking one more cycle appends it to the list it belongs to. */
  lemma SplitSnoc(cs: seq<seq<nat>>, i: nat, limit: nat)
    requires i < |cs|
    ensures Shorter(cs[..i + 1], limit) == Shorter(cs[..i], limit) + (if |cs[i]| < limit then [cs[i]] else [])
    ensures NotShorter(cs[..i + 1], limit) == NotShorter(cs[..i], limit) + (if |cs[i]| >= limit then [cs[i]] else [])
  {
    assert cs[..i + 1][..i] == cs[..i];
  }

  /**
   * The second loop of `sort_blocks`: the cycles shorter than `MV_SIZE`
   * become simple-move work and the others long-move work, each list in
   * the order of the cycles.
   */
  method SplitBySize(cs: seq<seq<nat>>, limit: nat) returns (short: seq<seq<nat>>, long: seq<seq<nat>>)
    ensures short == Shorter(cs, limit) && long == NotShorter(cs, limit)
    ensures multiset(short) + multiset(long) == multiset(cs)
  {
    short, long := [], [];
    var i := 0;
    while i < |cs|
      invariant 0 <= i <= |cs|
      invariant short == Shorter(cs[..i], limit) && long == NotShorter(cs[..i], limit)
    {
      SplitSnoc(cs, i, limit);
      if |cs[i]| < limit {
        short := short + [cs[i]];
      } else {
        long := long + [cs[i]];
      }
      i := i + 1;
    }
    assert cs[..|cs|] == cs;
    SplitPartition(cs, limit);
  }

  /**
   * `sort_blocks`: split the index `V` into its cycles (`Vpos`), resetting
   * every entry to name its own position and keeping its side, then sort
   * the cycles into simple-move and long-move work by `MV_SIZE`.
   */
  method SortBlocks(v: array<BL.Blk>, mv: nat) returns (vpos: seq<seq<nat>>, short: seq<seq<nat>>, long: seq<seq<nat>>)
    requires IsPermutation(Positions(v[..], BlkPos))
    modifies v
    ensures IsDecomposition(Positions(old(v[..]), BlkPos), vpos)
    ensures forall i :: 0 <= i < v.Length ==> v[i] == BL.Blk(i, old(v[i]).side)
    ensures short == Shorter(vpos, mv) && long == NotShorter(vpos, mv)
    ensures multiset(short) + multiset(long) == multiset(vpos)
  {
    BlkResets(v.Length);
    vpos := Decompose(v, BlkPos, BlkSetPos);
    short, long := SplitBySize(vpos, mv);
  }

  /* ---------------------------------------------------------------- */
  /* move_simple_blocks and move_blocks of algorithm/block_indirect_sort.hpp */
  /* ---------------------------------------------------------------- */

  /** `move_simple_blocks`: one rotation along the list, nothing for an empty list. */
  method MoveSimpleBlocks(a: array<Elem>, first: int, bs: nat, nb: nat, sq: seq<nat>, buf: array<Elem>)
    requires a != buf && Layout(a.Length, first, bs, nb) && bs <= buf.Length
    requires Distinct(sq) && Below(sq, nb)
    modifies a, buf
    ensures IsRotation(View(old(a[..]), first, bs, nb), View(a[..], first, bs, nb), sq)
    ensures sq == [] ==> a[..] == old(a[..])
    ensures forall k :: 0 <= k < a.Length && OutsideBlocks(first, bs, nb, k) ==> a[k] == old(a[k])
  {
    if sq == [] {
      return;
    }
    RotateBlocks(a, first, bs, nb, sq, buf);
  }

  /** A slice of distinct positions below `nb` is again such a list. */
  lemma SliceDistinct(sq: seq<nat>, lo: nat, hi: nat, nb: nat)
    requires Distinct(sq) && Below(sq, nb) && lo <= hi <= |sq|
    ensures Distinct(sq[lo..hi]) && Below(sq[lo..hi], nb)
  {
  }

  /** The last positions of the chunks are distinct positions below `nb`. */
  lemma LastsDistinct(sq: seq<nat>, cuts: seq<nat>, nb: nat)
    requires Distinct(sq) && Below(sq, nb) && Cuts(cuts, |sq|)
    ensures Distinct(Lasts(sq, cuts)) && Below(Lasts(sq, cuts), nb)
  {
    var v := Lasts(sq, cuts);
    forall i, j | 0 <= i < j < |v|
      ensures v[i] != v[j]
    {
      assert cuts[i + 1] < cuts[j + 1];
    }
  }

  /** The simple-move work of the chunks, one after the other: every chunk rotated on its own. */
  method RotateChunks(a: array<Elem>, first: int, bs: nat, nb: nat, sq: seq<nat>, cuts: seq<nat>, buf: array<Elem>)
    requires a != buf && Layout(a.Length, first, bs, nb) && bs <= buf.Length
    requires Distinct(sq) && Below(sq, nb) && Cuts(cuts, |sq|)
    modifies a, buf
    ensures ChunksRotated(View(old(a[..]), first, bs, nb), View(a[..], first, bs, nb), sq, cuts)
    ensures forall k :: 0 <= k < a.Length && OutsideBlocks(first, bs, nb, k) ==> a[k] == old(a[k])
  {
    ghost var B0 := View(a[..], first, bs, nb);
    var k := 0;
    while k < |cuts| - 1
      invariant 0 <= k <= |cuts| - 1
      invariant ChunksRotatedUpTo(B0, View(a[..], first, bs, nb), sq, cuts, k)
      invariant forall i :: 0 <= i < a.Length && OutsideBlocks(first, bs, nb, i) ==> a[i] == old(a[i])
    {
      ghost var V := View(a[..], first, bs, nb);
      SliceDistinct(sq, cuts[k], cuts[k + 1], nb);
      MoveSimpleBlocks(a, first, bs, nb, sq[cuts[k]..cuts[k + 1]], buf);
      ChunkStep(B0, V, View(a[..], first, bs, nb), sq, cuts, k);
      k := k + 1;
    }
    ChunksRotatedAll(B0, View(a[..], first, bs, nb), sq, cuts);
  }

  /**
   * Chunks of `mv` positions: the cuts start at 0 and step by `mv`, the
   * last chunk ends at `n` and holds at most `mv` positions, and there
   * are `ceil(n / mv)` of them.
   */
  predicate EvenChunks(cuts: seq<nat>, n: nat, mv: nat) {
    && Cuts(cuts, n)
    && BL.BlockCount(n, mv, |cuts| - 1)
    && (forall k :: 0 < k < |cuts| - 1 ==> cuts[k] == cuts[k - 1] + mv)
    && n - cuts[|cuts| - 2] <= mv
  }

  /**
   * `move_blocks`: an empty list is done (0); a list of at most `MV_SIZE`
   * positions is rotated at once (0); a longer one is cut into
   * `ceil(n / MV_SIZE)` chunks of `MV_SIZE` positions, the last one
   * shorter, each chunk is rotated as simple-move work, `Vseq` receives
   * the last position of every chunk, and the result is 1: the rotation
   * along `Vseq` is still to do.
   */
  method MoveBlocksChunked(a: array<Elem>, first: int, bs: nat, nb: nat, sq: seq<nat>, mv: nat, buf: array<Elem>)
    returns (ret: nat, vseq: seq<nat>, cuts: seq<nat>)
    requires a != buf && Layout(a.Length, first, bs, nb) && bs <= buf.Length
    requires Distinct(sq) && Below(sq, nb) && mv > 0
    modifies a, buf
    ensures |sq| == 0 ==> ret == 0 && vseq == [] && a[..] == old(a[..])
    ensures 0 < |sq| <= mv ==>
              && ret == 0 && vseq == []
              && IsRotation(View(old(a[..]), first, bs, nb), View(a[..], first, bs, nb), sq)
    ensures |sq| > mv ==>
              && ret == 1 && EvenChunks(cuts, |sq|, mv) && vseq == Lasts(sq, cuts)
              && ChunksRotated(View(old(a[..]), first, bs, nb), View(a[..], first, bs, nb), sq, cuts)
    ensures forall k :: 0 <= k < a.Length && OutsideBlocks(first, bs, nb, k) ==> a[k] == old(a[k])
  {
    vseq, cuts := [], [];
    var n := |sq|;
    if n == 0 {
      return 0, vseq, cuts;
    }
    if n <= mv {
      MoveSimpleBlocks(a, first, bs, nb, sq, buf);
      return 0, vseq, cuts;
    }
    var nB := n / mv;
    if n % mv != 0 {
      nB := nB + 1;
    }
    BL.FloorFacts(n, mv, n / mv, n / mv * mv, nB);
    cuts, vseq := ChunkCuts(sq, mv, nB);
    RotateChunks(a, first, bs, nb, sq, cuts, buf);
    ret := 1;
  }

  /** The loop of `move_blocks` that cuts the chunks and collects `Vseq`. */
  method ChunkCuts(sq: seq<nat>, mv: nat, nB: nat) returns (cuts: seq<nat>, vseq: seq<nat>)
    requires mv > 0 && BL.BlockCount(|sq|, mv, nB)
    ensures EvenChunks(cuts, |sq|, mv) && |cuts| == nB + 1 && vseq == Lasts(sq, cuts)
  {
    var n := |sq|;
    cuts, vseq := [0], [];
    var it1 := 0;
    var i := 0;
    while i < nB
      invariant 0 <= i <= nB && |cuts| == i + 1 && it1 == cuts[i]
      invariant i < nB ==> it1 == i * mv
      invariant i == nB ==> it1 == n && cuts[nB - 1] < n && n - cuts[nB - 1] <= mv
      invariant StepCuts(cuts, mv, nB, n)
      invariant LastsSoFar(sq, cuts, vseq)
    {
      ChunkEnd(i, mv, nB, n);
      var it2 := if i == nB - 1 then n else it1 + mv;
      StepCutsNext(cuts, mv, nB, n, it2);
      LastsSoFarNext(sq, cuts, vseq, it2);
      vseq := vseq + [sq[it2 - 1]];
      cuts := cuts + [it2];
      it1 := it2;
      i := i + 1;
    }
    StepCutsDone(sq, cuts, vseq, mv, nB);
  }

  /** The cuts so far start at 0, step by `mv` before cut `nB`, and stay within `n`. */
  predicate StepCuts(cuts: seq<nat>, mv: nat, nB: nat, n: nat) {
    && |cuts| >= 1 && cuts[0] == 0
    && (forall k :: 0 < k < |cuts| && k < nB ==> cuts[k] == cuts[k - 1] + mv)
    && (forall k :: 0 <= k < |cuts| ==> cuts[k] <= n)
  }

  /** `Vseq` so far holds the last position of every chunk cut so far. */
  predicate LastsSoFar(sq: seq<nat>, cuts: seq<nat>, vseq: seq<nat>) {
    && |vseq| == |cuts| - 1
    && (forall k :: 0 < k < |cuts| ==> 0 < cuts[k] <= |sq|)
    && (forall k :: 0 <= k < |vseq| ==> vseq[k] == sq[cuts[k + 1] - 1])
  }

  lemma StepCutsNext(cuts: seq<nat>, mv: nat, nB: nat, n: nat, it2: nat)
    requires StepCuts(cuts, mv, nB, n) && |cuts| <= nB && it2 <= n
    requires |cuts| < nB ==> it2 == cuts[|cuts| - 1] + mv
    ensures StepCuts(cuts + [it2], mv, nB, n)
  {
  }

  lemma LastsSoFarNext(sq: seq<nat>, cuts: seq<nat>, vseq: seq<nat>, it2: nat)
    requires LastsSoFar(sq, cuts, vseq) && 0 < it2 <= |sq|
    ensures LastsSoFar(sq, cuts + [it2], vseq + [sq[it2 - 1]])
  {
    var c2, v2 := cuts + [it2], vseq + [sq[it2 - 1]];
    assert forall k :: 0 < k < |c2| ==> 0 < c2[k] <= |sq|;
    forall k | 0 <= k < |v2|
      ensures v2[k] == sq[c2[k + 1] - 1]
    {
      if k < |vseq| {
        assert c2[k + 1] == cuts[k + 1] && v2[k] == vseq[k];
      } else {
        assert c2[k + 1] == it2 && v2[k] == sq[it2 - 1];
      }
    }
  }

  /** When the last cut is `n`, the cuts are the chunks of `mv` positions and `Vseq` their last positions. */
  lemma StepCutsDone(sq: seq<nat>, cuts: seq<nat>, vseq: seq<nat>, mv: nat, nB: nat)
    requires mv > 0 && BL.BlockCount(|sq|, mv, nB) && |cuts| == nB + 1
    requires StepCuts(cuts, mv, nB, |sq|) && LastsSoFar(sq, cuts, vseq)
    requires cuts[nB] == |sq| && cuts[nB - 1] < |sq| && |sq| - cuts[nB - 1] <= mv
    ensures EvenChunks(cuts, |sq|, mv) && vseq == Lasts(sq, cuts)
  {
    StepsIncrease(cuts);
  }

  /** Cuts that each come after the one before are strictly increasing. */
  lemma StepsIncrease(cuts: seq<nat>)
    requires forall k :: 0 < k < |cuts| ==> cuts[k - 1] < cuts[k]
    ensures forall i, l :: 0 <= i < l < |cuts| ==> cuts[i] < cuts[l]
  {
    forall i, l | 0 <= i < l < |cuts|
      ensures cuts[i] < cuts[l]
    {
      StepsBelow(cuts, l);
    }
  }

  /** Every cut before cut `j` is smaller than it. */
  lemma {:induction false} StepsBelow(cuts: seq<nat>, j: nat)
    requires j < |cuts| && forall k :: 0 < k < |cuts| ==> cuts[k - 1] < cuts[k]
    ensures forall i :: 0 <= i < j ==> cuts[i] < cuts[j]
  {
    if j > 0 {
      StepsBelow(cuts, j - 1);
    }
  }

  /** The chunk starting at `i * mv` ends inside the list, before its last position unless it is the last chunk. */
  lemma ChunkEnd(i: nat, mv: nat, nB: nat, n: nat)
    requires mv > 0 && BL.BlockCount(n, mv, nB) && i < nB
    ensures i * mv + mv == (i + 1) * mv
    ensures i < nB - 1 ==> i * mv + mv < n
    ensures i == nB - 1 ==> i * mv < n <= i * mv + mv
  {
    BL.MulStep(i, mv);
    if i < nB - 1 {
      Arrays.MulLe(i + 1, nB - 1, mv);
    }
  }

  /* ---------------------------------------------------------------- */
  /* tk_move of algorithm/tk_block_indirect_sort.hpp                   */
  /* ---------------------------------------------------------------- */

  /** A `Vseq` shorter than this is rotated at once; a longer one becomes new long-move work. */
  const SimpleMoveLimit: nat := 64

  /**
   * `tk_move::exec`: `move_blocks` on the list; when it leaves a `Vseq`,
   * once the chunks are done, rotate along `Vseq`, at once when it is
   * shorter than 64 positions and otherwise as a new `tk_move` on it.
   * The whole is one rotation of the block contents along the list.
   */
  method TkMove(a: array<Elem>, first: int, bs: nat, nb: nat, sq: seq<nat>, mv: nat, buf: array<Elem>)
    requires a != buf && Layout(a.Length, first, bs, nb) && bs <= buf.Length
    requires Distinct(sq) && Below(sq, nb) && mv >= 2
    modifies a, buf
    ensures IsRotation(View(old(a[..]), first, bs, nb), View(a[..], first, bs, nb), sq)
    ensures forall k :: 0 <= k < a.Length && OutsideBlocks(first, bs, nb, k) ==> a[k] == old(a[k])
    decreases |sq|
  {
    ghost var B0 := View(a[..], first, bs, nb);
    var ret, vseq, cuts := MoveBlocksChunked(a, first, bs, nb, sq, mv, buf);
    if ret == 0 {
      return;
    }
    ghost var B1 := View(a[..], first, bs, nb);
    LastsDistinct(sq, cuts, nb);
    if |vseq| < SimpleMoveLimit {
      MoveSimpleBlocks(a, first, bs, nb, vseq, buf);
    } else {
      ChunkCountShrinks(|sq|, mv, |cuts| - 1);
      TkMove(a, first, bs, nb, vseq, mv, buf);
    }
    ChunkedRotation(B0, B1, View(a[..], first, bs, nb), sq, cuts);
  }

  /** With chunks of at least two positions there are fewer chunks than positions. */
  lemma ChunkCountShrinks(n: nat, mv: nat, nB: nat)
    requires mv >= 2 && BL.BlockCount(n, mv, nB) && n > mv
    ensures nB < n
  {
    Arrays.MulLe(2, mv, nB - 1);
  }
}
