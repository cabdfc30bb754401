/**
 * The block bookkeeping of the two block indirect sorts: how the range
 * is cut into blocks and a short tail block (the `backbone` of
 * detail/block_indirect_sort.hpp and the index set-up of
 * algorithm/block_indirect_sort.hpp), which elements a block position
 * stands for, how blocks are compared, and how `cut_range` splits a
 * run of index positions into pieces that can be merged independently.
 *
 * Iterators are indices; the global range is [first, last).
 */
module BlockLayout {
  import opened Order
  import opened Arrays
  import opened DetailBlockPos
  import DR = DetailRange

  /**
   * `get_range(pos)` of the backbone and `rng_pos(pos)` of the algorithm:
   * block `p` starts `p * bs` elements after `first` and holds `bs`
   * elements, except the last of the `nb` blocks, which ends at `last`.
   */
  function BlockRange(first: int, last: int, bs: nat, nb: nat, p: nat): (r: DR.Range)
    ensures r.first == first + p * bs
    ensures p + 1 != nb ==> r.Size() == bs
    ensures p + 1 == nb ==> r.last == last
  {
    DR.Range(first + p * bs, if p == nb - 1 then last else first + p * bs + bs)
  }

  /** `nb` is the number of blocks of `bs` elements, the last one possibly short, that cover `n > 0` elements. */
  predicate BlockCount(n: int, bs: nat, nb: nat) {
    bs > 0 && n > 0 && (nb - 1) * bs < n <= nb * bs
  }

  lemma MulStep(p: int, bs: int)
    ensures p * bs + bs == (p + 1) * bs
  {
  }

  /** The block that holds element `k`. */
  function BlockOf(first: int, bs: nat, k: int): int
    requires bs > 0
  {
    (k - first) / bs
  }

  /**
   * The block ranges tile the global range: the first starts at `first`,
   * each ends where the next starts, the last ends at `last`, none is
   * empty or longer than a block, and element `k` lies in block
   * `BlockOf(first, bs, k)`.
   */
  lemma RangesTile(first: int, last: int, bs: nat, nb: nat)
    requires BlockCount(last - first, bs, nb)
    ensures nb >= 1
    ensures BlockRange(first, last, bs, nb, 0).first == first
    ensures BlockRange(first, last, bs, nb, nb - 1).last == last
    ensures forall p: nat :: p + 1 < nb ==>
              BlockRange(first, last, bs, nb, p).last == BlockRange(first, last, bs, nb, p + 1).first
    ensures forall p: nat :: p < nb ==> 0 < BlockRange(first, last, bs, nb, p).Size() <= bs
    ensures forall k :: first <= k < last ==>
              0 <= BlockOf(first, bs, k) < nb &&
              BlockRange(first, last, bs, nb, BlockOf(first, bs, k)).first <= k < BlockRange(first, last, bs, nb, BlockOf(first, bs, k)).last
  {
    forall p: nat | p + 1 < nb
      ensures BlockRange(first, last, bs, nb, p).last == BlockRange(first, last, bs, nb, p + 1).first
    {
      MulStep(p, bs);
    }
    forall p: nat | p < nb
      ensures 0 < BlockRange(first, last, bs, nb, p).Size() <= bs
    {
      if p + 1 == nb {
        MulStep(p, bs);
      }
    }
    forall k | first <= k < last
      ensures 0 <= BlockOf(first, bs, k) < nb
      ensures BlockRange(first, last, bs, nb, BlockOf(first, bs, k)).first <= k < BlockRange(first, last, bs, nb, BlockOf(first, bs, k)).last
    {
      BlockHolds(first, last, bs, nb, k);
    }
  }

  /** Each of the `nb` blocks lies inside the range. */
  lemma BlockWithin(first: int, last: int, bs: nat, nb: nat, p: nat)
    ensures BlockCount(last - first, bs, nb) && p < nb ==>
              first <= BlockRange(first, last, bs, nb, p).first < BlockRange(first, last, bs, nb, p).last <= last
  {
    if BlockCount(last - first, bs, nb) && p < nb {
      RangesTile(first, last, bs, nb);
      if p + 1 < nb {
        MulStep(p, bs);
        MulLe(p + 1, nb - 1, bs);
      }
    }
  }

  /** Element `k` of the range lies in block `BlockOf(first, bs, k)`. */
  lemma BlockHolds(first: int, last: int, bs: nat, nb: nat, k: int)
    requires BlockCount(last - first, bs, nb) && first <= k < last
    ensures 0 <= BlockOf(first, bs, k) < nb
    ensures BlockRange(first, last, bs, nb, BlockOf(first, bs, k)).first <= k < BlockRange(first, last, bs, nb, BlockOf(first, bs, k)).last
  {
    var p := BlockOf(first, bs, k);
    DivMul(k - first, bs);
    assert p * bs <= k - first < p * bs + bs;
    assert p >= 0 by {
      if p < 0 {
        MulLe(p, -1, bs);
      }
    }
    assert p < nb by {
      if p >= nb {
        MulLe(nb, p, bs);
      }
    }
  }

  /**
   * `compare_block_pos` and `compare_blk`: blocks, named by position, are
   * compared by their first elements.
   */
  function BlockLess(s: seq<Elem>, first: int, bs: nat, p1: nat, p2: nat): (r: bool)
    requires 0 <= first + p1 * bs < |s| && 0 <= first + p2 * bs < |s|
    ensures r ==> !Less(s[first + p2 * bs], s[first + p1 * bs])
  {
    Less(s[first + p1 * bs], s[first + p2 * bs])
  }

  /**
   * The block comparison is a strict weak order, as sorting the index
   * with it requires: irreflexive, transitive, and with transitive
   * incomparability.
   */
  lemma BlockLessOrder(s: seq<Elem>, first: int, bs: nat, p1: nat, p2: nat, p3: nat)
    requires 0 <= first + p1 * bs < |s| && 0 <= first + p2 * bs < |s| && 0 <= first + p3 * bs < |s|
    ensures !BlockLess(s, first, bs, p1, p1)
    ensures BlockLess(s, first, bs, p1, p2) && BlockLess(s, first, bs, p2, p3) ==> BlockLess(s, first, bs, p1, p3)
    ensures !BlockLess(s, first, bs, p1, p2) && !BlockLess(s, first, bs, p2, p1)
            && !BlockLess(s, first, bs, p2, p3) && !BlockLess(s, first, bs, p3, p2)
            ==> !BlockLess(s, first, bs, p1, p3) && !BlockLess(s, first, bs, p3, p1)
  {
  }

  /**
   * The `backbone` shared by the tasks of detail/block_indirect_sort.hpp:
   * the global range, the block size, the element, block and tail
   * counts, the index of block positions and the tail range.
   */
  datatype Backbone = Backbone(first: int, last: int, bs: nat, nelem: nat, nblock: nat, ntail: nat,
                               index: seq<BlockPos>, rangeTail: DR.Range)
  {
    /**
     * `get_range(pos)`: block `p` starts `p` blocks after `first` and is
     * one block long, except the last, which ends at `last`. When the
     * block count covers the range, every block lies inside it, is not
     * empty and is at most one block long.
     */
    function GetRange(p: nat): (r: DR.Range)
      ensures r.first == first + p * bs
      ensures r.last == if p == nblock - 1 then last else r.first + bs
      ensures BlockCount(last - first, bs, nblock) && p < nblock ==>
                first <= r.first < r.last <= last && r.Size() <= bs
    {
      BlockWithin(first, last, bs, nblock, p);
      BlockRange(first, last, bs, nblock, p)
    }
  }

  /** The quotient and remainder facts of `nblock = ceil(n / bs)` and `ntail = n % bs`. */
  lemma {:induction false} CeilFacts(n: int, bs: nat, nblock: int, ntail: int)
    requires n > 0 && bs > 0 && nblock == (n + bs - 1) / bs && ntail == n % bs
    ensures BlockCount(n, bs, nblock) && 1 <= nblock <= n
    ensures 0 <= ntail < bs
    ensures ntail == 0 <==> nblock * bs == n
    ensures ntail != 0 ==> n == (nblock - 1) * bs + ntail
  {
    var q := n / bs;
    DivMul(n, bs);
    ModIs(n, bs);
    assert n == q * bs + ntail && 0 <= ntail < bs;
    if ntail == 0 {
      DivUnique(n + bs - 1, bs, q, bs - 1);
      MulStep(q - 1, bs);
      assert q >= 1 by {
        if q < 1 {
          MulLe(q, 0, bs);
        }
      }
    } else {
      MulStep(q, bs);
      DivUnique(n + bs - 1, bs, q + 1, ntail - 1);
    }
    assert q >= 0 by {
      if q < 0 {
        MulLe(q, -1, bs);
      }
    }
    MulLe(1, bs, nblock - 1);
  }

  /** The remainder is what the quotient leaves. */
  lemma ModIs(n: int, bs: nat)
    requires bs > 0
    ensures n % bs == n - n / bs * bs
  {
  }

  /** Quotient and remainder are unique. */
  lemma {:induction false} DivUnique(x: int, d: nat, q: int, r: int)
    requires d > 0 && x == q * d + r && 0 <= r < d
    ensures x / d == q
  {
    var q1 := x / d;
    DivMul(x, d);
    if q1 < q {
      MulStep(q1, d);
      MulLe(q1 + 1, q, d);
    } else if q1 > q {
      MulStep(q, d);
      MulLe(q + 1, q1, d);
    }
  }

  /**
   * The `backbone` constructor: for a non-empty range, `nblock` blocks
   * cover the `nelem` elements, the last one holding `ntail` of them when
   * `ntail` is not 0; the index names every block in order, on side
   * false; and the tail range is that short last block, or empty at
   * `last` when every block is whole. For an empty range the source
   * leaves the counts unset; the model sets them to 0.
   */
  method NewBackbone(first: int, last: int, bs: nat) returns (bk: Backbone)
    requires first <= last && last - first < PosMod && bs > 0
    ensures bk.first == first && bk.last == last && bk.bs == bs
    ensures first == last ==> bk.index == [] && bk.nblock == 0
    ensures first < last ==>
              && bk.nelem == last - first
              && BlockCount(bk.nelem, bs, bk.nblock)
              && 0 <= bk.ntail < bs
              && (bk.ntail == 0 <==> bk.nblock * bs == bk.nelem)
              && (bk.ntail != 0 ==> bk.nelem == (bk.nblock - 1) * bs + bk.ntail)
    ensures |bk.index| == bk.nblock
    ensures forall i :: 0 <= i < |bk.index| ==> bk.index[i].Pos() == i && !bk.index[i].Side()
    ensures bk.rangeTail.last == last
    ensures first < last && bk.ntail == 0 ==> bk.rangeTail.first == last
    ensures first < last && bk.ntail != 0 ==> bk.rangeTail == bk.GetRange(bk.nblock - 1)
  {
    if first == last {
      bk := Backbone(first, last, bs, 0, 0, 0, [], DR.Range(last, last));
      return;
    }
    var nelem := last - first;
    var nblock := (nelem + bs - 1) / bs;
    var ntail := nelem % bs;
    CeilFacts(nelem, bs, nblock, ntail);
    var index: seq<BlockPos> := [];
    var i := 0;
    while i < nblock
      invariant 0 <= i <= nblock && |index| == i
      invariant forall j :: 0 <= j < i ==> index[j].Pos() == j && !index[j].Side()
    {
      index := index + [Make(i, false)];
      i := i + 1;
    }
    var tailFirst := if ntail == 0 then last else first + (nblock - 1) * bs;
    bk := Backbone(first, last, bs, nelem, nblock, ntail, index, DR.Range(tailFirst, last));
  }

  /* ---------------------------------------------------------------- */
  /* cut_range                                                         */
  /* ---------------------------------------------------------------- */

  /** The side flag changes between index entries `q - 1` and `q`. */
  predicate SideChange(index: seq<BlockPos>, q: int) {
    0 < q < |index| && index[q - 1].Side() != index[q].Side()
  }

  /** Concatenation regroups. */
  lemma Regroup<T>(a: seq<T>, b: seq<T>, c: seq<T>)
    ensures a + (b + c) == (a + b) + c
  {
  }

  /**
   * The inner loop of `cut_range`: from `pos`, the first position before
   * `last` where the side flag changes, or `last` when there is none.
   */
  function NextCut(index: seq<BlockPos>, pos: int, last: int): (q: int)
    requires 0 < pos && last <= |index|
    ensures q == last || (pos <= q < last && SideChange(index, q))
    ensures pos <= last ==> pos <= q
    ensures forall j :: pos <= j < q && j < last ==> !SideChange(index, j)
    decreases last - pos
  {
    if pos >= last then last
    else if SideChange(index, pos) then pos
    else NextCut(index, pos + 1, last)
  }

  /**
   * The cuts `cut_range` makes after `p`: each is the first side change
   * at least `sp` positions after the previous cut, and the last is
   * `last`.
   */
  function CutPoints(index: seq<BlockPos>, p: int, last: int, sp: nat): (cs: seq<int>)
    requires 0 <= p <= last <= |index| && sp >= 1
    decreases last - p
  {
    if p >= last then []
    else
      var q := NextCut(index, p + sp, last);
      [q] + CutPoints(index, q, last, sp)
  }

  /** The pieces between consecutive cuts, from `p`, that hold at least two positions. */
  function Kept(p: int, cs: seq<int>): seq<DR.Range>
    decreases cs
  {
    if cs == [] then []
    else (if cs[0] - p > 1 then [DR.Range(p, cs[0])] else []) + Kept(cs[0], cs[1..])
  }

  /** The cuts before `last`: the positions whose two neighbouring blocks are merged. */
  function Interior(cs: seq<int>, last: int): seq<int>
    decreases cs
  {
    if cs == [] then []
    else (if cs[0] < last then [cs[0]] else []) + Interior(cs[1..], last)
  }

  /** `size_part` of `cut_range`: the size of `n` split into `ceil(n / gs)` parts. */
  function PartSize(n: int, gs: nat): (sp: int)
    requires gs >= 1 && n >= gs
    ensures 1 <= sp <= n
  {
    var npart := (n + gs - 1) / gs;
    CeilFacts(n, gs, npart, n % gs);
    QuotientBounds(n, npart);
    n / npart
  }

  /** Dividing by a number between 1 and `n` leaves a quotient between 1 and `n`. */
  lemma QuotientBounds(n: int, d: int)
    requires 1 <= d <= n
    ensures 1 <= n / d <= n
  {
    DivMul(n, d);
    var q := n / d;
    if q < 1 {
      MulLe(q, 0, d);
    }
    MulLe(1, d, q);
  }

  /** The cuts are strictly increasing after `p`, and the last one is `last`. */
  lemma {:induction false} CutPointsIncreasing(index: seq<BlockPos>, p: int, last: int, sp: nat)
    requires 0 <= p < last <= |index| && sp >= 1
    ensures |CutPoints(index, p, last, sp)| >= 1
    ensures CutPoints(index, p, last, sp)[|CutPoints(index, p, last, sp)| - 1] == last
    ensures Increasing(p, CutPoints(index, p, last, sp))
    decreases last - p
  {
    var q := NextCut(index, p + sp, last);
    var cs := CutPoints(index, p, last, sp);
    var rest := CutPoints(index, q, last, sp);
    assert cs == [q] + rest;
    if q < last {
      CutPointsIncreasing(index, q, last, sp);
      assert forall i :: 1 <= i < |cs| ==> cs[i] == rest[i - 1];
    }
  }

  /**
   * Every cut before the last is a side change at least `sp` positions
   * after the cut before it (or after `p`), and a cut closer than that
   * is `last`.
   */
  lemma {:induction false} CutPointsSides(index: seq<BlockPos>, p: int, last: int, sp: nat)
    requires 0 <= p < last <= |index| && sp >= 1
    ensures forall i :: 0 <= i < |CutPoints(index, p, last, sp)| - 1 ==> SideChange(index, CutPoints(index, p, last, sp)[i])
    ensures forall i :: 0 <= i < |CutPoints(index, p, last, sp)| - 1 ==>
              CutPoints(index, p, last, sp)[i] + sp <= CutPoints(index, p, last, sp)[i + 1]
              || CutPoints(index, p, last, sp)[i + 1] == last
    ensures |CutPoints(index, p, last, sp)| >= 1
    ensures CutPoints(index, p, last, sp)[0] >= p + sp || CutPoints(index, p, last, sp)[0] == last
    decreases last - p
  {
    var q := NextCut(index, p + sp, last);
    var cs := CutPoints(index, p, last, sp);
    var rest := CutPoints(index, q, last, sp);
    assert cs == [q] + rest;
    if q < last {
      CutPointsSides(index, q, last, sp);
      assert forall i :: 1 <= i < |cs| ==> cs[i] == rest[i - 1];
    }
  }

  /** The cuts `cs` come after `p` in strictly increasing order. */
  predicate Increasing(p: int, cs: seq<int>) {
    && (forall i :: 0 <= i < |cs| ==> p < cs[i])
    && (forall i, j :: 0 <= i < j < |cs| ==> cs[i] < cs[j])
  }

  /** The cuts after the first one come after it. */
  lemma IncreasingRest(p: int, cs: seq<int>)
    requires Increasing(p, cs) && cs != []
    ensures Increasing(cs[0], cs[1..])
  {
    forall i | 0 <= i < |cs| - 1
      ensures cs[0] < cs[1..][i]
    {
      assert cs[1..][i] == cs[i + 1];
    }
  }

  /**
   * Each kept piece between increasing cuts holds at least two positions
   * and runs from one cut (or `p`) to the next.
   */
  lemma {:induction false} KeptPieces(p: int, cs: seq<int>)
    requires Increasing(p, cs)
    ensures forall i :: 0 <= i < |Kept(p, cs)| ==>
              Kept(p, cs)[i].Size() >= 2 && p <= Kept(p, cs)[i].first && Kept(p, cs)[i].last <= cs[|cs| - 1]
    ensures forall i :: 0 <= i < |Kept(p, cs)| ==>
              (Kept(p, cs)[i].first == p || Kept(p, cs)[i].first in cs) && Kept(p, cs)[i].last in cs
    decreases cs
  {
    if cs != [] {
      var c, rest := cs[0], cs[1..];
      var head: seq<DR.Range> := if c - p > 1 then [DR.Range(p, c)] else [];
      var tail := Kept(c, rest);
      var ks := Kept(p, cs);
      assert ks == head + tail;
      IncreasingRest(p, cs);
      KeptPieces(c, rest);
      assert rest != [] ==> cs[|cs| - 1] == rest[|rest| - 1];
      assert forall x :: x in rest ==> x in cs;
      forall i | 0 <= i < |ks|
        ensures ks[i].Size() >= 2 && p <= ks[i].first && ks[i].last <= cs[|cs| - 1]
        ensures (ks[i].first == p || ks[i].first in cs) && ks[i].last in cs
      {
        if i >= |head| {
          AppendAt(head, tail, i);
          var r := tail[i - |head|];
          assert r.Size() >= 2 && c <= r.first && r.last <= rest[|rest| - 1];
          assert (r.first == c || r.first in rest) && r.last in rest;
        } else {
          assert ks[i] == DR.Range(p, c);
        }
      }
    }
  }

  /** The kept pieces between increasing cuts are in order and do not overlap. */
  lemma {:induction false} KeptOrdered(p: int, cs: seq<int>)
    requires Increasing(p, cs)
    ensures forall i :: 0 <= i < |Kept(p, cs)| - 1 ==> Kept(p, cs)[i].last <= Kept(p, cs)[i + 1].first
    decreases cs
  {
    if cs != [] {
      var c, rest := cs[0], cs[1..];
      var head: seq<DR.Range> := if c - p > 1 then [DR.Range(p, c)] else [];
      var tail := Kept(c, rest);
      var ks := Kept(p, cs);
      assert ks == head + tail;
      IncreasingRest(p, cs);
      KeptOrdered(c, rest);
      KeptPieces(c, rest);
      forall i | 0 <= i < |ks| - 1
        ensures ks[i].last <= ks[i + 1].first
      {
        AppendAt(head, tail, i + 1);
        if i >= |head| {
          AppendAt(head, tail, i);
        } else {
          assert ks[i] == DR.Range(p, c);
          assert c <= tail[0].first;
        }
      }
    }
  }

  /** An index past the first part of a concatenation reads the second part. */
  lemma AppendAt<T>(h: seq<T>, t: seq<T>, i: int)
    requires |h| <= i < |h| + |t|
    ensures (h + t)[i] == t[i - |h|]
  {
  }

  /** No piece of two or more positions between consecutive cuts is dropped. */
  lemma {:induction false} KeptComplete(p: int, cs: seq<int>)
    ensures |cs| > 0 && cs[0] - p > 1 ==> DR.Range(p, cs[0]) in Kept(p, cs)
    ensures forall i :: 0 < i < |cs| && cs[i] - cs[i - 1] > 1 ==> DR.Range(cs[i - 1], cs[i]) in Kept(p, cs)
    decreases cs
  {
    if cs != [] {
      var c, rest := cs[0], cs[1..];
      var head: seq<DR.Range> := if c - p > 1 then [DR.Range(p, c)] else [];
      var tail := Kept(c, rest);
      assert Kept(p, cs) == head + tail;
      KeptComplete(c, rest);
      forall i | 0 < i < |cs| && cs[i] - cs[i - 1] > 1
        ensures DR.Range(cs[i - 1], cs[i]) in Kept(p, cs)
      {
        assert cs[i] == rest[i - 1];
        if i == 1 {
          assert DR.Range(c, rest[0]) in tail;
        } else {
          assert cs[i - 1] == rest[i - 2];
          assert DR.Range(rest[i - 2], rest[i - 1]) in tail;
        }
      }
    }
  }

  /** One step of the cuts: the first piece and the cut after it, then the rest. */
  lemma CutUnfold(index: seq<BlockPos>, p: int, last: int, sp: nat)
    requires 0 <= p < last <= |index| && sp >= 1
    ensures var q := NextCut(index, p + sp, last);
      && p < q <= last
      && Kept(p, CutPoints(index, p, last, sp))
         == (if q - p > 1 then [DR.Range(p, q)] else []) + Kept(q, CutPoints(index, q, last, sp))
      && Interior(CutPoints(index, p, last, sp), last)
         == (if q < last then [q] else []) + Interior(CutPoints(index, q, last, sp), last)
  {
    var q := NextCut(index, p + sp, last);
    var cs := CutPoints(index, p, last, sp);
    assert cs == [q] + CutPoints(index, q, last, sp);
    assert cs[0] == q && cs[1..] == CutPoints(index, q, last, sp);
  }

  /**
   * `cut_range`: a run of fewer than `gs` positions is appended whole;
   * otherwise it is cut after `size_part` positions, each cut pushed
   * right until the side flag changes (or the run ends), the pieces of
   * at least two positions are appended in order, and the blocks on the
   * two sides of each cut before the end are merged (`merged` lists
   * those cut positions).
   */
  method CutRange(index: seq<BlockPos>, rng: DR.Range, gs: nat, vout: seq<DR.Range>)
    returns (out: seq<DR.Range>, merged: seq<int>)
    requires 0 <= rng.first <= rng.last <= |index| && gs >= 1
    ensures rng.Size() < gs ==> out == vout + [rng] && merged == []
    ensures rng.Size() >= gs ==>
              var cs := CutPoints(index, rng.first, rng.last, PartSize(rng.Size(), gs));
              out == vout + Kept(rng.first, cs) && merged == Interior(cs, rng.last)
  {
    var n := rng.last - rng.first;
    if n < gs {
      out, merged := vout + [rng], [];
      return;
    }
    var npart := (n + gs - 1) / gs;
    var sizePart := n / npart;
    assert sizePart == PartSize(n, gs);
    out, merged := CutPieces(index, rng.first, rng.last, sizePart, vout);
  }

  /** The loop of `cut_range` over the run [first, last) once `size_part` is known. */
  method CutPieces(index: seq<BlockPos>, first: int, last: int, sizePart: int, vout: seq<DR.Range>)
    returns (out: seq<DR.Range>, merged: seq<int>)
    requires 0 <= first <= last <= |index| && sizePart >= 1
    ensures out == vout + Kept(first, CutPoints(index, first, last, sizePart))
    ensures merged == Interior(CutPoints(index, first, last, sizePart), last)
  {
    var posIni := first;
    out, merged := vout, [];
    while posIni < last
      invariant first <= posIni <= last
      invariant out + Kept(posIni, CutPoints(index, posIni, last, sizePart))
                == vout + Kept(first, CutPoints(index, first, last, sizePart))
      invariant merged + Interior(CutPoints(index, posIni, last, sizePart), last)
                == Interior(CutPoints(index, first, last, sizePart), last)
      decreases last - posIni
    {
      var pos := PushCut(index, posIni + sizePart, last);
      CutAdvance(index, first, posIni, last, sizePart, pos, vout, out, merged);
      if pos < last {
        merged := merged + [pos];
      }
      if pos - posIni > 1 {
        out := out + [DR.Range(posIni, pos)];
      }
      posIni := pos;
    }
  }

  /** One round of the loop of `cut_range` keeps the pieces and cuts still to come in step. */
  lemma CutAdvance(index: seq<BlockPos>, first: int, p: int, last: int, sp: nat, q: int,
                   vout: seq<DR.Range>, out: seq<DR.Range>, merged: seq<int>)
    requires 0 <= first <= p < last <= |index| && sp >= 1 && q == NextCut(index, p + sp, last)
    requires out + Kept(p, CutPoints(index, p, last, sp)) == vout + Kept(first, CutPoints(index, first, last, sp))
    requires merged + Interior(CutPoints(index, p, last, sp), last) == Interior(CutPoints(index, first, last, sp), last)
    ensures p < q <= last
    ensures (out + if q - p > 1 then [DR.Range(p, q)] else []) + Kept(q, CutPoints(index, q, last, sp))
            == vout + Kept(first, CutPoints(index, first, last, sp))
    ensures (merged + if q < last then [q] else []) + Interior(CutPoints(index, q, last, sp), last)
            == Interior(CutPoints(index, first, last, sp), last)
  {
    CutUnfold(index, p, last, sp);
    Regroup(merged, if q < last then [q] else [], Interior(CutPoints(index, q, last, sp), last));
    Regroup(out, if q - p > 1 then [DR.Range(p, q)] else [], Kept(q, CutPoints(index, q, last, sp)));
  }

  /**
   * The inner loop of `cut_range`: move the cut right while the side
   * flag does not change, and put it at `last` if it reaches or passes it.
   */
  method PushCut(index: seq<BlockPos>, pos0: int, last: int) returns (pos: int)
    requires 0 < pos0 && last <= |index|
    ensures pos == NextCut(index, pos0, last)
  {
    pos := pos0;
    while pos < last && index[pos - 1].Side() == index[pos].Side()
      invariant pos0 <= pos
      invariant NextCut(index, pos, last) == NextCut(index, pos0, last)
      decreases last - pos
    {
      pos := pos + 1;
    }
    if pos >= last {
      pos := last;
    }
  }

  /* ---------------------------------------------------------------- */
  /* The index of algorithm/block_indirect_sort.hpp                    */
  /* ---------------------------------------------------------------- */

  /** `blk`: a block position and a side flag, kept as two fields. */
  datatype Blk = Blk(pos: nat, side: bool)

  /**
   * The index set-up of the algorithm version: one entry per whole
   * block, then one for the short tail block if there is one, all on
   * side true; `NB` is the number of entries, and the tail range starts
   * after the last whole block.
   */
  method AlgorithmIndex(nelem: nat, blkSize: nat) returns (v: seq<Blk>, nb: nat, tailStart: nat)
    requires blkSize > 0
    ensures nb == |v|
    ensures forall i :: 0 <= i < |v| ==> v[i] == Blk(i, true)
    ensures tailStart <= nelem < tailStart + blkSize && tailStart % blkSize == 0
    ensures nelem == 0 ==> v == []
    ensures nelem > 0 ==> BlockCount(nelem, blkSize, nb)
  {
    var whole := nelem / blkSize;
    v := [];
    var i := 0;
    while i < whole
      invariant 0 <= i <= whole && |v| == i
      invariant forall j :: 0 <= j < i ==> v[j] == Blk(j, true)
    {
      v := v + [Blk(i, true)];
      i := i + 1;
    }
    tailStart := whole * blkSize;
    if nelem % blkSize != 0 {
      v := v + [Blk(whole, true)];
    }
    nb := |v|;
    FloorFacts(nelem, blkSize, whole, tailStart, nb);
  }

  /**
   * The whole blocks end at a multiple of the block size within one block
   * of the end, and with one more block for a remainder they cover the
   * elements.
   */
  lemma {:induction false} FloorFacts(n: nat, bs: nat, whole: nat, t: nat, nb: nat)
    requires bs > 0 && whole == n / bs && t == whole * bs
    requires nb == if n % bs != 0 then whole + 1 else whole
    ensures t <= n < t + bs && t % bs == 0
    ensures n > 0 ==> BlockCount(n, bs, nb)
  {
    DivMul(n, bs);
    MulStep(whole, bs);
    assert t <= n < t + bs;
    assert t / bs == whole by {
      DivMul(t, bs);
      var q := t / bs;
      if q < whole {
        MulStep(q, bs);
        MulLe(q + 1, whole, bs);
      } else if q > whole {
        MulLe(whole + 1, q, bs);
      }
    }
    DivMul(t, bs);
    assert n % bs == n - t;
    if n > 0 && n % bs != 0 {
      assert (nb - 1) * bs < n <= nb * bs;
    }
    if n > 0 && n % bs == 0 {
      MulStep(nb - 1, bs);
    }
  }

  /**
   * The two versions lay out the same blocks: for a non-empty range the
   * algorithm's index has the backbone's block count, names the same
   * positions (on the other side), and its tail starts where the
   * backbone's short tail block starts.
   */
  lemma IndexLayoutsAgree(nelem: nat, bs: nat, v: seq<Blk>, nb: nat, tailStart: nat, index: seq<BlockPos>, nblock: nat)
    requires bs > 0 && nelem > 0
    requires nb == |v| && (forall i :: 0 <= i < |v| ==> v[i] == Blk(i, true))
    requires tailStart <= nelem < tailStart + bs && tailStart % bs == 0 && BlockCount(nelem, bs, nb)
    requires BlockCount(nelem, bs, nblock) && |index| == nblock
    requires forall i :: 0 <= i < |index| ==> index[i].Pos() == i && !index[i].Side()
    ensures nb == nblock
    ensures forall i :: 0 <= i < nb ==> v[i].pos == index[i].Pos() && v[i].side != index[i].Side()
    ensures tailStart == (nb - 1) * bs || tailStart == nelem
  {
    if nb < nblock {
      MulLe(nb, nblock - 1, bs);
    } else if nb > nblock {
      MulLe(nblock, nb - 1, bs);
    }
    var t := tailStart / bs;
    assert tailStart == t * bs;
    if t < nb - 1 {
      MulStep(t, bs);
      MulLe(t + 1, nb - 1, bs);
    } else if t > nb - 1 && tailStart != nelem {
      MulLe(nb, t, bs);
    }
  }
}
