/**
 * Blocks of a range and the rotation of block contents along a list of
 * block positions, shared by the two block indirect sorts
 * (detail/block_indirect_sort.hpp and algorithm/block_indirect_sort.hpp).
 *
 * The range starting at index `first` is cut into blocks of `bs`
 * elements; block `p` occupies [first + p * bs, first + p * bs + bs).
 * The data seen block by block is the `View`, a sequence of block
 * contents; a rotation along the positions `sq` is stated on views by
 * `IsRotation`: block `sq[j-1]` receives what block `sq[j]` held, and
 * the last block of the list receives what the first one held.
 */
module BlockGeometry {
  import opened Order
  import opened Arrays
  import Buffer

  /** Index of the first element of block `p`. */
  function Start(first: int, bs: nat, p: nat): (k: int)
    ensures k >= first
  {
    first + p * bs
  }

  /** `nb` whole blocks of `bs` elements starting at `first` fit in `n` elements. */
  predicate Layout(n: int, first: int, bs: nat, nb: nat) {
    0 <= first && first + nb * bs <= n
  }

  /** Block `p` of `nb` lies inside the region of the `nb` blocks. */
  lemma BlockInside(n: int, first: int, bs: nat, nb: nat, p: nat)
    requires Layout(n, first, bs, nb) && p < nb
    ensures 0 <= first <= Start(first, bs, p)
    ensures Start(first, bs, p) + bs <= first + nb * bs <= n
  {
    assert (p + 1) * bs <= nb * bs by { MulLe(p + 1, nb, bs); }
  }

  /** Distinct blocks occupy disjoint index ranges. */
  lemma BlocksApart(first: int, bs: nat, p: nat, q: nat)
    requires p != q
    ensures Disjoint(Start(first, bs, p), Start(first, bs, p) + bs,
                     Start(first, bs, q), Start(first, bs, q) + bs)
  {
    if p < q {
      MulLe(p + 1, q, bs);
    } else {
      MulLe(q + 1, p, bs);
    }
  }

  /** The contents of block `p`. */
  function Block(s: seq<Elem>, first: int, bs: nat, nb: nat, p: nat): (b: seq<Elem>)
    requires Layout(|s|, first, bs, nb) && p < nb
    ensures |b| == bs
  {
    BlockInside(|s|, first, bs, nb, p);
    s[Start(first, bs, p)..Start(first, bs, p) + bs]
  }

  /** The data block by block: entry `p` is the contents of block `p`. */
  function View(s: seq<Elem>, first: int, bs: nat, nb: nat): (v: seq<seq<Elem>>)
    requires Layout(|s|, first, bs, nb)
    ensures |v| == nb
    ensures forall p :: 0 <= p < nb ==> v[p] == Block(s, first, bs, nb, p)
  {
    seq(nb, p requires 0 <= p < nb => Block(s, first, bs, nb, p))
  }

  /** `k` lies in none of the `nb` blocks. */
  predicate OutsideBlocks(first: int, bs: nat, nb: nat, k: int) {
    k < first || first + nb * bs <= k
  }

  /**
   * Rewriting one block and nothing else changes the view in that block
   * only and keeps every cell outside the blocks.
   */
  lemma ViewUpdate(s: seq<Elem>, t: seq<Elem>, first: int, bs: nat, nb: nat, p: nat)
    requires |s| == |t| && Layout(|s|, first, bs, nb) && p < nb
    requires forall k :: 0 <= k < |s| && !(Start(first, bs, p) <= k < Start(first, bs, p) + bs) ==> t[k] == s[k]
    ensures View(t, first, bs, nb) == View(s, first, bs, nb)[p := Block(t, first, bs, nb, p)]
    ensures forall k :: 0 <= k < |s| && OutsideBlocks(first, bs, nb, k) ==> t[k] == s[k]
  {
    BlockInside(|s|, first, bs, nb, p);
    forall q | 0 <= q < nb && q != p
      ensures Block(t, first, bs, nb, q) == Block(s, first, bs, nb, q)
    {
      BlockInside(|s|, first, bs, nb, q);
      BlocksApart(first, bs, p, q);
      KeptSlice(t, s, Start(first, bs, q), Start(first, bs, q) + bs,
                Start(first, bs, p), Start(first, bs, p) + bs);
    }
  }

  /** Block positions are pairwise different. */
  predicate Distinct(sq: seq<nat>) {
    forall i, j :: 0 <= i < j < |sq| ==> sq[i] != sq[j]
  }

  /** Every block position is below `nb`. */
  predicate Below(sq: seq<nat>, nb: nat) {
    forall i :: 0 <= i < |sq| ==> sq[i] < nb
  }

  /**
   * `B1` is `B` rotated along `sq`: block `sq[j-1]` holds what block
   * `sq[j]` held, the last listed block holds what the first held, and
   * every block not listed keeps its contents.
   */
  predicate IsRotation<X(==)>(B: seq<X>, B1: seq<X>, sq: seq<nat>)
    requires Below(sq, |B|)
  {
    && |B1| == |B|
    && (forall j :: 0 < j < |sq| ==> B1[sq[j - 1]] == B[sq[j]])
    && (sq != [] ==> B1[sq[|sq| - 1]] == B[sq[0]])
    && (forall q :: 0 <= q < |B| && q !in sq ==> B1[q] == B[q])
  }

  /** A rotation along distinct positions is determined by the list. */
  lemma RotationUnique<X>(B: seq<X>, B1: seq<X>, B2: seq<X>, sq: seq<nat>)
    requires Below(sq, |B|) && Distinct(sq)
    requires IsRotation(B, B1, sq) && IsRotation(B, B2, sq)
    ensures B1 == B2
  {
    forall q | 0 <= q < |B|
      ensures B1[q] == B2[q]
    {
      if q in sq {
        var i :| 0 <= i < |sq| && sq[i] == q;
        if i + 1 < |sq| {
          assert B1[sq[i]] == B[sq[i + 1]] == B2[sq[i]];
        } else {
          assert B1[sq[i]] == B[sq[0]] == B2[sq[i]];
        }
      }
    }
  }

  /**
   * The state of a rotation along `sq` after its first `i` moves: blocks
   * `sq[0..i-1)` hold the contents of their successors in the list, the
   * other listed blocks and every unlisted block are as in `B`.
   */
  predicate PartRotated(B: seq<seq<Elem>>, V: seq<seq<Elem>>, sq: seq<nat>, i: nat)
    requires Below(sq, |B|) && |V| == |B| && 1 <= i <= |sq|
  {
    && (forall j :: 0 < j < i ==> V[sq[j - 1]] == B[sq[j]])
    && (forall j :: i - 1 <= j < |sq| ==> V[sq[j]] == B[sq[j]])
    && (forall q :: 0 <= q < |B| && q !in sq ==> V[q] == B[q])
  }

  lemma PartRotatedStep(B: seq<seq<Elem>>, V: seq<seq<Elem>>, sq: seq<nat>, i: nat)
    requires Below(sq, |B|) && Distinct(sq) && |V| == |B| && 1 <= i < |sq|
    requires PartRotated(B, V, sq, i)
    ensures PartRotated(B, V[sq[i - 1] := V[sq[i]]], sq, i + 1)
  {
  }

  lemma PartRotatedEnd(B: seq<seq<Elem>>, V: seq<seq<Elem>>, sq: seq<nat>)
    requires Below(sq, |B|) && Distinct(sq) && |V| == |B| && sq != []
    requires PartRotated(B, V, sq, |sq|)
    ensures IsRotation(B, V[sq[|sq| - 1] := B[sq[0]]], sq)
  {
  }

  /**
   * `move_sequence` and `move_simple_blocks`: the contents of block
   * `sq[0]` go to the buffer, then each block `sq[i-1]` receives the
   * contents of block `sq[i]`, and the buffer goes to the last listed
   * block. The blocks are whole blocks of `bs` elements and the buffer
   * holds one block.
   */
  method RotateBlocks(a: array<Elem>, first: int, bs: nat, nb: nat, sq: seq<nat>, buf: array<Elem>)
    requires a != buf && Layout(a.Length, first, bs, nb) && bs <= buf.Length
    requires sq != [] && Distinct(sq) && Below(sq, nb)
    modifies a, buf
    ensures IsRotation(View(old(a[..]), first, bs, nb), View(a[..], first, bs, nb), sq)
    ensures forall k :: 0 <= k < a.Length && OutsideBlocks(first, bs, nb, k) ==> a[k] == old(a[k])
  {
    ghost var B0 := View(a[..], first, bs, nb);
    Save(a, first, bs, nb, sq[0], buf);
    var i := 1;
    while i < |sq|
      invariant 1 <= i <= |sq|
      invariant buf[0..bs] == B0[sq[0]]
      invariant PartRotated(B0, View(a[..], first, bs, nb), sq, i)
      invariant forall k :: 0 <= k < a.Length && OutsideBlocks(first, bs, nb, k) ==> a[k] == old(a[k])
    {
      ghost var V := View(a[..], first, bs, nb);
      Shift(a, first, bs, nb, sq[i], sq[i - 1]);
      PartRotatedStep(B0, V, sq, i);
      i := i + 1;
    }
    ghost var V := View(a[..], first, bs, nb);
    Restore(buf, a, first, bs, nb, sq[|sq| - 1]);
    PartRotatedEnd(B0, V, sq);
  }

  /** The first `init_move` of a rotation: the buffer receives the contents of block `p`. */
  method Save(a: array<Elem>, first: int, bs: nat, nb: nat, p: nat, buf: array<Elem>)
    requires a != buf && Layout(a.Length, first, bs, nb) && p < nb && bs <= buf.Length
    modifies buf
    ensures buf[0..bs] == View(a[..], first, bs, nb)[p]
  {
    BlockInside(a.Length, first, bs, nb, p);
    var st := Start(first, bs, p);
    var r := Buffer.MoveBuf(a, st, st + bs, buf, 0);
  }

  /** The last `init_move` of a rotation: block `p` receives the buffer. */
  method Restore(buf: array<Elem>, a: array<Elem>, first: int, bs: nat, nb: nat, p: nat)
    requires a != buf && Layout(a.Length, first, bs, nb) && p < nb && bs <= buf.Length
    modifies a
    ensures View(a[..], first, bs, nb) == View(old(a[..]), first, bs, nb)[p := buf[0..bs]]
    ensures forall k :: 0 <= k < a.Length && OutsideBlocks(first, bs, nb, k) ==> a[k] == old(a[k])
  {
    BlockInside(a.Length, first, bs, nb, p);
    var dst := Start(first, bs, p);
    var r := Buffer.MoveBuf(buf, 0, bs, a, dst);
    ViewUpdate(old(a[..]), a[..], first, bs, nb, p);
  }

  /** One `init_move` between blocks: block `dst` receives the contents of block `src`. */
  method Shift(a: array<Elem>, first: int, bs: nat, nb: nat, src: nat, dst: nat)
    requires Layout(a.Length, first, bs, nb) && src < nb && dst < nb && src != dst
    modifies a
    ensures View(a[..], first, bs, nb) == View(old(a[..]), first, bs, nb)[dst := View(old(a[..]), first, bs, nb)[src]]
    ensures forall k :: 0 <= k < a.Length && OutsideBlocks(first, bs, nb, k) ==> a[k] == old(a[k])
  {
    BlockInside(a.Length, first, bs, nb, src);
    BlockInside(a.Length, first, bs, nb, dst);
    BlocksApart(first, bs, src, dst);
    var b, o := Start(first, bs, src), Start(first, bs, dst);
    var r := Buffer.MoveBufWithin(a, b, b + bs, o);
    ViewUpdate(old(a[..]), a[..], first, bs, nb, dst);
  }

  /**
   * Cut points of a list of `n` positions into consecutive non-empty
   * chunks: chunk `k` is [cuts[k], cuts[k+1]).
   */
  predicate Cuts(cuts: seq<nat>, n: nat) {
    && |cuts| >= 2 && cuts[0] == 0 && cuts[|cuts| - 1] == n
    && (forall i, j :: 0 <= i < j < |cuts| ==> cuts[i] < cuts[j])
  }

  /** The last position of every chunk, chunk by chunk. */
  function Lasts(sq: seq<nat>, cuts: seq<nat>): (v: seq<nat>)
    requires Cuts(cuts, |sq|)
    ensures |v| == |cuts| - 1
    ensures forall k :: 0 <= k < |v| ==> v[k] == sq[cuts[k + 1] - 1]
  {
    seq(|cuts| - 1, k requires 0 <= k < |cuts| - 1 => sq[cuts[k + 1] - 1])
  }

  /**
   * Every chunk of `sq` rotated on its own: inside a chunk each block
   * receives its successor's contents, the last block of a chunk
   * receives its chunk's first block, unlisted blocks keep theirs.
   */
  predicate ChunksRotated(B: seq<seq<Elem>>, B1: seq<seq<Elem>>, sq: seq<nat>, cuts: seq<nat>)
    requires Below(sq, |B|) && Cuts(cuts, |sq|)
  {
    && |B1| == |B|
    && (forall j :: 0 < j < |sq| && j !in cuts ==> B1[sq[j - 1]] == B[sq[j]])
    && (forall k :: 0 <= k < |cuts| - 1 ==> B1[sq[cuts[k + 1] - 1]] == B[sq[cuts[k]]])
    && (forall q :: 0 <= q < |B| && q !in sq ==> B1[q] == B[q])
  }

  /** Every position of the list lies in one chunk. */
  lemma {:induction false} Locate(cuts: seq<nat>, n: nat, j: nat) returns (k: nat)
    requires Cuts(cuts, n) && j < n
    ensures k < |cuts| - 1 && cuts[k] <= j < cuts[k + 1]
  {
    k := 0;
    while cuts[k + 1] <= j
      invariant k < |cuts| - 1 && cuts[k] <= j
      decreases |cuts| - k
    {
      k := k + 1;
    }
  }

  /**
   * The chunking of a long move: rotating every chunk on its own and
   * then rotating along the chunks' last positions is one rotation along
   * the whole list.
   */
  lemma ChunkedRotation(B: seq<seq<Elem>>, B1: seq<seq<Elem>>, B2: seq<seq<Elem>>, sq: seq<nat>, cuts: seq<nat>)
    requires Below(sq, |B|) && Distinct(sq) && Cuts(cuts, |sq|)
    requires ChunksRotated(B, B1, sq, cuts)
    requires Below(Lasts(sq, cuts), |B1|) && IsRotation(B1, B2, Lasts(sq, cuts))
    ensures IsRotation(B, B2, sq)
  {
    var L := Lasts(sq, cuts);
    assert sq[|sq| - 1] == L[|L| - 1];
    forall q | 0 <= q < |B| && q !in sq
      ensures B2[q] == B[q]
    {
      LastsListed(sq, cuts, q);
      RotationKeeps(B1, B2, L, q);
    }
    forall j | 0 < j < |sq|
      ensures B2[sq[j - 1]] == B[sq[j]]
    {
      ChunkedPoint(B, B1, B2, sq, cuts, j);
    }
  }

  /** One position of `ChunkedRotation`: block `sq[j-1]` ends with what block `sq[j]` held. */
  lemma ChunkedPoint(B: seq<seq<Elem>>, B1: seq<seq<Elem>>, B2: seq<seq<Elem>>, sq: seq<nat>, cuts: seq<nat>, j: nat)
    requires Below(sq, |B|) && Distinct(sq) && Cuts(cuts, |sq|)
    requires ChunksRotated(B, B1, sq, cuts)
    requires Below(Lasts(sq, cuts), |B1|) && IsRotation(B1, B2, Lasts(sq, cuts))
    requires 0 < j < |sq|
    ensures B2[sq[j - 1]] == B[sq[j]]
  {
    var L := Lasts(sq, cuts);
    var k := Locate(cuts, |sq|, j);
    if j == cuts[k] {
      assert 0 < k < |L|;
      assert sq[j - 1] == L[k - 1] && L[k] == sq[cuts[k + 1] - 1];
      assert B2[L[k - 1]] == B1[L[k]];
      assert B1[sq[cuts[k + 1] - 1]] == B[sq[cuts[k]]];
    } else {
      InsideChunk(sq, cuts, j, k);
      RotationKeeps(B1, B2, L, sq[j - 1]);
      assert B1[sq[j - 1]] == B[sq[j]];
    }
  }

  /** A rotation keeps the contents of every block it does not list. */
  lemma RotationKeeps<X>(B: seq<X>, B1: seq<X>, sq: seq<nat>, q: nat)
    requires Below(sq, |B|) && IsRotation(B, B1, sq) && q < |B| && q !in sq
    ensures B1[q] == B[q]
  {
  }

  /** The chunks' last positions are listed positions. */
  lemma LastsListed(sq: seq<nat>, cuts: seq<nat>, q: nat)
    requires Cuts(cuts, |sq|) && q !in sq
    ensures q !in Lasts(sq, cuts)
  {
    forall k | 0 <= k < |cuts| - 1
      ensures Lasts(sq, cuts)[k] != q
    {
      assert Lasts(sq, cuts)[k] == sq[cuts[k + 1] - 1];
    }
  }

  /** A position strictly inside chunk `k` is no cut, and its predecessor is no chunk's last. */
  lemma InsideChunk(sq: seq<nat>, cuts: seq<nat>, j: nat, k: nat)
    requires Distinct(sq) && Cuts(cuts, |sq|) && k < |cuts| - 1 && cuts[k] < j < cuts[k + 1]
    ensures j !in cuts && sq[j - 1] !in Lasts(sq, cuts)
  {
    forall i | 0 <= i < |cuts|
      ensures cuts[i] != j
    {
      if i <= k {
        assert cuts[i] <= cuts[k];
      } else {
        assert cuts[k + 1] <= cuts[i];
      }
    }
    forall i | 0 <= i < |cuts| - 1
      ensures Lasts(sq, cuts)[i] != sq[j - 1]
    {
      assert cuts[i + 1] != j;
      assert Lasts(sq, cuts)[i] == sq[cuts[i + 1] - 1];
    }
  }

  /** A position listed outside [lo, hi) is not in that slice of a list of distinct positions. */
  lemma NotInSlice(sq: seq<nat>, lo: nat, hi: nat, j: nat)
    requires Distinct(sq) && lo <= hi <= |sq| && j < |sq| && !(lo <= j < hi)
    ensures sq[j] !in sq[lo..hi]
  {
  }

  /**
   * Rotating the chunks one after the other: after the first `k` chunks,
   * those chunks are rotated and every other block is as in `B`.
   */
  predicate ChunksRotatedUpTo(B: seq<seq<Elem>>, B1: seq<seq<Elem>>, sq: seq<nat>, cuts: seq<nat>, k: nat)
    requires Below(sq, |B|) && Cuts(cuts, |sq|) && k < |cuts|
  {
    && |B1| == |B|
    && (forall j :: 0 < j < cuts[k] && j !in cuts ==> B1[sq[j - 1]] == B[sq[j]])
    && (forall i :: 0 <= i < k ==> B1[sq[cuts[i + 1] - 1]] == B[sq[cuts[i]]])
    && (forall j :: cuts[k] <= j < |sq| ==> B1[sq[j]] == B[sq[j]])
    && (forall q :: 0 <= q < |B| && q !in sq ==> B1[q] == B[q])
  }

  /** Rotating chunk `k` next extends the rotated prefix by that chunk. */
  lemma ChunkStep(B: seq<seq<Elem>>, B1: seq<seq<Elem>>, B2: seq<seq<Elem>>, sq: seq<nat>, cuts: seq<nat>, k: nat)
    requires Below(sq, |B|) && Distinct(sq) && Cuts(cuts, |sq|) && k < |cuts| - 1
    requires ChunksRotatedUpTo(B, B1, sq, cuts, k)
    requires IsRotation(B1, B2, sq[cuts[k]..cuts[k + 1]])
    ensures ChunksRotatedUpTo(B, B2, sq, cuts, k + 1)
  {
    var lo, hi := cuts[k], cuts[k + 1];
    ChunkMoves(B, B1, B2, sq, lo, hi);
    ChunkKeeps(B1, B2, sq, lo, hi);
    forall j | 0 < j < hi && j !in cuts
      ensures B2[sq[j - 1]] == B[sq[j]]
    {
      if j < lo {
        assert B1[sq[j - 1]] == B[sq[j]];
      } else {
        assert lo < j;
      }
    }
    forall i | 0 <= i < k + 1
      ensures B2[sq[cuts[i + 1] - 1]] == B[sq[cuts[i]]]
    {
      if i < k {
        assert cuts[i + 1] <= lo;
        assert B1[sq[cuts[i + 1] - 1]] == B[sq[cuts[i]]];
      }
    }
    forall j | hi <= j < |sq|
      ensures B2[sq[j]] == B[sq[j]]
    {
      assert B1[sq[j]] == B[sq[j]];
    }
    forall q | 0 <= q < |B| && q !in sq
      ensures B2[q] == B[q]
    {
      assert B1[q] == B[q];
    }
    assert |B2| == |B|;
  }

  /** Rotating chunk [lo, hi) of `sq` moves each of its blocks' contents one step back. */
  lemma ChunkMoves(B: seq<seq<Elem>>, B1: seq<seq<Elem>>, B2: seq<seq<Elem>>, sq: seq<nat>, lo: nat, hi: nat)
    requires lo < hi <= |sq| && Below(sq, |B|) && |B1| == |B|
    requires IsRotation(B1, B2, sq[lo..hi])
    requires forall j :: lo <= j < hi ==> B1[sq[j]] == B[sq[j]]
    ensures forall j :: lo < j < hi ==> B2[sq[j - 1]] == B[sq[j]]
    ensures B2[sq[hi - 1]] == B[sq[lo]]
  {
    var c := sq[lo..hi];
    forall j | lo < j < hi
      ensures B2[sq[j - 1]] == B[sq[j]]
    {
      assert c[j - lo - 1] == sq[j - 1] && c[j - lo] == sq[j];
      assert B2[c[j - lo - 1]] == B1[c[j - lo]];
    }
    assert c[|c| - 1] == sq[hi - 1] && c[0] == sq[lo];
    assert B2[c[|c| - 1]] == B1[c[0]];
  }

  /** Rotating chunk [lo, hi) of distinct positions keeps every block outside the chunk. */
  lemma ChunkKeeps(B1: seq<seq<Elem>>, B2: seq<seq<Elem>>, sq: seq<nat>, lo: nat, hi: nat)
    requires lo <= hi <= |sq| && Distinct(sq) && Below(sq, |B1|)
    requires IsRotation(B1, B2, sq[lo..hi])
    ensures forall j :: 0 <= j < |sq| && !(lo <= j < hi) ==> B2[sq[j]] == B1[sq[j]]
    ensures forall q :: 0 <= q < |B1| && q !in sq ==> B2[q] == B1[q]
  {
    forall j | 0 <= j < |sq| && !(lo <= j < hi)
      ensures B2[sq[j]] == B1[sq[j]]
    {
      NotInSlice(sq, lo, hi, j);
      RotationKeeps(B1, B2, sq[lo..hi], sq[j]);
    }
    forall q | 0 <= q < |B1| && q !in sq
      ensures B2[q] == B1[q]
    {
      RotationKeeps(B1, B2, sq[lo..hi], q);
    }
  }

  /** Rotating every chunk in turn rotates each chunk on its own. */
  lemma ChunksRotatedAll(B: seq<seq<Elem>>, B1: seq<seq<Elem>>, sq: seq<nat>, cuts: seq<nat>)
    requires Below(sq, |B|) && Cuts(cuts, |sq|)
    requires ChunksRotatedUpTo(B, B1, sq, cuts, |cuts| - 1)
    ensures ChunksRotated(B, B1, sq, cuts)
  {
  }
}
