/**
 * `block_pos` of detail/block_indirect_sort.hpp: the index entry of the
 * block indirect sort, a block position and a side flag packed into one
 * `size_t` as `2 * position + side`. `size_t` is 64 bits wide, so the
 * shift `position << 1` loses the top bit of the position.
 *
 * The entry is a value copied in and out of the index vector; its setters
 * are modelled as functions returning the updated value.
 */
module DetailBlockPos {
  /** 2^64: `size_t` arithmetic is taken modulo this. */
  const SizeMod: int := 0x1_0000_0000_0000_0000

  /** 2^63: the positions that survive `position << 1`. */
  const PosMod: int := 0x8000_0000_0000_0000

  /** A `size_t` value. */
  type SizeT = x: int | 0 <= x < SizeMod

  datatype BlockPos = BlockPos(num: SizeT)
  {
    /** `pos()`: `num >> 1`. */
    function Pos(): (p: nat)
      ensures p < PosMod && num == 2 * p + num % 2
    {
      num / 2
    }

    /** `side()`: the low bit of `num`. */
    predicate Side() {
      num % 2 != 0
    }

    /**
     * `pos(position)` and `operator=(position)`: the position becomes
     * `position` modulo 2^63 and the side flag is kept.
     */
    function SetPos(position: SizeT): (b: BlockPos)
      ensures b.Pos() == position % PosMod && (b.Side() <==> Side())
    {
      BlockPos(Shl1(position) + num % 2)
    }

    /**
     * `side(b)` as written: `(num & ~1) + b ? 1 : 0` parses as
     * `((num & ~1) + b) ? 1 : 0`, so `num` becomes 0 or 1 and the
     * position is lost.
     */
    function SetSideAsWritten(b: bool): (r: BlockPos)
      ensures r.Pos() == 0
      ensures r.Side() <==> (b || Pos() != 0)
    {
      BlockPos(if (num - num % 2) + (if b then 1 else 0) != 0 then 1 else 0)
    }

    /** `side(b)` as intended: the side flag becomes `b` and the position is kept. */
    function SetSide(b: bool): (r: BlockPos)
      ensures r.Pos() == Pos() && (r.Side() <==> b)
    {
      BlockPos((num - num % 2) + (if b then 1 else 0))
    }
  }

  /** `position << 1` on a `size_t`: even, and the position modulo 2^63 doubled. */
  function Shl1(position: SizeT): (r: SizeT)
    ensures r % 2 == 0 && r / 2 == position % PosMod
  {
    (2 * position) % SizeMod
  }

  /** `block_pos()`: position 0 on side false. */
  function Default(): (b: BlockPos)
    ensures b.Pos() == 0 && !b.Side()
  {
    BlockPos(0)
  }

  /** `block_pos(position, side)`: the position modulo 2^63 and the side flag. */
  function Make(position: SizeT, side: bool): (b: BlockPos)
    ensures b.Pos() == position % PosMod && (b.Side() <==> side)
  {
    BlockPos(Shl1(position) + (if side then 1 else 0))
  }

  /** Every entry is the packing of its own position and side. */
  lemma MakeOfParts(b: BlockPos)
    ensures Make(b.Pos(), b.Side()) == b
  {
  }

  /** Positions below 2^63 round-trip through the packing. */
  lemma PosRoundTrip(position: SizeT, side: bool, p: SizeT)
    requires position < PosMod && p < PosMod
    ensures Make(position, side).Pos() == position && Make(position, side).Side() == side
    ensures Make(position, side).SetPos(p).Pos() == p
    ensures Make(position, side).SetPos(p).Side() == side
  {
  }

  /**
   * The `side(b)` setter as written loses the position: the entry for
   * block 3 with side false, given side true, reads back position 0;
   * the intended setter keeps position 3.
   */
  lemma SideSetterLosesPosition()
    ensures Make(3, false).SetSideAsWritten(true).Pos() == 0
    ensures Make(3, false).SetSide(true).Pos() == 3
    ensures Make(3, false).SetSide(true) == Make(3, true)
  {
  }

  /** The intended side setter and the position setter act on separate parts of the entry. */
  lemma SettersCommute(b: BlockPos, p: SizeT, s: bool)
    ensures b.SetPos(p).SetSide(s) == b.SetSide(s).SetPos(p)
    ensures b.SetPos(p).SetSide(s) == Make(p, s)
  {
  }
}
