/**
 * util/metaprog.hpp, first half: bit masks and the binary search for the
 * most significant one bit (the constant tables are in `MetaprogTables`). Machine words are `bv32`/`bv64` and bit positions
 * are `bv32` words (the source's `int Pos`), so every shift and mask is the
 * source's own.
 *
 * `MS1B_32<NBits>` and `MS1B_64<NBits>` are templates on the window width;
 * each instantiation the search goes through (16, 8, 4, 2, 1, 0 and
 * 32, 16, ..., 0) is one function here, calling the next as the template
 * does. Each instance promises that, when the highest set bit of `N` lies
 * in its window `[Pos, Pos + 2 * NBits)`, it returns that bit's index.
 */
module Metaprog
{
  /**
   * The highest set bit of `n` lies in `[pos, pos + span)`: some bit from
   * `pos` up is set and none from `pos + span` up, and the window fits in
   * the word.
   */
  predicate InWindow32(n: bv32, pos: bv32, span: bv32)
  {
    span <= 32 && pos <= 32 - span &&
    n >> pos != 0 && (pos == 32 - span || n >> (pos + span) == 0)
  }

  predicate InWindow64(n: bv64, pos: bv32, span: bv32)
  {
    span <= 64 && pos <= 64 - span &&
    n >> pos != 0 && (pos == 64 - span || n >> (pos + span) == 0)
  }

  /** `p` is the index of the highest set bit of `n`: `2^p <= n < 2^(p+1)`. */
  predicate HighestBit32(n: bv32, p: bv32)
  {
    p < 32 && InWindow32(n, p, 1)
  }

  predicate HighestBit64(n: bv64, p: bv32)
  {
    p < 64 && InWindow64(n, p, 1)
  }

  /** A word has one highest set bit. */
  lemma HighestBitUnique32(n: bv32, p: bv32, q: bv32)
    requires HighestBit32(n, p) && HighestBit32(n, q)
    ensures p == q
  {
  }

  lemma HighestBitUnique64(n: bv64, p: bv32, q: bv32)
    requires HighestBit64(n, p) && HighestBit64(n, q)
    ensures p == q
  {
  }

  /** `k` is the index of the lowest set bit of `v`: bit `k` is set and every bit below it is clear. */
  predicate LowestBit32(v: bv32, k: bv32)
  {
    k < 32 && (v >> k) & 1 == 1 && v << (32 - k) == 0
  }

  predicate LowestBit64(v: bv64, k: bv32)
  {
    k < 64 && (v >> k) & 1 == 1 && v << (64 - k) == 0
  }

  /** `k` is the number of significant bits of `v`: 0 for 0, otherwise one more than its highest set bit. */
  predicate IsBitLength32(v: bv32, k: bv32)
  {
    if v == 0 then k == 0 else 1 <= k <= 32 && HighestBit32(v, k - 1)
  }

  predicate IsBitLength64(v: bv64, k: bv32)
  {
    if v == 0 then k == 0 else 1 <= k <= 64 && HighestBit64(v, k - 1)
  }

  /** `MASK_32(NBits)`: the low `NBits` bits set and no other. */
  function Mask32(n: bv32): (r: bv32)
    requires n < 32
  {
    (1 << n) - 1
  }

  /** `MASK_32(NBits)` is `2^NBits - 1`: nothing from bit `NBits` up, and one less than `2^NBits`. */
  lemma Mask32IsLowBits(n: bv32)
    requires n < 32
    ensures Mask32(n) >> n == 0 && Mask32(n) + 1 == 1 << n
  {
  }

  /** `MASK_64(NBits)`: the low `NBits` bits set and no other. */
  function Mask64(n: bv64): (r: bv64)
    requires n < 64
  {
    (1 << n) - 1
  }

  /** `MASK_64(NBits)` is `2^NBits - 1`: nothing from bit `NBits` up, and one less than `2^NBits`. */
  lemma Mask64IsLowBits(n: bv64)
    requires n < 64
    ensures Mask64(n) >> n == 0 && Mask64(n) + 1 == 1 << n
  {
  }

  /** `MS1B_32<16>(N, 0)`: the search starts with the whole word as its window. */
  function Ms1b32At16(n: bv32): (p: bv32)
    ensures n != 0 ==> HighestBit32(n, p)
  {
    Halve32At16(n);
    if n & !Mask32(16) == 0 then Ms1b32At8(n, 0) else Ms1b32At8(n, 16)
  }

  lemma Halve32At16(n: bv32)
    ensures n != 0 && n & !Mask32(16) == 0 ==> InWindow32(n, 0, 16)
    ensures n & !Mask32(16) != 0 ==> InWindow32(n, 16, 16)
  {
  }

  /** `MS1B_32<8>(N, Pos)`. */
  function Ms1b32At8(n: bv32, pos: bv32): (p: bv32)
    requires pos <= 16
    ensures InWindow32(n, pos, 16) ==> HighestBit32(n, p)
  {
    SplitWindow32At8(n, pos);
    if (n >> pos) & !Mask32(8) == 0 then Ms1b32At4(n, pos) else Ms1b32At4(n, pos + 8)
  }

  lemma SplitWindow32At8(n: bv32, pos: bv32)
    requires pos <= 16
    ensures InWindow32(n, pos, 16) && (n >> pos) & !Mask32(8) == 0 ==> InWindow32(n, pos, 8)
    ensures InWindow32(n, pos, 16) && (n >> pos) & !Mask32(8) != 0 ==> InWindow32(n, pos + 8, 8)
  {
    if InWindow32(n, pos, 16) {
      Halve32At8(n, pos);
      if (n >> pos) & !Mask32(8) == 0 {
        assert InWindow32(n, pos, 8);
      } else {
        assert InWindow32(n, pos + 8, 8);
      }
    }
  }

  lemma Halve32At8(n: bv32, pos: bv32)
    requires pos <= 16 && InWindow32(n, pos, 16)
    ensures (n >> pos) & !Mask32(8) == 0 ==> InWindow32(n, pos, 8)
    ensures (n >> pos) & !Mask32(8) != 0 ==> InWindow32(n, pos + 8, 8)
  {
  }

  /** `MS1B_32<4>(N, Pos)`. */
  function Ms1b32At4(n: bv32, pos: bv32): (p: bv32)
    requires pos <= 24
    ensures InWindow32(n, pos, 8) ==> HighestBit32(n, p)
  {
    SplitWindow32At4(n, pos);
    if (n >> pos) & !Mask32(4) == 0 then Ms1b32At2(n, pos) else Ms1b32At2(n, pos + 4)
  }

  lemma SplitWindow32At4(n: bv32, pos: bv32)
    requires pos <= 24
    ensures InWindow32(n, pos, 8) && (n >> pos) & !Mask32(4) == 0 ==> InWindow32(n, pos, 4)
    ensures InWindow32(n, pos, 8) && (n >> pos) & !Mask32(4) != 0 ==> InWindow32(n, pos + 4, 4)
  {
    if InWindow32(n, pos, 8) {
      Halve32At4(n, pos);
      if (n >> pos) & !Mask32(4) == 0 {
        assert InWindow32(n, pos, 4);
      } else {
        assert InWindow32(n, pos + 4, 4);
      }
    }
  }

  lemma Halve32At4(n: bv32, pos: bv32)
    requires pos <= 24 && InWindow32(n, pos, 8)
    ensures (n >> pos) & !Mask32(4) == 0 ==> InWindow32(n, pos, 4)
    ensures (n >> pos) & !Mask32(4) != 0 ==> InWindow32(n, pos + 4, 4)
  {
  }

  /** `MS1B_32<2>(N, Pos)`. */
  function Ms1b32At2(n: bv32, pos: bv32): (p: bv32)
    requires pos <= 28
    ensures InWindow32(n, pos, 4) ==> HighestBit32(n, p)
  {
    SplitWindow32At2(n, pos);
    if (n >> pos) & !Mask32(2) == 0 then Ms1b32At1(n, pos) else Ms1b32At1(n, pos + 2)
  }

  lemma SplitWindow32At2(n: bv32, pos: bv32)
    requires pos <= 28
    ensures InWindow32(n, pos, 4) && (n >> pos) & !Mask32(2) == 0 ==> InWindow32(n, pos, 2)
    ensures InWindow32(n, pos, 4) && (n >> pos) & !Mask32(2) != 0 ==> InWindow32(n, pos + 2, 2)
  {
    if InWindow32(n, pos, 4) {
      Halve32At2(n, pos);
      if (n >> pos) & !Mask32(2) == 0 {
        assert InWindow32(n, pos, 2);
      } else {
        assert InWindow32(n, pos + 2, 2);
      }
    }
  }

  lemma Halve32At2(n: bv32, pos: bv32)
    requires pos <= 28 && InWindow32(n, pos, 4)
    ensures (n >> pos) & !Mask32(2) == 0 ==> InWindow32(n, pos, 2)
    ensures (n >> pos) & !Mask32(2) != 0 ==> InWindow32(n, pos + 2, 2)
  {
  }

  /** `MS1B_32<1>(N, Pos)`. */
  function Ms1b32At1(n: bv32, pos: bv32): (p: bv32)
    requires pos <= 30
    ensures InWindow32(n, pos, 2) ==> HighestBit32(n, p)
  {
    SplitWindow32At1(n, pos);
    if (n >> pos) & !Mask32(1) == 0 then Ms1b32At0(n, pos) else Ms1b32At0(n, pos + 1)
  }

  lemma SplitWindow32At1(n: bv32, pos: bv32)
    requires pos <= 30
    ensures InWindow32(n, pos, 2) && (n >> pos) & !Mask32(1) == 0 ==> InWindow32(n, pos, 1)
    ensures InWindow32(n, pos, 2) && (n >> pos) & !Mask32(1) != 0 ==> InWindow32(n, pos + 1, 1)
  {
    if InWindow32(n, pos, 2) {
      Halve32At1(n, pos);
      if (n >> pos) & !Mask32(1) == 0 {
        assert InWindow32(n, pos, 1);
      } else {
        assert InWindow32(n, pos + 1, 1);
      }
    }
  }

  lemma Halve32At1(n: bv32, pos: bv32)
    requires pos <= 30 && InWindow32(n, pos, 2)
    ensures (n >> pos) & !Mask32(1) == 0 ==> InWindow32(n, pos, 1)
    ensures (n >> pos) & !Mask32(1) != 0 ==> InWindow32(n, pos + 1, 1)
  {
  }

  /** `MS1B_32<0>(N, Pos)`: the window is one bit wide and `Pos` is the answer. */
  function Ms1b32At0(n: bv32, pos: bv32): bv32
  {
    pos
  }

  /** `MS1B_64<32>(N, 0)`: the search starts with the whole word as its window. */
  function Ms1b64At32(n: bv64): (p: bv32)
    ensures n != 0 ==> HighestBit64(n, p)
  {
    Halve64At32(n);
    if n & !Mask64(32) == 0 then Ms1b64At16(n, 0) else Ms1b64At16(n, 32)
  }

  lemma Halve64At32(n: bv64)
    ensures n != 0 && n & !Mask64(32) == 0 ==> InWindow64(n, 0, 32)
    ensures n & !Mask64(32) != 0 ==> InWindow64(n, 32, 32)
  {
  }

  /** `MS1B_64<16>(N, Pos)`. */
  function Ms1b64At16(n: bv64, pos: bv32): (p: bv32)
    requires pos <= 32
    ensures InWindow64(n, pos, 32) ==> HighestBit64(n, p)
  {
    SplitWindow64At16(n, pos);
    if (n >> pos) & !Mask64(16) == 0 then Ms1b64At8(n, pos) else Ms1b64At8(n, pos + 16)
  }

  lemma SplitWindow64At16(n: bv64, pos: bv32)
    requires pos <= 32
    ensures InWindow64(n, pos, 32) && (n >> pos) & !Mask64(16) == 0 ==> InWindow64(n, pos, 16)
    ensures InWindow64(n, pos, 32) && (n >> pos) & !Mask64(16) != 0 ==> InWindow64(n, pos + 16, 16)
  {
    if InWindow64(n, pos, 32) {
      Halve64At16(n, pos);
      if (n >> pos) & !Mask64(16) == 0 {
        assert InWindow64(n, pos, 16);
      } else {
        assert InWindow64(n, pos + 16, 16);
      }
    }
  }

  lemma Halve64At16(n: bv64, pos: bv32)
    requires pos <= 32 && InWindow64(n, pos, 32)
    ensures (n >> pos) & !Mask64(16) == 0 ==> InWindow64(n, pos, 16)
    ensures (n >> pos) & !Mask64(16) != 0 ==> InWindow64(n, pos + 16, 16)
  {
  }

  /** `MS1B_64<8>(N, Pos)`. */
  function Ms1b64At8(n: bv64, pos: bv32): (p: bv32)
    requires pos <= 48
    ensures InWindow64(n, pos, 16) ==> HighestBit64(n, p)
  {
    SplitWindow64At8(n, pos);
    if (n >> pos) & !Mask64(8) == 0 then Ms1b64At4(n, pos) else Ms1b64At4(n, pos + 8)
  }

  lemma SplitWindow64At8(n: bv64, pos: bv32)
    requires pos <= 48
    ensures InWindow64(n, pos, 16) && (n >> pos) & !Mask64(8) == 0 ==> InWindow64(n, pos, 8)
    ensures InWindow64(n, pos, 16) && (n >> pos) & !Mask64(8) != 0 ==> InWindow64(n, pos + 8, 8)
  {
    if InWindow64(n, pos, 16) {
      Halve64At8(n, pos);
      if (n >> pos) & !Mask64(8) == 0 {
        assert InWindow64(n, pos, 8);
      } else {
        assert InWindow64(n, pos + 8, 8);
      }
    }
  }

  lemma Halve64At8(n: bv64, pos: bv32)
    requires pos <= 48 && InWindow64(n, pos, 16)
    ensures (n >> pos) & !Mask64(8) == 0 ==> InWindow64(n, pos, 8)
    ensures (n >> pos) & !Mask64(8) != 0 ==> InWindow64(n, pos + 8, 8)
  {
  }

  /** `MS1B_64<4>(N, Pos)`. */
  function Ms1b64At4(n: bv64, pos: bv32): (p: bv32)
    requires pos <= 56
    ensures InWindow64(n, pos, 8) ==> HighestBit64(n, p)
  {
    SplitWindow64At4(n, pos);
    if (n >> pos) & !Mask64(4) == 0 then Ms1b64At2(n, pos) else Ms1b64At2(n, pos + 4)
  }

  lemma SplitWindow64At4(n: bv64, pos: bv32)
    requires pos <= 56
    ensures InWindow64(n, pos, 8) && (n >> pos) & !Mask64(4) == 0 ==> InWindow64(n, pos, 4)
    ensures InWindow64(n, pos, 8) && (n >> pos) & !Mask64(4) != 0 ==> InWindow64(n, pos + 4, 4)
  {
    if InWindow64(n, pos, 8) {
      Halve64At4(n, pos);
      if (n >> pos) & !Mask64(4) == 0 {
        assert InWindow64(n, pos, 4);
      } else {
        assert InWindow64(n, pos + 4, 4);
      }
    }
  }

  lemma Halve64At4(n: bv64, pos: bv32)
    requires pos <= 56 && InWindow64(n, pos, 8)
    ensures (n >> pos) & !Mask64(4) == 0 ==> InWindow64(n, pos, 4)
    ensures (n >> pos) & !Mask64(4) != 0 ==> InWindow64(n, pos + 4, 4)
  {
  }

  /** `MS1B_64<2>(N, Pos)`. */
  function Ms1b64At2(n: bv64, pos: bv32): (p: bv32)
    requires pos <= 60
    ensures InWindow64(n, pos, 4) ==> HighestBit64(n, p)
  {
    SplitWindow64At2(n, pos);
    if (n >> pos) & !Mask64(2) == 0 then Ms1b64At1(n, pos) else Ms1b64At1(n, pos + 2)
  }

  lemma SplitWindow64At2(n: bv64, pos: bv32)
    requires pos <= 60
    ensures InWindow64(n, pos, 4) && (n >> pos) & !Mask64(2) == 0 ==> InWindow64(n, pos, 2)
    ensures InWindow64(n, pos, 4) && (n >> pos) & !Mask64(2) != 0 ==> InWindow64(n, pos + 2, 2)
  {
    if InWindow64(n, pos, 4) {
      Halve64At2(n, pos);
      if (n >> pos) & !Mask64(2) == 0 {
        assert InWindow64(n, pos, 2);
      } else {
        assert InWindow64(n, pos + 2, 2);
      }
    }
  }

  lemma Halve64At2(n: bv64, pos: bv32)
    requires pos <= 60 && InWindow64(n, pos, 4)
    ensures (n >> pos) & !Mask64(2) == 0 ==> InWindow64(n, pos, 2)
    ensures (n >> pos) & !Mask64(2) != 0 ==> InWindow64(n, pos + 2, 2)
  {
  }

  /** `MS1B_64<1>(N, Pos)`. */
  function Ms1b64At1(n: bv64, pos: bv32): (p: bv32)
    requires pos <= 62
    ensures InWindow64(n, pos, 2) ==> HighestBit64(n, p)
  {
    SplitWindow64At1(n, pos);
    if (n >> pos) & !Mask64(1) == 0 then Ms1b64At0(n, pos) else Ms1b64At0(n, pos + 1)
  }

  lemma SplitWindow64At1(n: bv64, pos: bv32)
    requires pos <= 62
    ensures InWindow64(n, pos, 2) && (n >> pos) & !Mask64(1) == 0 ==> InWindow64(n, pos, 1)
    ensures InWindow64(n, pos, 2) && (n >> pos) & !Mask64(1) != 0 ==> InWindow64(n, pos + 1, 1)
  {
    if InWindow64(n, pos, 2) {
      Halve64At1(n, pos);
      if (n >> pos) & !Mask64(1) == 0 {
        assert InWindow64(n, pos, 1);
      } else {
        assert InWindow64(n, pos + 1, 1);
      }
    }
  }

  lemma Halve64At1(n: bv64, pos: bv32)
    requires pos <= 62 && InWindow64(n, pos, 2)
    ensures (n >> pos) & !Mask64(1) == 0 ==> InWindow64(n, pos, 1)
    ensures (n >> pos) & !Mask64(1) != 0 ==> InWindow64(n, pos + 1, 1)
  {
  }

  /** `MS1B_64<0>(N, Pos)`: the window is one bit wide and `Pos` is the answer. */
  function Ms1b64At0(n: bv64, pos: bv32): bv32
  {
    pos
  }
}
