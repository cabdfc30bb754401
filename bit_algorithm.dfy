/**
 * util/algorithm.hpp: the word-level helpers of `cnf<4>` (32-bit words) and
 * `cnf<8>` (64-bit words): the most significant one bit (`MS1B`), the de
 * Bruijn scan for the least significant one bit (`BitScanForward`, alias
 * `LS1B`), the bit length (`NBits`) and `BitScanReverse`. Words are
 * `bv32`/`bv64`; results the source returns as `int` or `uint32_t` are
 * `bv32` words.
 */
module BitAlgorithm
{
  import opened Metaprog
  import opened MetaprogTables

  /** `MAX32`: the all-ones 32-bit word. */
  const MAX32: bv32 := 0xFFFF_FFFF

  /** `cnf<4>::MS1B`: the index of the highest set bit of `n`; 0 for 0, as for 1. */
  function MS1B32(n: bv32): (p: bv32)
    ensures n != 0 ==> HighestBit32(n, p)
    ensures n == 0 ==> p == 0
  {
    Ms1b32At16(n)
  }

  /** `cnf<8>::MS1B`: the index of the highest set bit of `n`; 0 for 0, as for 1. */
  function MS1B64(n: bv64): (p: bv32)
    ensures n != 0 ==> HighestBit64(n, p)
    ensures n == 0 ==> p == 0
  {
    Ms1b64At32(n)
  }

  /** `V & (~V + 1)`: the lowest set bit of `v`, alone. */
  function Isolate32(v: bv32): bv32
  {
    v & (!v + 1)
  }

  function Isolate64(v: bv64): bv64
  {
    v & (!v + 1)
  }

  /** `cnf<4>::BitScanForward`: the de Bruijn lookup of the isolated lowest bit. */
  function BitScanForward32(v: bv32): bv32
  {
    DeBruijn32[Hash32(Isolate32(v))]
  }

  /** `cnf<8>::BitScanForward`: the de Bruijn lookup of the isolated lowest bit. */
  function BitScanForward64(v: bv64): bv32
  {
    DeBruijn64[Hash64(Isolate64(v))]
  }

  /** When the highest bit of `V & (~V + 1)` is `k`, that word is `2^k` and `k` is the lowest set bit of `V`. */
  lemma IsolateIsLowest32(v: bv32, k: bv32)
    requires v != 0 && HighestBit32(Isolate32(v), k)
    ensures LowestBit32(v, k) && Isolate32(v) == Power32(k)
  {
  }

  lemma IsolateIsLowest64(v: bv64, k: bv32)
    requires v != 0 && HighestBit64(Isolate64(v), k)
    ensures LowestBit64(v, k) && Isolate64(v) == Power64(k)
  {
  }

  /** `LS1B_32(V)` for `V != 0` is the index of the lowest set bit; on 0 the table's first entry, 0. */
  lemma BitScanForward32IsLowest(v: bv32)
    ensures v != 0 ==> LowestBit32(v, BitScanForward32(v))
    ensures v == 0 ==> BitScanForward32(v) == 0
  {
    if v != 0 {
      ScanFinds32(v, MS1B32(Isolate32(v)));
    }
  }

  /** The scan hashes `V & (~V + 1) == 2^k` to the slot of `k`, where the table holds `k`. */
  lemma ScanFinds32(v: bv32, k: bv32)
    requires v != 0 && HighestBit32(Isolate32(v), k)
    ensures LowestBit32(v, k) && BitScanForward32(v) == k
  {
    IsolateIsLowest32(v, k);
    DeBruijn32Inverts(k);
  }

  /** `LS1B_64(V)` for `V != 0` is the index of the lowest set bit; on 0 the table's first entry, 63. */
  lemma BitScanForward64IsLowest(v: bv64)
    ensures v != 0 ==> LowestBit64(v, BitScanForward64(v))
    ensures v == 0 ==> BitScanForward64(v) == 63
  {
    if v != 0 {
      ScanFinds64(v, MS1B64(Isolate64(v)));
    }
  }

  lemma ScanFinds64(v: bv64, k: bv32)
    requires v != 0 && HighestBit64(Isolate64(v), k)
    ensures LowestBit64(v, k) && BitScanForward64(v) == k
  {
    IsolateIsLowest64(v, k);
    DeBruijn64Inverts(k);
  }

  /** The shift `cnf<4>::NBits` applies: 16 when the high half is non-zero, then 8 more when the next byte down is. */
  function NBitsShift32(n: bv32): bv32
  {
    var pos: bv32 := if n & 0xffff_0000 != 0 then 16 else 0;
    if (n >> pos) & 0xff00 != 0 then pos + 8 else pos
  }

  /** The shift leaves a byte, which is non-zero unless nothing was shifted. */
  lemma NBitsShift32Leaves(n: bv32)
    ensures NBitsShift32(n) == 0 || NBitsShift32(n) == 8 || NBitsShift32(n) == 16 || NBitsShift32(n) == 24
    ensures n >> NBitsShift32(n) < 256
    ensures NBitsShift32(n) != 0 ==> n >> NBitsShift32(n) != 0
  {
  }

  /** `cnf<4>::NBits`: `TMSB[N >> Pos] + Pos`. */
  function NBits32(n: bv32): (r: bv32)
    ensures IsBitLength32(n, r)
  {
    var pos := NBitsShift32(n);
    NBitsShift32Leaves(n);
    NBitsFromByte32(n, pos, n >> pos);
    Tmsb(n >> pos) + pos
  }

  /** The table entry for the byte `N >> Pos`, plus `Pos`, is the bit length of `N`. */
  lemma NBitsFromByte32(n: bv32, pos: bv32, m: bv32)
    requires pos == 0 || pos == 8 || pos == 16 || pos == 24
    requires m == n >> pos && m < 256
    requires pos != 0 ==> m != 0
    ensures IsBitLength32(n, Tmsb(m) + pos)
  {
    TmsbIsBitLength(m);
    ShiftedBitLength32(n, pos, Tmsb(m));
  }

  /** A bit length `t` of `N >> Pos` is, `Pos` higher, the bit length of `N`, when the shift dropped only zeros or left a non-zero word. */
  lemma ShiftedBitLength32(n: bv32, pos: bv32, t: bv32)
    requires pos == 0 || pos == 8 || pos == 16 || pos == 24
    requires t <= 8 && IsBitLength32(n >> pos, t)
    requires pos != 0 ==> n >> pos != 0
    ensures IsBitLength32(n, t + pos)
  {
    if pos == 8 {
      ShiftedBitLength32By8(n, pos, t);
    } else if pos == 16 {
      ShiftedBitLength32By16(n, pos, t);
    } else if pos == 24 {
      ShiftedBitLength32By24(n, pos, t);
    }
  }

  lemma ShiftedBitLength32By8(n: bv32, pos: bv32, t: bv32)
    requires pos == 8 && t <= 8 && n >> pos != 0 && IsBitLength32(n >> pos, t)
    ensures IsBitLength32(n, t + pos)
  {
  }

  lemma ShiftedBitLength32By16(n: bv32, pos: bv32, t: bv32)
    requires pos == 16 && t <= 8 && n >> pos != 0 && IsBitLength32(n >> pos, t)
    ensures IsBitLength32(n, t + pos)
  {
  }

  lemma ShiftedBitLength32By24(n: bv32, pos: bv32, t: bv32)
    requires pos == 24 && t <= 8 && n >> pos != 0 && IsBitLength32(n >> pos, t)
    ensures IsBitLength32(n, t + pos)
  {
  }

  /** `cnf<4>::BitScanReverse`: `MAX32` for 0, otherwise `NBits(N) - 1`. */
  function BitScanReverse32(n: bv32): bv32
  {
    var nb := NBits32(n);
    if nb == 0 then MAX32 else nb - 1
  }

  /** `BitScanReverse(N)` is the index of the highest set bit of `N != 0`, so it agrees with `MS1B`; on 0 it is `MAX32`. */
  lemma BitScanReverse32IsHighest(n: bv32)
    ensures n != 0 ==> HighestBit32(n, BitScanReverse32(n)) && BitScanReverse32(n) == MS1B32(n)
    ensures n == 0 ==> BitScanReverse32(n) == MAX32
  {
    if n != 0 {
      HighestBitUnique32(n, BitScanReverse32(n), MS1B32(n));
    }
  }

  /** The shift `cnf<8>::NBits` applies: 32 when the high half is non-zero, then 16 and 8 more as the next half-word and byte down are. */
  function NBitsShift64(n: bv64): bv32
  {
    var p32: bv32 := if n & 0xffff_ffff_0000_0000 != 0 then 32 else 0;
    var p16: bv32 := if (n >> p32) & 0xffff_0000 != 0 then p32 + 16 else p32;
    if (n >> p16) & 0xff00 != 0 then p16 + 8 else p16
  }

  /** The shift is a whole number of bytes and leaves one byte, which is non-zero unless nothing was shifted. */
  lemma NBitsShift64Leaves(n: bv64)
    ensures NBitsShift64(n) == 0 || NBitsShift64(n) == 8 || NBitsShift64(n) == 16 || NBitsShift64(n) == 24 || NBitsShift64(n) == 32 || NBitsShift64(n) == 40 || NBitsShift64(n) == 48 || NBitsShift64(n) == 56
    ensures n >> NBitsShift64(n) < 256
    ensures NBitsShift64(n) != 0 ==> n >> NBitsShift64(n) != 0
  {
  }

  /** `cnf<8>::NBits`: `TMSB[N >> Pos] + Pos`. */
  function NBits64(n: bv64): (r: bv32)
    ensures IsBitLength64(n, r)
  {
    var pos := NBitsShift64(n);
    NBitsShift64Leaves(n);
    var m := n >> pos;
    NBitsFromByte64(n, pos, m);
    Tmsb(m as bv32) + pos
  }

  /** The table entry for the byte `N >> Pos`, plus `Pos`, is the bit length of the 64-bit `N`. */
  lemma NBitsFromByte64(n: bv64, pos: bv32, m: bv64)
    requires pos == 0 || pos == 8 || pos == 16 || pos == 24 || pos == 32 || pos == 40 || pos == 48 || pos == 56
    requires m == n >> pos && m < 256
    requires pos != 0 ==> m != 0
    ensures IsBitLength64(n, Tmsb(m as bv32) + pos)
  {
    TmsbIsBitLength(m as bv32);
    ByteBitLength64(m, Tmsb(m as bv32));
    ShiftedBitLength64(n, pos, Tmsb(m as bv32));
  }

  /** A byte has the same bit length as a 64-bit word as it has as a 32-bit one. */
  lemma ByteBitLength64(b: bv64, t: bv32)
    requires b < 256 && t <= 8 && IsBitLength32(b as bv32, t)
    ensures IsBitLength64(b, t)
  {
  }

  /** A bit length `t` of `N >> Pos` is, `Pos` higher, the bit length of the 64-bit `N`, when the shift dropped only zeros or left a non-zero word. */
  lemma ShiftedBitLength64(n: bv64, pos: bv32, t: bv32)
    requires pos == 0 || pos == 8 || pos == 16 || pos == 24 || pos == 32 || pos == 40 || pos == 48 || pos == 56
    requires t <= 8 && IsBitLength64(n >> pos, t)
    requires pos != 0 ==> n >> pos != 0
    ensures IsBitLength64(n, t + pos)
  {
    if pos == 8 {
      ShiftedBitLength64By8(n, pos, t);
    } else if pos == 16 {
      ShiftedBitLength64By16(n, pos, t);
    } else if pos == 24 {
      ShiftedBitLength64By24(n, pos, t);
    } else if pos == 32 {
      ShiftedBitLength64By32(n, pos, t);
    } else if pos == 40 {
      ShiftedBitLength64By40(n, pos, t);
    } else if pos == 48 {
      ShiftedBitLength64By48(n, pos, t);
    } else if pos == 56 {
      ShiftedBitLength64By56(n, pos, t);
    }
  }

  lemma ShiftedBitLength64By8(n: bv64, pos: bv32, t: bv32)
    requires pos == 8 && t <= 8 && n >> pos != 0 && IsBitLength64(n >> pos, t)
    ensures IsBitLength64(n, t + pos)
  {
  }

  lemma ShiftedBitLength64By16(n: bv64, pos: bv32, t: bv32)
    requires pos == 16 && t <= 8 && n >> pos != 0 && IsBitLength64(n >> pos, t)
    ensures IsBitLength64(n, t + pos)
  {
  }

  lemma ShiftedBitLength64By24(n: bv64, pos: bv32, t: bv32)
    requires pos == 24 && t <= 8 && n >> pos != 0 && IsBitLength64(n >> pos, t)
    ensures IsBitLength64(n, t + pos)
  {
  }

  lemma ShiftedBitLength64By32(n: bv64, pos: bv32, t: bv32)
    requires pos == 32 && t <= 8 && n >> pos != 0 && IsBitLength64(n >> pos, t)
    ensures IsBitLength64(n, t + pos)
  {
  }

  lemma ShiftedBitLength64By40(n: bv64, pos: bv32, t: bv32)
    requires pos == 40 && t <= 8 && n >> pos != 0 && IsBitLength64(n >> pos, t)
    ensures IsBitLength64(n, t + pos)
  {
  }

  lemma ShiftedBitLength64By48(n: bv64, pos: bv32, t: bv32)
    requires pos == 48 && t <= 8 && n >> pos != 0 && IsBitLength64(n >> pos, t)
    ensures IsBitLength64(n, t + pos)
  {
  }

  lemma ShiftedBitLength64By56(n: bv64, pos: bv32, t: bv32)
    requires pos == 56 && t <= 8 && n >> pos != 0 && IsBitLength64(n >> pos, t)
    ensures IsBitLength64(n, t + pos)
  {
  }

  /** `cnf<8>::BitScanReverse`: `MAX32` for 0, otherwise `NBits(N) - 1`. */
  function BitScanReverse64(n: bv64): bv32
  {
    var nb := NBits64(n);
    if nb == 0 then MAX32 else nb - 1
  }

  /** `BitScanReverse(N)` is the index of the highest set bit of the 64-bit `N != 0`, so it agrees with `MS1B`; on 0 it is `MAX32`. */
  lemma BitScanReverse64IsHighest(n: bv64)
    ensures n != 0 ==> HighestBit64(n, BitScanReverse64(n)) && BitScanReverse64(n) == MS1B64(n)
    ensures n == 0 ==> BitScanReverse64(n) == MAX32
  {
    if n != 0 {
      HighestBitUnique64(n, BitScanReverse64(n), MS1B64(n));
    }
  }
}
