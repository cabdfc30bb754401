/**
 * Bit lengths of unbounded naturals, for the level computations of the
 * merge sorts, which apply `NBits` to a size. Those computations use
 * `BitLength` directly. The word-level `NBits` of util/algorithm.hpp is
 * modelled separately in `BitAlgorithm`, where it is proved to return
 * the bit length of a `bv64` word (`IsBitLength64`); no lemma here
 * converts between that word-level statement and `BitLength`.
 */
module BitCount {
  /** 2 to the `k`. */
  function Pow2(k: nat): (p: nat)
    ensures p >= 1
  {
    if k == 0 then 1 else 2 * Pow2(k - 1)
  }

  /**
   * The number of bits needed to write `m`: 0 for 0, otherwise the `k` with
   * `2^(k-1) <= m < 2^k`.
   */
  function BitLength(m: nat): (k: nat)
    ensures m == 0 ==> k == 0
    ensures m > 0 ==> k >= 1 && Pow2(k - 1) <= m < Pow2(k)
  {
    if m == 0 then 0 else 1 + BitLength(m / 2)
  }
}
