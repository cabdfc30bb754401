/**
 * The small value types of the parallel drivers: the thread count
 * `NThread` (declared identically in tools/nthread.hpp and
 * util/atomic.hpp) and the iterator pairs `token` and `token_level` of
 * algorithm/token.hpp.
 *
 * Iterators are indices. `uint32_t`, `int32_t` and `size_t` are the
 * integer ranges of their widths, and the conversions between them are
 * written out modulo 2^32 or 2^64.
 */
module Threads {
  /** 2^32: `uint32_t` arithmetic is taken modulo this. */
  const UInt32Mod: int := 0x1_0000_0000

  /** 2^64: `size_t` arithmetic is taken modulo this. */
  const SizeMod: int := 0x1_0000_0000_0000_0000

  type UInt32 = x: int | 0 <= x < UInt32Mod

  type Int32 = x: int | -0x8000_0000 <= x < 0x8000_0000

  type SizeT = x: int | 0 <= x < SizeMod

  /**
   * The count an integer request stores: `(Nmb < 2) ? 1 : Nmb`. It is
   * never 0, and it is the request itself whenever the request is not 0.
   */
  function Clamp(n: UInt32): (c: UInt32)
    ensures c >= 1
    ensures c == n <==> n != 0
    ensures c != n ==> c == 1
  {
    if n < 2 then 1 else n
  }

  /**
   * A number of threads. The integer constructor and the integer
   * assignment clamp their argument to at least 1; the default
   * constructor stores the hardware count as it is, which the standard
   * library reports as 0 when it cannot tell.
   */
  class NThread {
    var numTh: UInt32

    /** `NThread()`: the hardware thread count, not clamped. */
    constructor Hardware(hw: UInt32)
      ensures numTh == hw
    {
      numTh := hw;
    }

    /**
     * The default constructor as the class comment evidently intends it:
     * the hardware count clamped like any other request, so a machine
     * that reports 0 threads still gets one.
     */
    constructor HardwareClamped(hw: UInt32)
      ensures numTh == Clamp(hw) && numTh >= 1
    {
      numTh := Clamp(hw);
    }

    /** `NThread(const NThread &)`: the count of `other`. */
    constructor Copy(other: NThread)
      ensures numTh == other.numTh
    {
      numTh := other.numTh;
    }

    /** `NThread(uint32_t)`: the clamped request. */
    constructor (n: UInt32)
      ensures numTh == Clamp(n)
    {
      numTh := Clamp(n);
    }

    /** `operator()`: the stored count. */
    function Count(): (c: UInt32)
      reads this
      ensures c == numTh
    {
      numTh
    }

    /** `operator=(const NThread &)`: takes the count of `other`. */
    method AssignFrom(other: NThread)
      modifies this
      ensures numTh == old(other.numTh)
    {
      numTh := other.numTh;
    }

    /** `operator=(uint32_t)`: stores the clamped request. */
    method Assign(n: UInt32)
      modifies this
      ensures numTh == Clamp(n) && Count() >= 1
    {
      numTh := Clamp(n);
    }
  }

  /**
   * Both ways of giving a count as an integer store at least one thread,
   * and the two agree; the default constructor stores whatever the
   * hardware reports, so it stores 0 exactly when the hardware count is 0.
   */
  method IntegerPathsNeverZero(n: UInt32, m: UInt32, hw: UInt32) returns (a: UInt32, b: UInt32, h: UInt32)
    ensures a >= 1 && b >= 1
    ensures a == b <==> Clamp(n) == Clamp(m)
    ensures h == 0 <==> hw == 0
    ensures h != Clamp(hw) <==> hw == 0
  {
    var t := new NThread(n);
    var u := new NThread(0);
    u.Assign(m);
    var w := new NThread.Hardware(hw);
    a := t.Count();
    b := u.Count();
    h := w.Count();
  }

  /**
   * With the corrected default constructor no path stores 0: it keeps a
   * non-zero hardware count and turns 0 into one thread.
   */
  method ClampedDefaultNeverZero(hw: UInt32) returns (h: UInt32)
    ensures h >= 1
    ensures h == hw <==> hw != 0
  {
    var w := new NThread.HardwareClamped(hw);
    h := w.Count();
  }

  /**
   * `token` and `token_level`: a pair of iterators, the second kind with
   * a recursion level. The level argument is an `int32_t` stored in a
   * `uint32_t` field.
   */
  datatype Token =
    | Token(first: int, last: int)
    | TokenLevel(first: int, last: int, level: UInt32)
  {
    /** `valid()`: the pair does not run backwards. */
    predicate Valid() {
      last - first >= 0
    }

    /**
     * `size()`: `last - first` as a `size_t`, so a backwards pair
     * reads as a huge size.
     */
    function Size(): (n: SizeT)
      ensures (n - (last - first)) % SizeMod == 0
      ensures Valid() && last - first < SizeMod ==> n == last - first
      ensures !Valid() && first - last <= SizeMod ==> n == SizeMod - (first - last)
    {
      (last - first) % SizeMod
    }
  }

  /** `token_level(it_f, it_l, lv)`: the level is `lv` modulo 2^32. */
  function MakeTokenLevel(f: int, l: int, lv: Int32): (t: Token)
    ensures t.TokenLevel? && t.first == f && t.last == l
    ensures 0 <= lv ==> t.level == lv
    ensures lv < 0 ==> t.level == lv + UInt32Mod
  {
    TokenLevel(f, l, lv % UInt32Mod)
  }

  /** A `uint32_t` read back as `int32_t`. */
  function AsInt32(u: UInt32): (v: Int32)
    ensures (v - u) % UInt32Mod == 0
  {
    if u < 0x8000_0000 then u else u - UInt32Mod
  }

  /**
   * The level is stored without loss: read back as `int32_t` it is the
   * argument, although a negative level reads as a number of at least
   * 2^31 through the `uint32_t` field.
   */
  lemma LevelRoundTrip(f: int, l: int, lv: Int32)
    ensures AsInt32(MakeTokenLevel(f, l, lv).level) == lv
    ensures lv < 0 <==> MakeTokenLevel(f, l, lv).level >= 0x8000_0000
  {
  }

  /** A token keeps its iterators, and both kinds agree on validity and size. */
  lemma TokenKinds(f: int, l: int, lv: Int32)
    ensures Token(f, l).Valid() == MakeTokenLevel(f, l, lv).Valid()
    ensures Token(f, l).Size() == MakeTokenLevel(f, l, lv).Size()
  {
  }
}
