/**
 * util/metaprog.hpp, second half: the constant tables `DeBruijn_32`,
 * `DeBruijn_64` and `TMSB`, and what each table is for: a de Bruijn table
 * maps the slot a power of two hashes to back to its exponent, and `TMSB`
 * gives the bit length of a byte.
 */
module MetaprogTables
{
  import opened Metaprog

  /** `DeBruijn_32`, indexed by the top five bits of `2^k * 0x077CB531`. */
  const DeBruijn32: seq<bv32> :=
    [0, 1, 28, 2, 29, 14, 24, 3, 30, 22, 20, 15, 25, 17, 4, 8,
     31, 27, 13, 23, 21, 19, 16, 7, 26, 12, 18, 6, 11, 5, 10, 9]

  /** `DeBruijn_64`, indexed by the top six bits of `2^k * 0x07EDD5E59A4E28C2`. */
  const DeBruijn64: seq<bv32> :=
    [63, 0, 58, 1, 59, 47, 53, 2]
    + [60, 39, 48, 27, 54, 33, 42, 3]
    + [61, 51, 37, 40, 49, 18, 28, 20]
    + [55, 30, 34, 11, 43, 14, 22, 4]
    + [62, 57, 46, 52, 38, 26, 32, 41]
    + [50, 36, 17, 19, 29, 10, 13, 21]
    + [56, 45, 25, 31, 35, 16, 9, 12]
    + [44, 24, 15, 8, 23, 7, 6, 5]

  /** `TMSB`: the number of significant bits of each byte value. */
  const TMSB: seq<bv32> :=
    (((([0, 1, 2, 2, 3, 3, 3, 3, 4, 4, 4, 4, 4, 4, 4, 4]
     + [5, 5, 5, 5, 5, 5, 5, 5, 5, 5, 5, 5, 5, 5, 5, 5])
     + ([6, 6, 6, 6, 6, 6, 6, 6, 6, 6, 6, 6, 6, 6, 6, 6]
     + [6, 6, 6, 6, 6, 6, 6, 6, 6, 6, 6, 6, 6, 6, 6, 6]))
     + (([7, 7, 7, 7, 7, 7, 7, 7, 7, 7, 7, 7, 7, 7, 7, 7]
     + [7, 7, 7, 7, 7, 7, 7, 7, 7, 7, 7, 7, 7, 7, 7, 7])
     + ([7, 7, 7, 7, 7, 7, 7, 7, 7, 7, 7, 7, 7, 7, 7, 7]
     + [7, 7, 7, 7, 7, 7, 7, 7, 7, 7, 7, 7, 7, 7, 7, 7])))
     + ((([8, 8, 8, 8, 8, 8, 8, 8, 8, 8, 8, 8, 8, 8, 8, 8]
     + [8, 8, 8, 8, 8, 8, 8, 8, 8, 8, 8, 8, 8, 8, 8, 8])
     + ([8, 8, 8, 8, 8, 8, 8, 8, 8, 8, 8, 8, 8, 8, 8, 8]
     + [8, 8, 8, 8, 8, 8, 8, 8, 8, 8, 8, 8, 8, 8, 8, 8]))
     + (([8, 8, 8, 8, 8, 8, 8, 8, 8, 8, 8, 8, 8, 8, 8, 8]
     + [8, 8, 8, 8, 8, 8, 8, 8, 8, 8, 8, 8, 8, 8, 8, 8])
     + ([8, 8, 8, 8, 8, 8, 8, 8, 8, 8, 8, 8, 8, 8, 8, 8]
     + [8, 8, 8, 8, 8, 8, 8, 8, 8, 8, 8, 8, 8, 8, 8, 8]))))

  /** `TMSB[m]` for a byte value `m`. */
  function Tmsb(m: bv32): bv32
    requires m < 256
  {
    TmsbSize();
    TMSB[m as int]
  }

  lemma TmsbSize()
    ensures |TMSB| == 256
  {
  }

  /** `2^k` as a 32-bit word. */
  function Power32(k: bv32): bv32
    requires k < 32
  {
    1 << k
  }

  /** `2^k` as a 64-bit word. */
  function Power64(k: bv32): bv64
    requires k < 64
  {
    1 << k
  }

  /** The de Bruijn hash of a 32-bit word: the top five bits of `X * 0x077CB531`. */
  function Hash32(x: bv32): (i: int)
    ensures 0 <= i < 32
  {
    ((x * 0x077CB531) >> 27) as int
  }

  /** The de Bruijn hash of a 64-bit word: the top six bits of `X * 0x07EDD5E59A4E28C2`. */
  function Hash64(x: bv64): (i: int)
    ensures 0 <= i < 64
  {
    ((x * 0x07EDD5E59A4E28C2) >> 58) as int
  }

  /** `DeBruijn_32[hash(2^k)] == k` for every `k < 32`. */
  lemma DeBruijn32Inverts(k: bv32)
    requires k < 32
    ensures DeBruijn32[Hash32(Power32(k))] == k
  {
    if k < 16 {
      DeBruijn32From0();
    } else {
      DeBruijn32From16();
    }
  }

  lemma DeBruijn32From0()
    ensures forall k: bv32 :: k < 16 ==> DeBruijn32[Hash32(Power32(k))] == k
  {
  }

  lemma DeBruijn32From16()
    ensures forall k: bv32 :: 16 <= k < 32 ==> DeBruijn32[Hash32(Power32(k))] == k
  {
  }

  /** `DeBruijn_64[hash(2^k)] == k` for every `k < 64`. */
  lemma DeBruijn64Inverts(k: bv32)
    requires k < 64
    ensures DeBruijn64[Hash64(Power64(k))] == k
  {
    if k < 16 {
      DeBruijn64From0();
    } else if k < 32 {
      DeBruijn64From16();
    } else if k < 48 {
      DeBruijn64From32();
    } else {
      DeBruijn64From48();
    }
  }

  lemma DeBruijn64From0()
    ensures forall k: bv32 :: k < 16 ==> DeBruijn64[Hash64(Power64(k))] == k
  {
  }

  lemma DeBruijn64From16()
    ensures forall k: bv32 :: 16 <= k < 32 ==> DeBruijn64[Hash64(Power64(k))] == k
  {
  }

  lemma DeBruijn64From32()
    ensures forall k: bv32 :: 32 <= k < 48 ==> DeBruijn64[Hash64(Power64(k))] == k
  {
  }

  lemma DeBruijn64From48()
    ensures forall k: bv32 :: 48 <= k < 64 ==> DeBruijn64[Hash64(Power64(k))] == k
  {
  }

  /** `TMSB[m]` is the bit length of `m`, for every byte value `m`. */
  lemma TmsbIsBitLength(m: bv32)
    requires m < 256
    ensures IsBitLength32(m, Tmsb(m)) && Tmsb(m) <= 8
  {
    if m < 32 {
      TmsbBelow32IsBitLength(m);
    } else {
      TmsbFrom32IsBitLength(m);
    }
  }

  lemma TmsbBelow32IsBitLength(m: bv32)
    requires m < 32
    ensures IsBitLength32(m, TMSB[m as int])
  {
    TmsbBelow32();
    if m == 0 {
    } else if m < 2 {
      BitLengthBand(1, 2, 1);
    } else if m < 4 {
      BitLengthBand(2, 4, 2);
    } else if m < 8 {
      BitLengthBand(4, 8, 3);
    } else if m < 16 {
      BitLengthBand(8, 16, 4);
    } else {
      BitLengthBand(16, 32, 5);
    }
  }

  lemma TmsbFrom32IsBitLength(m: bv32)
    requires 32 <= m < 256
    ensures IsBitLength32(m, TMSB[m as int])
  {
    if m < 64 {
      TmsbFrom32();
      BitLengthBand(32, 64, 6);
    } else if m < 128 {
      TmsbFrom64();
      TmsbFrom96();
      BitLengthBand(64, 128, 7);
    } else {
      TmsbFrom128();
      TmsbFrom160();
      TmsbFrom192();
      TmsbFrom224();
      BitLengthBand(128, 256, 8);
    }
  }

  /** The words of `[lo, hi)`, a band `[2^(k-1), 2^k)`, all have bit length `k`. */
  lemma BitLengthBand(lo: bv32, hi: bv32, k: bv32)
    requires (lo, hi, k) == (1, 2, 1) || (lo, hi, k) == (2, 4, 2) || (lo, hi, k) == (4, 8, 3) || (lo, hi, k) == (8, 16, 4) || (lo, hi, k) == (16, 32, 5) || (lo, hi, k) == (32, 64, 6) || (lo, hi, k) == (64, 128, 7) || (lo, hi, k) == (128, 256, 8)
    ensures forall m: bv32 :: lo <= m < hi ==> IsBitLength32(m, k)
  {
  }

  /** The entries of `TMSB` below 32: each band `[2^(k-1), 2^k)` holds `k`. */
  lemma TmsbBelow32()
    ensures TMSB[0] == 0 && TMSB[1] == 1 && TMSB[2] == TMSB[3] == 2
    ensures forall j :: 4 <= j < 8 ==> TMSB[j] == 3
    ensures forall j :: 8 <= j < 16 ==> TMSB[j] == 4
    ensures forall j :: 16 <= j < 32 ==> TMSB[j] == 5
  {
  }

  lemma TmsbFrom32()
    ensures forall j :: 32 <= j < 64 ==> TMSB[j] == 6
  {
  }

  lemma TmsbFrom64()
    ensures forall j :: 64 <= j < 96 ==> TMSB[j] == 7
  {
  }

  lemma TmsbFrom96()
    ensures forall j :: 96 <= j < 128 ==> TMSB[j] == 7
  {
  }

  lemma TmsbFrom128()
    ensures forall j :: 128 <= j < 160 ==> TMSB[j] == 8
  {
  }

  lemma TmsbFrom160()
    ensures forall j :: 160 <= j < 192 ==> TMSB[j] == 8
  {
  }

  lemma TmsbFrom192()
    ensures forall j :: 192 <= j < 224 ==> TMSB[j] == 8
  {
  }

  lemma TmsbFrom224()
    ensures forall j :: 224 <= j < 256 ==> TMSB[j] == 8
  {
  }
}
