// The buffer helpers of util/buffer.hpp. They repeat the loops of the
// low-level helpers; the one difference in behaviour is the value that
// `half_merge` returns.

module Buffer {
  import opened Order
  import opened Arrays
  import LowLevel

  /** `move_buf`: moves [b, e) of `src` to `dst` from `o` on, returning the end. */
  method MoveBuf(src: array<Elem>, b: int, e: int, dst: array<Elem>, o: int) returns (r: int)
    requires src != dst
    requires 0 <= b <= e <= src.Length
    requires 0 <= o && o + (e - b) <= dst.Length
    modifies dst
    ensures r == o + (e - b)
    ensures dst[o..r] == src[b..e]
    ensures UnchangedOutside(dst, o, r)
  {
    r := LowLevel.InitMove(src, b, e, dst, o);
  }

  /**
   * `move_buf` within one array: [b, e) moves to `o` on, copied forwards,
   * so the target must not start inside the source.
   */
  method MoveBufWithin(a: array<Elem>, b: int, e: int, o: int) returns (r: int)
    requires 0 <= b <= e <= a.Length
    requires 0 <= o && o + (e - b) <= a.Length && (o <= b || e <= o)
    modifies a
    ensures r == o + (e - b)
    ensures a[o..r] == old(a[b..e])
    ensures UnchangedOutside(a, o, r)
  {
    r := LowLevel.InitMove(a, b, e, a, o);
  }

  /** `uninit_move_buf`: `move_buf` into storage that held no objects. */
  method UninitMoveBuf(src: array<Elem>, b: int, e: int, dst: array<Elem>, o: int) returns (r: int)
    requires src != dst
    requires 0 <= b <= e <= src.Length
    requires 0 <= o && o + (e - b) <= dst.Length
    modifies dst
    ensures r == o + (e - b)
    ensures dst[o..r] == src[b..e]
    ensures UnchangedOutside(dst, o, r)
  {
    r := MoveBuf(src, b, e, dst, o);
  }

  /**
   * `full_merge`: merges the runs [b1, e1) and [b2, e2) of `src` into `dst`
   * from `o` on, run 1 first on equal keys; returns the end of the output.
   */
  method FullMerge(src: array<Elem>, b1: int, e1: int, b2: int, e2: int,
                   dst: array<Elem>, o: int) returns (r: int)
    requires src != dst
    requires 0 <= b1 <= e1 <= src.Length && 0 <= b2 <= e2 <= src.Length
    requires 0 <= o && o + (e1 - b1) + (e2 - b2) <= dst.Length
    modifies dst
    ensures r == o + (e1 - b1) + (e2 - b2)
    ensures dst[o..r] == Merge(src[b1..e1], src[b2..e2])
    ensures UnchangedOutside(dst, o, r)
  {
    r := LowLevel.FullMerge(src, b1, e1, b2, e2, dst, o);
  }

  /**
   * `full_merge` within one array: the adjacent runs [b, m) and [m, e) merge
   * into [o, o + (e - b)), which lies wholly before or wholly after them.
   */
  method FullMergeWithin(a: array<Elem>, b: int, m: int, e: int, o: int) returns (r: int)
    requires 0 <= b <= m <= e <= a.Length
    requires 0 <= o && o + (e - b) <= a.Length
    requires o + (e - b) <= b || e <= o
    modifies a
    ensures r == o + (e - b)
    ensures a[o..r] == Merge(old(a[b..m]), old(a[m..e]))
    ensures UnchangedOutside(a, o, r)
  {
    r := LowLevel.FullMergeWithin(a, b, m, e, o);
  }

  /** `uninit_full_merge`: `full_merge` into storage that held no objects. */
  method UninitFullMerge(src: array<Elem>, b1: int, e1: int, b2: int, e2: int,
                         dst: array<Elem>, o: int) returns (r: int)
    requires src != dst
    requires 0 <= b1 <= e1 <= src.Length && 0 <= b2 <= e2 <= src.Length
    requires 0 <= o && o + (e1 - b1) + (e2 - b2) <= dst.Length
    modifies dst
    ensures r == o + (e1 - b1) + (e2 - b2)
    ensures dst[o..r] == Merge(src[b1..e1], src[b2..e2])
    ensures UnchangedOutside(dst, o, r)
  {
    r := FullMerge(src, b1, e1, b2, e2, dst, o);
  }

  /**
   * `half_merge`: run 1 in the separate buffer `x`, run 2 at [b2, e2) of `y`
   * with exactly `|run 1|` free cells before it, from `o`. The merge fills
   * [o, e2). Unlike the low-level `half_merge`, it returns the write position
   * at the moment the loop stops: `e2` when run 2 ran out first, and the
   * start of run 2's untouched tail when run 1 ran out first.
   */
  method HalfMerge(x: array<Elem>, b1: int, e1: int, y: array<Elem>, b2: int, e2: int,
                   o: int) returns (r: int)
    requires x != y
    requires 0 <= b1 <= e1 <= x.Length
    requires 0 <= o && o + (e1 - b1) == b2 && b2 <= e2 <= y.Length
    modifies y
    ensures r == b2 + HalfMergeStop(x[b1..e1], old(y[b2..e2]), 0, 0)
    ensures y[o..e2] == Merge(x[b1..e1], old(y[b2..e2]))
    ensures y[r..e2] == old(y[r..e2])
    ensures UnchangedOutside(y, o, e2)
  {
    ghost var A, B := x[b1..e1], y[b2..e2];
    var i1, i2, k;
    ghost var done, p, q;
    i1, i2, k, done, p, q := LowLevel.HalfMergeLoop(x, b1, e1, y, b2, e2, o);
    MergeInvEnd(A, B, done, p, q);
    SliceFromCells(y[..], o, k, done);
    if i2 == e2 {
      assert x[i1..e1] == A[p..];
      r := LowLevel.AppendMove(x, i1, e1, y, o, k);
    } else {
      KeptSlice(y[..], old(y[..]), i2, e2, o, k);
      assert y[i2..e2] == B[q..];
      Glue(y[..], o, k, e2, done, B[q..]);
      r := k;
    }
  }
}
