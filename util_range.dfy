// The `range` of util/range.hpp and the merges built on it: the
// util `half_merge`, `less_range`, the stable 4-way merge `full_merge4`,
// and the drivers `merge_level4` and `merge_vector4` that merge a vector of
// ranges four at a time, level after level.

module UtilRange {
  import opened Order
  import opened Arrays
  import opened Runs
  import LowLevel
  import Buffer

  /** `range<iter_t>` of util/range.hpp. */
  datatype Range = Range(first: int, last: int)
  {
    /** `empty()` */
    predicate Empty() { first == last }

    /** `not_empty()` */
    predicate NotEmpty() { first != last }

    /** `size()`, the signed difference. */
    function Size(): int { last - first }

    /** The range lies inside an array of length `n`. */
    predicate In(n: int) { 0 <= first <= last <= n }
  }

  /** `empty` and `not_empty` are complements and agree with `size`. */
  lemma RangeAccessors(r: Range)
    ensures r.Empty() <==> r.Size() == 0
    ensures r.NotEmpty() <==> !r.Empty()
  {
  }

  /** All ranges of `rs` lie inside an array of length `n`. */
  predicate AllIn(rs: seq<Range>, n: int) {
    forall j :: 0 <= j < |rs| ==> rs[j].In(n)
  }

  /** The contents of the ranges `rs` of `s`, range by range. */
  function Slices(s: seq<Elem>, rs: seq<Range>): (cs: seq<seq<Elem>>)
    requires AllIn(rs, |s|)
    ensures |cs| == |rs|
    ensures forall j :: 0 <= j < |rs| ==> cs[j] == s[rs[j].first..rs[j].last]
  {
    if rs == [] then [] else [s[rs[0].first..rs[0].last]] + Slices(s, rs[1..])
  }

  /** The number of elements in the ranges `rs`. */
  function TotalSize(rs: seq<Range>): (n: int)
    ensures (forall j :: 0 <= j < |rs| ==> rs[j].first <= rs[j].last) ==> n >= 0
  {
    if rs == [] then 0 else rs[0].Size() + TotalSize(rs[1..])
  }

  /** The ranges hold `TotalSize` elements between them. */
  lemma {:induction false} FlattenSlicesLength(s: seq<Elem>, rs: seq<Range>)
    requires AllIn(rs, |s|)
    ensures |Flatten(Slices(s, rs))| == TotalSize(rs)
    decreases |rs|
  {
    if rs != [] {
      FlattenSlicesLength(s, rs[1..]);
      assert Slices(s, rs)[1..] == Slices(s, rs[1..]);
    }
  }

  /** util `move(it_dest, R)`: moves range `r` of `src` to `dst` from `o` on, returning the end. */
  method Move(dst: array<Elem>, o: int, src: array<Elem>, r: Range) returns (e: int)
    requires src != dst && r.In(src.Length) && 0 <= o && o + r.Size() <= dst.Length
    modifies dst
    ensures e == o + r.Size() && dst[o..e] == src[r.first..r.last]
    ensures UnchangedOutside(dst, o, e)
  {
    e := Buffer.MoveBuf(src, r.first, r.last, dst, o);
  }

  /** util `uninit_move(Ptr, R)`: `move` into storage that held no objects. */
  method UninitMove(dst: array<Elem>, o: int, src: array<Elem>, r: Range) returns (e: int)
    requires src != dst && r.In(src.Length) && 0 <= o && o + r.Size() <= dst.Length
    modifies dst
    ensures e == o + r.Size() && dst[o..e] == src[r.first..r.last]
    ensures UnchangedOutside(dst, o, e)
  {
    e := Buffer.UninitMoveBuf(src, r.first, r.last, dst, o);
  }

  /**
   * util `full_merge(it_out, R1, R2)`: merges the sorted ranges `r1` and
   * `r2` of `src` into `dst` from `o` on, `r1` first on equal keys.
   */
  method FullMerge(dst: array<Elem>, o: int, src: array<Elem>, r1: Range, r2: Range) returns (e: int)
    requires src != dst && r1.In(src.Length) && r2.In(src.Length)
    requires 0 <= o && o + r1.Size() + r2.Size() <= dst.Length
    modifies dst
    ensures e == o + r1.Size() + r2.Size()
    ensures dst[o..e] == Merge(src[r1.first..r1.last], src[r2.first..r2.last])
    ensures UnchangedOutside(dst, o, e)
  {
    e := Buffer.FullMerge(src, r1.first, r1.last, r2.first, r2.last, dst, o);
  }

  /** util `uninit_full_merge(it_out, R1, R2)`: `full_merge` into storage that held no objects. */
  method UninitFullMerge(dst: array<Elem>, o: int, src: array<Elem>, r1: Range, r2: Range) returns (e: int)
    requires src != dst && r1.In(src.Length) && r2.In(src.Length)
    requires 0 <= o && o + r1.Size() + r2.Size() <= dst.Length
    modifies dst
    ensures e == o + r1.Size() + r2.Size()
    ensures dst[o..e] == Merge(src[r1.first..r1.last], src[r2.first..r2.last])
    ensures UnchangedOutside(dst, o, e)
  {
    e := Buffer.UninitFullMerge(src, r1.first, r1.last, r2.first, r2.last, dst, o);
  }

  /**
   * util `half_merge(it_dest, R1, R2)`: `R1` in a separate buffer, `R2`
   * in the destination array right after `|R1|` free cells from `it_dest`.
   * Ties go to `R1`. When `R2` runs out first the rest of `R1` is moved
   * and the end of the merge returned; when `R1` runs out first the write
   * position is returned, where the untouched tail of `R2` starts.
   */
  method HalfMerge(dst: array<Elem>, o: int, x: array<Elem>, r1: Range, r2: Range) returns (r: int)
    requires x != dst
    requires r1.In(x.Length) && r2.In(dst.Length)
    requires 0 <= o && o + r1.Size() == r2.first
    modifies dst
    ensures r == r2.first + HalfMergeStop(x[r1.first..r1.last], old(dst[r2.first..r2.last]), 0, 0)
    ensures dst[o..r2.last] == Merge(x[r1.first..r1.last], old(dst[r2.first..r2.last]))
    ensures dst[r..r2.last] == old(dst[r..r2.last])
    ensures UnchangedOutside(dst, o, r2.last)
  {
    r := Buffer.HalfMerge(x, r1.first, r1.last, dst, r2.first, r2.last, o);
  }

  /**
   * `less_range(it1, pos1, it2, pos2)`: the element `x` of range `pos1`
   * goes before the element `y` of range `pos2`.
   */
  predicate LessRange(x: Elem, p1: int, y: Elem, p2: int) {
    Less(x, y) || (!(p2 < p1) && !Less(y, x))
  }

  /**
   * `less_range` orders (key, range index) pairs lexicographically: it is
   * `HeadBefore`, a total preorder, and a strict order once the indices
   * differ.
   */
  lemma LessRangeOrder(x: Elem, p1: int, y: Elem, p2: int)
    ensures LessRange(x, p1, y, p2) <==> HeadBefore(x, p1, y, p2)
    ensures LessRange(x, p1, y, p2) || LessRange(y, p2, x, p1)
    ensures p1 != p2 ==> !(LessRange(x, p1, y, p2) && LessRange(y, p2, x, p1))
  {
  }

  /**
   * Heads with equal keys go by range index, the lower index first; a
   * smaller key comes first whatever the indices.
   */
  lemma LessRangeTies(x: Elem, p1: int, y: Elem, p2: int)
    ensures x.key == y.key ==> (LessRange(x, p1, y, p2) <==> p1 <= p2)
    ensures x.key == y.key && p1 < p2 ==> !LessRange(y, p2, x, p1)
    ensures x.key < y.key ==> LessRange(x, p1, y, p2) && !LessRange(y, p2, x, p1)
  {
  }

  // -----------------------------------------------------------------------
  // full_merge4
  // -----------------------------------------------------------------------

  /**
   * The place of the head of range `j` in the `less_range` order: by key,
   * then by range index. Only the ranks of non-empty ranges matter.
   */
  ghost function W(cs: seq<seq<Elem>>, j: int): int
    requires 0 <= j < |cs|
  {
    if cs[j] == [] then 0 else 4 * cs[j][0].key + j
  }

  /** Among four ranges, `less_range` on two heads is the order of their ranks. */
  lemma RankOrder(x: Elem, i: int, y: Elem, j: int)
    requires 0 <= i < 4 && 0 <= j < 4
    ensures HeadBefore(x, i, y, j) <==> 4 * x.key + i <= 4 * y.key + j
    ensures i != j ==> 4 * x.key + i != 4 * y.key + j
  {
  }

  /**
   * The state of the `Pos` array of `full_merge4` over the current range
   * contents `cs`: its first `npos` entries name non-empty ranges, every
   * non-empty range is among them, and their heads come in strictly
   * ascending rank, that is in `less_range` order (so the entries are
   * distinct).
   */
  ghost predicate PosOk(pos: seq<int>, npos: int, cs: seq<seq<Elem>>) {
    PosSet(pos, npos, cs)
    && (forall b :: 0 <= b < npos - 1 ==> W(cs, pos[b]) < W(cs, pos[b + 1]))
  }

  /** `PosOk` except that `pos[0]`, another entry than the rest, may be out of order. */
  ghost predicate PosOkButFirst(pos: seq<int>, npos: int, cs: seq<seq<Elem>>) {
    PosSet(pos, npos, cs)
    && (forall b :: 1 <= b < npos ==> pos[b] != pos[0])
    && (forall b :: 1 <= b < npos - 1 ==> W(cs, pos[b]) < W(cs, pos[b + 1]))
  }

  /**
   * The first `npos` entries of the four-entry `pos` name non-empty ranges
   * among at most four, and every non-empty range is one of them.
   */
  ghost predicate PosSet(pos: seq<int>, npos: int, cs: seq<seq<Elem>>) {
    |pos| == 4 && 0 <= npos <= 4 && |cs| <= 4
    && (forall b :: 0 <= b < npos ==> 0 <= pos[b] < |cs| && cs[pos[b]] != [])
    && (forall j :: 0 <= j < |cs| && cs[j] != [] ==> Among(pos, npos, j))
  }

  /** `j` is one of the first `npos` entries of the four-entry `pos`. */
  ghost predicate Among(pos: seq<int>, npos: int, j: int)
    requires |pos| == 4
  {
    (0 < npos && pos[0] == j) || (1 < npos && pos[1] == j)
    || (2 < npos && pos[2] == j) || (3 < npos && pos[3] == j)
  }

  /** The heads named by `Pos` have ascending ranks, not only neighbour by neighbour. */
  lemma PosRanksAscend(pos: seq<int>, npos: int, cs: seq<seq<Elem>>)
    requires PosOk(pos, npos, cs)
    ensures forall a, b :: 0 <= a < b < npos ==> W(cs, pos[a]) < W(cs, pos[b]) && pos[a] != pos[b]
  {
    if npos == 4 {
      assert W(cs, pos[0]) < W(cs, pos[1]) < W(cs, pos[2]) < W(cs, pos[3]);
    } else if npos == 3 {
      assert W(cs, pos[0]) < W(cs, pos[1]) < W(cs, pos[2]);
    }
  }

  /** The range that `Pos[0]` names has the first head of all. */
  lemma PosFirstHead(pos: seq<int>, npos: int, cs: seq<seq<Elem>>)
    requires PosOk(pos, npos, cs) && npos > 0
    ensures forall j :: 0 <= j < |cs| && cs[j] != [] ==> HeadBefore(cs[pos[0]][0], pos[0], cs[j][0], j)
  {
    PosRanksAscend(pos, npos, cs);
    forall j | 0 <= j < |cs| && cs[j] != []
      ensures HeadBefore(cs[pos[0]][0], pos[0], cs[j][0], j)
    {
      assert Among(pos, npos, j);
      var b := if pos[0] == j then 0 else if 1 < npos && pos[1] == j then 1
               else if 2 < npos && pos[2] == j then 2 else 3;
      assert W(cs, pos[0]) <= W(cs, pos[b]);
      RankOrder(cs[pos[0]][0], pos[0], cs[j][0], j);
    }
  }

  /** Range `pos[0]`'s head taken, and the range ran dry: shifting `Pos` down keeps it valid. */
  lemma PosAfterTakeDry(pos: seq<int>, npos: int, cs: seq<seq<Elem>>)
    requires PosOk(pos, npos, cs) && npos > 0
    requires |cs[pos[0]]| == 1
    ensures PosOk([pos[1], pos[2], pos[3], pos[3]], npos - 1, cs[pos[0] := cs[pos[0]][1..]])
  {
    var cs', pos' := cs[pos[0] := cs[pos[0]][1..]], [pos[1], pos[2], pos[3], pos[3]];
    PosRanksAscend(pos, npos, cs);
    forall b | 0 <= b < npos - 1
      ensures pos'[b] == pos[b + 1] && cs'[pos'[b]] == cs[pos[b + 1]]
    {
      assert pos[b + 1] != pos[0];
    }
    forall i | 0 <= i < |cs'| && cs'[i] != []
      ensures Among(pos', npos - 1, i)
    {
      assert cs[i] != [] && Among(pos, npos, i);
    }
  }

  /** Range `pos[0]`'s head taken, and the range still holds elements: only `pos[0]` may be out of place. */
  lemma PosAfterTakeKept(pos: seq<int>, npos: int, cs: seq<seq<Elem>>)
    requires PosOk(pos, npos, cs) && npos > 0
    requires |cs[pos[0]]| > 1
    ensures PosOkButFirst(pos, npos, cs[pos[0] := cs[pos[0]][1..]])
  {
    var cs' := cs[pos[0] := cs[pos[0]][1..]];
    PosRanksAscend(pos, npos, cs);
    forall b | 1 <= b < npos
      ensures cs'[pos[b]] == cs[pos[b]]
    {
      assert pos[b] != pos[0];
    }
    forall i | 0 <= i < |cs'| && cs'[i] != []
      ensures Among(pos, npos, i)
    {
      assert cs[i] != [];
    }
  }

  /** Taking the head of range `p` shortens its contents by the head. */
  lemma SlicesTake(s: seq<Elem>, rs: seq<Range>, p: int)
    requires AllIn(rs, |s|) && 0 <= p < |rs| && rs[p].first < rs[p].last
    ensures AllIn(rs[p := Range(rs[p].first + 1, rs[p].last)], |s|)
    ensures Slices(s, rs[p := Range(rs[p].first + 1, rs[p].last)])
            == Slices(s, rs)[p := Slices(s, rs)[p][1..]]
  {
    var rs' := rs[p := Range(rs[p].first + 1, rs[p].last)];
    var cs := Slices(s, rs);
    assert cs[p][1..] == s[rs[p].first + 1..rs[p].last];
    assert AllIn(rs', |s|);
    assert Slices(s, rs') == cs[p := cs[p][1..]];
  }

  /** Dropping the head of one run keeps every run sorted and the total one shorter. */
  lemma TakeKeepsRuns(cs: seq<seq<Elem>>, p: int)
    requires AllSorted(cs) && 0 <= p < |cs| && cs[p] != []
    ensures AllSorted(cs[p := cs[p][1..]])
    ensures |Flatten(cs[p := cs[p][1..]])| + 1 == |Flatten(cs)|
  {
    FlattenSplit(cs, p);
    FlattenUpdate(cs, p, cs[p][1..]);
    var cs' := cs[p := cs[p][1..]];
    forall j | 0 <= j < |cs'|
      ensures Sorted(cs'[j])
    {
      if j == p {
        forall a, b | 0 <= a < b < |cs'[j]|
          ensures cs'[j][a].key <= cs'[j][b].key
        {
          assert cs'[j][a] == cs[p][a + 1] && cs'[j][b] == cs[p][b + 1];
        }
      }
    }
  }

  /** When only run `j` holds elements, flattening gives run `j`. */
  lemma {:induction false} FlattenOnlyOne(cs: seq<seq<Elem>>, j: int)
    requires 0 <= j < |cs|
    requires forall m :: 0 <= m < |cs| && m != j ==> cs[m] == []
    ensures Flatten(cs) == cs[j]
    decreases |cs|
  {
    if j == 0 {
      FlattenAllEmpty(cs[1..]);
    } else {
      FlattenOnlyOne(cs[1..], j - 1);
    }
  }

  /** Runs that are all empty flatten to nothing. */
  lemma {:induction false} FlattenAllEmpty(cs: seq<seq<Elem>>)
    requires forall j :: 0 <= j < |cs| ==> cs[j] == []
    ensures Flatten(cs) == []
    decreases |cs|
  {
    if cs != [] {
      FlattenAllEmpty(cs[1..]);
    }
  }

  /** When only runs `i < j` hold elements, flattening gives run `i`, then run `j`. */
  lemma {:induction false} FlattenOnlyTwo(cs: seq<seq<Elem>>, i: int, j: int)
    requires 0 <= i < j < |cs|
    requires forall m :: 0 <= m < |cs| && m != i && m != j ==> cs[m] == []
    ensures Flatten(cs) == cs[i] + cs[j]
    decreases |cs|
  {
    if i == 0 {
      FlattenOnlyOne(cs[1..], j - 1);
    } else {
      FlattenOnlyTwo(cs[1..], i - 1, j - 1);
    }
  }

  /**
   * When only runs `i < j` hold elements, the stable sort of all runs is
   * the merge of run `i` with run `j`, run `i` first on equal keys.
   */
  lemma LastTwo(cs: seq<seq<Elem>>, i: int, j: int)
    requires 0 <= i < j < |cs| && AllSorted(cs)
    requires forall m :: 0 <= m < |cs| && m != i && m != j ==> cs[m] == []
    ensures StableSort(Flatten(cs)) == Merge(cs[i], cs[j])
  {
    FlattenOnlyTwo(cs, i, j);
    MergeIsStableSort(cs[i], cs[j]);
  }

  /** The contents of one and of two ranges, flattened. */
  lemma FlattenSmall(cs: seq<seq<Elem>>)
    requires |cs| <= 2
    ensures |cs| == 1 ==> Flatten(cs) == cs[0]
    ensures |cs| == 2 ==> Flatten(cs) == cs[0] + cs[1]
  {
    if |cs| > 0 {
      var t := cs[1..];
      if |cs| == 2 {
        assert t[1..] == [];
      }
    }
  }

  /**
   * The ranges `cur` of `src` have the contents `cs` as far as their
   * heads go: a range is non-empty exactly when its contents are, and then
   * its first element is their head.
   */
  ghost predicate HeadsOf(src: array<Elem>, cur: seq<Range>, cs: seq<seq<Elem>>)
    reads src
  {
    |cs| == |cur| <= 4 && AllIn(cur, src.Length)
    && forall j :: 0 <= j < |cur| ==>
         (cur[j].NotEmpty() <==> cs[j] != []) && (cs[j] != [] ==> cs[j][0] == src[cur[j].first])
  }

  /** The contents of the ranges give their heads. */
  lemma SlicesHeads(src: array<Elem>, cur: seq<Range>)
    requires |cur| <= 4 && AllIn(cur, src.Length)
    ensures HeadsOf(src, cur, Slices(src[..], cur))
  {
  }

  /** `less_range` on the heads of two distinct non-empty ranges compares their ranks. */
  lemma HeadOrder(src: array<Elem>, cur: seq<Range>, cs: seq<seq<Elem>>, i: int, j: int)
    requires HeadsOf(src, cur, cs)
    requires 0 <= i < |cs| && 0 <= j < |cs| && i != j && cs[i] != [] && cs[j] != []
    ensures cur[i].NotEmpty() && cur[j].NotEmpty()
    ensures LessRange(src[cur[i].first], i, src[cur[j].first], j) <==> W(cs, i) < W(cs, j)
    ensures LessRange(src[cur[j].first], j, src[cur[i].first], i) <==> W(cs, j) < W(cs, i)
  {
    RankOrder(cs[i][0], i, cs[j][0], j);
    RankOrder(cs[j][0], j, cs[i][0], i);
  }

  /**
   * A permutation of the first `n` range indices, with the heads' ranks
   * ascending, is a valid `Pos` array when those `n` ranges all hold
   * elements.
   */
  lemma PosOkOfPermutation(p0: int, p1: int, p2: int, p3: int, n: int, cs: seq<seq<Elem>>)
    requires (n == 3 || n == 4) && |cs| == n
    requires forall j :: 0 <= j < n ==> cs[j] != []
    requires 0 <= p0 < n && 0 <= p1 < n && 0 <= p2 < n && p0 != p1 && p0 != p2 && p1 != p2
    requires n == 4 ==> 0 <= p3 < 4 && p3 != p0 && p3 != p1 && p3 != p2
    requires W(cs, p0) < W(cs, p1) < W(cs, p2)
    requires n == 4 ==> W(cs, p2) < W(cs, p3)
    ensures PosOk([p0, p1, p2, p3], n, cs)
  {
    var pos := [p0, p1, p2, p3];
    assert pos[0] == p0 && pos[1] == p1 && pos[2] == p2 && pos[3] == p3;
    forall j | 0 <= j < n
      ensures Among(pos, n, j)
    {
    }
    forall b | 0 <= b < n - 1
      ensures W(cs, pos[b]) < W(cs, pos[b + 1])
    {
    }
  }

  /** `pos` with `pos[0]` moved down past the next `m` entries. */
  function Rotate(pos: seq<int>, m: int): (r: seq<int>)
    requires |pos| == 4 && 0 <= m < 4
    ensures |r| == 4 && r[m] == pos[0]
    ensures forall c :: 0 <= c < m ==> r[c] == pos[c + 1]
    ensures forall c :: m < c < 4 ==> r[c] == pos[c]
  {
    if m == 0 then pos
    else if m == 1 then [pos[1], pos[0], pos[2], pos[3]]
    else if m == 2 then [pos[1], pos[2], pos[0], pos[3]]
    else [pos[1], pos[2], pos[3], pos[0]]
  }

  /** Moving `pos[0]` down keeps the entries a valid set of range indices. */
  lemma PosSetOfRotation(pos: seq<int>, npos: int, cs: seq<seq<Elem>>, m: int)
    requires PosSet(pos, npos, cs) && 0 <= m < npos
    ensures PosSet(Rotate(pos, m), npos, cs)
  {
    var pos' := Rotate(pos, m);
    forall c | 0 <= c < npos
      ensures pos'[c] == pos[if c < m then c + 1 else if c == m then 0 else c]
    {
    }
    forall j | 0 <= j < |cs| && cs[j] != []
      ensures Among(pos', npos, j)
    {
      assert Among(pos, npos, j);
    }
  }

  /**
   * Insertion of `pos[0]` into the ordered rest of `Pos`: moved down past
   * `m` entries whose ranks are below its own, and stopped before a
   * greater one or at the end, it leaves a valid `Pos` array.
   */
  lemma InsertFirst(pos: seq<int>, npos: int, cs: seq<seq<Elem>>, m: int, pos': seq<int>)
    requires PosOkButFirst(pos, npos, cs) && 0 <= m < npos
    requires pos' == Rotate(pos, m)
    requires m > 0 ==> W(cs, pos[m]) < W(cs, pos[0])
    requires m < npos - 1 ==> W(cs, pos[0]) < W(cs, pos[m + 1])
    ensures PosOk(pos', npos, cs)
  {
    PosSetOfRotation(pos, npos, cs, m);
    forall b | 0 <= b < npos - 1
      ensures W(cs, pos'[b]) < W(cs, pos'[b + 1])
    {
      if b + 1 < m {
        assert W(cs, pos[b + 1]) < W(cs, pos[b + 2]);
      } else if b + 1 > m {
        assert W(cs, pos[b]) < W(cs, pos[b + 1]);
      }
    }
  }

  /**
   * The initial sort of `full_merge4`: three or four non-empty ranges,
   * ordered by `less_range` on their heads with a fixed network of
   * compare-and-swap steps (the 4-range steps skipped for three ranges).
   */
  method InitialOrder(src: array<Elem>, cur: seq<Range>, n: int, ghost cs: seq<seq<Elem>>) returns (pos: seq<int>)
    requires (n == 3 || n == 4) && |cur| == n && HeadsOf(src, cur, cs)
    requires forall j :: 0 <= j < n ==> cur[j].NotEmpty()
    ensures PosOk(pos, n, cs)
  {
    HeadOrder(src, cur, cs, 0, 1);
    HeadOrder(src, cur, cs, 0, 2);
    HeadOrder(src, cur, cs, 1, 2);
    if n == 4 {
      HeadOrder(src, cur, cs, 0, 3);
      HeadOrder(src, cur, cs, 1, 3);
      HeadOrder(src, cur, cs, 2, 3);
    }
    var p0, p1, p2, p3 := 0, 1, 2, 3;
    if LessRange(src[cur[p1].first], p1, src[cur[p0].first], p0) {
      p0, p1 := p1, p0;
    }
    if LessRange(src[cur[p2].first], p2, src[cur[p1].first], p1) {
      p1, p2 := p2, p1;
    }
    if n == 4 && LessRange(src[cur[p3].first], p3, src[cur[p2].first], p2) {
      p2, p3 := p3, p2;
    }
    if LessRange(src[cur[p1].first], p1, src[cur[p0].first], p0) {
      p0, p1 := p1, p0;
    }
    if n == 4 && LessRange(src[cur[p2].first], p2, src[cur[p1].first], p1) {
      p1, p2 := p2, p1;
    }
    if n == 4 && LessRange(src[cur[p1].first], p1, src[cur[p0].first], p0) {
      p0, p1 := p1, p0;
    }
    PosOkOfPermutation(p0, p1, p2, p3, n, cs);
    pos := [p0, p1, p2, p3];
  }

  /**
   * The re-sort of `full_merge4` after the head of range `pos[0]` was
   * taken: `pos[0]` bubbles down while the next range's head comes first.
   */
  method Reposition(src: array<Elem>, cur: seq<Range>, pos: seq<int>, npos: int,
                    ghost cs: seq<seq<Elem>>) returns (pos': seq<int>)
    requires (npos == 3 || npos == 4) && HeadsOf(src, cur, cs)
    requires PosOkButFirst(pos, npos, cs)
    ensures PosOk(pos', npos, cs)
  {
    var p0, p1, p2, p3 := pos[0], pos[1], pos[2], pos[3];
    HeadOrder(src, cur, cs, p1, p0);
    HeadOrder(src, cur, cs, p2, p0);
    if npos == 4 {
      HeadOrder(src, cur, cs, p3, p0);
    }
    ghost var m := 0;
    if LessRange(src[cur[p1].first], p1, src[cur[p0].first], p0) {
      p0, p1 := p1, p0;
      m := 1;
      if LessRange(src[cur[p2].first], p2, src[cur[p1].first], p1) {
        p1, p2 := p2, p1;
        m := 2;
        if npos == 4 && LessRange(src[cur[p3].first], p3, src[cur[p2].first], p2) {
          p2, p3 := p3, p2;
          m := 3;
        }
      }
    }
    pos' := [p0, p1, p2, p3];
    InsertFirst(pos, npos, cs, m, pos');
  }

  /** With two entries left in `Pos`, every other range is empty. */
  lemma PosLastTwo(pos: seq<int>, cs: seq<seq<Elem>>)
    requires PosOk(pos, 2, cs)
    ensures 0 <= pos[0] < |cs| && 0 <= pos[1] < |cs| && pos[0] != pos[1]
    ensures forall m :: 0 <= m < |cs| && m != pos[0] && m != pos[1] ==> cs[m] == []
  {
    PosRanksAscend(pos, 2, cs);
    forall m | 0 <= m < |cs| && m != pos[0] && m != pos[1]
      ensures cs[m] == []
    {
      assert cs[m] != [] ==> Among(pos, 2, m);
    }
  }

  /**
   * The state of `full_merge4` between steps: the ranges `cur` of `s`
   * hold the sorted runs `cs`; `Pos` is valid for them; and the elements
   * `done` moved out so far, followed by the stable sort of what is left,
   * make `goal`, the stable sort of all the input.
   */
  ghost predicate Merging(s: seq<Elem>, cur: seq<Range>, cs: seq<seq<Elem>>,
                          pos: seq<int>, npos: int, done: seq<Elem>, goal: seq<Elem>)
  {
    2 <= npos && |cur| <= 4 && AllIn(cur, |s|) && cs == Slices(s, cur)
    && AllSorted(cs) && PosOk(pos, npos, cs)
    && done + StableSort(Flatten(cs)) == goal
  }

  /** The range `cur[p]` with its first element taken. */
  function TakeHead(cur: seq<Range>, p: int): (r: seq<Range>)
    requires 0 <= p < |cur|
    ensures |r| == |cur| && r[p].first == cur[p].first + 1
    ensures forall j :: 0 <= j < |cur| && j != p ==> r[j] == cur[j]
  {
    cur[p := Range(cur[p].first + 1, cur[p].last)]
  }

  /**
   * Moving out the head of range `Pos[0]`, the first in `less_range`
   * order, keeps the state of `full_merge4`: `Pos` either loses the range
   * (it ran dry) or needs only `Pos[0]` put back in place.
   */
  lemma TakeStep(src: array<Elem>, cur: seq<Range>, cs: seq<seq<Elem>>,
                 pos: seq<int>, npos: int, done: seq<Elem>, goal: seq<Elem>)
    requires Merging(src[..], cur, cs, pos, npos, done, goal) && npos > 2
    ensures 0 <= pos[0] < |cur| && 0 <= cur[pos[0]].first < cur[pos[0]].last <= src.Length
    ensures var cur', cs', done' := TakeHead(cur, pos[0]), cs[pos[0] := cs[pos[0]][1..]],
                                   done + [src[cur[pos[0]].first]];
            && |Flatten(cs')| < |Flatten(cs)|
            && (cur'[pos[0]].Empty() ==> Merging(src[..], cur', cs', [pos[1], pos[2], pos[3], pos[3]], npos - 1, done', goal))
            && (cur'[pos[0]].NotEmpty() ==>
                  PosOkButFirst(pos, npos, cs') && HeadsOf(src, cur', cs')
                  && (forall pos' :: PosOk(pos', npos, cs') ==> Merging(src[..], cur', cs', pos', npos, done', goal)))
  {
    var s, p := src[..], pos[0];
    var cur', cs', done' := TakeHead(cur, p), cs[p := cs[p][1..]], done + [src[cur[p].first]];
    PosFirstHead(pos, npos, cs);
    TakeFirstHead(cs, p);
    TakeKeepsRuns(cs, p);
    SlicesTake(s, cur, p);
    assert done' + StableSort(Flatten(cs')) == goal;
    if |cs[p]| == 1 {
      PosAfterTakeDry(pos, npos, cs);
    } else {
      PosAfterTakeKept(pos, npos, cs);
      SlicesHeads(src, cur');
    }
  }

  /**
   * One step of the main loop of `full_merge4` after the head of range
   * `Pos[0]` was moved out: that range starts one later, and `Pos` loses
   * it when it ran dry or is re-sorted otherwise.
   */
  method Advance(src: array<Elem>, cur: seq<Range>, pos: seq<int>, npos: int,
                 ghost cs: seq<seq<Elem>>, ghost done: seq<Elem>, ghost goal: seq<Elem>)
      returns (cur': seq<Range>, pos': seq<int>, npos': int, ghost cs': seq<seq<Elem>>, ghost done': seq<Elem>)
    requires Merging(src[..], cur, cs, pos, npos, done, goal) && npos > 2
    ensures 0 <= pos[0] < |cur| && 0 <= cur[pos[0]].first < src.Length
    ensures Merging(src[..], cur', cs', pos', npos', done', goal)
    ensures done' == done + [src[cur[pos[0]].first]]
    ensures |Flatten(cs')| < |Flatten(cs)|
  {
    TakeStep(src, cur, cs, pos, npos, done, goal);
    var p := pos[0];
    cur', cs', done' := TakeHead(cur, p), cs[p := cs[p][1..]], done + [src[cur[p].first]];
    if cur'[p].Empty() {
      pos', npos' := [pos[1], pos[2], pos[3], pos[3]], npos - 1;
    } else {
      pos' := Reposition(src, cur', pos, npos, cs');
      npos' := npos;
    }
  }

  /**
   * The main loop of `full_merge4`: while three or more ranges hold
   * elements, the head that comes first in `less_range` order is moved to
   * the output and `Pos` restored. What was written, followed by the
   * stable sort of what is left, is `goal`.
   */
  method TakeHeads(dst: array<Elem>, o: int, src: array<Elem>, ghost s: seq<Elem>, cur0: seq<Range>, pos0: seq<int>, npos0: int,
                   ghost cs0: seq<seq<Elem>>, ghost goal: seq<Elem>)
      returns (k: int, cur: seq<Range>, pos: seq<int>, npos: int, ghost cs: seq<seq<Elem>>, ghost done: seq<Elem>)
    requires src != dst && s == src[..] && Merging(s, cur0, cs0, pos0, npos0, [], goal)
    requires 0 <= o && o + |Flatten(cs0)| <= dst.Length
    modifies dst
    ensures npos == 2 && Merging(s, cur, cs, pos, npos, done, goal)
    ensures k == o + |done| && k + |Flatten(cs)| <= dst.Length
    ensures dst[o..k] == done
    ensures UnchangedOutside(dst, o, k)
  {
    cur, pos, npos, cs, done, k := cur0, pos0, npos0, cs0, [], o;
    while npos > 2
      invariant src[..] == s && Merging(s, cur, cs, pos, npos, done, goal)
      invariant k == o + |done| && k + |Flatten(cs)| <= dst.Length
      invariant forall m :: o <= m < k ==> dst[m] == done[m - o]
      invariant UnchangedOutside(dst, o, k)
      decreases |Flatten(cs)|
    {
      var f := cur[pos[0]].first;
      cur, pos, npos, cs, done := Advance(src, cur, pos, npos, cs, done, goal);
      dst[k] := src[f];
      k := k + 1;
    }
    SliceFromCells(dst[..], o, k, done);
  }

  /**
   * With two ranges `i < j` left in `Pos`, the stable sort of what is left
   * is the merge of range `i` with range `j`.
   */
  lemma LastTwoLeft(s: seq<Elem>, cur: seq<Range>, cs: seq<seq<Elem>>, pos: seq<int>, npos: int,
                    done: seq<Elem>, goal: seq<Elem>, i: int, j: int)
    requires npos == 2 && Merging(s, cur, cs, pos, npos, done, goal)
    requires (i == pos[0] && j == pos[1]) || (i == pos[1] && j == pos[0])
    requires i < j
    ensures 0 <= i < j < |cur| && cur[i].In(|s|) && cur[j].In(|s|)
    ensures done + Merge(s[cur[i].first..cur[i].last], s[cur[j].first..cur[j].last]) == goal
    ensures |Flatten(cs)| == cur[i].Size() + cur[j].Size()
  {
    PosLastTwo(pos, cs);
    LastTwo(cs, i, j);
    FlattenOnlyTwo(cs, i, j);
    assert cs[i] == s[cur[i].first..cur[i].last] && cs[j] == s[cur[j].first..cur[j].last];
    assert |Flatten(cs)| == |cs[i]| + |cs[j]|;
  }

  /** util `full_merge` after an output prefix `done` already in place at [o, k). */
  method MergeAfter(dst: array<Elem>, o: int, k: int, src: array<Elem>, r1: Range, r2: Range,
                    ghost done: seq<Elem>) returns (r: int)
    requires src != dst && r1.In(src.Length) && r2.In(src.Length)
    requires 0 <= o <= k && k + r1.Size() + r2.Size() <= dst.Length && dst[o..k] == done
    modifies dst
    ensures r == k + r1.Size() + r2.Size()
    ensures dst[o..r] == done + Merge(src[r1.first..r1.last], src[r2.first..r2.last])
    ensures UnchangedOutside(dst, k, r)
  {
    ghost var before := dst[..];
    r := FullMerge(dst, k, src, r1, r2);
    KeptSlice(dst[..], before, o, k, k, r);
    Glue(dst[..], o, k, r, done, Merge(src[r1.first..r1.last], src[r2.first..r2.last]));
  }

  /**
   * The end of `full_merge4`: with two ranges left, they are merged, the
   * one with the lower index first, after the output so far.
   */
  method MergeLastTwo(dst: array<Elem>, o: int, k: int, src: array<Elem>, ghost s: seq<Elem>,
                      cur: seq<Range>, pos: seq<int>, npos: int, ghost cs: seq<seq<Elem>>,
                      ghost done: seq<Elem>, ghost goal: seq<Elem>) returns (r: int)
    requires src != dst && s == src[..] && npos == 2 && Merging(s, cur, cs, pos, npos, done, goal)
    requires 0 <= o && k == o + |done| && k + |Flatten(cs)| <= dst.Length && dst[o..k] == done
    modifies dst
    ensures r == k + |Flatten(cs)| && dst[o..r] == goal
    ensures UnchangedOutside(dst, k, r)
  {
    if pos[0] < pos[1] {
      LastTwoLeft(s, cur, cs, pos, npos, done, goal, pos[0], pos[1]);
      r := MergeAfter(dst, o, k, src, cur[pos[0]], cur[pos[1]], done);
    } else {
      LastTwoLeft(s, cur, cs, pos, npos, done, goal, pos[1], pos[0]);
      r := MergeAfter(dst, o, k, src, cur[pos[1]], cur[pos[0]], done);
    }
  }

  /** The state of `full_merge4` after the initial sort of `Pos`. */
  lemma MergingStart(s: seq<Elem>, rs: seq<Range>, pos: seq<int>)
    requires |rs| <= 4 && AllIn(rs, |s|) && AllSorted(Slices(s, rs)) && 2 <= |rs|
    requires PosOk(pos, |rs|, Slices(s, rs))
    ensures Merging(s, rs, Slices(s, rs), pos, |rs|, [], StableSort(Flatten(Slices(s, rs))))
  {
  }

  /**
   * `full_merge4` for three or four non-empty ranges: the initial sort of
   * `Pos`, the main loop, and the final merge of the last two ranges.
   */
  method MergeByHeads(dst: array<Elem>, o: int, src: array<Elem>, rs: seq<Range>) returns (r: int)
    requires src != dst && (|rs| == 3 || |rs| == 4) && AllIn(rs, src.Length)
    requires AllSorted(Slices(src[..], rs))
    requires forall j :: 0 <= j < |rs| ==> rs[j].NotEmpty()
    requires 0 <= o && o + TotalSize(rs) <= dst.Length
    modifies dst
    ensures r == o + TotalSize(rs)
    ensures dst[o..r] == StableSort(Flatten(Slices(src[..], rs)))
    ensures UnchangedOutside(dst, o, r)
  {
    ghost var s := src[..];
    ghost var cs := Slices(s, rs);
    ghost var goal := StableSort(Flatten(cs));
    FlattenSlicesLength(s, rs);
    StableSortPermutation(Flatten(cs));
    SlicesHeads(src, rs);
    var pos := InitialOrder(src, rs, |rs|, cs);
    MergingStart(s, rs, pos);
    var k, cur, npos;
    ghost var cs', done;
    k, cur, pos, npos, cs', done := TakeHeads(dst, o, src, s, rs, pos, |rs|, cs, goal);
    r := MergeLastTwo(dst, o, k, src, s, cur, pos, npos, cs', done, goal);
  }

  /**
   * `full_merge4(it_dest, R, NR)`: merges the sorted ranges `rs` (the
   * first `NR` of `R`) of `src` into `dst` from `o` on and returns the end
   * of the output. The result is the stable sort of the ranges' contents
   * taken in range order: on equal keys the lower range index comes first.
   * With three or four ranges their heads are read before any test, so
   * they must hold elements.
   */
  method FullMerge4(dst: array<Elem>, o: int, src: array<Elem>, rs: seq<Range>) returns (r: int)
    requires src != dst && |rs| <= 4 && AllIn(rs, src.Length)
    requires AllSorted(Slices(src[..], rs))
    requires |rs| >= 3 ==> forall j :: 0 <= j < |rs| ==> rs[j].NotEmpty()
    requires 0 <= o && o + TotalSize(rs) <= dst.Length
    modifies dst
    ensures r == o + TotalSize(rs)
    ensures dst[o..r] == StableSort(Flatten(Slices(src[..], rs)))
    ensures UnchangedOutside(dst, o, r)
  {
    ghost var cs := Slices(src[..], rs);
    FlattenSlicesLength(src[..], rs);
    if |rs| == 0 {
      r := o;
    } else if |rs| == 1 {
      FlattenSmall(cs);
      r := Move(dst, o, src, rs[0]);
      StableSortOfSorted(cs[0]);
    } else if |rs| == 2 {
      FlattenSmall(cs);
      r := FullMerge(dst, o, src, rs[0], rs[1]);
      MergeIsStableSort(cs[0], cs[1]);
    } else {
      r := MergeByHeads(dst, o, src, rs);
    }
  }

  /**
   * `uninit_full_merge4(it_dest, R, NR)`: `full_merge4` into storage that
   * held no objects. Constructing an object in place is a plain write here,
   * so the three- and four-range case is the same loop.
   */
  method UninitFullMerge4(dst: array<Elem>, o: int, src: array<Elem>, rs: seq<Range>) returns (r: int)
    requires src != dst && |rs| <= 4 && AllIn(rs, src.Length)
    requires AllSorted(Slices(src[..], rs))
    requires |rs| >= 3 ==> forall j :: 0 <= j < |rs| ==> rs[j].NotEmpty()
    requires 0 <= o && o + TotalSize(rs) <= dst.Length
    modifies dst
    ensures r == o + TotalSize(rs)
    ensures dst[o..r] == StableSort(Flatten(Slices(src[..], rs)))
    ensures UnchangedOutside(dst, o, r)
  {
    ghost var cs := Slices(src[..], rs);
    FlattenSlicesLength(src[..], rs);
    if |rs| == 0 {
      r := o;
    } else if |rs| == 1 {
      FlattenSmall(cs);
      r := UninitMove(dst, o, src, rs[0]);
      StableSortOfSorted(cs[0]);
    } else if |rs| == 2 {
      FlattenSmall(cs);
      r := UninitFullMerge(dst, o, src, rs[0], rs[1]);
      MergeIsStableSort(cs[0], cs[1]);
    } else {
      r := MergeByHeads(dst, o, src, rs);
    }
  }
}
