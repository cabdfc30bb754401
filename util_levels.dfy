// util `merge_level4`, `uninit_merge_level4` and `merge_vector4`: a vector
// of sorted ranges merged four at a time, level after level, between two
// buffers, until one sorted range is left.

module MergeLevels {
  import opened Order
  import opened Arrays
  import opened Runs
  import opened UtilRange

  // ---------------------------------------------------------------------
  // How one level groups its ranges
  // ---------------------------------------------------------------------

  /**
   * `Nelem` of `merge_level4`: with `n` ranges left, `m = Nmerge = (n + 3) >> 2`
   * groups remain to be made and the next one takes `n / m` ranges,
   * rounded up. Written by comparisons, which keeps it linear;
   * `GroupSizeIsNelem` shows it is the source's `(n + m - 1) / m`.
   */
  function GroupSize(n: int): (e: int)
    requires n > 0
    ensures 1 <= e <= 4 && e <= n
  {
    var m := (n + 3) / 4;
    if n <= m then 1 else if n <= 2 * m then 2 else if n <= 3 * m then 3 else 4
  }

  /**
   * The group size is `n / Nmerge` rounded up, as `merge_level4` computes
   * it: the least group size whose `Nmerge` groups cover the `n` ranges,
   * which is not always `min(4, n)` (five ranges go in groups of three).
   */
  lemma GroupSizeIsNelem(n: int, nmerge: int, nelem: int)
    requires n > 0 && nmerge == (n + 3) / 4 && nelem == (n + nmerge - 1) / nmerge
    ensures nelem == GroupSize(n)
    ensures (nelem - 1) * nmerge < n <= nelem * nmerge
    ensures n == 5 ==> nelem == 3
  {
    var e := GroupSize(n);
    DivMul(n + nmerge - 1, nmerge);
    assert (e - 1) * nmerge < n <= e * nmerge;
    if nelem < e {
      MulLe(nelem, e - 1, nmerge);
    } else if nelem > e {
      MulLe(e + 1, nelem, nmerge);
    }
  }

  /**
   * After one group is taken from `n` ranges, one group fewer remains to
   * be made: the level makes exactly `(n + 3) / 4` groups.
   */
  lemma GroupStep(n: int)
    requires n > 0
    ensures (n - GroupSize(n) + 3) / 4 == (n + 3) / 4 - 1
  {
  }

  /**
   * What one level makes of the runs `cs[p..]`: consecutive groups of
   * `GroupSize` runs, each replaced by the stable sort of its contents.
   */
  function MergedGroupsFrom(cs: seq<seq<Elem>>, p: int): seq<seq<Elem>>
    requires 0 <= p <= |cs|
    decreases |cs| - p
  {
    if p == |cs| then []
    else
      var e := GroupSize(|cs| - p);
      [StableSort(Flatten(cs[p..p + e]))] + MergedGroupsFrom(cs, p + e)
  }

  /** What one level makes of the runs `cs`. */
  function MergedGroups(cs: seq<seq<Elem>>): seq<seq<Elem>>
  {
    MergedGroupsFrom(cs, 0)
  }

  lemma {:induction false} MergedGroupsFromCount(cs: seq<seq<Elem>>, p: int)
    requires 0 <= p <= |cs|
    ensures |MergedGroupsFrom(cs, p)| == (|cs| - p + 3) / 4
    decreases |cs| - p
  {
    if p < |cs| {
      GroupStep(|cs| - p);
      MergedGroupsFromCount(cs, p + GroupSize(|cs| - p));
    }
  }

  /** A level turns `n` runs into `(n + 3) / 4` runs: ten into three. */
  lemma {:induction false} MergedGroupsCount(cs: seq<seq<Elem>>)
    ensures |MergedGroups(cs)| == (|cs| + 3) / 4
  {
    MergedGroupsFromCount(cs, 0);
  }

  /**
   * The runs a level makes, taken in order, hold the equivalent elements
   * of its input in the input's order.
   */
  lemma {:induction false} MergedGroupsKeyOrder(cs: seq<seq<Elem>>, p: int)
    requires 0 <= p <= |cs|
    ensures SameKeyOrder(Flatten(MergedGroupsFrom(cs, p)), Flatten(cs[p..]))
    decreases |cs| - p
  {
    if p < |cs| {
      var e := GroupSize(|cs| - p);
      var g := StableSort(Flatten(cs[p..p + e]));
      MergedGroupsKeyOrder(cs, p + e);
      StableSortIsStableSortOf(Flatten(cs[p..p + e]));
      SameKeyOrderConcat(g, Flatten(cs[p..p + e]), Flatten(MergedGroupsFrom(cs, p + e)), Flatten(cs[p + e..]));
      FlattenAppend([g], MergedGroupsFrom(cs, p + e));
      assert Flatten([g]) == g + Flatten([]);
      FlattenAppend(cs[p..p + e], cs[p + e..]);
      assert cs[p..p + e] + cs[p + e..] == cs[p..];
    }
  }

  /** Every run a level makes is sorted. */
  lemma {:induction false} MergedGroupsSorted(cs: seq<seq<Elem>>, p: int)
    requires 0 <= p <= |cs|
    ensures AllSorted(MergedGroupsFrom(cs, p))
    decreases |cs| - p
  {
    if p < |cs| {
      var e := GroupSize(|cs| - p);
      StableSortSorted(Flatten(cs[p..p + e]));
      MergedGroupsSorted(cs, p + e);
    }
  }

  /** Runs that all hold elements give groups that all hold elements. */
  lemma {:induction false} MergedGroupsNonEmpty(cs: seq<seq<Elem>>, p: int)
    requires 0 <= p <= |cs| && forall j :: 0 <= j < |cs| ==> cs[j] != []
    ensures forall j :: 0 <= j < |MergedGroupsFrom(cs, p)| ==> MergedGroupsFrom(cs, p)[j] != []
    decreases |cs| - p
  {
    if p < |cs| {
      var e := GroupSize(|cs| - p);
      FlattenSplit(cs[p..p + e], 0);
      StableSortPermutation(Flatten(cs[p..p + e]));
      MergedGroupsNonEmpty(cs, p + e);
    }
  }

  /**
   * Merging level by level sorts like one stable sort: the stable sort of
   * a level's output is the stable sort of its input.
   */
  lemma {:induction false} LevelIsStable(cs: seq<seq<Elem>>)
    ensures StableSort(Flatten(MergedGroups(cs))) == StableSort(Flatten(cs))
    ensures |Flatten(MergedGroups(cs))| == |Flatten(cs)|
  {
    MergedGroupsKeyOrder(cs, 0);
    assert cs[0..] == cs;
    SameKeyOrderStableSort(Flatten(MergedGroups(cs)), Flatten(cs));
    StableSortPermutation(Flatten(MergedGroups(cs)));
    StableSortPermutation(Flatten(cs));
  }

  /** A single sorted run passes through a level unchanged. */
  lemma {:induction false} MergedGroupsOne(c: seq<Elem>)
    requires Sorted(c)
    ensures MergedGroups([c]) == [c]
  {
    StableSortOfSorted(c);
    assert GroupSize(1) == 1;
    assert [c][0..1] == [c];
    assert Flatten([c]) == c by {
      assert Flatten([c]) == c + Flatten([c][1..]);
    }
    assert MergedGroupsFrom([c], 1) == [];
  }

  // ---------------------------------------------------------------------
  // Ranges laid out one after the other
  // ---------------------------------------------------------------------

  /** The ranges `vs` cover [lo, hi) one after the other, without gaps. */
  predicate Tiles(vs: seq<Range>, lo: int, hi: int)
    decreases |vs|
  {
    if vs == [] then lo == hi
    else vs[0].first == lo && lo <= vs[0].last && Tiles(vs[1..], vs[0].last, hi)
  }

  lemma {:induction false} TilesAppend(vs: seq<Range>, lo: int, mid: int, hi: int)
    requires Tiles(vs, lo, mid) && mid <= hi
    ensures Tiles(vs + [Range(mid, hi)], lo, hi)
    decreases |vs|
  {
    if vs != [] {
      TilesAppend(vs[1..], vs[0].last, mid, hi);
      assert (vs + [Range(mid, hi)])[1..] == vs[1..] + [Range(mid, hi)];
    }
  }

  /** Tiling ranges stay inside [lo, hi) and add up to its length. */
  lemma {:induction false} TilesBounds(vs: seq<Range>, lo: int, hi: int)
    requires Tiles(vs, lo, hi)
    ensures lo <= hi && TotalSize(vs) == hi - lo
    ensures forall j :: 0 <= j < |vs| ==> lo <= vs[j].first <= vs[j].last <= hi
    decreases |vs|
  {
    if vs != [] {
      TilesBounds(vs[1..], vs[0].last, hi);
      forall j | 1 <= j < |vs|
        ensures vs[0].last <= vs[j].first
      {
        assert vs[j] == vs[1..][j - 1];
      }
    }
  }

  /**
   * When `s[lo..hi]` is the runs `done` one after the other and the tiling
   * ranges have their lengths, the ranges hold exactly those runs.
   */
  lemma {:induction false} TilesSlices(s: seq<Elem>, vs: seq<Range>, lo: int, hi: int, done: seq<seq<Elem>>)
    requires Tiles(vs, lo, hi) && 0 <= lo <= hi <= |s| && AllIn(vs, |s|)
    requires |done| == |vs| && forall g :: 0 <= g < |vs| ==> vs[g].Size() == |done[g]|
    requires s[lo..hi] == Flatten(done)
    ensures Slices(s, vs) == done
    decreases |vs|
  {
    if vs != [] {
      var mid := vs[0].last;
      TilesBounds(vs[1..], mid, hi);
      assert s[lo..hi] == s[lo..mid] + s[mid..hi];
      assert Flatten(done) == done[0] + Flatten(done[1..]);
      assert |s[lo..mid]| == |done[0]|;
      assert s[lo..mid] == s[lo..hi][..mid - lo];
      assert (done[0] + Flatten(done[1..]))[..|done[0]|] == done[0];
      assert s[mid..hi] == s[lo..hi][mid - lo..];
      assert (done[0] + Flatten(done[1..]))[|done[0]|..] == Flatten(done[1..]);
      TilesSlices(s, vs[1..], mid, hi, done[1..]);
    }
  }

  /** The elements of the ranges `rs` counted in two parts. */
  lemma {:induction false} TotalSizeSplit(rs: seq<Range>, e: int)
    requires 0 <= e <= |rs|
    ensures TotalSize(rs) == TotalSize(rs[..e]) + TotalSize(rs[e..])
    decreases e
  {
    if e > 0 {
      TotalSizeSplit(rs[1..], e - 1);
      assert rs[1..][..e - 1] == rs[..e][1..];
      assert rs[1..][e - 1..] == rs[e..];
    }
  }

  /** Every range of `rs` holds at least one element. */
  predicate NoneEmpty(rs: seq<Range>) {
    forall j :: 0 <= j < |rs| ==> rs[j].NotEmpty()
  }

  /** The ranges `rs[a..b]` hold the runs `a` to `b` of the ranges `rs`, and keep their properties. */
  lemma {:induction false} SubRanges(s: seq<Elem>, rs: seq<Range>, a: int, b: int)
    requires AllIn(rs, |s|) && AllSorted(Slices(s, rs)) && NoneEmpty(rs) && 0 <= a <= b <= |rs|
    ensures AllIn(rs[a..b], |s|) && Slices(s, rs)[a..b] == Slices(s, rs[a..b])
    ensures AllSorted(Slices(s, rs[a..b])) && NoneEmpty(rs[a..b]) && TotalSize(rs[a..b]) >= 0
  {
    assert forall j :: 0 <= j < b - a ==> rs[a..b][j] == rs[a + j];
  }

  // The loop of `merge_level4` keeps four facts before the group at
  // `posIni`: on the sizes, on the tiling of the output ranges, on their
  // lengths and on the runs merged so far.

  /** `out` has advanced past the elements of the ranges before `posIni`. */
  ghost predicate SizesInv(vin: seq<Range>, n: int, o: int, posIni: int, out: int) {
    AllIn(vin, n) && NoneEmpty(vin) && 0 <= posIni <= |vin| && o <= out
    && out + TotalSize(vin[posIni..]) == o + TotalSize(vin) && TotalSize(vin[posIni..]) >= 0
  }

  /** Each output range in `vout` is as long as its run in `done`. */
  predicate LengthsMatch(vout: seq<Range>, done: seq<seq<Elem>>) {
    |vout| == |done| && forall g :: 0 <= g < |vout| ==> vout[g].Size() == |done[g]|
  }

  /** The runs `done` merged so far, then the groups from `p` on, make the level's output `all`. */
  ghost predicate RunsInv(cs: seq<seq<Elem>>, p: int, done: seq<seq<Elem>>, all: seq<seq<Elem>>) {
    0 <= p <= |cs| && done + MergedGroupsFrom(cs, p) == all
  }

  /** The next group of a level is a valid input for `full_merge4` and fits. */
  lemma {:induction false} GroupFacts(s: seq<Elem>, vin: seq<Range>, o: int, posIni: int, out: int,
                                      nrange: int, next: int)
    requires SizesInv(vin, |s|, o, posIni, out) && AllSorted(Slices(s, vin))
    requires posIni < |vin| && nrange == |vin| - posIni && next == posIni + GroupSize(nrange)
    ensures posIni < next <= |vin|
    ensures AllIn(vin[posIni..next], |s|) && AllSorted(Slices(s, vin[posIni..next]))
    ensures NoneEmpty(vin[posIni..next]) && |vin[posIni..next]| <= 4
    ensures out + TotalSize(vin[posIni..next]) <= o + TotalSize(vin)
  {
    LevelSizes(vin, posIni, next - posIni, |s|);
    SubRanges(s, vin, posIni, next);
  }

  lemma {:induction false} SizesStep(vin: seq<Range>, n: int, o: int, posIni: int, out: int, next: int, aux: int)
    requires SizesInv(vin, n, o, posIni, out) && posIni <= next <= |vin|
    requires aux == out + TotalSize(vin[posIni..next])
    ensures SizesInv(vin, n, o, next, aux)
  {
    LevelSizes(vin, posIni, next - posIni, n);
  }

  lemma {:induction false} SizesEnd(vin: seq<Range>, n: int, o: int, out: int)
    requires SizesInv(vin, n, o, |vin|, out)
    ensures out == o + TotalSize(vin)
  {
    assert vin[|vin|..] == [];
  }

  lemma LengthsStep(vout: seq<Range>, done: seq<seq<Elem>>, r: Range, m: seq<Elem>)
    requires LengthsMatch(vout, done) && r.Size() == |m|
    ensures LengthsMatch(vout + [r], done + [m])
  {
  }

  lemma {:induction false} RunsStep(cs: seq<seq<Elem>>, posIni: int, nrange: int, next: int, g: seq<seq<Elem>>, m: seq<Elem>,
                                    done: seq<seq<Elem>>, done': seq<seq<Elem>>, all: seq<seq<Elem>>)
    requires RunsInv(cs, posIni, done, all) && posIni < |cs|
    requires nrange == |cs| - posIni && next == posIni + GroupSize(nrange)
    requires next <= |cs| && g == cs[posIni..next] && m == StableSort(Flatten(g)) && done' == done + [m]
    ensures RunsInv(cs, next, done', all)
  {
    MergedGroupsUnfold(cs, posIni, nrange, next);
    AppendOneAssoc(done, m, MergedGroupsFrom(cs, next));
  }

  lemma {:induction false} RunsEnd(cs: seq<seq<Elem>>, done: seq<seq<Elem>>, all: seq<seq<Elem>>)
    requires RunsInv(cs, |cs|, done, all)
    ensures done == all
  {
    assert MergedGroupsFrom(cs, |cs|) == [];
  }

  lemma {:induction false} MergedGroupsUnfold(cs: seq<seq<Elem>>, p: int, nrange: int, next: int)
    requires 0 <= p < |cs| && nrange == |cs| - p && next == p + GroupSize(nrange)
    ensures next <= |cs| && MergedGroupsFrom(cs, p) == [StableSort(Flatten(cs[p..next]))] + MergedGroupsFrom(cs, next)
  {
  }

  lemma AppendOneAssoc<T>(xs: seq<T>, x: T, ys: seq<T>)
    ensures (xs + [x]) + ys == xs + ([x] + ys)
  {
  }

  /** The runs of a group are the corresponding runs of the level. */
  lemma {:induction false} GroupRuns(s: seq<Elem>, vin: seq<Range>, cs: seq<seq<Elem>>, a: int, b: int)
    requires AllIn(vin, |s|) && cs == Slices(s, vin) && 0 <= a <= b <= |vin|
    ensures |cs| == |vin| && AllIn(vin[a..b], |s|) && cs[a..b] == Slices(s, vin[a..b])
  {
    assert forall j :: 0 <= j < b - a ==> vin[a..b][j] == vin[a + j];
  }

  /** A merged group holds as many elements as its ranges. */
  lemma {:induction false} GroupLength(s: seq<Elem>, group: seq<Range>)
    requires AllIn(group, |s|)
    ensures |StableSort(Flatten(Slices(s, group)))| == TotalSize(group)
  {
    FlattenSlicesLength(s, group);
    StableSortPermutation(Flatten(Slices(s, group)));
  }

  /** One pass of the loop of `merge_level4` on the sizes of the ranges. */
  lemma {:induction false} LevelSizes(vin: seq<Range>, posIni: int, e: int, n: int)
    requires AllIn(vin, n) && 0 <= posIni <= posIni + e <= |vin|
    ensures TotalSize(vin[posIni..]) == TotalSize(vin[posIni..posIni + e]) + TotalSize(vin[posIni + e..])
    ensures TotalSize(vin[posIni..posIni + e]) >= 0 && TotalSize(vin[posIni + e..]) >= 0
  {
    var rest := vin[posIni..];
    TotalSizeSplit(rest, e);
    assert rest[..e] == vin[posIni..posIni + e];
    assert rest[e..] == vin[posIni + e..];
    assert forall j :: 0 <= j < |rest| ==> rest[j] == vin[posIni + j];
  }

  // ---------------------------------------------------------------------
  // merge_level4 and uninit_merge_level4
  // ---------------------------------------------------------------------

  /** The `Nmerge` and `Nelem` computation of one pass of `merge_level4`. */
  method NextGroupSize(nrange: int) returns (nelem: int)
    requires nrange > 0
    ensures nelem == GroupSize(nrange)
  {
    // `>> 2` of a count is a division by four
    var nmerge := (nrange + 3) / 4;
    nelem := (nrange + nmerge - 1) / nmerge;
    GroupSizeIsNelem(nrange, nmerge, nelem);
  }

  /**
   * One `full_merge4` of a level: the ranges `group` of `src` merged into
   * `dst` at `out`, right after the runs `done` laid out from `o`.
   */
  method MergeNextGroup(dst: array<Elem>, o: int, out: int, src: array<Elem>, group: seq<Range>,
                        uninit: bool, ghost done: seq<seq<Elem>>) returns (aux: int)
    requires src != dst && |group| <= 4 && AllIn(group, src.Length)
    requires AllSorted(Slices(src[..], group)) && NoneEmpty(group)
    requires 0 <= o <= out && out + TotalSize(group) <= dst.Length && dst[o..out] == Flatten(done)
    modifies dst
    ensures aux == out + TotalSize(group)
    ensures dst[o..aux] == Flatten(done + [StableSort(Flatten(Slices(src[..], group)))])
    ensures UnchangedOutside(dst, out, aux)
  {
    ghost var before := dst[..];
    if uninit {
      aux := UninitFullMerge4(dst, out, src, group);
    } else {
      aux := FullMerge4(dst, out, src, group);
    }
    ghost var m := StableSort(Flatten(Slices(src[..], group)));
    KeptSlice(before, dst[..], o, out, out, aux);
    Glue(dst[..], o, out, aux, Flatten(done), m);
    FlattenAppend(done, [m]);
    assert Flatten([m]) == m + Flatten([]);
  }

  /**
   * One pass of the loop of `merge_level4`: the next `Nelem` ranges of
   * `vin`, from `posIni` on, are merged into `dst` at `out`.
   */
  method LevelPass(dst: array<Elem>, o: int, src: array<Elem>, vin: seq<Range>, uninit: bool,
                   ghost s: seq<Elem>, ghost cs: seq<seq<Elem>>, ghost all: seq<seq<Elem>>,
                   nrange: int, posIni: int, out: int, ghost done: seq<seq<Elem>>, vout: seq<Range>)
    returns (nrange': int, posIni': int, out': int, ghost done': seq<seq<Elem>>, vout': seq<Range>)
    requires src != dst && src[..] == s && 0 <= o && o + TotalSize(vin) <= dst.Length
    requires SizesInv(vin, |s|, o, posIni, out) && cs == Slices(s, vin) && AllSorted(cs)
    requires Tiles(vout, o, out) && LengthsMatch(vout, done) && RunsInv(cs, posIni, done, all)
    requires posIni < |vin| && nrange == |vin| - posIni && dst[o..out] == Flatten(done)
    modifies dst
    ensures SizesInv(vin, |s|, o, posIni', out')
    ensures Tiles(vout', o, out') && LengthsMatch(vout', done') && RunsInv(cs, posIni', done', all)
    ensures posIni < posIni' && nrange' == |vin| - posIni' && out <= out'
    ensures dst[o..out'] == Flatten(done')
    ensures UnchangedOutside(dst, out, out')
  {
    var nelem := NextGroupSize(nrange);
    posIni' := posIni + nelem;
    GroupFacts(s, vin, o, posIni, out, nrange, posIni');
    nrange' := nrange - nelem;
    var group := vin[posIni..posIni'];
    ghost var g := Slices(s, group);
    ghost var m := StableSort(Flatten(g));
    done' := done + [m];
    GroupRuns(s, vin, cs, posIni, posIni');
    RunsStep(cs, posIni, nrange, posIni', g, m, done, done', all);
    GroupLength(s, group);
    out' := MergeNextGroup(dst, o, out, src, group, uninit, done);
    vout' := vout + [Range(out, out')];
    SizesStep(vin, |s|, o, posIni, out, posIni', out');
    TilesAppend(vout, o, out, out');
    LengthsStep(vout, done, Range(out, out'), m);
  }

  /**
   * The loop of `merge_level4` (`uninit` false) and `uninit_merge_level4`
   * (`uninit` true): each group of ranges of `src` is merged by
   * `full_merge4` into `dst` after the previous one, and its output range
   * appended to `vout`.
   */
  method MergeGroups(dst: array<Elem>, o: int, src: array<Elem>, vin: seq<Range>, uninit: bool)
    returns (r: int, vout: seq<Range>)
    requires src != dst && AllIn(vin, src.Length) && AllSorted(Slices(src[..], vin)) && NoneEmpty(vin)
    requires 0 <= o && o + TotalSize(vin) <= dst.Length
    modifies dst
    ensures r == o + TotalSize(vin) && Tiles(vout, o, r) && AllIn(vout, dst.Length)
    ensures Slices(dst[..], vout) == MergedGroups(Slices(src[..], vin))
    ensures UnchangedOutside(dst, o, r)
  {
    ghost var s := src[..];
    ghost var cs := Slices(s, vin);
    ghost var all := MergedGroups(cs);
    ghost var done: seq<seq<Elem>> := [];
    vout := [];
    var out := o;
    var nrange := |vin|;
    var posIni := 0;
    assert vin[0..] == vin;
    while posIni < |vin|
      invariant SizesInv(vin, |s|, o, posIni, out)
      invariant Tiles(vout, o, out) && LengthsMatch(vout, done) && RunsInv(cs, posIni, done, all)
      invariant nrange == |vin| - posIni && src[..] == s
      invariant dst[o..out] == Flatten(done)
      invariant UnchangedOutside(dst, o, out)
      decreases |vin| - posIni
    {
      nrange, posIni, out, done, vout :=
        LevelPass(dst, o, src, vin, uninit, s, cs, all, nrange, posIni, out, done, vout);
    }
    SizesEnd(vin, |s|, o, out);
    RunsEnd(cs, done, all);
    TilesBounds(vout, o, out);
    TilesSlices(dst[..], vout, o, out, done);
    r := out;
  }

  /**
   * `merge_level4(it_dest, Vin, Vout)`: merges the sorted ranges `vin` of
   * `src` four at a time into `dst` from `o` on. The output ranges `vout`
   * lie one after the other from `o` to the returned end, there are
   * `(|vin| + 3) / 4` of them, and each holds the stable sort of its group.
   */
  method MergeLevel4(dst: array<Elem>, o: int, src: array<Elem>, vin: seq<Range>)
    returns (r: int, vout: seq<Range>)
    requires src != dst && AllIn(vin, src.Length) && AllSorted(Slices(src[..], vin)) && NoneEmpty(vin)
    requires 0 <= o && o + TotalSize(vin) <= dst.Length
    modifies dst
    ensures r == o + TotalSize(vin) && Tiles(vout, o, r) && AllIn(vout, dst.Length)
    ensures |vout| == (|vin| + 3) / 4
    ensures Slices(dst[..], vout) == MergedGroups(Slices(src[..], vin))
    ensures UnchangedOutside(dst, o, r)
  {
    MergedGroupsCount(Slices(src[..], vin));
    if |vin| == 0 {
      r, vout := o, [];
    } else if |vin| == 1 {
      r := Move(dst, o, src, vin[0]);
      vout := [Range(o, r)];
      MergedGroupsOne(src[vin[0].first..vin[0].last]);
      assert Slices(src[..], vin) == [src[vin[0].first..vin[0].last]];
    } else {
      r, vout := MergeGroups(dst, o, src, vin, false);
    }
  }

  /**
   * `uninit_merge_level4(it_dest, Vin, Vout)`: `merge_level4` into storage
   * that held no objects.
   */
  method UninitMergeLevel4(dst: array<Elem>, o: int, src: array<Elem>, vin: seq<Range>)
    returns (r: int, vout: seq<Range>)
    requires src != dst && AllIn(vin, src.Length) && AllSorted(Slices(src[..], vin)) && NoneEmpty(vin)
    requires 0 <= o && o + TotalSize(vin) <= dst.Length
    modifies dst
    ensures r == o + TotalSize(vin) && Tiles(vout, o, r) && AllIn(vout, dst.Length)
    ensures |vout| == (|vin| + 3) / 4
    ensures Slices(dst[..], vout) == MergedGroups(Slices(src[..], vin))
    ensures UnchangedOutside(dst, o, r)
  {
    MergedGroupsCount(Slices(src[..], vin));
    if |vin| == 0 {
      r, vout := o, [];
    } else if |vin| == 1 {
      r := UninitMove(dst, o, src, vin[0]);
      vout := [Range(o, r)];
      MergedGroupsOne(src[vin[0].first..vin[0].last]);
      assert Slices(src[..], vin) == [src[vin[0].first..vin[0].last]];
    } else {
      r, vout := MergeGroups(dst, o, src, vin, true);
    }
  }
}
