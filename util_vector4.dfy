/**
 * `merge_vector4` of util/range.hpp: the sorted ranges of a vector are
 * merged level after level by `merge_level4`, going back and forth between
 * two buffers, until a single range is left in the second buffer.
 */
module MergeVector
{
  import opened Order
  import opened Arrays
  import opened Runs
  import opened UtilRange
  import opened MergeLevels

  /**
   * The ranges `vs` of `s` are a valid input for a level of
   * `merge_level4`, hold `total` elements between them, and their runs
   * sort stably to `target`.
   */
  ghost predicate Holds(s: seq<Elem>, vs: seq<Range>, total: int, target: seq<Elem>)
  {
    AllIn(vs, |s|) && AllSorted(Slices(s, vs)) && NoneEmpty(vs) && TotalSize(vs) == total
    && StableSort(Flatten(Slices(s, vs))) == target
  }

  /** A range holds an element exactly when its run does. */
  lemma NoneEmptyRuns(s: seq<Elem>, vs: seq<Range>)
    requires AllIn(vs, |s|)
    ensures NoneEmpty(vs) <==> forall j :: 0 <= j < |vs| ==> Slices(s, vs)[j] != []
  {
    assert forall j :: 0 <= j < |vs| ==> |Slices(s, vs)[j]| == vs[j].Size();
  }

  /**
   * A level of `merge_level4` keeps `Holds`: its output ranges are sorted,
   * not empty, as large together as its input, and sort to the same runs.
   */
  lemma {:induction false} LevelKeeps(s: seq<Elem>, vin: seq<Range>, t: seq<Elem>, vout: seq<Range>,
                                      o: int, r: int, total: int, target: seq<Elem>)
    requires Holds(s, vin, total, target)
    requires r == o + TotalSize(vin) && Tiles(vout, o, r) && AllIn(vout, |t|)
    requires Slices(t, vout) == MergedGroups(Slices(s, vin))
    ensures Holds(t, vout, total, target) && Tiles(vout, o, o + total)
  {
    var cs := Slices(s, vin);
    NoneEmptyRuns(s, vin);
    MergedGroupsSorted(cs, 0);
    MergedGroupsNonEmpty(cs, 0);
    NoneEmptyRuns(t, vout);
    TilesBounds(vout, o, r);
    LevelIsStable(cs);
  }

  /** One sorted range that sorts to `target` holds exactly `target`. */
  lemma {:induction false} SingleHolds(s: seq<Elem>, v: Range, total: int, target: seq<Elem>)
    requires Holds(s, [v], total, target)
    ensures v.Size() == total && s[v.first..v.last] == target
  {
    var c := s[v.first..v.last];
    assert Slices(s, [v]) == [c];
    assert Flatten([c]) == c by {
      assert Flatten([c]) == c + Flatten([c][1..]);
    }
    StableSortOfSorted(c);
    assert TotalSize([v]) == v.Size() + TotalSize([v][1..]);
  }

  /** A single range tiling [lo, hi) is [lo, hi) itself. */
  lemma SingleTile(vs: seq<Range>, lo: int, hi: int)
    requires |vs| == 1 && Tiles(vs, lo, hi)
    ensures vs == [Range(lo, hi)]
  {
    assert Tiles(vs[1..], vs[0].last, hi);
  }

  /**
   * The number of ranges `Vout` holds when `merge_vector4`, as written,
   * returns after reaching the top of its loop with `Nrange == n`,
   * `SW == sw` and `k` ranges in `Vout`.
   */
  function FinalRanges(n: int, sw: bool, k: int): (c: int)
    decreases n
  {
    if n <= 1 then (if sw || n <= 0 then k else k + 1)
    else if sw then FinalRanges((n + 3) / 4, false, k)
    else FinalRanges((n + 3) / 4, true, (n + 3) / 4)
  }

  /** One level takes `n` ranges to `m`; `Vout` then holds `k'` ranges. */
  lemma FinalRangesLevel(n: int, sw: bool, k: int, m: int, k': int)
    requires n > 1 && m == (n + 3) / 4 && k' == (if sw then k else m)
    ensures FinalRanges(n, sw, k) == FinalRanges(m, !sw, k')
  {
  }

  /** The number of levels of `merge_level4` that bring `n` ranges down to one. */
  function Levels(n: int): (l: nat)
    decreases n
  {
    if n <= 1 then 0 else 1 + Levels((n + 3) / 4)
  }

  /**
   * `merge_vector4` as written leaves one range in `Vout` exactly when the
   * number of levels is odd; when it is even, the ranges of the level
   * before last stay in `Vout`, ahead of the final one.
   */
  lemma {:induction false} FinalRangesByLevels(n: int, k: int)
    requires n > 1
    ensures Levels(n) % 2 == 1 ==> FinalRanges(n, false, k) == 1
    ensures Levels(n) % 2 == 0 ==> FinalRanges(n, false, k) >= 3
    decreases n
  {
    var m := (n + 3) / 4;
    if m > 1 {
      var p := (m + 3) / 4;
      assert Levels(n) == 2 + Levels(p);
      if p > 1 {
        FinalRangesByLevels(p, m);
      }
    }
  }

  /** Five ranges take two levels, and `Vout` ends with three ranges. */
  lemma FiveRangesLeaveThree()
    ensures Levels(5) == 2 && FinalRanges(5, false, 0) == 3
  {
    assert Levels(2) == 1;
    assert FinalRanges(2, true, 2) == FinalRanges(1, false, 2);
  }

  /**
   * One level of `merge_vector4`: `merge_level4` from the ranges `vs` of
   * `src` into `dst` at `o`, which keeps `Holds`.
   */
  method Level(dst: array<Elem>, o: int, src: array<Elem>, vs: seq<Range>,
               ghost total: int, ghost target: seq<Elem>) returns (vs': seq<Range>)
    requires src != dst && Holds(src[..], vs, total, target) && 0 <= o && o + total <= dst.Length
    modifies dst
    ensures Holds(dst[..], vs', total, target) && Tiles(vs', o, o + total)
    ensures |vs'| == (|vs| + 3) / 4
    ensures UnchangedOutside(dst, o, o + total)
  {
    var r;
    r, vs' := MergeLevel4(dst, o, src, vs);
    LevelKeeps(src[..], vs, dst[..], vs', o, r, total, target);
  }

  /**
   * The loop of `merge_vector4` up to the point where a single range is
   * left: a level from the first buffer `a` into the second `b` while
   * `SW` is false, and back while it is true. When `sw` comes back true
   * the result lies in `b` from `f2` on and is the only range of `vout`;
   * when it comes back false the result is the one range `vin'` of `a`,
   * and `vout` holds what the last level into `b` left there.
   */
  method MergeRounds(a: array<Elem>, f1: int, b: array<Elem>, f2: int, vin: seq<Range>,
                     ghost target: seq<Elem>)
    returns (sw: bool, vin': seq<Range>, vout: seq<Range>)
    requires a != b && |vin| > 0 && Holds(a[..], vin, TotalSize(vin), target)
    requires 0 <= f1 && f1 + TotalSize(vin) <= a.Length && 0 <= f2 && f2 + TotalSize(vin) <= b.Length
    modifies a, b
    ensures sw ==> vout == [Range(f2, f2 + TotalSize(vin))] && b[f2..f2 + TotalSize(vin)] == target
    ensures !sw ==> |vin'| == 1
    ensures Holds(a[..], vin', TotalSize(vin), target)
    ensures FinalRanges(|vin|, false, 0) == FinalRanges(1, sw, |vout|)
    ensures UnchangedOutside(a, f1, f1 + TotalSize(vin)) && UnchangedOutside(b, f2, f2 + TotalSize(vin))
  {
    var total := TotalSize(vin);
    sw := false;
    vin' := vin;
    vout := [];
    var nrange := |vin|;
    while !sw || nrange > 1
      invariant nrange >= 1
      invariant !sw ==> |vin'| == nrange
      invariant Holds(a[..], vin', total, target)
      invariant sw ==> |vout| == nrange && Holds(b[..], vout, total, target) && Tiles(vout, f2, f2 + total)
      invariant FinalRanges(|vin|, false, 0) == FinalRanges(nrange, sw, |vout|)
      invariant UnchangedOutside(a, f1, f1 + total) && UnchangedOutside(b, f2, f2 + total)
      decreases nrange
    {
      if nrange == 1 {
        break;
      }
      if sw {
        vin' := Level(a, f1, b, vout, total, target);
        FinalRangesLevel(nrange, true, |vout|, |vin'|, |vout|);
        sw := false;
        nrange := |vin'|;
      } else {
        ghost var k := |vout|;
        vout := Level(b, f2, a, vin', total, target);
        FinalRangesLevel(nrange, false, k, |vout|, |vout|);
        sw := true;
        nrange := |vout|;
      }
    }
    if sw {
      SingleTile(vout, f2, f2 + total);
      SingleHolds(b[..], vout[0], total, target);
    }
  }

  /**
   * The last step of `merge_vector4` when the result lies in the first
   * buffer: its one range `v` is moved to the second buffer at `f2`.
   */
  method MoveResult(b: array<Elem>, f2: int, a: array<Elem>, v: Range, ghost total: int,
                    ghost target: seq<Elem>) returns (e: int)
    requires a != b && Holds(a[..], [v], total, target) && 0 <= f2 && f2 + total <= b.Length
    modifies b
    ensures e == f2 + total && b[f2..e] == target
    ensures UnchangedOutside(b, f2, e)
  {
    SingleHolds(a[..], v, total, target);
    e := Move(b, f2, a, v);
  }

  /**
   * `merge_vector4(first1, first2, Vin, Vout)`: merges the sorted ranges
   * `vin` of the buffer `a` into a single range of the buffer `b` starting
   * at `f2`, which holds their stable sort and is all of `vout`. Levels
   * into `a` write from `f1` on. `Vout` is emptied before the final range
   * goes in (see the findings of the README). `vin'` is what `Vin` holds on
   * return: the sorted ranges of `a` that the last level read (the one
   * range of the result, when that level wrote into `a`), whose stable
   * sort is again the result.
   */
  method MergeVector4(a: array<Elem>, f1: int, b: array<Elem>, f2: int, vin: seq<Range>)
    returns (vin': seq<Range>, vout: seq<Range>)
    requires a != b && AllIn(vin, a.Length) && AllSorted(Slices(a[..], vin)) && NoneEmpty(vin)
    requires 0 <= f1 && f1 + TotalSize(vin) <= a.Length && 0 <= f2 && f2 + TotalSize(vin) <= b.Length
    modifies a, b
    ensures |vin| == 0 ==> vout == []
    ensures |vin| > 0 ==> vout == [Range(f2, f2 + TotalSize(vin))]
    ensures b[f2..f2 + TotalSize(vin)] == StableSort(Flatten(Slices(old(a[..]), vin)))
    ensures |vin| == 0 ==> vin' == []
    ensures |vin| > 0 ==> Holds(a[..], vin', TotalSize(vin), StableSort(Flatten(Slices(old(a[..]), vin))))
    ensures UnchangedOutside(a, f1, f1 + TotalSize(vin)) && UnchangedOutside(b, f2, f2 + TotalSize(vin))
  {
    vin' := vin;
    vout := [];
    if |vin| == 0 {
      return;
    }
    ghost var target := StableSort(Flatten(Slices(a[..], vin)));
    var sw;
    sw, vin', vout := MergeRounds(a, f1, b, f2, vin, target);
    if !sw {
      assert vin' == [vin'[0]];
      var e := MoveResult(b, f2, a, vin'[0], TotalSize(vin), target);
      vout := [Range(f2, e)];
    }
  }

  /**
   * `merge_vector4` as the source writes it: when the last level went into
   * `a`, the final range is appended to `Vout` without emptying it, so
   * `vout` ends with the result but holds `FinalRanges` ranges.
   */
  method MergeVector4AsWritten(a: array<Elem>, f1: int, b: array<Elem>, f2: int, vin: seq<Range>)
    returns (vin': seq<Range>, vout: seq<Range>)
    requires a != b && AllIn(vin, a.Length) && AllSorted(Slices(a[..], vin)) && NoneEmpty(vin)
    requires 0 <= f1 && f1 + TotalSize(vin) <= a.Length && 0 <= f2 && f2 + TotalSize(vin) <= b.Length
    modifies a, b
    ensures |vout| == FinalRanges(|vin|, false, 0)
    ensures |vin| > 0 ==> |vout| > 0 && vout[|vout| - 1] == Range(f2, f2 + TotalSize(vin))
    ensures b[f2..f2 + TotalSize(vin)] == StableSort(Flatten(Slices(old(a[..]), vin)))
    ensures UnchangedOutside(a, f1, f1 + TotalSize(vin)) && UnchangedOutside(b, f2, f2 + TotalSize(vin))
  {
    vin' := vin;
    vout := [];
    if |vin| == 0 {
      return;
    }
    ghost var target := StableSort(Flatten(Slices(a[..], vin)));
    var sw;
    sw, vin', vout := MergeRounds(a, f1, b, f2, vin, target);
    if !sw {
      assert vin' == [vin'[0]];
      var e := MoveResult(b, f2, a, vin'[0], TotalSize(vin), target);
      vout := vout + [Range(f2, e)];
    }
  }
}
