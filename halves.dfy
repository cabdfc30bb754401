/**
 * The halving shared by the merge sorts (`range_sort`, `full_sort_internal`
 * and its relatives, `merge_sort_internal`): a range of `n` elements splits
 * into a front of `ceil(n/2)` and a rear of `floor(n/2)`. With it, the
 * frame of a step that writes two ranges of one array, stated on the
 * array's contents.
 */
module Halves {
  import opened Order
  import opened Arrays
  import opened DetailRange
  import InsertionSort
  import Buffer

  /** The first half the merge sorts cut from a range: `ceil(n/2)` elements. */
  function Front(r: Range): (h: Range)
    requires r.Valid()
    ensures h.first == r.first && h.Size() == (r.Size() + 1) / 2 && h.last <= r.last
  {
    Range(r.first, r.first + (r.Size() + 1) / 2)
  }

  /** The second half the merge sorts cut from a range: `floor(n/2)` elements. */
  function Rear(r: Range): (h: Range)
    requires r.Valid()
    ensures h.last == r.last && h.first == Front(r).last && h.Size() == r.Size() / 2
  {
    Range(r.first + (r.Size() + 1) / 2, r.last)
  }

  /** `t` agrees with `s` outside the ranges `r1` and `r2`. */
  ghost predicate KeptOutside(t: seq<Elem>, s: seq<Elem>, r1: Range, r2: Range)
  {
    |t| == |s| && forall i :: 0 <= i < |s| && !(r1.first <= i < r1.last) && !(r2.first <= i < r2.last) ==> t[i] == s[i]
  }

  /** A range that misses both changed ranges reads the same in both states. */
  lemma KeptRange(t: seq<Elem>, s: seq<Elem>, r1: Range, r2: Range, r: Range)
    requires KeptOutside(t, s, r1, r2) && r.In(|s|)
    requires Disjoint(r.first, r.last, r1.first, r1.last) && Disjoint(r.first, r.last, r2.first, r2.last)
    ensures t[r.first..r.last] == s[r.first..r.last]
  {
  }

  /** Two steps that each change only halves of `ra` and `rb` together change only `ra` and `rb`. */
  lemma KeptCompose(u: seq<Elem>, t: seq<Elem>, s: seq<Elem>, ra: Range, rb: Range,
                    p1: Range, q1: Range, p2: Range, q2: Range)
    requires KeptOutside(u, t, p2, q2) && KeptOutside(t, s, p1, q1)
    requires ra.first <= p1.first && p1.last <= ra.last && ra.first <= p2.first && p2.last <= ra.last
    requires rb.first <= q1.first && q1.last <= rb.last && rb.first <= q2.first && q2.last <= rb.last
    ensures KeptOutside(u, s, ra, rb)
  {
  }

  /** Changes confined to the same two ranges compose. */
  lemma KeptTrans(u: seq<Elem>, t: seq<Elem>, s: seq<Elem>, r1: Range, r2: Range)
    requires KeptOutside(u, t, r1, r2) && KeptOutside(t, s, r1, r2)
    ensures KeptOutside(u, s, r1, r2)
  {
  }

  /**
   * The bottom level of the merge sorts: both halves of `ra` are
   * insertion-sorted where they are.
   */
  method SortLeaves(x: array<Elem>, ra: Range)
    requires ra.In(x.Length)
    modifies x
    ensures x[ra.first..Front(ra).last] == StableSort(old(x[ra.first..Front(ra).last]))
    ensures x[Rear(ra).first..ra.last] == StableSort(old(x[Rear(ra).first..ra.last]))
    ensures UnchangedOutside(x, ra.first, ra.last)
  {
    var a1, a2 := Front(ra), Rear(ra);
    ghost var xs := x[..];
    InsertionSort.InsertionSort(x, a1.first, a1.last);
    ghost var x1 := x[..];
    KeptSlice(x1, xs, a2.first, a2.last, a1.first, a1.last);
    InsertionSort.InsertionSort(x, a2.first, a2.last);
    KeptSlice(x[..], x1, a1.first, a1.last, a2.first, a2.last);
  }

  /**
   * The closing `full_merge` of the merge sorts within one array: the
   * sorted halves of `ra` merge into the disjoint range `rb`.
   */
  method MergeHalvesWithin(a: array<Elem>, ra: Range, rb: Range, ghost d1: seq<Elem>, ghost d2: seq<Elem>)
    requires ra.In(a.Length) && rb.In(a.Length) && ra.Size() == rb.Size()
    requires Disjoint(ra.first, ra.last, rb.first, rb.last)
    requires a[ra.first..Front(ra).last] == StableSort(d1) && a[Rear(ra).first..ra.last] == StableSort(d2)
    modifies a
    ensures a[rb.first..rb.last] == StableSort(d1 + d2)
    ensures KeptOutside(a[..], old(a[..]), ra, rb)
  {
    var r := Buffer.FullMergeWithin(a, ra.first, Front(ra).last, ra.last, rb.first);
    MergeStableSorts(d1, d2);
  }

  /**
   * The closing merge of the merge sorts between two arrays: the sorted
   * halves of `rs` in `src` merge into `rd` of `dst`, with
   * `uninit_full_merge` when `dst` holds no objects yet and `full_merge`
   * otherwise.
   */
  method MergeHalvesInto(src: array<Elem>, rs: Range, dst: array<Elem>, rd: Range,
                         ghost d1: seq<Elem>, ghost d2: seq<Elem>, uninit: bool)
    requires src != dst && rs.In(src.Length) && rd.In(dst.Length) && rs.Size() == rd.Size()
    requires src[rs.first..Front(rs).last] == StableSort(d1) && src[Rear(rs).first..rs.last] == StableSort(d2)
    modifies dst
    ensures dst[rd.first..rd.last] == StableSort(d1 + d2)
    ensures UnchangedOutside(dst, rd.first, rd.last)
  {
    ghost var t1, t2 := src[rs.first..Front(rs).last], src[Rear(rs).first..rs.last];
    var e;
    if uninit {
      e := Buffer.UninitFullMerge(src, rs.first, Front(rs).last, Rear(rs).first, rs.last, dst, rd.first);
    } else {
      e := Buffer.FullMerge(src, rs.first, Front(rs).last, Rear(rs).first, rs.last, dst, rd.first);
    }
    assert e == rd.last;
    assert dst[rd.first..rd.last] == Merge(t1, t2);
    MergeStableSorts(d1, d2);
  }
}
