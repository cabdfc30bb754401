# Boost parallel sort: a verified model of the sequential core

This project models, in Dafny, the sequential building blocks of the
Boost parallel sort library. The parallel drivers (`parallel_sort`,
`parallel_stable_sort`, `sample_sort`, `block_indirect_sort`) are built on
these parts:

- the merge primitives: `full_merge`, `half_merge`, `in_place_merge`, the
  4-way `full_merge4` and the level merges `merge_level4` and
  `merge_vector4`;
- the sequential sorters: insertion sort, intro sort, spin sort,
  merge sort and smart merge sort;
- the indirect sorts over an index of iterators;
- the block bookkeeping of the block indirect sort: `block_pos`, the
  backbone of blocks, `cut_range`, and the block moves along cycles;
- the lock-protected stack `stack_cnc`;
- the bit utilities: `MS1B`, `NBits`, `BitScanForward`, `BitScanReverse`
  and their tables;
- the thread count `NThread` and the iterator pairs `token` and
  `token_level`.

How the source is modelled:

- Elements are `Order.Elem(key, tag)`. The comparator compares keys only,
  and the tag lets stability be stated.
- Iterators are indices into Dafny arrays. Separate containers are
  separate arrays, and ranges of one container are index ranges of one
  array.
- Every algorithm that changes memory in place is a `method` over arrays,
  with its loops and their invariants. Each is proved against one of
  these specification functions:
  - `Order.Merge`: the stable merge, where run 1 wins ties;
  - `Order.StableSort`: the stable sort, which is insertion of each
    element in turn;
  - `Runs.Flatten`;
  - `BlockGeometry.IsRotation`: a cycle of block moves;
  - `BlockCycles.IsDecomposition`: a permutation split into cycles.
- The lemmas beside these functions are what the sorts promise:
  - `Order.MergeIsStableSort`: merging two sorted runs is the stable sort
    of their concatenation;
  - `Order.StableSortUnique`: any stable sort equals the reference one;
  - `Order.StableSortPermutation`: the sort is a permutation of its input.
- Objects whose fields the source updates are classes:
  - `DetailSpinSort.SpinSort`;
  - `AlgorithmMergeSort.MergeSortTag`;
  - `AlgorithmSmartMergeSort.SmartMergeSortTag`;
  - `DetailStackCnc.StackCnc`;
  - `Threads.NThread`.
- The value types `block_pos`, `range`, `token` and the backbone are
  datatypes.
- Fixed-width integers are written out explicitly:
  - the `size_t` shift in `block_pos` is taken modulo 2^64;
  - `uint32_t`/`int32_t` conversions are taken modulo 2^32;
  - the bit utilities work on `bv32`/`bv64`.
- Source paths below are relative to the repository root.

## Model

| member | source | states |
|---|---|---|
| Order.Merge | include/boost/sort/parallel/detail/util/low_level.hpp:154-169 | the stable merge of two runs has as many elements as both runs together |
| Order.MergeMultiset | include/boost/sort/parallel/detail/util/low_level.hpp:154-169 | a merge is a permutation of the two runs together |
| Order.MergeSorted | include/boost/sort/parallel/detail/util/low_level.hpp:154-169 | merging two sorted runs gives a sorted sequence |
| Order.MergeKeyFilter | include/boost/sort/parallel/detail/util/low_level.hpp:154-169 | for every key, the equal elements come out with those of run 1 before those of run 2, each in its own order (stability) |
| Order.MergeIsStableSort | include/boost/sort/parallel/detail/util/low_level.hpp:154-169 | merging two sorted runs is the stable sort of their concatenation |
| Order.MergeOrdered | include/boost/sort/parallel/detail/util/range.hpp:151-161 | when the last element of run 1 is not greater than the head of run 2, the merge is the plain concatenation |
| Order.MergePrefix | include/boost/sort/parallel/detail/util/low_level.hpp:263-263 | a prefix of run 1 that the head of run 2 does not undercut is copied unchanged to the front of the merge |
| Order.MergeStableSorts | include/boost/sort/parallel/algorithm/merge_sort.hpp:123-154 | merging the stable sorts of two halves is the stable sort of the whole |
| Order.StableSortPermutation | include/boost/sort/parallel/detail/insertion_sort.hpp:35-50 | the reference stable sort is a permutation of its input, of the same length |
| Order.StableSortIsStableSortOf | include/boost/sort/parallel/detail/insertion_sort.hpp:35-50 | the reference sort is sorted and keeps the order of equivalent elements |
| Order.StableSortUnique | include/boost/sort/parallel/detail/insertion_sort.hpp:35-50 | any sorted sequence that keeps the order of equivalent elements of `s` is the reference stable sort of `s` |
| Order.StableSortOfSorted | include/boost/sort/parallel/detail/insertion_sort.hpp:35-50 | sorting an already sorted sequence changes nothing |
| Order.StableSortIdempotent | include/boost/sort/parallel/detail/insertion_sort.hpp:35-50 | sorting twice is sorting once |
| Order.InsertMultiset | include/boost/sort/parallel/detail/insertion_sort.hpp:40-48 | inserting one element adds exactly that element |
| Order.InsertSorted | include/boost/sort/parallel/detail/insertion_sort.hpp:40-48 | inserting into a sorted sequence keeps it sorted |
| Order.InsertKeyFilter | include/boost/sort/parallel/detail/insertion_sort.hpp:40-48 | the inserted element lands after every element of its key (stability of the shift loop) |
| Order.MergeFromIsMerge | include/boost/sort/parallel/detail/util/low_level.hpp:163-166 | the merge continued from read positions p and q is the merge of the unread suffixes |
| Order.MergeInvStep | include/boost/sort/parallel/detail/util/low_level.hpp:163-166 | one step of a merge loop (take run 2 only when strictly less) keeps "written + rest" equal to the whole merge |
| Order.HalfMergeStopSplit | include/boost/sort/parallel/detail/util/low_level.hpp:224-228 | where the `half_merge` loop stops splits the merge into the merge with the consumed prefix of run 2 followed by the untouched rest of run 2 |
| Order.HalfMergeStopEarly | include/boost/sort/parallel/detail/util/low_level.hpp:224-228 | run 2 can outlast run 1: with runs [(1,0)] and [(2,1)] the loop stops having consumed nothing of run 2 |
| Runs.FlattenAppend | include/boost/sort/parallel/util/range.hpp:211-268 | flattening a concatenation of run lists concatenates their flattenings |
| Runs.TakeFirstHead | include/boost/sort/parallel/util/range.hpp:211-268 | the first head in (key, range index) order is the first element of the stable sort of all runs, and the stable sort of what remains follows it |
| LowLevel.Init | include/boost/sort/parallel/detail/util/low_level.hpp:65-74 | every cell of [first, last) holds `val` afterwards, `val` gets its value back, and nothing else changes |
| LowLevel.InitMove | include/boost/sort/parallel/detail/util/low_level.hpp:99-103 | the target range holds the source range, in order; the end of the output is returned; nothing else changes |
| LowLevel.UninitMove | include/boost/sort/parallel/detail/util/low_level.hpp:116-125 | as `init_move`, into storage that held no objects |
| LowLevel.FullMerge | include/boost/sort/parallel/detail/util/low_level.hpp:154-169 | the output range is the stable merge of the two runs, ending at `o` plus the sizes of both runs; nothing else changes |
| LowLevel.FullMergeLoop | include/boost/sort/parallel/detail/util/low_level.hpp:163-166 | the loop stops when a run is used up, the output so far being a prefix of the merge |
| LowLevel.FullMergeWithin | include/boost/sort/parallel/detail/util/low_level.hpp:154-169 | `full_merge` with the runs and the output in one container, the output wholly before or after the runs, writes the stable merge |
| LowLevel.FullMergeAfter | include/boost/sort/parallel/detail/util/low_level.hpp:154-169 | same-container `full_merge` whose output lies after the runs writes the stable merge of the old runs |
| LowLevel.FullMergeBefore | include/boost/sort/parallel/detail/util/low_level.hpp:154-169 | same-container `full_merge` whose output lies before the runs writes the stable merge of the old runs |
| LowLevel.UninitFullMerge | include/boost/sort/parallel/detail/util/low_level.hpp:183-197 | as `full_merge`, into storage that held no objects |
| LowLevel.HalfMerge | include/boost/sort/parallel/detail/util/low_level.hpp:215-229 | with run 1 in a buffer and the output ending at run 2's end, [o, e2) becomes the stable merge and `end_buf2` is returned |
| LowLevel.HalfMergeLoop | include/boost/sort/parallel/detail/util/low_level.hpp:224-227 | the output never overtakes the unread part of run 2, and the loop stops where `HalfMergeStop` says |
| LowLevel.SkipNotGreater | include/boost/sort/parallel/detail/util/low_level.hpp:263-263 | stops at the first element of run 1 that the head of run 2 undercuts; none before it is undercut |
| LowLevel.InPlaceMergeUncontiguous | include/boost/sort/parallel/detail/util/low_level.hpp:247-280 | returns true and changes nothing exactly when a run is empty or the runs are already in order; otherwise run 1's place followed by run 2's place hold the stable merge |
| LowLevel.MergeParts | include/boost/sort/parallel/detail/util/low_level.hpp:263-280 | after the displaced suffix moves to the buffer, run 1's free tail and run 2's place hold the merge of that suffix with run 2 |
| LowLevel.InPlaceMerge | include/boost/sort/parallel/detail/util/low_level.hpp:300-321 | returns true and changes nothing exactly when a run is empty or the runs are in order; otherwise [s1, e2) holds the stable merge |
| Buffer.MoveBuf | include/boost/sort/parallel/util/buffer.hpp:54-58 | the target holds the source range, in order; nothing else changes |
| Buffer.MoveBufWithin | include/boost/sort/parallel/util/buffer.hpp:54-58 | `move_buf` within one buffer, with a target that does not start inside the source: the target holds the old source, in order, and the end is returned; nothing else changes |
| Buffer.UninitMoveBuf | include/boost/sort/parallel/util/buffer.hpp:70-75 | as `move_buf`, into storage that held no objects |
| Buffer.FullMerge | include/boost/sort/parallel/util/buffer.hpp:107-122 | the output is the stable merge of the two runs, ending at `o` plus the sizes of both runs |
| Buffer.FullMergeWithin | include/boost/sort/parallel/util/buffer.hpp:107-122 | the same with runs and output in one container |
| Buffer.UninitFullMerge | include/boost/sort/parallel/util/buffer.hpp:138-152 | as `full_merge`, into storage that held no objects |
| Buffer.HalfMerge | include/boost/sort/parallel/util/buffer.hpp:173-187 | [o, e2) becomes the stable merge; the returned position is where the loop stopped in run 2, and the rest of run 2 was not moved |
| DetailRange.RangeAccessors | include/boost/sort/parallel/detail/util/range.hpp:48-53 | `empty` iff size 0, `not_empty` iff not empty, `valid` iff size >= 0, and `back` is `front + size - 1` |
| DetailRange.ConcatAdjacent | include/boost/sort/parallel/detail/util/range.hpp:65-68 | concatenating adjacent valid ranges gives a valid range whose size is the sum |
| DetailRange.InitMove | include/boost/sort/parallel/detail/util/range.hpp:78-90 | returns the range of `dest` with the source's size, holding the source's contents |
| DetailRange.UninitMove | include/boost/sort/parallel/detail/util/range.hpp:99-111 | as `init_move`, into storage that held no objects |
| DetailRange.IsMergeableIff | include/boost/sort/parallel/detail/util/range.hpp:151-161 | `is_mergeable` holds iff the concatenation is not sorted; when it does not hold, merging is concatenation |
| DetailRange.FullMerge | include/boost/sort/parallel/detail/util/range.hpp:177-191 | the returned range starts at `dest`, has both sizes together and holds the stable merge |
| DetailRange.UninitFullMerge | include/boost/sort/parallel/detail/util/range.hpp:206-222 | as `full_merge`, into storage that held no objects |
| DetailRange.HalfMerge | include/boost/sort/parallel/detail/util/range.hpp:236-250 | the returned range holds the stable merge of the buffered run 1 and run 2 |
| DetailRange.InPlaceMergeUncontiguous | include/boost/sort/parallel/detail/util/range.hpp:266-282 | returns true, changing nothing, iff a range is empty or they are not mergeable; otherwise both places together hold the stable merge |
| DetailRange.InPlaceMerge | include/boost/sort/parallel/detail/util/range.hpp:298-310 | returns the concatenated range, holding the stable merge of the two adjacent runs |
| DetailRange.MergeFlow | include/boost/sort/parallel/detail/util/range.hpp:327-353 | the first range of the container followed by the buffer hold the stable merge of the second range and the buffer |
| DetailRange.MergeFlowSplit | include/boost/sort/parallel/detail/util/range.hpp:327-353 | both output parts are sorted, every key of the first part is at most every key of the second, and together they are a permutation of the inputs |
| UtilRange.RangeAccessors | include/boost/sort/parallel/util/range.hpp:46-48 | `empty` iff size 0, `not_empty` iff not empty |
| UtilRange.Move | include/boost/sort/parallel/util/range.hpp:84-87 | the target holds the range's contents; the end of the output is returned |
| UtilRange.UninitMove | include/boost/sort/parallel/util/range.hpp:61-64 | as `move`, into storage that held no objects |
| UtilRange.FullMerge | include/boost/sort/parallel/util/range.hpp:102-111 | the output is the stable merge of the two ranges |
| UtilRange.UninitFullMerge | include/boost/sort/parallel/util/range.hpp:126-137 | as `full_merge`, into storage that held no objects |
| UtilRange.HalfMerge | include/boost/sort/parallel/util/range.hpp:150-166 | the output up to the end of range 2 is the stable merge; the unread tail of range 2 is unmoved |
| UtilRange.LessRangeOrder | include/boost/sort/parallel/util/range.hpp:191-197 | `less_range` orders heads by key, then by range index; any two heads are comparable, and heads of different ranges are never each before the other |
| UtilRange.LessRangeTies | include/boost/sort/parallel/util/range.hpp:191-197 | for all heads: on equal keys the one of the lower range index comes first (and not the other way round); a smaller key comes first whatever the indices |
| UtilRange.FullMerge4 | include/boost/sort/parallel/util/range.hpp:211-268 | merging up to four sorted ranges writes the stable sort of their concatenation, of their total size |
| UtilRange.MergeByHeads | include/boost/sort/parallel/util/range.hpp:221-267 | the head-selection loop, down to two ranges and then `full_merge`, writes the stable sort of all the ranges |
| UtilRange.TakeHeads | include/boost/sort/parallel/util/range.hpp:241-263 | the loop that emits the first head until two ranges are left keeps the output a prefix of the goal |
| UtilRange.InitialOrder | include/boost/sort/parallel/util/range.hpp:221-239 | the initial sort of the range positions puts the non-empty ranges in head order |
| UtilRange.Reposition | include/boost/sort/parallel/util/range.hpp:250-261 | after a head is taken, re-inserting its range restores head order |
| UtilRange.UninitFullMerge4 | include/boost/sort/parallel/util/range.hpp:282-343 | as `full_merge4`, into storage that held no objects |
| MergeLevels.GroupSizeIsNelem | include/boost/sort/parallel/util/range.hpp:375-376 | the group size `(n + Nmerge - 1) / Nmerge`, with `Nmerge = ceil(n / 4)`, is the least e in 1..4 with n <= e * ceil(n / 4); for n = 5 it is 3, not 4 |
| MergeLevels.MergedGroupsCount | include/boost/sort/parallel/util/range.hpp:359-385 | one merge level turns n ranges into ceil(n / 4) |
| MergeLevels.LevelIsStable | include/boost/sort/parallel/util/range.hpp:359-385 | a level keeps the elements: the stable sort of its output equals that of its input |
| MergeLevels.MergedGroupsKeyOrder | include/boost/sort/parallel/util/range.hpp:359-385 | a level keeps the order of equivalent elements |
| MergeLevels.MergedGroupsSorted | include/boost/sort/parallel/util/range.hpp:359-385 | every range a level outputs is sorted |
| MergeLevels.MergeLevel4 | include/boost/sort/parallel/util/range.hpp:359-385 | the output ranges tile the output from `o` on, there are ceil(n/4) of them, and each holds the stable merge of its group of up to four input ranges |
| MergeLevels.UninitMergeLevel4 | include/boost/sort/parallel/util/range.hpp:401-427 | as `merge_level4`, into storage that held no objects |
| MergeVector.MergeVector4 | include/boost/sort/parallel/util/range.hpp:442-473 | the second buffer ends up holding the stable sort of all input ranges, described by exactly one range (none for no input); `Vin` ends as sorted ranges of the first buffer, those the last level read, whose stable sort is again the result |
| MergeVector.MergeVector4AsWritten | include/boost/sort/parallel/util/range.hpp:442-473 | as written, the data end sorted, but the output list keeps the ranges of an earlier level before the final one |
| MergeVector.FinalRangesByLevels | include/boost/sort/parallel/util/range.hpp:456-471 | with an odd number of levels the as-written output has one range; with an even number it has at least three |
| MergeVector.FiveRangesLeaveThree | include/boost/sort/parallel/util/range.hpp:456-471 | five input ranges need two levels and leave three ranges in the output list |
| InsertionSort.ShiftInsert | include/boost/sort/parallel/detail/insertion_sort.hpp:40-48 | shifting the new element left past greater elements inserts it into the sorted prefix |
| InsertionSort.InsertionSort | include/boost/sort/parallel/detail/insertion_sort.hpp:35-50 | [lo, hi) becomes the stable sort of its old contents; nothing else changes |
| InsertionSort.InsertionSortSorts | include/boost/sort/parallel/algorithm/insertion_sort.hpp:44-59 | what insertion sort produces is sorted, a permutation and stable |
| SortSupport.Swap | include/boost/sort/parallel/detail/intro_sort.hpp:107-107 | the two cells trade values and nothing else changes |
| SortSupport.CheckIfSorted | include/boost/sort/parallel/detail/intro_sort.hpp:128-131 | reports exactly whether the range is sorted |
| DetailIntroSort.Mid3 | include/boost/sort/parallel/detail/intro_sort.hpp:36-40 | returns one of the three positions, and its key is the median of the three keys |
| DetailIntroSort.Mid3IsMiddle | include/boost/sort/parallel/detail/intro_sort.hpp:36-40 | the key at `mid3` is the middle of the three keys |
| DetailIntroSort.Mid9 | include/boost/sort/parallel/detail/intro_sort.hpp:53-60 | returns one of the nine positions, and at least four of the nine keys are not above it and at least four not below |
| DetailIntroSort.Pivot3 | include/boost/sort/parallel/detail/intro_sort.hpp:46-50 | the median of three sampled positions is swapped to the first cell; nothing else changes |
| DetailIntroSort.Pivot9 | include/boost/sort/parallel/detail/intro_sort.hpp:63-70 | the pseudo-median of nine is swapped to the first cell; nothing else changes |
| DetailIntroSort.ScanUpBounded | include/boost/sort/parallel/detail/intro_sort.hpp:100-100 | the upward scan stops at the first element not less than the pivot, or at the end |
| DetailIntroSort.ScanDown | include/boost/sort/parallel/detail/intro_sort.hpp:101-101 | the downward scan stops at the first element not greater than the pivot, which the pivot cell guarantees |
| DetailIntroSort.PartitionLoop | include/boost/sort/parallel/detail/intro_sort.hpp:102-106 | the corrected loop leaves everything left of the crossing at most the pivot and everything right at least it, permuting the range |
| DetailIntroSort.PartitionFrom | include/boost/sort/parallel/detail/intro_sort.hpp:99-107 | the pivot lands at `c_last`, with no greater key before it and no smaller after; the range is permuted |
| DetailIntroSort.IntroSortInternal | include/boost/sort/parallel/detail/intro_sort.hpp:81-110 | the range becomes sorted and is a permutation of its old contents |
| DetailIntroSort.DetailLevelValue | include/boost/sort/parallel/detail/intro_sort.hpp:133-133 | for 32 elements or more the depth limit is `(nbits - 4) * 3 / 2`, at least 3; below 8 elements the unsigned formula wraps to at least 0x7FFFFFFB |
| DetailIntroSort.IntroSort | include/boost/sort/parallel/detail/intro_sort.hpp:121-135 | the range becomes sorted, a permutation of its old contents; an already sorted range is left exactly as it was |
| DetailIntroSort.OverrunAsWritten | include/boost/sort/parallel/detail/intro_sort.hpp:102-106 | when both scans stop at the last cell, the loop as written continues and reads one past the range |
| DetailIntroSort.DetailOverrunWitness | include/boost/sort/parallel/detail/intro_sort.hpp:102-106 | a concrete 32-element window on which the as-written loop reads past the range |
| AlgorithmIntroSort.IntroSortInternal | include/boost/sort/parallel/algorithm/intro_sort.hpp:57-106 | the range becomes sorted and a permutation of its old contents; at a non-zero level a sorted range of 32 or more is left untouched |
| AlgorithmIntroSort.PivotLast | include/boost/sort/parallel/algorithm/intro_sort.hpp:87-90 | when the scan reaches the end, swapping the pivot to the last cell partitions the range |
| AlgorithmIntroSort.PartitionAndSort | include/boost/sort/parallel/algorithm/intro_sort.hpp:93-103 | the corrected partition loop and the two recursive calls leave the range sorted and permuted |
| AlgorithmIntroSort.IntroLevel | include/boost/sort/parallel/algorithm/intro_sort.hpp:130-130 | the depth limit is three times the index of the highest set bit of the size (0 for size 0) |
| AlgorithmIntroSort.IntroLevelPositive | include/boost/sort/parallel/algorithm/intro_sort.hpp:130-130 | the depth limit is never 0, and at least 15 for 32 elements or more |
| AlgorithmIntroSort.IntroSort | include/boost/sort/parallel/algorithm/intro_sort.hpp:125-132 | the range becomes sorted and a permutation of its old contents |
| AlgorithmIntroSort.Sort | include/boost/sort/parallel/algorithm/intro_sort.hpp:149-153 | the range becomes sorted and a permutation of its old contents |
| AlgorithmIntroSort.IndirectIntroSort | include/boost/sort/parallel/algorithm/intro_sort.hpp:177-186 | sorting an index of iterators and applying it leaves the range sorted and permuted |
| AlgorithmIntroSort.AlgorithmOverrunWitness | include/boost/sort/parallel/algorithm/intro_sort.hpp:95-99 | a concrete unsorted 32-element window on which the as-written loop reads past the range |
| Halves.Front | include/boost/sort/parallel/detail/spin_sort.hpp:54-79 | the first half of a range has the rounded-up half of its size |
| Halves.Rear | include/boost/sort/parallel/detail/spin_sort.hpp:54-79 | the second half starts where the first ends and has the rounded-down half |
| Halves.MergeHalvesInto | include/boost/sort/parallel/detail/spin_sort.hpp:54-79 | merging two sorted halves into another range writes the stable sort of both |
| DetailSpinSort.SpinLevelBounds | include/boost/sort/parallel/detail/spin_sort.hpp:197-197 | the level is the number of halvings down to leaves of at most `Sort_min` elements |
| DetailSpinSort.RangeSort | include/boost/sort/parallel/detail/spin_sort.hpp:54-79 | the destination range receives the stable sort of the data the level selects, alternating between the two buffers |
| DetailSpinSort.LevelParity | include/boost/sort/parallel/detail/spin_sort.hpp:54-79 | swapping the two buffers and lowering the level by one selects the same data |
| DetailSpinSort.SortOdd | include/boost/sort/parallel/detail/spin_sort.hpp:200-214 | with an odd level the whole range is stably sorted using the half-size buffer |
| DetailSpinSort.SortEven | include/boost/sort/parallel/detail/spin_sort.hpp:215-230 | with an even level the whole range is stably sorted using the half-size buffer |
| DetailSpinSort.SpinSort.constructor | include/boost/sort/parallel/detail/spin_sort.hpp:164-231 | the buffer is allocated only for an unsorted range above twice `Sort_min` when none is given; if allocation fails nothing changes, otherwise the range is stably sorted |
| DetailSpinSort.SpinSort.Destroy | include/boost/sort/parallel/detail/spin_sort.hpp:143-150 | the buffer is freed exactly when the sorter owns one |
| AlgorithmMergeSort.MergeSortInternal | include/boost/sort/parallel/algorithm/merge_sort.hpp:123-154 | the range becomes its stable sort |
| AlgorithmMergeSort.MergeFromBuffer | include/boost/sort/parallel/algorithm/merge_sort.hpp:140-151 | merging the buffered first half with the second half fills the range with their stable merge |
| AlgorithmMergeSort.FusionLoop | include/boost/sort/parallel/algorithm/merge_sort.hpp:148-151 | the fusion loop stops when a half is used up, the output so far being a prefix of the merge |
| AlgorithmMergeSort.MergeSortTag.constructor | include/boost/sort/parallel/algorithm/merge_sort.hpp:64-80 | a buffer is allocated above `MSort_min`; when allocation fails nothing changes, otherwise the range is stably sorted |
| AlgorithmMergeSort.MergeSortTag.WithBuffer | include/boost/sort/parallel/algorithm/merge_sort.hpp:92-107 | with a given buffer the range is stably sorted and the sorter owns nothing |
| AlgorithmMergeSort.MergeSortTag.Destroy | include/boost/sort/parallel/algorithm/merge_sort.hpp:108-111 | the buffer is freed exactly when the sorter owned one; afterwards the sorter owns no buffer, so it is never released twice, and the rest of its state is kept |
| AlgorithmMergeSort.IndirectMergeSort | include/boost/sort/parallel/algorithm/merge_sort.hpp:219-227 | sorting the index and applying it stably sorts the range, unless the buffer cannot be allocated |
| AlgorithmSmartMergeSort.SortLevelBounds | include/boost/sort/parallel/algorithm/smart_merge_sort.hpp:124-124 | the level is the number of halvings down to leaves of at most `Sort_min` elements |
| AlgorithmSmartMergeSort.FullSortInternal | include/boost/sort/parallel/algorithm/smart_merge_sort.hpp:70-88 | the level's parity decides whether the sorted data end in the first or the second range; either way it is the stable sort of the first range's old contents |
| AlgorithmSmartMergeSort.FullSort | include/boost/sort/parallel/algorithm/smart_merge_sort.hpp:105-126 | returns true iff the data end in place (small range or odd level), and that range holds the stable sort |
| AlgorithmSmartMergeSort.FullSortEven | include/boost/sort/parallel/algorithm/smart_merge_sort.hpp:144-166 | the stable sort of the first range ends in the second |
| AlgorithmSmartMergeSort.FullSortOdd | include/boost/sort/parallel/algorithm/smart_merge_sort.hpp:184-199 | the stable sort of the range ends in place |
| AlgorithmSmartMergeSort.FullUninitSort | include/boost/sort/parallel/algorithm/smart_merge_sort.hpp:216-239 | returns true iff the data end in place, and the corresponding range holds the stable sort |
| AlgorithmSmartMergeSort.Process | include/boost/sort/parallel/algorithm/smart_merge_sort.hpp:305-311 | sorting the halves in place and into the buffer and merging them back stably sorts the whole range |
| AlgorithmSmartMergeSort.SmartMergeSortTag.constructor | include/boost/sort/parallel/algorithm/smart_merge_sort.hpp:277-312 | a buffer is allocated only for an unsorted range above `Sort_min`; when allocation fails nothing changes, otherwise the range is stably sorted |
| AlgorithmSmartMergeSort.SmartMergeSortTag.WithBuffer | include/boost/sort/parallel/algorithm/smart_merge_sort.hpp:325-352 | with a given buffer the range is stably sorted and the sorter owns nothing |
| AlgorithmSmartMergeSort.SmartMergeSortTag.Destroy | include/boost/sort/parallel/algorithm/smart_merge_sort.hpp:361-368 | the buffer is freed exactly when the sorter owns one |
| AlgorithmSmartMergeSort.IndirectSmartMergeSort | include/boost/sort/parallel/algorithm/smart_merge_sort.hpp:438-447 | sorting the index and applying it stably sorts the range, unless the buffer cannot be allocated |
| Indirect.GatherSortedIff | include/boost/sort/parallel/detail/indirect.hpp:46-55 | the elements an index points to are sorted iff no later pointer is `less_ptr_no_null` than an earlier one |
| Indirect.CreateIndex | include/boost/sort/parallel/detail/indirect.hpp:66-73 | the index holds an iterator to every element, in order |
| Indirect.SortIndex | include/boost/sort/parallel/detail/indirect.hpp:83-105 | the range is permuted as the index says, and the index ends as the identity |
| Indirect.FollowCycle | include/boost/sort/parallel/algorithm/indirect.hpp:74-86 | following one cycle of the index places each of its elements and resets its index entries |
| Indirect.GatherPermutation | include/boost/sort/parallel/detail/indirect.hpp:83-105 | applying an index is a permutation of the data |
| Indirect.SortIndexSorts | include/boost/sort/parallel/detail/indirect.hpp:83-105 | applying an index sorted by `less_ptr_no_null` leaves the data sorted and permuted |
| IndexEntries.EntriesStable | include/boost/sort/parallel/algorithm/merge_sort.hpp:219-227 | stably sorting the index by the pointees and applying it is the stable sort of the data |
| IndexEntries.ApplySortedIndex | include/boost/sort/parallel/algorithm/intro_sort.hpp:177-186 | applying a sorted index leaves the range sorted and permuted, and nothing else changes |
| IndexEntries.ApplyStableEntries | include/boost/sort/parallel/algorithm/smart_merge_sort.hpp:438-447 | applying the stably sorted index writes the stable sort of the range |
| DetailStackCnc.KeptPopped | include/boost/sort/parallel/detail/util/stack_cnc.hpp:330-343 | what a multiple pop keeps, followed by what it takes, is the old stack |
| DetailStackCnc.PushThenPop | include/boost/sort/parallel/detail/util/stack_cnc.hpp:240-243 | pushing then popping one element gives the element back and restores the stack |
| DetailStackCnc.PushAllThenPopAll | include/boost/sort/parallel/detail/util/stack_cnc.hpp:266-270 | pushing a vector then popping as many elements gives the vector back in order |
| DetailStackCnc.PopAllOfSmall | include/boost/sort/parallel/detail/util/stack_cnc.hpp:330-343 | asking for at least the stack's size takes everything |
| DetailStackCnc.StackCnc.constructor | include/boost/sort/parallel/detail/util/stack_cnc.hpp:74-74 | a new stack is empty |
| DetailStackCnc.StackCnc.FromVector | include/boost/sort/parallel/detail/util/stack_cnc.hpp:95-96 | a stack built from a vector holds it |
| DetailStackCnc.StackCnc.Assign | include/boost/sort/parallel/detail/util/stack_cnc.hpp:123-129 | assignment from a vector replaces the contents |
| DetailStackCnc.StackCnc.Clear | include/boost/sort/parallel/detail/util/stack_cnc.hpp:135-138 | clear empties the stack |
| DetailStackCnc.StackCnc.Swap | include/boost/sort/parallel/detail/util/stack_cnc.hpp:146-151 | the two stacks trade contents; swapping with itself changes nothing |
| DetailStackCnc.StackCnc.Empty | include/boost/sort/parallel/detail/util/stack_cnc.hpp:202-205 | empty iff the size is 0 |
| DetailStackCnc.StackCnc.Copy | include/boost/sort/parallel/detail/util/stack_cnc.hpp:228-231 | the copy is the contents, bottom first: exactly what a bulk pop of the whole stack would hand out, leaving nothing kept, while the stack itself stays as it was |
| DetailStackCnc.StackCnc.PushBack | include/boost/sort/parallel/detail/util/stack_cnc.hpp:240-243 | the value goes on top and the size grows by one |
| DetailStackCnc.StackCnc.PushBackAll | include/boost/sort/parallel/detail/util/stack_cnc.hpp:266-270 | the vector is appended on top, in order |
| DetailStackCnc.StackCnc.PopBack | include/boost/sort/parallel/detail/util/stack_cnc.hpp:280-283 | the top element is removed |
| DetailStackCnc.StackCnc.PopOne | include/boost/sort/parallel/detail/util/stack_cnc.hpp:312-319 | returns false, changing nothing, iff the stack is empty; otherwise the top is removed and returned |
| DetailStackCnc.StackCnc.PopMany | include/boost/sort/parallel/detail/util/stack_cnc.hpp:330-343 | takes min(n, size) elements from the top, appends them bottom-first to the vector, and returns how many |
| BitCount.BitLength | include/boost/sort/parallel/util/metaprog.hpp:130-147 | the bit length of m is 0 for 0, otherwise the k with 2^(k-1) <= m < 2^k |
| Metaprog.Mask32IsLowBits | include/boost/sort/parallel/util/metaprog.hpp:46-49 | `MASK_32<n>` is the n low bits set |
| Metaprog.Mask64IsLowBits | include/boost/sort/parallel/util/metaprog.hpp:59-62 | `MASK_64<n>` is the n low bits set |
| Metaprog.Ms1b32At16 | include/boost/sort/parallel/util/metaprog.hpp:73-85 | the top instance of `MS1B_32` finds the highest set bit of a non-zero word |
| Metaprog.Ms1b32At8 | include/boost/sort/parallel/util/metaprog.hpp:73-85 | within a 16-bit window holding the highest bit, the 8-bit step finds it |
| Metaprog.Ms1b32At4 | include/boost/sort/parallel/util/metaprog.hpp:73-85 | within an 8-bit window, the 4-bit step finds the highest bit |
| Metaprog.Ms1b32At2 | include/boost/sort/parallel/util/metaprog.hpp:73-85 | within a 4-bit window, the 2-bit step finds the highest bit |
| Metaprog.Ms1b32At1 | include/boost/sort/parallel/util/metaprog.hpp:73-85 | within a 2-bit window, the last step finds the highest bit |
| Metaprog.Ms1b64At32 | include/boost/sort/parallel/util/metaprog.hpp:95-107 | the top instance of `MS1B_64` finds the highest set bit of a non-zero word |
| Metaprog.Ms1b64At16 | include/boost/sort/parallel/util/metaprog.hpp:95-107 | within a 32-bit window, the 16-bit step finds the highest bit |
| Metaprog.Ms1b64At8 | include/boost/sort/parallel/util/metaprog.hpp:95-107 | within a 16-bit window, the 8-bit step finds the highest bit |
| Metaprog.Ms1b64At4 | include/boost/sort/parallel/util/metaprog.hpp:95-107 | within an 8-bit window, the 4-bit step finds the highest bit |
| Metaprog.Ms1b64At2 | include/boost/sort/parallel/util/metaprog.hpp:95-107 | within a 4-bit window, the 2-bit step finds the highest bit |
| Metaprog.Ms1b64At1 | include/boost/sort/parallel/util/metaprog.hpp:95-107 | within a 2-bit window, the last step finds the highest bit |
| MetaprogTables.DeBruijn32Inverts | include/boost/sort/parallel/util/metaprog.hpp:115-118 | the 32-bit De Bruijn table maps the hash of every power of two back to its exponent |
| MetaprogTables.DeBruijn64Inverts | include/boost/sort/parallel/util/metaprog.hpp:119-128 | the 64-bit De Bruijn table maps the hash of every power of two back to its exponent |
| MetaprogTables.TmsbIsBitLength | include/boost/sort/parallel/util/metaprog.hpp:130-147 | every `TMSB` entry is the bit length of its index, at most 8 |
| BitAlgorithm.MS1B32 | include/boost/sort/parallel/util/algorithm.hpp:61-63 | the index of the highest set bit of a non-zero word, 0 for 0 |
| BitAlgorithm.MS1B64 | include/boost/sort/parallel/util/algorithm.hpp:133-135 | the index of the highest set bit of a non-zero word, 0 for 0 |
| BitAlgorithm.BitScanForward32IsLowest | include/boost/sort/parallel/util/algorithm.hpp:79-82 | the scan `BitScanForward32` returns the index of the lowest set bit of a non-zero word |
| BitAlgorithm.BitScanForward64IsLowest | include/boost/sort/parallel/util/algorithm.hpp:151-154 | the scan `BitScanForward64` returns the index of the lowest set bit of a non-zero word |
| BitAlgorithm.NBits32 | include/boost/sort/parallel/util/algorithm.hpp:91-96 | the result is the bit length of the word |
| BitAlgorithm.NBits64 | include/boost/sort/parallel/util/algorithm.hpp:163-169 | the result is the bit length of the word |
| BitAlgorithm.BitScanReverse32IsHighest | include/boost/sort/parallel/util/algorithm.hpp:98-102 | the scan `BitScanReverse32` returns the index of the highest set bit of a non-zero word, equal to `MS1B` |
| BitAlgorithm.BitScanReverse64IsHighest | include/boost/sort/parallel/util/algorithm.hpp:171-175 | the scan `BitScanReverse64` returns the index of the highest set bit of a non-zero word, equal to `MS1B` |
| DetailBlockPos.BlockPos.Pos | include/boost/sort/parallel/detail/block_indirect_sort.hpp:77-77 | the stored word is twice the position plus the side bit |
| DetailBlockPos.BlockPos.SetPos | include/boost/sort/parallel/detail/block_indirect_sort.hpp:78-78 | setting the position keeps the side |
| DetailBlockPos.BlockPos.SetSideAsWritten | include/boost/sort/parallel/detail/block_indirect_sort.hpp:81-81 | as written, setting the side zeroes the position |
| DetailBlockPos.BlockPos.SetSide | include/boost/sort/parallel/detail/block_indirect_sort.hpp:81-81 | the corrected setter changes the side and keeps the position |
| DetailBlockPos.Default | include/boost/sort/parallel/detail/block_indirect_sort.hpp:68-68 | the default is position 0, side false |
| DetailBlockPos.Make | include/boost/sort/parallel/detail/block_indirect_sort.hpp:69-71 | the constructor stores the position (modulo 2^63, from the 64-bit shift) and the side |
| DetailBlockPos.PosRoundTrip | include/boost/sort/parallel/detail/block_indirect_sort.hpp:69-78 | the accessors read back what the constructor and the position setter stored |
| DetailBlockPos.SideSetterLosesPosition | include/boost/sort/parallel/detail/block_indirect_sort.hpp:81-81 | block 3 with side false, given side true, reads position 0 as written and position 3 when corrected |
| DetailBlockPos.SettersCommute | include/boost/sort/parallel/detail/block_indirect_sort.hpp:78-81 | the corrected setters commute and together rebuild the constructor's value |
| BlockLayout.BlockRange | include/boost/sort/parallel/detail/block_indirect_sort.hpp:197-202 | block p starts at `first + p * BLOCK_SIZE`; all blocks but the last are full, and the last ends at `last` |
| BlockLayout.RangesTile | include/boost/sort/parallel/detail/block_indirect_sort.hpp:164-202 | the blocks tile [first, last) without gaps, each non-empty and at most one block long, and every element lies in the block its offset names |
| BlockLayout.BlockLessOrder | include/boost/sort/parallel/detail/block_indirect_sort.hpp:115-138 | comparing blocks by their first elements is a strict weak order |
| BlockLayout.Backbone.GetRange | include/boost/sort/parallel/detail/block_indirect_sort.hpp:197-202 | block p starts p blocks after `first`, is one block long except the last one, which ends at `last`; when the block count covers the range, every block lies inside [first, last), is not empty and is at most one block long |
| BlockLayout.CeilFacts | include/boost/sort/parallel/detail/block_indirect_sort.hpp:164-180 | the block count is the size rounded up to blocks, and the tail size is 0 exactly when the blocks are all full |
| BlockLayout.NewBackbone | include/boost/sort/parallel/detail/block_indirect_sort.hpp:164-180 | the backbone records the range, the block count and tail, an index of positions 0..n-1 all on side false, and the tail range |
| BlockLayout.NextCut | include/boost/sort/parallel/detail/block_indirect_sort.hpp:461-465 | the scan finds the next block whose side differs from the one before it, or the end |
| BlockLayout.PartSize | include/boost/sort/parallel/detail/block_indirect_sort.hpp:449-477 | the part size is at least 1 and at most the range size |
| BlockLayout.CutPointsIncreasing | include/boost/sort/parallel/detail/block_indirect_sort.hpp:449-477 | the cut points increase and end at the end of the range |
| BlockLayout.CutPointsSides | include/boost/sort/parallel/detail/block_indirect_sort.hpp:449-477 | every cut but the last is a change of side, at least one part size after the previous cut |
| BlockLayout.KeptPieces | include/boost/sort/parallel/detail/block_indirect_sort.hpp:449-477 | every piece kept for merging has at least two blocks and runs between cut points |
| BlockLayout.KeptComplete | include/boost/sort/parallel/detail/block_indirect_sort.hpp:449-477 | every gap of two or more blocks between cut points is kept |
| BlockLayout.CutRange | include/boost/sort/parallel/detail/block_indirect_sort.hpp:449-477 | a range below the group size is kept whole; otherwise the kept pieces and merge positions are those of its cut points |
| BlockLayout.AlgorithmIndex | include/boost/sort/parallel/algorithm/block_indirect_sort.hpp:285-290 | the algorithm variant's index holds blocks 0..n-1 all on side true, and the tail starts at the last multiple of the block size |
| BlockLayout.IndexLayoutsAgree | include/boost/sort/parallel/algorithm/block_indirect_sort.hpp:285-290 | both variants agree on the block count and positions, with opposite initial sides |
| BlockCycles.Decompose | include/boost/sort/parallel/detail/block_indirect_sort.hpp:527-551 | the index is split into its cycles, each recorded from its least position, and every index entry is reset to its own position |
| BlockGeometry.RotateBlocks | include/boost/sort/parallel/detail/block_indirect_sort.hpp:584-599 | moving the blocks along a cycle through one block of buffer rotates them; nothing outside the blocks changes |
| BlockGeometry.ChunkedRotation | include/boost/sort/parallel/algorithm/tk_block_indirect_sort.hpp:325-335 | rotating each chunk of a long cycle and then the cycle of the chunks' last blocks rotates the whole cycle |
| BlockMoves.MoveBlocks | include/boost/sort/parallel/detail/block_indirect_sort.hpp:525-575 | every block lands where the index says, the index is reset to positions 0..n-1 with its sides kept, and nothing outside the blocks changes |
| BlockMoves.CyclesPlaceBlocks | include/boost/sort/parallel/detail/block_indirect_sort.hpp:525-575 | rotating along every cycle of a decomposition places block P[q] at q for every q |
| BlockMoves.SortBlocks | include/boost/sort/parallel/algorithm/block_indirect_sort.hpp:424-459 | the index is split into its cycles and reset, and the cycles are split by length against `MV_SIZE` |
| BlockMoves.SplitBySize | include/boost/sort/parallel/algorithm/block_indirect_sort.hpp:448-455 | the short and long cycles partition the cycles |
| BlockMoves.SplitPartition | include/boost/sort/parallel/algorithm/block_indirect_sort.hpp:448-455 | the short and long lists together are a permutation of all cycles |
| BlockMoves.MoveSimpleBlocks | include/boost/sort/parallel/algorithm/block_indirect_sort.hpp:472-479 | a short cycle is rotated; nothing outside the blocks changes |
| BlockMoves.MoveBlocksChunked | include/boost/sort/parallel/algorithm/block_indirect_sort.hpp:498-523 | a cycle up to `MV_SIZE` is rotated at once; a longer one is cut into chunks, each rotated, and the chunks' last blocks are returned as the remaining cycle |
| BlockMoves.ChunkCuts | include/boost/sort/parallel/algorithm/block_indirect_sort.hpp:509-521 | the chunks have `MV_SIZE` blocks each but the last, and the returned sequence lists their last blocks |
| BlockMoves.TkMove | include/boost/sort/parallel/algorithm/tk_block_indirect_sort.hpp:316-338 | re-enqueueing the chunks' last blocks until the cycle is short enough rotates the whole cycle |
| BlockMoves.ChunkCountShrinks | include/boost/sort/parallel/algorithm/tk_block_indirect_sort.hpp:325-335 | with `MV_SIZE` at least 2 the remaining cycle is shorter than the one cut |
| Threads.Clamp | include/boost/sort/parallel/tools/nthread.hpp:41-41 | the stored count is at least 1, equals the request iff the request is not 0, and is 1 otherwise |
| Threads.NThread.Hardware | include/boost/sort/parallel/tools/nthread.hpp:39-39 | the default constructor stores the hardware count unclamped |
| Threads.NThread.HardwareClamped | include/boost/sort/parallel/tools/nthread.hpp:27-28 | the default constructor as the class comment intends it stores the clamped hardware count, never 0 |
| Threads.NThread.Copy | include/boost/sort/parallel/tools/nthread.hpp:40-40 | the copy constructor takes the other count |
| Threads.NThread.constructor | include/boost/sort/parallel/tools/nthread.hpp:41-41 | the integer constructor stores the clamped request |
| Threads.NThread.AssignFrom | include/boost/sort/parallel/tools/nthread.hpp:45-48 | copy assignment takes the other count |
| Threads.NThread.Assign | include/boost/sort/parallel/tools/nthread.hpp:49-52 | integer assignment stores the clamped request, at least 1 |
| Threads.ClampedDefaultNeverZero | include/boost/sort/parallel/tools/nthread.hpp:27-28 | with the corrected default constructor the stored count is at least 1, and it is the hardware count exactly when that is not 0 |
| Threads.IntegerPathsNeverZero | include/boost/sort/parallel/util/atomic.hpp:78-96 | both integer paths store at least one thread and agree; the default constructor stores the hardware count unclamped, so it stores 0 exactly when the hardware reports 0 |
| Threads.Token.Size | include/boost/sort/parallel/algorithm/token.hpp:36-36 | `size()` is `last - first` modulo 2^64: the difference when valid, a huge number when the pair runs backwards |
| Threads.MakeTokenLevel | include/boost/sort/parallel/algorithm/token.hpp:54-55 | the level is stored modulo 2^32, so a negative level reads as its value plus 2^32 |
| Threads.LevelRoundTrip | include/boost/sort/parallel/algorithm/token.hpp:54-55 | read back as a signed 32-bit value the level is the argument, and it is at least 2^31 iff negative |
| Threads.TokenKinds | include/boost/sort/parallel/algorithm/token.hpp:28-57 | `token` and `token_level` over the same iterators agree on `valid()` and `size()` |

## Left out

- Threads, the spinlock, atomics (`util/atomic.hpp:46-66`), work queues and every parallel driver are not modelled. This covers `parallel_sort`, `parallel_stable_sort`, `sample_sort`, the `block_indirect_sort` and `tk_block_indirect_sort` drivers and the dispatchers in `sort.hpp`. Only their sequential parts are.
- Raw memory is not modelled. `get_temporary_buffer` is the parameter `canAllocate`. Construction into uninitialised storage (`uninit_*`, `init`) is a plain write, and destructors do not run.
- SortSupport.HeapSort: the body is a stand-in, because `heap_sort.hpp` is not part of this model. The intro sorts call it only through its contract: sorted and a permutation.
- The block moves act on whole blocks only. The short tail block, which the source keeps outside the index moves, is outside the model of the moves.
- `move_long_sequence` of `detail/block_indirect_sort.hpp:608-642` is not modelled. BlockMoves.MoveBlocks rotates every cycle with `move_sequence`, ignoring the `group_size` split into parallel work.
- AlgorithmIntroSort.IntroSort: does not promise that a sorted input is left untouched. AlgorithmIntroSort.IntroSortInternal does promise it at a non-zero level. The missing step is a fact about converting the 64-bit size, which the model does not prove.
- BlockLayout.NewBackbone: requires `last - first < 2^63`, so that the positions fit the shifted `size_t` of `block_pos`.
- BlockLayout.CutRange: reports the merge positions instead of merging the data. The merges themselves are the merge primitives above.
- The token default constructors `token()` and `token_level()` leave fields uninitialised and are not modelled.
- BlockMoves.TkMove: requires `MV_SIZE >= 2`. With 1 the re-enqueued sequence never gets shorter.
- `stack_cnc`'s `max_size`, `reserve`, `capacity` and `shrink_to_fit` only concern storage and are not modelled. Its mutex is not modelled either.
- DetailStackCnc.StackCnc.PopBack: requires a non-empty stack, as the source demands of its callers.
- Comparators are `key <` on integer keys. Other element types and comparator objects are not modelled.

## Findings

| source | as written | input that shows it | evidently intended | confidence | as-written member | corrected member |
|---|---|---|---|---|---|---|
| include/boost/sort/parallel/detail/intro_sort.hpp:102-106 | the partition loop runs while `!(c_first > c_last)`, so after both scans stop at the last cell it swaps that cell with itself and scans again, reading `*last` past the range | a 32-element window with keys 2, 1, 2 at positions 1, 16, 31 and 0 elsewhere | keep the loop guard `!(c_first > c_last)` but bound the upward scan by `last`, so it stops at the end of the range instead of reading `*last` | not executed | DetailIntroSort.DetailOverrunWitness | DetailIntroSort.PartitionLoop |
| include/boost/sort/parallel/algorithm/intro_sort.hpp:95-99 | the same `!(c_first > c_last)` loop condition reads past the range | a 32-element window with keys 2 at positions 16 and 31 and 0 elsewhere | keep the loop guard but bound the upward scan by `last`, as in the corrected detail loop | not executed | AlgorithmIntroSort.AlgorithmOverrunWitness | AlgorithmIntroSort.PartitionAndSort |
| include/boost/sort/parallel/util/range.hpp:456-471 | `merge_vector4` does not clear `Vout` before the final level, so with an even number of levels the ranges of an earlier level stay ahead of the result | five input ranges: two levels, and `Vout` ends with three ranges | `Vout` holds exactly the one range of the sorted result | not executed | MergeVector.MergeVector4AsWritten | MergeVector.MergeVector4 |
| include/boost/sort/parallel/detail/block_indirect_sort.hpp:81-81 | `num = (num & ~1) + (b) ? 1 : 0` parses as `((num & ~1) + b) ? 1 : 0`, so setting the side wipes the position | block 3 with side false, given side true, reads position 0 | `num = (num & ~1) + (b ? 1 : 0)`, keeping the position | not executed | DetailBlockPos.BlockPos.SetSideAsWritten | DetailBlockPos.BlockPos.SetSide |
| include/boost/sort/parallel/tools/nthread.hpp:39-39 | the default constructor stores the hardware count without the clamp the integer paths apply, although the class comment says the count can never be 0 | a machine whose hardware count reads 0, which the standard library allows when it cannot tell | the hardware count clamped like any other request, so at least one thread | not executed | Threads.IntegerPathsNeverZero | Threads.NThread.HardwareClamped |
