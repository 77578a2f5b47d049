# Parallel multiway mergesort: index bookkeeping

A Dafny model of the index bookkeeping in tlx's parallel multiway mergesort
(`tlx::parallel_mergesort` and the per-thread `parallel_sort_mwms_pu`). The
sort runs in five steps:

1. `n` elements are cut into `T` chunks whose lengths differ by at most one.
   `T` is clamped so that no chunk is empty.
2. Each worker sorts its own chunk.
3. The sorted chunks are cut into a `T x T` table of pieces. In sampling mode
   the cuts come from sorted samples. In exact mode they come from a
   multi-sequence rank selection.
4. Worker `i` merges row `i` of the table into the output segment
   `[offset_i, offset_i + length_am_i)`.
5. In the copy-last layout, worker `i` then copies its merge buffer back.

The model is generic in the element type and the comparator, which is assumed
to be a strict weak ordering. The library primitives are parameters with the
contracts they promise:

- `std::sort` and `std::stable_sort` satisfy `SortContract`;
- `multiway_merge_base` satisfies `MergeContract`;
- `multisequence_partition` satisfies `SelectContract`.

The OpenMP parallel region runs sequentially. Each phase between two barriers
is a method that runs the step of every worker in turn (`Driver`).

Both buffer layouts selected by `STXXL_MULTIWAY_MERGESORT_COPY_LAST` are
modelled as `BufferStrategy`:

- `CopyFirst`, the one the code compiles: sort in temporaries, merge straight
  into the input.
- `CopyLast`: sort inside the input, merge into temporaries, copy back.

Both splitting algorithms are modelled as `SplitAlgorithm`. In the code the
algorithm is hard-wired to `MWMSA_SAMPLING` (`parallel_mergesort.hpp:170` and
`:313`), so the exact branch is unreachable as written. The model lets the
caller choose, so both branches are proved.

The main results:

- `Driver.ParallelMergesort` leaves inputs of length at most one untouched.
  Otherwise the result is sorted and a permutation of the input, for either
  layout and either splitting algorithm.
- Along the way, the chunk boundaries, the sample slots and reads, the piece
  table, the output segments, the merge and the write-back are each stated
  and proved separately.

`determine_samples` (line 175) runs after the local sort (lines 163-166). It
always reads from the input, never from the sorting place. In the copy-first
layout the input is still unsorted at that point, because the sorted copy is in
the temporary. So the samples come from the unsorted chunk. In the copy-last
layout the sort happened in the input, so the samples come from the sorted
chunk. The model follows the code in both layouts (`Driver.LocalStep`,
`Sampling.DrawnFrom`).

Modules:

| file | module | contents |
|---|---|---|
| `ordering.dfy` | `Ordering` | strict weak orders, sortedness, `std::lower_bound` |
| `split.dfy` | `EqualSplit` | equal division of a length (the partition loop and `equally_split`) |
| `pieces.dfy` | `Pieces` | `PMWMSPiece`, the piece table, output offsets and lengths |
| `merging.dfy` | `Merging` | merge inputs, merged rows, permutation and order of the output |
| `sampling.dfy` | `Sampling` | sample slots and offsets, splitter pieces |
| `exact.dfy` | `Exact` | exact-mode pieces from rank splits |
| `chunks.dfy` | `Chunks` | chunk boundaries, chunks, end-to-end correctness |
| `pmwms.dfy` | `Pmwms` | `PMWMSSortingData` as a class and every per-worker step as a method on it |
| `driver.dfy` | `Driver` | the phases and `parallel_mergesort` |

## Model

| member | source | states |
|---|---|---|
| Pmwms.SortingData.constructor | tlx/sort/parallel_mergesort.hpp:309-320 | `starts` has `T + 1` entries. `samples` has the requested size. Every row of `pieces` has `T` zero pieces. There is one sorting and one merging place per worker. |
| Pmwms.SortingData.Partition | tlx/sort/parallel_mergesort.hpp:325-335 | The running-start loop stores exactly the equal-split boundaries `PartitionStarts(n, T)`. |
| Chunks.PartitionIsBoundaries | tlx/sort/parallel_mergesort.hpp:305-335 | If `1 <= T <= n`, then `starts[0] = 0` and `starts[T] = n`, and the boundaries strictly increase. Chunk `k` holds `n/T + 1` elements when `k < n % T`, and `n/T` otherwise. |
| EqualSplit.SplitPoint | tlx/sort/parallel_mergesort.hpp:325-335 | The start of part `k` when `n` is split into `p` parts with the remainder spread over the first parts. The split starts at 0 and ends at `n`. |
| Chunks.PartitionStarts | tlx/sort/parallel_mergesort.hpp:325-335 | The `T + 1` chunk boundaries, from `starts[0] = 0` to `starts[T] = n`. |
| EqualSplit.SplitPointStep | tlx/sort/parallel_mergesort.hpp:329-330 | Each step adds `n/p + 1` for the first `n % p` parts and `n/p` after that. |
| EqualSplit.SplitPointMonotone | tlx/sort/parallel_mergesort.hpp:325-335 | Split points never decrease. |
| EqualSplit.SplitPointBounded | tlx/sort/parallel_mergesort.hpp:325-335 | No split point exceeds `n`. |
| EqualSplit.SplitPointPartsNonEmpty | tlx/sort/parallel_mergesort.hpp:305-307 | With at most one part per element (the clamp `T <= n`), every part is non-empty. |
| EqualSplit.SplitPointLastPart | tlx/sort/parallel_mergesort.hpp:122-124 | The last part has exactly `n / p` elements. |
| EqualSplit.SplitPointShort | tlx/sort/parallel_mergesort.hpp:122-124 | With fewer elements than parts, part `k` starts at `min(k, n)`. |
| Chunks.ChunkBounds | tlx/sort/parallel_mergesort.hpp:147 | Every chunk lies in `[0, n)` and is non-empty. |
| Chunks.ChunksTileInput | tlx/sort/parallel_mergesort.hpp:325-335 | The chunks, laid end to end, are the input, so together they hold exactly its elements. |
| Chunks.ChunksPrefix | tlx/sort/parallel_mergesort.hpp:325-335 | The first `k` chunks together are the input up to `starts[k]`. |
| Chunks.LengthsSum | tlx/sort/parallel_mergesort.hpp:147 | Sequences as long as the chunks add up to `starts[T] - starts[0]`. |
| Pieces.ChunkLengthsSum | tlx/sort/parallel_mergesort.hpp:147 | The chunk lengths `starts[s+1] - starts[s]` add up to `starts[T] - starts[0]`. |
| Pmwms.SortingData.Chunk | tlx/sort/parallel_mergesort.hpp:147 | `length_local` is at least 1 and equals `starts[iam+1] - starts[iam]`. |
| Pmwms.SortingData.SortLocally | tlx/sort/parallel_mergesort.hpp:147-166 | The sorting place of `iam` becomes the sort of its chunk: the same length and elements, in order. Copy-first leaves the input unchanged. Copy-last overwrites exactly `[starts[iam], starts[iam+1])` of the input with it. |
| Pmwms.SortingData.DetermineSamples | tlx/sort/parallel_mergesort.hpp:115-128 | `num_samples + 1 = V*T`. Worker `iam`'s slots `[iam*ns, (iam+1)*ns)` lie inside `samples`. Slot `iam*ns + k` holds chunk element `SampleOffset(len, ns, k)`, which is always inside the chunk. No other slot changes. |
| Pmwms.DrawSamples | tlx/sort/parallel_mergesort.hpp:126-127 | The copy loop fills exactly slots `[base, base+ns)`, each from the chunk position of the corrected offset. Every other slot is unchanged. |
| Sampling.NumSamples | tlx/sort/parallel_mergesort.hpp:120 | `num_samples + 1 = V*T`. |
| Sampling.SampleOffsetAsWritten | tlx/sort/parallel_mergesort.hpp:122-127 | The source's offset `es[k+1]` never exceeds the chunk length. It can equal it: see the Findings. |
| Sampling.DrawnFrom | tlx/sort/parallel_mergesort.hpp:122-127 | From a non-empty chunk a worker draws exactly `ns` samples, and every one is an element of that chunk. |
| Sampling.SlotsKept | tlx/sort/parallel_mergesort.hpp:126-127 | Writing worker `iam`'s slots keeps every earlier worker's slots as they were. |
| Sampling.SampleSlotInRange | tlx/sort/parallel_mergesort.hpp:126-127 | Slot `iam*ns + k` is below `T*ns`, the size of `samples` (lines 316-317). |
| Sampling.WorkerSlots | tlx/sort/parallel_mergesort.hpp:126-127 | A worker's slots end at `(iam+1)*ns <= T*ns`. |
| Sampling.SampleSlotsDisjoint | tlx/sort/parallel_mergesort.hpp:126-127 | Slots of different workers never coincide, so the concurrent writes do not race. |
| Sampling.SampleOffset | tlx/sort/parallel_mergesort.hpp:122-127 | The corrected sample offset is always `< len`. It agrees with the source's offset whenever that one is inside the chunk. |
| Sampling.SampleReadsInChunkIff | tlx/sort/parallel_mergesort.hpp:122-127 | Both directions: all the source's sample reads stay in the chunk if and only if `ns = 0` or `ns < len`. |
| Sampling.LastSampleReadPastEnd | tlx/sort/parallel_mergesort.hpp:122-127 | When the last chunk has at most `ns` elements, the last worker's final read, as written, addresses `source[n]`. |
| Sampling.FiveElementsTwoWorkersReadPastEnd | tlx/sort/parallel_mergesort.hpp:122-127 | With `n = 5`, `T = 2` and `V = 10`, worker 1 owns `[3, 5)` and reads `source[3 + 2] = source[5]`. |
| Sampling.SampleOffsetUnchangedForLongChunks | tlx/sort/parallel_mergesort.hpp:122-127 | For chunks longer than `ns` the correction changes nothing. |
| Pmwms.SortingData.SortSamples | tlx/sort/parallel_mergesort.hpp:179-180 | `samples` becomes sorted, with the same elements. |
| Sampling.SplitterIndices | tlx/sort/parallel_mergesort.hpp:187-202 | The splitter indices are valid: `ns*iam` is below `T*ns` whenever it is used, and `ns*iam <= ns*(iam+1)`. |
| Sampling.SamplingSplitters | tlx/sort/parallel_mergesort.hpp:187-202 | For workers `i < j`, `i`'s upper splitter and `j`'s lower splitter are real samples in `(0, T*ns)`. The sorted samples put them in order. |
| Ordering.LowerBound | tlx/sort/parallel_mergesort.hpp:189-193 | `std::lower_bound`: everything before the result is ordered before the key, and nothing from it on is. |
| Ordering.LowerBoundMonotone | tlx/sort/parallel_mergesort.hpp:187-204 | A larger splitter never gives an earlier lower bound. |
| Ordering.LowerBoundSeparates | tlx/sort/parallel_mergesort.hpp:187-204 | Elements below the lower bound of `x` may precede elements at or above the lower bound of any `y` not ordered before `x`. |
| Sampling.SamplingPiece | tlx/sort/parallel_mergesort.hpp:184-208 | Both ends of a sampling piece lie in `[0, length_local]`. |
| Pmwms.SplitterBounds | tlx/sort/parallel_mergesort.hpp:187-207 | `begin` is 0 when `ns*iam = 0`. Otherwise `ns*iam` is a valid sample index and `begin` splits the chunk at `samples[ns*iam]`: everything before it is ordered before the splitter, nothing from it on is. `end` is the same for `samples[ns*(iam+1)]`, or the chunk length when `ns*(iam+1) >= ns*T`. |
| Ordering.LowerBoundUnique | tlx/sort/parallel_mergesort.hpp:189-193 | In a sequence partitioned by `x`, any index that splits it at `x` is the lower bound of `x`. |
| Sampling.SamplingPieceCharacterised | tlx/sort/parallel_mergesort.hpp:184-208 | In a sorted chunk, bounds that split it at the two splitters (or are 0 and the chunk length at the ends) form exactly the sampling piece. |
| Pmwms.SortingData.SamplingPieces | tlx/sort/parallel_mergesort.hpp:184-208 | Row `iam` of `pieces` becomes the sampling pieces of every sorted chunk. No other row, and no other field, changes. |
| Sampling.SamplingTable | tlx/sort/parallel_mergesort.hpp:184-208 | The sampling table has `T` rows of `T` pieces, and piece `[i][s]` is worker `i`'s sampling piece of sorted chunk `s`. |
| Sampling.SamplingAdjacent | tlx/sort/parallel_mergesort.hpp:187-204 | Worker `i+1` begins every chunk where worker `i` ends it, because both use sample `ns*(i+1)`. |
| Sampling.SamplingPieceOrdered | tlx/sort/parallel_mergesort.hpp:187-204 | Within a chunk a piece's begin never exceeds its end. |
| Sampling.SamplingRowsOrdered | tlx/sort/parallel_mergesort.hpp:184-208 | Nothing in worker `i`'s pieces must be placed after anything in a later worker's pieces. |
| Sampling.SamplingPiecesTile | tlx/sort/parallel_mergesort.hpp:180-208 | With sorted chunks and sorted samples, the sampling table tiles every chunk, stays inside it, and keeps earlier rows before later ones. |
| Exact.SelectContractApplies | tlx/sort/parallel_mergesort.hpp:221-222 | Each non-last worker's selection at rank `starts[iam+1]` is a rank split, and the offsets of successive workers never decrease. |
| Exact.ExactEnd | tlx/sort/parallel_mergesort.hpp:224-231 | Every exact piece end lies in `[0, length of the chunk]`. |
| Pmwms.SortingData.ExactEnds | tlx/sort/parallel_mergesort.hpp:214-232 | Row `iam` gets the selected offsets as ends, or the chunk lengths for the last worker. Its begins and every other row stay as they were. |
| Pmwms.SortingData.ExactBegins | tlx/sort/parallel_mergesort.hpp:236-244 | Row `iam` begins every chunk at worker `iam-1`'s end, or at 0 for worker 0. Its ends and every other row stay as they were. |
| Exact.ExactPiece | tlx/sort/parallel_mergesort.hpp:224-244 | An exact piece begins at the previous worker's end, or at 0 for worker 0, and ends at the chunk length for the last worker. Both ends lie in `[0, length of the chunk]`. |
| Exact.ExactTable | tlx/sort/parallel_mergesort.hpp:214-244 | The exact table has `T` rows of `T` pieces, and piece `[i][s]` is the exact piece of worker `i` in chunk `s`. |
| Exact.ExactTiles | tlx/sort/parallel_mergesort.hpp:224-244 | The exact pieces tile every chunk. |
| Exact.ExactInChunk | tlx/sort/parallel_mergesort.hpp:224-244 | With monotone selection offsets, every exact piece lies inside its chunk. |
| Exact.ExactRowBegins | tlx/sort/parallel_mergesort.hpp:236-244 | Worker `i`'s piece begins add up to `starts[i]`. |
| Exact.ExactRowEnds | tlx/sort/parallel_mergesort.hpp:224-232 | Worker `i`'s piece ends add up to `starts[i+1]`. |
| Exact.ExactBalance | tlx/sort/parallel_mergesort.hpp:221-253 | Exact balance: worker `i` merges exactly `starts[i+1] - starts[i]` elements. |
| Exact.ExactRowsOrdered | tlx/sort/parallel_mergesort.hpp:221-244 | Nothing in worker `i`'s exact pieces must be placed after anything in a later worker's pieces. |
| Pmwms.SortingData.OutputRange | tlx/sort/parallel_mergesort.hpp:247-253 | The loop computes `offset` as the sum of the row's begins and `length_am` as the sum of its lengths. |
| Pieces.OutputOffset | tlx/sort/parallel_mergesort.hpp:248-253 | `offset` is the sum of the row's begins. It is non-negative when every begin is. |
| Pieces.OutputLength | tlx/sort/parallel_mergesort.hpp:248-253 | `length_am` is the sum of the row's piece lengths, which equals the sum of its ends minus the sum of its begins. |
| Pieces.OutputSegmentStep | tlx/sort/parallel_mergesort.hpp:248-253 | If the pieces tile, then `offset_{i+1} = offset_i + length_am_i`. |
| Pieces.OutputSegmentsFollow | tlx/sort/parallel_mergesort.hpp:248-253 | The output segments tile `[0, n)`: `offset_0 = 0`, `offset_{i+1} = offset_i + length_am_i`, and the last segment ends at `n`. |
| Pieces.OutputSegmentLast | tlx/sort/parallel_mergesort.hpp:248-253 | The last worker's segment ends at the total length. |
| Pieces.OutputSegmentEndsBefore | tlx/sort/parallel_mergesort.hpp:248-253 | A worker's segment ends no later than any later worker's begins. |
| Pieces.OutputSegmentWithin | tlx/sort/parallel_mergesort.hpp:248-262 | Every segment has a non-negative offset and length and lies inside `[0, n)`. |
| Merging.MergeInputs | tlx/sort/parallel_mergesort.hpp:264-269 | Merge input `s` of a worker is exactly `[begin, end)` of sorted chunk `s`, element by element. |
| Merging.MergedRowLength | tlx/sort/parallel_mergesort.hpp:248-271 | A worker's merged output is exactly `length_am` long. |
| Merging.MergedRowsArePermutation | tlx/sort/parallel_mergesort.hpp:264-271 | The merged rows together hold exactly the elements of all chunks. |
| Merging.MergedRowsOrdered | tlx/sort/parallel_mergesort.hpp:264-271 | If the rows are ordered, then the merge of an earlier row may precede the merge of a later one element by element. |
| Merging.MergedRowsSorted | tlx/sort/parallel_mergesort.hpp:264-271 | The merged rows laid end to end are sorted. |
| Merging.SegmentsLayout | tlx/sort/parallel_mergesort.hpp:248-262 | Rows as long as the workers' `length_am`, laid end to end, put row `i` exactly at `offset_i`. |
| Merging.SegmentsTotal | tlx/sort/parallel_mergesort.hpp:248-253 | Those rows together are `n` long. |
| Pmwms.WrittenAtInside | tlx/sort/parallel_mergesort.hpp:277 | After a write of `data` at `offset`, the written range holds `data`. |
| Pmwms.SliceUnchanged | tlx/sort/parallel_mergesort.hpp:147-166 | A range outside the written one is unchanged. |
| Pmwms.WriteSegment | tlx/sort/parallel_mergesort.hpp:277 | `std::copy` into `[offset, offset + len)` overwrites those positions and nothing else. |
| Pmwms.SortingData.MergeRow | tlx/sort/parallel_mergesort.hpp:255-271 | Worker `iam` merges its slices into exactly `length_am` elements: into the input at `offset` (copy-first) or into its own buffer (copy-last). Nothing else changes. |
| Pmwms.SortingData.WriteBack | tlx/sort/parallel_mergesort.hpp:275-278 | The merge buffer is copied to `[offset, offset + length_am)` of the input, and nothing else changes. |
| Driver.LocalSort | tlx/sort/parallel_mergesort.hpp:147-166 | Worker `iam` sorts its chunk. Its sorting place is its chunk sorted. Copy-first leaves the input unchanged. In copy-last the input's chunk `iam` becomes the sorted chunk. Every other chunk, the rest of the input after chunk `iam`, and the other sorting places stay as they were. |
| Driver.ChunksAfterWrite | tlx/sort/parallel_mergesort.hpp:147-166 | After the copy-last sort writes chunk `iam` in place, that chunk holds the sorting place. Every other chunk and everything after chunk `iam` are as before. |
| Driver.WriteKeepsOtherChunks | tlx/sort/parallel_mergesort.hpp:147-166 | Writing chunk `iam` puts the data there and changes no position outside it. |
| Driver.LocalStep | tlx/sort/parallel_mergesort.hpp:147-175 | One worker up to the first barrier. Besides `LocalSort`'s facts about the input and the sorting places: in sampling mode its slots hold the `ns` samples drawn from its chunk as the input now is (the unsorted chunk in copy-first, the sorted one in copy-last), and every other slot is unchanged. In exact mode `samples` is unchanged. |
| Driver.LocalWorker | tlx/sort/parallel_mergesort.hpp:147-175 | One more worker done: the sorted places, copy-last chunks and sample slots of every worker so far stay as they were. |
| Driver.LocalPhase | tlx/sort/parallel_mergesort.hpp:147-177 | After the first barrier every sorting place is its chunk of the original input, sorted. Copy-first: the input is unchanged. Copy-last: every chunk of the input is its sorting place. Sampling mode: every worker's slots hold the samples drawn from its unsorted (copy-first) or sorted (copy-last) chunk. Exact mode: `samples` is unchanged. |
| Driver.SamplingPhase | tlx/sort/parallel_mergesort.hpp:177-208 | Sampling mode: `samples` becomes sorted, with the same elements. The piece table is the sampling table of the sorted samples, and it is ready to merge (tiles, in chunk, rows ordered). |
| Driver.ExactEndsPhase | tlx/sort/parallel_mergesort.hpp:214-232 | Up to the second barrier in exact mode: every row's piece ends are the selected offsets (the chunk lengths for the last worker). |
| Driver.ExactBeginsPhase | tlx/sort/parallel_mergesort.hpp:236-244 | After the second barrier: every piece is the exact piece, its begin being the previous worker's end (0 for worker 0). |
| Driver.ExactPhase | tlx/sort/parallel_mergesort.hpp:210-245 | Exact mode: the piece table is the exact table of the rank splits, and it is ready to merge. |
| Driver.MergeIntoInput | tlx/sort/parallel_mergesort.hpp:261-271 | Copy-first: after all merges the input is the merged rows laid end to end. |
| Driver.MergeIntoBuffers | tlx/sort/parallel_mergesort.hpp:259-271 | Copy-last: the merge reads the sorted chunks in place in the input, which stay there. Each merge buffer holds its merged row, and the input is untouched. |
| Driver.MergePhase | tlx/sort/parallel_mergesort.hpp:255-273 | The merge step for either layout, stated as above. |
| Driver.SegmentInside | tlx/sort/parallel_mergesort.hpp:248-277 | Row `i` lands at `offset_i` and fits inside the input. |
| Driver.AllRowsWritten | tlx/sort/parallel_mergesort.hpp:273-278 | Once every row has been written at its offset, the input is exactly the rows laid end to end. |
| Driver.WritebackPhase | tlx/sort/parallel_mergesort.hpp:273-278 | After the write-back the input is the merge buffers laid end to end. |
| Driver.MergeOutput | tlx/sort/parallel_mergesort.hpp:247-278 | For either layout, the input ends up as the merged rows laid end to end. |
| Chunks.MergesortCorrect | tlx/sort/parallel_mergesort.hpp:135-281 | For locally sorted chunks and any tiling, ordered piece table, the merged output is sorted, is a permutation of the input and has its length. |
| Driver.SortPartitioned | tlx/sort/parallel_mergesort.hpp:135-281 | The per-thread routine on a partitioned input leaves it sorted and a permutation of the original. |
| Driver.ParallelMergesort | tlx/sort/parallel_mergesort.hpp:293-340 | `n <= 1` leaves the input unchanged. Otherwise the result is sorted and holds exactly the input's elements, for both layouts and both splitting algorithms. |

## Left out

- OpenMP. Worker steps between two barriers run one after another, in worker
  order, so interleavings are not modelled. What makes them harmless is
  stated instead: workers write disjoint sample slots, rows of `pieces`,
  chunks and output segments (`Sampling.SampleSlotsDisjoint`,
  `Pieces.OutputSegmentEndsBefore`).
- `#pragma omp single` for the sample sort is modelled as one call, before
  the pieces loop.
- `std::sort`, `std::stable_sort`, `multiway_merge_base` and
  `multisequence_partition` are functions the caller supplies. They are
  assumed to satisfy their contracts (`SortContract`, `MergeContract`,
  `SelectContract`). Their bodies are not part of this model.
- `equally_split` is not part of this model. It is taken to compute the same
  remainder-to-the-front split as the partition loop (`SplitPoint`).
- Exact.SelectContract assumes that the selection's offsets do not decrease
  as the rank grows. Without this a tie could let a worker's begin pass its
  end. The model does not prove it of `multisequence_partition`.
- Stability: `Stable` chooses `std::stable_sort` over `std::sort`
  (lines 163-166) and the stable variant of `multiway_merge_base` (line 271).
  `SortContract` and `MergeContract` each cover both variants, and the order
  of equal elements is not tracked.
- Raw memory is not modelled:
  - uninitialized storage, `::operator new` and `delete`;
  - how the temporaries are freed. Line 280 frees each worker's temporary
    with a plain `delete`. In copy-first that storage came from
    `::operator new` (line 157). In copy-last it is the merge buffer from
    `new ValueType[length_am]` (line 259), so there `delete` is paired with
    `new[]`.
- The temporaries (`sorting_places`, `merging_places`) are sequence values.
- In copy-last, the fact that `sorting_places` aliases into the input is
  represented by the written-back chunk, not by a pointer.
- `temporary` of `PMWMSSortingData` is the sorting place in copy-first
  (line 156) and the merge buffer in copy-last (line 259), and is freed at
  line 280. It is represented by `sortingPlaces` and `mergingPlaces` and is
  not a field of its own. `offsets` is never used and is not modelled.
- `PMWMSSorterPU` is represented by the `iam` argument.
- The global `sort_mwms_oversampling` (default 10) is a parameter
  `oversampling` with `1 <= oversampling`. With a value of 0 the first thing
  to fail is `samples.resize(num_threads * (0 * num_threads - 1))` at lines
  316-317. The size wraps to about 2^64 - T in `size_t`, so the resize fails
  before `determine_samples` runs. (There `num_samples` is a signed
  `DiffType`, so the wrapped value would arrive as -1.)
- `num_threads == 0` with `n >= 2` fails in the `PMWMSSortingData`
  constructor, before the partition loop is reached. At line 92 the
  constructor evaluates `offsets(num_threads - 1)` in `size_t`, which wraps
  to the largest value, so the allocation cannot succeed. The model excludes
  this case: `Driver.ParallelMergesort` requires `1 <= numThreads` when the
  input has two or more elements.
- Integer widths: `size_t` and `difference_type` are unbounded integers.
  Overflow of `T * (V*T - 1)` or of `n` is not modelled.
- Pmwms.SortingData.WriteBack copies the whole merge buffer. It is exactly
  `length_am` long because of `Pmwms.SortingData.MergeRow`, and
  `Driver.WritebackPhase` requires this.
- tlx/math/is_power_of_two.hpp is not part of this model. The sort does not
  use it.

## Findings

| source | as written | input that shows it | evidently intended | confidence | as-written member | corrected member |
|---|---|---|---|---|---|---|
| tlx/sort/parallel_mergesort.hpp:122-127 | Sample `i` is read at `starts[iam] + es[i+1]`, where `es` equally splits the chunk into `num_samples + 1` parts. When the chunk has at most `num_samples` elements, `es[num_samples]` equals the chunk length, so the last read is one past the chunk. For the last worker that is `source[n]`, past the end of the input. In copy-last it is also a read of a neighbouring chunk while its owner sorts it. | `n = 5`, `T = 2`, `V = 10`: worker 1 owns `[3, 5)`, `num_samples = 19`, and sample 1 reads `source[5]` | every sample is an element of the worker's own chunk | medium, not executed | Sampling.LastSampleReadPastEnd | Sampling.SampleOffset |

The concrete instance is `Sampling.FiveElementsTwoWorkersReadPastEnd`.
`Sampling.SampleReadsInChunkIff` states exactly when the as-written offsets
stay in range. The rest of the model draws samples through
`Sampling.SampleOffset` (`Pmwms.DrawSamples`,
`Pmwms.SortingData.DetermineSamples`). That offset is clamped to the chunk's
last element and equals the source's offset whenever the latter is in range
(`Sampling.SampleOffsetUnchangedForLongChunks`).
