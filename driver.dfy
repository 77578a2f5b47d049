/** `parallel_mergesort`: trivial inputs are returned at once, the number of
    workers is clamped to the input length, the input is partitioned, and the
    phases of `parallel_sort_mwms_pu` run one after another. Each phase runs
    the step of every worker in turn; the barriers of the parallel region
    are the boundaries between the phase methods. */
module Driver {
  import opened Ordering
  import opened Pieces
  import opened Merging
  import opened Sampling
  import opened Exact
  import opened Chunks
  import opened Pmwms

  /** After the splitting phase: the sorted chunks and a piece table that
      tiles them, stays inside them and keeps earlier rows before later ones. */
  ghost predicate ReadyToMerge<T(0,!new)>(sd: SortingData<T>, lt: (T, T) -> bool)
    reads sd, sd.starts
  {
    && sd.LocallySorted(lt)
    && Tiles(sd.pieces, Lengths(sd.sortingPlaces))
    && InChunk(sd.pieces, Lengths(sd.sortingPlaces))
    && RowsOrdered(sd.sortingPlaces, sd.pieces, lt)
  }

  /** Worker `iam` up to the first barrier: it sorts its chunk and, in
      sampling mode, draws its samples from the input as it is at that
      moment: the unsorted chunk in the copy-first layout, where the sorting
      happened in a copy, and the sorted chunk in the copy-last layout, where
      the chunk was sorted inside the input. It changes no other part of the
      input and no other worker's sample slots. */
  method LocalStep<T(0,!new)>(sd: SortingData<T>, ghost input: seq<T>, ghost chunks: seq<seq<T>>,
                             iam: nat, oversampling: nat, algorithm: SplitAlgorithm,
                             sort: seq<T> -> seq<T>, lt: (T, T) -> bool)
    requires sd.Partitioned() && |input| == sd.source.Length && iam < sd.numThreads
    requires chunks == ChunksOf(input, sd.starts[..])
    requires SortContract(sort, lt) && 1 <= oversampling
    requires algorithm == BySampling ==>
      sd.samples.Length == sd.numThreads * NumSamples(oversampling, sd.numThreads)
    requires forall j :: sd.starts[iam] <= j < sd.source.Length ==> sd.source[j] == input[j]
    modifies sd, sd.source, sd.samples
    ensures sd.Partitioned() && sd.pieces == old(sd.pieces)
    ensures forall s :: 0 <= s < sd.numThreads && s != iam ==> sd.sortingPlaces[s] == old(sd.sortingPlaces[s])
    ensures SortedChunkOf(sd.sortingPlaces[iam], chunks[iam], lt)
    ensures sd.strategy == CopyFirst ==> sd.source[..] == old(sd.source[..])
    ensures sd.strategy == CopyLast ==> sd.Chunk(iam) == sd.sortingPlaces[iam]
    ensures forall s :: 0 <= s < sd.numThreads && s != iam ==> sd.Chunk(s) == old(sd.Chunk(s))
    ensures forall j :: sd.starts[iam + 1] <= j < sd.source.Length ==> sd.source[j] == input[j]
    ensures algorithm == BySampling ==>
      var ns := NumSamples(oversampling, sd.numThreads);
      && SlotsHold(sd.samples[..], iam, ns,
                   DrawnFrom(if sd.strategy == CopyFirst then chunks[iam] else sd.sortingPlaces[iam], ns))
      && forall j :: 0 <= j < sd.samples.Length && !(iam * ns <= j < iam * ns + ns) ==> sd.samples[j] == old(sd.samples[j])
    ensures algorithm == ByExactSelection ==> sd.samples[..] == old(sd.samples[..])
  {
    LocalSort(sd, input, chunks, iam, sort, lt);
    if algorithm == BySampling {
      ghost var drawnFrom := sd.Chunk(iam);
      assert drawnFrom == (if sd.strategy == CopyFirst then chunks[iam] else sd.sortingPlaces[iam]);
      var numSamples := sd.DetermineSamples(iam, oversampling);
    }
  }

  /** The sorting half of `LocalStep`: the input changes only in worker
      `iam`'s chunk, and only in the copy-last layout. */
  method LocalSort<T(0,!new)>(sd: SortingData<T>, ghost input: seq<T>, ghost chunks: seq<seq<T>>,
                             iam: nat, sort: seq<T> -> seq<T>, lt: (T, T) -> bool)
    requires sd.Partitioned() && |input| == sd.source.Length && iam < sd.numThreads
    requires chunks == ChunksOf(input, sd.starts[..])
    requires SortContract(sort, lt)
    requires forall j :: sd.starts[iam] <= j < sd.source.Length ==> sd.source[j] == input[j]
    modifies sd, sd.source
    ensures sd.Partitioned() && sd.pieces == old(sd.pieces)
    ensures forall s :: 0 <= s < sd.numThreads && s != iam ==> sd.sortingPlaces[s] == old(sd.sortingPlaces[s])
    ensures SortedChunkOf(sd.sortingPlaces[iam], chunks[iam], lt)
    ensures sd.strategy == CopyFirst ==> sd.source[..] == old(sd.source[..]) && sd.Chunk(iam) == chunks[iam]
    ensures sd.strategy == CopyLast ==> sd.Chunk(iam) == sd.sortingPlaces[iam]
    ensures forall s :: 0 <= s < sd.numThreads && s != iam ==> sd.Chunk(s) == old(sd.Chunk(s))
    ensures forall j :: sd.starts[iam + 1] <= j < sd.source.Length ==> sd.source[j] == input[j]
  {
    ChunkBounds(sd.starts[..], |input|, iam);
    assert sd.Chunk(iam) == chunks[iam];
    ghost var before := sd.source[..];
    sd.SortLocally(iam, sort, lt);
    if sd.strategy == CopyLast {
      ChunksAfterWrite(sd, before, iam);
    }
  }

  /** After worker `iam` writes its sorted chunk back to the input, that chunk
      holds it, and every other chunk and everything past it are as before. */
  lemma ChunksAfterWrite<T(0,!new)>(sd: SortingData<T>, before: seq<T>, iam: nat)
    requires sd.Partitioned() && |before| == sd.source.Length && iam < sd.numThreads
    requires |sd.sortingPlaces[iam]| == sd.starts[iam + 1] - sd.starts[iam]
    requires WrittenAt(sd.source[..], before, sd.starts[iam], sd.sortingPlaces[iam])
    ensures sd.Chunk(iam) == sd.sortingPlaces[iam]
    ensures forall s :: 0 <= s < sd.numThreads && s != iam ==> sd.Chunk(s) == before[sd.starts[s]..sd.starts[s + 1]]
    ensures forall j :: sd.starts[iam + 1] <= j < |before| ==> sd.source[j] == before[j]
  {
    ghost var st := sd.starts[..];
    WriteKeepsOtherChunks(before, sd.source[..], st, iam, sd.sortingPlaces[iam]);
    forall s | 0 <= s < sd.numThreads && s != iam ensures sd.Chunk(s) == before[st[s]..st[s + 1]] {
      ChunkBounds(st, |before|, s);
      SliceUnchanged(sd.source[..], before, st[s], st[s + 1], st[iam], st[iam + 1]);
    }
  }

  /** Writing chunk `iam` of `before` puts `data` there and leaves every
      position outside that chunk as it was. */
  lemma WriteKeepsOtherChunks<T>(before: seq<T>, after: seq<T>, starts: seq<int>, iam: nat, data: seq<T>)
    requires Boundaries(starts, |before|) && iam + 1 < |starts|
    requires WrittenAt(after, before, starts[iam], data) && |data| == starts[iam + 1] - starts[iam]
    ensures |after| == |before| && after[starts[iam]..starts[iam + 1]] == data
    ensures forall j :: 0 <= j < |before| && !(starts[iam] <= j < starts[iam + 1]) ==> after[j] == before[j]
  {
    var lo, hi := starts[iam], starts[iam + 1];
    WrittenAtInside(after, before, lo, data);
    forall j | 0 <= j < |before| && !(lo <= j < hi) ensures after[j] == before[j] {
      WrittenAtOutside(after, before, lo, data, j);
    }
  }

  /** Up to the first barrier, for every worker. Afterwards every sorting
      place holds its chunk sorted; the input is unchanged (copy-first) or
      holds the sorted chunks in place (copy-last); and in sampling mode
      every worker's slots hold the samples drawn from its chunk. */
  method LocalPhase<T(0,!new)>(sd: SortingData<T>, ghost input: seq<T>, oversampling: nat,
                              algorithm: SplitAlgorithm, sort: seq<T> -> seq<T>, lt: (T, T) -> bool)
    requires sd.Partitioned() && sd.source[..] == input && SortContract(sort, lt) && 1 <= oversampling
    requires algorithm == BySampling ==>
      sd.samples.Length == sd.numThreads * NumSamples(oversampling, sd.numThreads)
    modifies sd, sd.source, sd.samples
    ensures sd.LocallySorted(lt) && |input| == sd.source.Length
    ensures sd.pieces == old(sd.pieces)
    ensures forall s :: 0 <= s < sd.numThreads ==>
      SortedChunkOf(sd.sortingPlaces[s], ChunksOf(input, sd.starts[..])[s], lt)
    ensures sd.strategy == CopyFirst ==> sd.source[..] == input
    ensures sd.strategy == CopyLast ==> sd.SortedInPlace()
    ensures algorithm == BySampling ==>
      var ns := NumSamples(oversampling, sd.numThreads);
      forall i :: 0 <= i < sd.numThreads ==>
        SlotsHold(sd.samples[..], i, ns,
                  DrawnFrom(if sd.strategy == CopyFirst then ChunksOf(input, sd.starts[..])[i] else sd.sortingPlaces[i], ns))
    ensures algorithm == ByExactSelection ==> sd.samples[..] == old(sd.samples[..])
  {
    var t := sd.numThreads;
    ghost var starts := sd.starts[..];
    ghost var chunks := ChunksOf(input, starts);
    ghost var ns := if algorithm == BySampling then NumSamples(oversampling, t) else 0;
    ghost var samples0 := sd.samples[..];
    var iam := 0;
    while iam < t
      invariant 0 <= iam <= t
      invariant sd.Partitioned() && sd.pieces == old(sd.pieces)
      invariant forall j :: starts[iam] <= j < |input| ==> sd.source[j] == input[j]
      invariant sd.strategy == CopyFirst ==> sd.source[..] == input
      invariant LocalDone(sd, chunks, ns, algorithm, samples0, iam, lt)
    {
      LocalWorker(sd, input, chunks, ns, samples0, iam, oversampling, algorithm, sort, lt);
      iam := iam + 1;
    }
    LocalDoneMeans(sd, input, chunks, ns, algorithm, samples0, oversampling, lt);
  }

  /** Once every worker is done, the local phase's promises hold. */
  lemma LocalDoneMeans<T(0,!new)>(sd: SortingData<T>, input: seq<T>, chunks: seq<seq<T>>, ns: nat,
                                  algorithm: SplitAlgorithm, samples0: seq<T>, oversampling: nat, lt: (T, T) -> bool)
    requires sd.Partitioned() && |input| == sd.source.Length && 1 <= oversampling
    requires chunks == ChunksOf(input, sd.starts[..])
    requires algorithm == BySampling ==> ns == NumSamples(oversampling, sd.numThreads)
    requires LocalDone(sd, chunks, ns, algorithm, samples0, sd.numThreads, lt)
    ensures sd.LocallySorted(lt)
    ensures forall s :: 0 <= s < sd.numThreads ==>
      SortedChunkOf(sd.sortingPlaces[s], ChunksOf(input, sd.starts[..])[s], lt)
    ensures sd.strategy == CopyLast ==> sd.SortedInPlace()
    ensures algorithm == BySampling ==>
      var ns := NumSamples(oversampling, sd.numThreads);
      forall i :: 0 <= i < sd.numThreads ==>
        SlotsHold(sd.samples[..], i, ns,
                  DrawnFrom(if sd.strategy == CopyFirst then ChunksOf(input, sd.starts[..])[i] else sd.sortingPlaces[i], ns))
    ensures algorithm == ByExactSelection ==> sd.samples[..] == samples0
  {
  }

  /** What the local phase has established for workers `[0, k)`. */
  ghost predicate LocalDone<T(0,!new)>(sd: SortingData<T>, chunks: seq<seq<T>>, ns: nat,
                                       algorithm: SplitAlgorithm, samples0: seq<T>, k: nat, lt: (T, T) -> bool)
    reads sd, sd.starts, sd.source, sd.samples
    requires sd.Partitioned() && k <= sd.numThreads
  {
    && |chunks| == sd.numThreads
    && (forall s :: 0 <= s < k ==> SortedChunkOf(sd.sortingPlaces[s], chunks[s], lt))
    && (sd.strategy == CopyLast ==> forall s :: 0 <= s < k ==> sd.Chunk(s) == sd.sortingPlaces[s])
    && (algorithm == BySampling ==> forall i :: 0 <= i < k ==>
          SlotsHold(sd.samples[..], i, ns,
                    DrawnFrom(if sd.strategy == CopyFirst then chunks[i] else sd.sortingPlaces[i], ns)))
    && (algorithm == ByExactSelection ==> sd.samples[..] == samples0)
  }

  /** One iteration of the local phase: worker `iam`'s step keeps what the
      earlier workers established. */
  method LocalWorker<T(0,!new)>(sd: SortingData<T>, ghost input: seq<T>, ghost chunks: seq<seq<T>>, ghost ns: nat,
                               ghost samples0: seq<T>, iam: nat, oversampling: nat, algorithm: SplitAlgorithm,
                               sort: seq<T> -> seq<T>, lt: (T, T) -> bool)
    requires sd.Partitioned() && |input| == sd.source.Length && iam < sd.numThreads
    requires chunks == ChunksOf(input, sd.starts[..])
    requires SortContract(sort, lt) && 1 <= oversampling
    requires algorithm == BySampling ==>
      ns == NumSamples(oversampling, sd.numThreads) && sd.samples.Length == sd.numThreads * ns
    requires forall j :: sd.starts[iam] <= j < sd.source.Length ==> sd.source[j] == input[j]
    requires sd.strategy == CopyFirst ==> sd.source[..] == input
    requires LocalDone(sd, chunks, ns, algorithm, samples0, iam, lt)
    modifies sd, sd.source, sd.samples
    ensures sd.Partitioned() && sd.pieces == old(sd.pieces)
    ensures forall j :: sd.starts[iam + 1] <= j < sd.source.Length ==> sd.source[j] == input[j]
    ensures sd.strategy == CopyFirst ==> sd.source[..] == input
    ensures LocalDone(sd, chunks, ns, algorithm, samples0, iam + 1, lt)
  {
    ghost var smp := sd.samples[..];
    ghost var sp := sd.sortingPlaces;
    LocalStep(sd, input, chunks, iam, oversampling, algorithm, sort, lt);
    if algorithm == BySampling {
      forall i | 0 <= i < iam
        ensures SlotsHold(sd.samples[..], i, ns, DrawnFrom(if sd.strategy == CopyFirst then chunks[i] else sd.sortingPlaces[i], ns))
      {
        assert sd.sortingPlaces[i] == sp[i];
        SlotsKept(smp, sd.samples[..], i, iam, ns, DrawnFrom(if sd.strategy == CopyFirst then chunks[i] else sp[i], ns));
      }
    }
  }

  /** Sampling mode, from the first barrier to the merge: all samples are
      sorted, then every worker cuts every sorted chunk at its splitters. */
  method SamplingPhase<T(0,!new)>(sd: SortingData<T>, oversampling: nat, sort: seq<T> -> seq<T>, lt: (T, T) -> bool)
    requires sd.LocallySorted(lt) && StrictWeakOrder(lt) && SortContract(sort, lt) && 1 <= oversampling
    requires sd.samples.Length == sd.numThreads * NumSamples(oversampling, sd.numThreads)
    modifies sd, sd.samples
    ensures ReadyToMerge(sd, lt) && sd.sortingPlaces == old(sd.sortingPlaces)
    ensures Sorted(sd.samples[..], lt) && multiset(sd.samples[..]) == multiset(old(sd.samples[..]))
    ensures sd.pieces == SamplingTable(sd.sortingPlaces, sd.samples[..], NumSamples(oversampling, sd.numThreads), lt)
  {
    var t := sd.numThreads;
    var numSamples := NumSamples(oversampling, t);
    sd.SortSamples(sort, lt);
    ghost var sp, smp := sd.sortingPlaces, sd.samples[..];
    var iam := 0;
    while iam < t
      invariant 0 <= iam <= t
      invariant sd.LocallySorted(lt) && sd.sortingPlaces == sp && sd.samples[..] == smp
      invariant forall i, s :: 0 <= i < iam && 0 <= s < t ==>
        sd.pieces[i][s] == SamplingPiece(sp[s], smp, numSamples, t, i, lt)
    {
      sd.SamplingPieces(iam, numSamples, lt);
      iam := iam + 1;
    }
    var table := SamplingTable(sp, smp, numSamples, lt);
    assert forall i :: 0 <= i < t ==> sd.pieces[i] == table[i];
    assert sd.pieces == table;
    SamplingPiecesTile(sp, smp, oversampling, lt);
  }

  /** Exact mode, from the first barrier to the merge: every worker sets its
      piece ends, and after the second barrier its piece begins. */
  method ExactPhase<T(0,!new)>(sd: SortingData<T>, select: (seq<seq<T>>, int) -> seq<int>, lt: (T, T) -> bool)
    requires sd.LocallySorted(lt) && SelectContract(select, lt)
    modifies sd
    ensures ReadyToMerge(sd, lt) && sd.sortingPlaces == old(sd.sortingPlaces)
    ensures ExactSplits(sd.sortingPlaces, sd.starts[..], select, lt)
    ensures sd.pieces == ExactTable(sd.sortingPlaces, sd.starts[..], select, lt)
  {
    var t := sd.numThreads;
    ghost var sp, st := sd.sortingPlaces, sd.starts[..];
    LengthsSum(sp, st);
    forall i | 0 <= i < t ensures st[i] <= st[i + 1] {
      ChunkBounds(st, sd.source.Length, i);
    }
    SelectContractApplies(sp, st, select, lt);
    ExactEndsPhase(sd, select, lt);
    ExactBeginsPhase(sd, select, lt);
    var table := ExactTable(sp, st, select, lt);
    assert forall i :: 0 <= i < t ==> sd.pieces[i] == table[i];
    assert sd.pieces == table;
    ExactTiles(sp, st, select, lt);
    ExactInChunk(sp, st, select, lt);
    ExactRowsOrdered(sp, st, select, lt);
  }

  /** Exact mode, up to the second barrier: every worker's piece ends. */
  method ExactEndsPhase<T(0,!new)>(sd: SortingData<T>, select: (seq<seq<T>>, int) -> seq<int>, lt: (T, T) -> bool)
    requires sd.LocallySorted(lt) && ExactSplits(sd.sortingPlaces, sd.starts[..], select, lt)
    modifies sd
    ensures sd.LocallySorted(lt) && sd.sortingPlaces == old(sd.sortingPlaces)
    ensures forall i, s :: 0 <= i < sd.numThreads && 0 <= s < sd.numThreads ==>
      sd.pieces[i][s].end == ExactEnd(sd.sortingPlaces, sd.starts[..], select, lt, i, s)
  {
    var t := sd.numThreads;
    ghost var sp, st := sd.sortingPlaces, sd.starts[..];
    var iam := 0;
    while iam < t
      invariant 0 <= iam <= t
      invariant sd.LocallySorted(lt) && sd.sortingPlaces == sp
      invariant forall i, s :: 0 <= i < iam && 0 <= s < t ==> sd.pieces[i][s].end == ExactEnd(sp, st, select, lt, i, s)
    {
      sd.ExactEnds(iam, select, lt);
      iam := iam + 1;
    }
  }

  /** Exact mode, after the second barrier: every worker's piece begins. */
  method ExactBeginsPhase<T(0,!new)>(sd: SortingData<T>, select: (seq<seq<T>>, int) -> seq<int>, lt: (T, T) -> bool)
    requires sd.LocallySorted(lt) && ExactSplits(sd.sortingPlaces, sd.starts[..], select, lt)
    requires forall i, s :: 0 <= i < sd.numThreads && 0 <= s < sd.numThreads ==>
      sd.pieces[i][s].end == ExactEnd(sd.sortingPlaces, sd.starts[..], select, lt, i, s)
    modifies sd
    ensures sd.LocallySorted(lt) && sd.sortingPlaces == old(sd.sortingPlaces)
    ensures forall i, s :: 0 <= i < sd.numThreads && 0 <= s < sd.numThreads ==>
      sd.pieces[i][s] == ExactPiece(sd.sortingPlaces, sd.starts[..], select, lt, i, s)
  {
    var t := sd.numThreads;
    ghost var sp, st := sd.sortingPlaces, sd.starts[..];
    var iam := 0;
    while iam < t
      invariant 0 <= iam <= t
      invariant sd.Valid() && sd.sortingPlaces == sp
      invariant forall i, s :: 0 <= i < iam && 0 <= s < t ==> sd.pieces[i][s] == ExactPiece(sp, st, select, lt, i, s)
      invariant forall i, s :: iam <= i < t && 0 <= s < t ==> sd.pieces[i][s].end == ExactEnd(sp, st, select, lt, i, s)
    {
      sd.ExactBegins(iam);
      iam := iam + 1;
    }
  }

  /** Every worker computes its output range and merges its pieces: straight
      into the input (copy-first) or into its own buffer (copy-last). */
  method MergePhase<T(0,!new)>(sd: SortingData<T>, merge: seq<seq<T>> -> seq<T>, lt: (T, T) -> bool)
    requires sd.Valid() && MergeContract(merge, lt) && AllSorted(sd.sortingPlaces, lt)
    requires Tiles(sd.pieces, Lengths(sd.sortingPlaces)) && InChunk(sd.pieces, Lengths(sd.sortingPlaces))
    requires Sum(Lengths(sd.sortingPlaces)) == sd.source.Length
    requires sd.strategy == CopyLast ==> sd.SortedInPlace()
    modifies sd, sd.source
    ensures sd.Valid() && sd.sortingPlaces == old(sd.sortingPlaces) && sd.pieces == old(sd.pieces)
    ensures sd.strategy == CopyFirst ==> sd.source[..] == Concat(MergedRows(sd.sortingPlaces, sd.pieces, merge))
    ensures sd.strategy == CopyLast ==>
      sd.source[..] == old(sd.source[..]) && sd.mergingPlaces == MergedRows(sd.sortingPlaces, sd.pieces, merge)
  {
    if sd.strategy == CopyFirst {
      MergeIntoInput(sd, merge, lt);
    } else {
      MergeIntoBuffers(sd, merge, lt);
    }
  }

  /** The merge phase in the copy-first layout. */
  method MergeIntoInput<T(0,!new)>(sd: SortingData<T>, merge: seq<seq<T>> -> seq<T>, lt: (T, T) -> bool)
    requires sd.Valid() && sd.strategy == CopyFirst && MergeContract(merge, lt) && AllSorted(sd.sortingPlaces, lt)
    requires Tiles(sd.pieces, Lengths(sd.sortingPlaces)) && InChunk(sd.pieces, Lengths(sd.sortingPlaces))
    requires Sum(Lengths(sd.sortingPlaces)) == sd.source.Length
    modifies sd, sd.source
    ensures sd.Valid() && sd.sortingPlaces == old(sd.sortingPlaces) && sd.pieces == old(sd.pieces)
    ensures sd.source[..] == Concat(MergedRows(sd.sortingPlaces, sd.pieces, merge))
  {
    var t := sd.numThreads;
    ghost var sp, pc := sd.sortingPlaces, sd.pieces;
    ghost var rows := MergedRows(sp, pc, merge);
    ghost var lens := Lengths(sp);
    MergedRowLengths(sp, pc, merge, lt);
    var iam := 0;
    while iam < t
      invariant 0 <= iam <= t
      invariant sd.Valid() && sd.sortingPlaces == sp && sd.pieces == pc
      invariant RowsWritten(sd.source[..], rows, iam)
    {
      ghost var before := sd.source[..];
      sd.MergeRow(iam, merge, lt);
      WriteRow(pc, lens, rows, before, sd.source[..], iam);
      iam := iam + 1;
    }
    AllRowsWritten(pc, lens, rows, sd.source[..]);
  }

  /** The merge phase in the copy-last layout. */
  method MergeIntoBuffers<T(0,!new)>(sd: SortingData<T>, merge: seq<seq<T>> -> seq<T>, lt: (T, T) -> bool)
    requires sd.Valid() && sd.strategy == CopyLast && MergeContract(merge, lt) && AllSorted(sd.sortingPlaces, lt)
    requires Tiles(sd.pieces, Lengths(sd.sortingPlaces)) && InChunk(sd.pieces, Lengths(sd.sortingPlaces))
    requires Sum(Lengths(sd.sortingPlaces)) == sd.source.Length
    requires sd.SortedInPlace()
    modifies sd, sd.source
    ensures sd.Valid() && sd.sortingPlaces == old(sd.sortingPlaces) && sd.pieces == old(sd.pieces)
    ensures sd.source[..] == old(sd.source[..]) && sd.SortedInPlace()
    ensures sd.mergingPlaces == MergedRows(sd.sortingPlaces, sd.pieces, merge)
  {
    var t := sd.numThreads;
    ghost var sp, pc := sd.sortingPlaces, sd.pieces;
    ghost var rows := MergedRows(sp, pc, merge);
    var iam := 0;
    while iam < t
      invariant 0 <= iam <= t
      invariant sd.Valid() && sd.sortingPlaces == sp && sd.pieces == pc
      invariant sd.source[..] == old(sd.source[..])
      invariant forall i :: 0 <= i < iam ==> sd.mergingPlaces[i] == rows[i]
    {
      sd.MergeRow(iam, merge, lt);
      iam := iam + 1;
    }
  }

  /** Copy-last layout, after the last barrier: every worker copies its
      merged buffer back to its output range of the input. */
  method WritebackPhase<T(0,!new)>(sd: SortingData<T>)
    requires sd.Valid() && Tiles(sd.pieces, Lengths(sd.sortingPlaces)) && InChunk(sd.pieces, Lengths(sd.sortingPlaces))
    requires Sum(Lengths(sd.sortingPlaces)) == sd.source.Length
    requires forall k :: 0 <= k < sd.numThreads ==> |sd.mergingPlaces[k]| == OutputLength(sd.pieces, k)
    modifies sd.source
    ensures sd.source[..] == Concat(sd.mergingPlaces)
  {
    var t := sd.numThreads;
    ghost var pc, rows := sd.pieces, sd.mergingPlaces;
    ghost var lens := Lengths(sd.sortingPlaces);
    var iam := 0;
    while iam < t
      invariant 0 <= iam <= t
      invariant RowsWritten(sd.source[..], rows, iam)
    {
      ghost var before := sd.source[..];
      SegmentInside(pc, lens, rows, iam);
      sd.WriteBack(iam);
      WriteRow(pc, lens, rows, before, sd.source[..], iam);
      iam := iam + 1;
    }
    AllRowsWritten(pc, lens, rows, sd.source[..]);
  }

  /** The first `k` rows, laid end to end, are a prefix of `a`. */
  ghost predicate RowsWritten<T>(a: seq<T>, rows: seq<seq<T>>, k: nat)
    requires k <= |rows|
  {
    |Concat(rows[..k])| <= |a| && a[..|Concat(rows[..k])|] == Concat(rows[..k])
  }

  /** Row `i` is as long as its output segment, which lies inside the input. */
  lemma SegmentInside<T>(pieces: seq<seq<Piece>>, lens: seq<int>, rows: seq<seq<T>>, i: nat)
    requires Tiles(pieces, lens) && InChunk(pieces, lens) && |rows| == |lens| && i < |lens|
    requires forall k :: 0 <= k < |rows| ==> |rows[k]| == OutputLength(pieces, k)
    ensures OutputOffset(pieces, i) == |Concat(rows[..i])|
    ensures 0 <= OutputOffset(pieces, i) && OutputOffset(pieces, i) + |rows[i]| <= Sum(lens)
  {
    SegmentsLayout(pieces, lens, rows, i);
    OutputSegmentWithin(pieces, lens, i);
  }

  /** Writing row `i` at its output offset extends the written prefix. */
  lemma WriteRow<T>(pieces: seq<seq<Piece>>, lens: seq<int>, rows: seq<seq<T>>, before: seq<T>, after: seq<T>, i: nat)
    requires Tiles(pieces, lens) && InChunk(pieces, lens) && |rows| == |lens| && i < |lens|
    requires forall k :: 0 <= k < |rows| ==> |rows[k]| == OutputLength(pieces, k)
    requires RowsWritten(before, rows, i)
    requires WrittenAt(after, before, OutputOffset(pieces, i), rows[i])
    ensures RowsWritten(after, rows, i + 1)
  {
    SegmentInside(pieces, lens, rows, i);
    ConcatSnoc(rows[..i], rows[i]);
    assert rows[..i + 1] == rows[..i] + [rows[i]];
    WrittenAtExtends(after, before, Concat(rows[..i]), rows[i]);
  }

  /** Once every row is written, the rows fill the whole input. */
  lemma AllRowsWritten<T>(pieces: seq<seq<Piece>>, lens: seq<int>, rows: seq<seq<T>>, a: seq<T>)
    requires Tiles(pieces, lens) && |rows| == |lens| && |a| == Sum(lens)
    requires forall k :: 0 <= k < |rows| ==> |rows[k]| == OutputLength(pieces, k)
    requires RowsWritten(a, rows, |rows|)
    ensures a == Concat(rows)
  {
    assert rows[..|rows|] == rows;
    SegmentsTotal(pieces, lens, rows);
  }

  /** The merge and, in the copy-last layout, the copy back: the input ends
      up holding the merged rows one after another. */
  method MergeOutput<T(0,!new)>(sd: SortingData<T>, merge: seq<seq<T>> -> seq<T>, lt: (T, T) -> bool)
    requires sd.LocallySorted(lt) && MergeContract(merge, lt)
    requires Tiles(sd.pieces, Lengths(sd.sortingPlaces)) && InChunk(sd.pieces, Lengths(sd.sortingPlaces))
    requires sd.strategy == CopyLast ==> sd.SortedInPlace()
    modifies sd, sd.source
    ensures sd.source[..] == Concat(MergedRows(old(sd.sortingPlaces), old(sd.pieces), merge))
  {
    ghost var sp, pc := sd.sortingPlaces, sd.pieces;
    assert AllSorted(sp, lt);
    LengthsSum(sp, sd.starts[..]);
    ghost var rows := MergedRows(sp, pc, merge);
    MergePhase(sd, merge, lt);
    if sd.strategy == CopyLast {
      ghost var buffers := sd.mergingPlaces;
      assert buffers == rows;
      MergedRowLengths(sp, pc, merge, lt);
      WritebackPhase(sd);
      assert sd.source[..] == Concat(buffers);
    }
    assert sd.source[..] == Concat(rows);
  }

  /** Everything after the partition: local sorting, splitting, merging. */
  method SortPartitioned<T(0,!new)>(sd: SortingData<T>, ghost input: seq<T>, oversampling: nat,
                                   algorithm: SplitAlgorithm,
                                   localSort: seq<T> -> seq<T>, sampleSort: seq<T> -> seq<T>,
                                   merge: seq<seq<T>> -> seq<T>, select: (seq<seq<T>>, int) -> seq<int>,
                                   lt: (T, T) -> bool)
    requires StrictWeakOrder(lt) && SortContract(localSort, lt) && SortContract(sampleSort, lt)
    requires MergeContract(merge, lt) && SelectContract(select, lt) && 1 <= oversampling
    requires sd.Partitioned() && sd.source[..] == input
    requires algorithm == BySampling ==>
      sd.samples.Length == sd.numThreads * NumSamples(oversampling, sd.numThreads)
    modifies sd, sd.source, sd.samples
    ensures Sorted(sd.source[..], lt) && multiset(sd.source[..]) == multiset(input)
  {
    ghost var starts := sd.starts[..];
    LocalPhase(sd, input, oversampling, algorithm, localSort, lt);
    ghost var sorted, placed := sd.sortingPlaces, sd.source[..];
    assert forall s :: 0 <= s < |sorted| ==> SortedChunkOf(sorted[s], ChunksOf(input, starts)[s], lt);
    if algorithm == BySampling {
      SamplingPhase(sd, oversampling, sampleSort, lt);
    } else {
      ExactPhase(sd, select, lt);
    }
    assert sd.source[..] == placed && sd.starts[..] == starts;
    ghost var pieces := sd.pieces;
    assert Tiles(pieces, Lengths(sorted)) && RowsOrdered(sorted, pieces, lt);
    MergeOutput(sd, merge, lt);
    MergesortCorrect(input, starts, sorted, pieces, merge, lt);
  }

  /** `parallel_mergesort`: sorts `source` with at most `numThreads` workers
      (at least one for inputs of two or more elements: with none, the
      constructor's `offsets(num_threads - 1)` wraps and cannot be
      allocated). Inputs of at most one element are left as they are. */
  method ParallelMergesort<T(0,!new)>(source: array<T>, numThreads: nat, oversampling: nat,
                                     algorithm: SplitAlgorithm, strategy: BufferStrategy,
                                     localSort: seq<T> -> seq<T>, sampleSort: seq<T> -> seq<T>,
                                     merge: seq<seq<T>> -> seq<T>, select: (seq<seq<T>>, int) -> seq<int>,
                                     lt: (T, T) -> bool)
    requires StrictWeakOrder(lt) && SortContract(localSort, lt) && SortContract(sampleSort, lt)
    requires MergeContract(merge, lt) && SelectContract(select, lt)
    requires 1 <= oversampling
    requires source.Length <= 1 || 1 <= numThreads
    modifies source
    ensures source.Length <= 1 ==> source[..] == old(source[..])
    ensures Sorted(source[..], lt) && multiset(source[..]) == multiset(old(source[..]))
  {
    var n := source.Length;
    if n <= 1 {
      return;
    }
    var t := if numThreads > n then n else numThreads;
    var sampleCount := if algorithm == BySampling then t * NumSamples(oversampling, t) else 0;
    var sd := new SortingData(source, t, sampleCount, strategy);
    sd.Partition();
    PartitionIsBoundaries(n, t);
    SortPartitioned(sd, source[..], oversampling, algorithm, localSort, sampleSort, merge, select, lt);
  }
}
