/** The shared state of the parallel multiway mergesort (`PMWMSSortingData`)
    and the per-worker steps of `parallel_sort_mwms_pu`, as methods that
    update it in place. A worker is identified by `iam`; the driver in
    `Driver` runs each step for every worker in turn. */
module Pmwms {
  import opened Ordering
  import opened EqualSplit
  import opened Pieces
  import opened Merging
  import opened Sampling
  import opened Exact
  import opened Chunks

  /** `MultiwayMergeSplittingAlgorithm`: how the piece boundaries are found. */
  datatype SplitAlgorithm = BySampling | ByExactSelection

  /** The two buffer layouts selected by `STXXL_MULTIWAY_MERGESORT_COPY_LAST`. */
  datatype BufferStrategy =
    | CopyFirst  // chunks copied to temporaries and sorted there; merged straight into the input
    | CopyLast   // chunks sorted inside the input; merged into temporaries, then copied back

  /** `after` is `before` with `data` written over the positions from `offset`. */
  ghost predicate WrittenAt<T>(after: seq<T>, before: seq<T>, offset: int, data: seq<T>) {
    && |after| == |before|
    && 0 <= offset && offset + |data| <= |before|
    && after == before[..offset] + data + before[offset + |data|..]
  }

  /** A write changes the written positions only. */
  lemma WrittenAtOutside<T>(after: seq<T>, before: seq<T>, offset: int, data: seq<T>, j: int)
    requires WrittenAt(after, before, offset, data) && 0 <= j < |before|
    requires j < offset || offset + |data| <= j
    ensures after[j] == before[j]
  {
    if j < offset {
      assert after[j] == before[..offset][j];
    } else {
      assert after[j] == before[offset + |data|..][j - offset - |data|];
    }
  }

  /** A write puts `data` at the written positions. */
  lemma WrittenAtInside<T>(after: seq<T>, before: seq<T>, offset: int, data: seq<T>)
    requires WrittenAt(after, before, offset, data)
    ensures after[offset..offset + |data|] == data
  {
    assert after[offset..offset + |data|] == (before[..offset] + data + before[offset + |data|..])[offset..offset + |data|];
  }

  /** A slice `[a, b)` away from the changed positions `[lo, hi)` is kept. */
  lemma SliceUnchanged<T>(after: seq<T>, before: seq<T>, a: int, b: int, lo: int, hi: int)
    requires |after| == |before| && 0 <= a <= b <= |before| && (b <= lo || hi <= a)
    requires forall j :: 0 <= j < |before| && !(lo <= j < hi) ==> after[j] == before[j]
    ensures after[a..b] == before[a..b]
  {
    assert forall j :: a <= j < b ==> after[j] == before[j];
  }

  /** Writing `data` just past a prefix `done` extends that prefix by `data`. */
  lemma WrittenAtExtends<T>(after: seq<T>, before: seq<T>, done: seq<T>, data: seq<T>)
    requires WrittenAt(after, before, |done|, data) && before[..|done|] == done
    ensures after[..|done| + |data|] == done + data
  {
    assert after[..|done| + |data|] == before[..|done|] + data;
  }

  /** `std::copy` of `data` to `a[offset..]`. */
  method WriteSegment<T>(a: array<T>, offset: nat, data: seq<T>)
    requires offset + |data| <= a.Length
    modifies a
    ensures WrittenAt(a[..], old(a[..]), offset, data)
  {
    var k := 0;
    while k < |data|
      invariant 0 <= k <= |data|
      invariant forall j :: 0 <= j < a.Length ==> a[j] == (if offset <= j < offset + k then data[j - offset] else old(a[j]))
    {
      a[offset + k] := data[k];
      k := k + 1;
    }
    assert a[..] == old(a[..])[..offset] + data + old(a[..])[offset + |data|..];
  }

  /** The copy loop of `determine_samples`: slot `base + k` receives the
      element at offset `SampleOffset(length, numSamples, k)` of the chunk
      that starts at `start`. */
  method DrawSamples<T>(source: array<T>, start: nat, length: nat, samples: array<T>, base: nat, numSamples: nat)
    requires samples != source
    requires 1 <= length && start + length <= source.Length && base + numSamples <= samples.Length
    modifies samples
    ensures forall j :: base <= j < base + numSamples ==>
      samples[j] == source[start + SampleOffset(length, numSamples, j - base)]
    ensures forall j :: 0 <= j < samples.Length && !(base <= j < base + numSamples) ==> samples[j] == old(samples[j])
  {
    var i := 0;
    while i < numSamples
      invariant 0 <= i <= numSamples
      invariant forall j :: base <= j < base + i ==> samples[j] == source[start + SampleOffset(length, numSamples, j - base)]
      invariant forall j :: 0 <= j < samples.Length && !(base <= j < base + i) ==> samples[j] == old(samples[j])
    {
      samples[base + i] := source[start + SampleOffset(length, numSamples, i)];
      i := i + 1;
    }
  }

  /** One piece of the sampling loop, with `std::lower_bound` in a sorted
      chunk of `length` elements: the first worker begins at 0, every other
      worker at the first element not ordered before its lower splitter
      `samples[numSamples * iam]`; the last worker ends at `length`, every
      other worker at the first element not ordered before its upper
      splitter `samples[numSamples * (iam + 1)]`. */
  method SplitterBounds<T(!new)>(chunk: seq<T>, length: int, samples: seq<T>, numSamples: nat, t: nat, iam: nat,
                                 lt: (T, T) -> bool) returns (begin: int, end: int)
    requires StrictWeakOrder(lt) && Sorted(chunk, lt) && |chunk| == length
    requires iam < t && |samples| == t * numSamples
    ensures numSamples * iam == 0 ==> begin == 0
    ensures numSamples * iam > 0 ==>
      numSamples * iam < |samples| && IsLowerBound(chunk, samples[numSamples * iam], begin, lt)
    ensures numSamples * (iam + 1) >= numSamples * t ==> end == length
    ensures numSamples * (iam + 1) < numSamples * t ==>
      numSamples * (iam + 1) < |samples| && IsLowerBound(chunk, samples[numSamples * (iam + 1)], end, lt)
  {
    SplitterIndices(numSamples, t, iam);
    if numSamples * iam > 0 {
      SortedIsPartitioned(chunk, samples[numSamples * iam], lt);
      begin := LowerBound(chunk, samples[numSamples * iam], lt);
    } else {
      begin := 0;
    }
    if numSamples * (iam + 1) < numSamples * t {
      SortedIsPartitioned(chunk, samples[numSamples * (iam + 1)], lt);
      end := LowerBound(chunk, samples[numSamples * (iam + 1)], lt);
    } else {
      end := length;
    }
  }

  class SortingData<T(0,!new)> {
    /** Number of workers `T`. */
    const numThreads: nat
    const strategy: BufferStrategy
    /** The sequence being sorted. */
    const source: array<T>
    /** Chunk boundaries, one per worker plus the end. */
    const starts: array<int>
    /** Samples, `num_samples` per worker in sampling mode. */
    const samples: array<T>
    /** Each worker's sorted chunk. */
    var sortingPlaces: seq<seq<T>>
    /** Each worker's merged output, in the copy-last layout. */
    var mergingPlaces: seq<seq<T>>
    /** `pieces[worker][chunk]`. */
    var pieces: seq<seq<Piece>>

    ghost predicate Valid()
      reads this
    {
      && 1 <= numThreads
      && starts.Length == numThreads + 1
      && samples != source
      && starts as object != source
      && starts as object != samples
      && |sortingPlaces| == numThreads
      && |mergingPlaces| == numThreads
      && IsTable(pieces, numThreads)
    }

    /** `starts` cut the input into non-empty consecutive chunks. */
    ghost predicate Partitioned()
      reads this, starts
    {
      Valid() && Boundaries(starts[..], source.Length)
    }

    /** Every worker's sorting place holds a sorted sequence as long as its chunk. */
    ghost predicate LocallySorted(lt: (T, T) -> bool)
      reads this, starts
    {
      && Partitioned()
      && forall s :: 0 <= s < numThreads ==>
           |sortingPlaces[s]| == starts[s + 1] - starts[s] && Sorted(sortingPlaces[s], lt)
    }

    /** Copy-last layout: the sorting places are the input's own chunks
        (`sorting_places[s]` points into the input at `starts[s]`). */
    ghost predicate SortedInPlace()
      reads this, starts, source
    {
      Partitioned() && forall s :: 0 <= s < numThreads ==> Chunk(s) == sortingPlaces[s]
    }

    /** Worker `s`'s chunk of the input, as the input is now. */
    ghost function Chunk(s: nat): (c: seq<T>)
      reads this, starts, source
      requires Partitioned() && s < numThreads
      ensures 1 <= |c| == starts[s + 1] - starts[s]
    {
      ChunkBounds(starts[..], source.Length, s);
      source[starts[s]..starts[s + 1]]
    }

    /** The construction of `PMWMSSortingData` together with the resizing of
        `samples` and of every row of `pieces` in `parallel_mergesort`. */
    constructor (source: array<T>, numThreads: nat, sampleCount: nat, strategy: BufferStrategy)
      requires 1 <= numThreads
      ensures Valid() && fresh(starts) && fresh(samples)
      ensures this.source == source && this.numThreads == numThreads && this.strategy == strategy
      ensures samples.Length == sampleCount
      ensures forall i, s :: 0 <= i < numThreads && 0 <= s < numThreads ==> pieces[i][s] == Piece(0, 0)
    {
      this.numThreads := numThreads;
      this.strategy := strategy;
      this.source := source;
      starts := new int[numThreads + 1];
      samples := new T[sampleCount];
      sortingPlaces := seq(numThreads, _ => []);
      mergingPlaces := seq(numThreads, _ => []);
      pieces := seq(numThreads, _ => seq(numThreads, _ => Piece(0, 0)));
    }

    /** The partition loop of `parallel_mergesort`: a running `start` that
        grows by `n / T + 1` for the first `n % T` chunks and by `n / T` after. */
    method Partition()
      requires Valid()
      modifies starts
      ensures starts[..] == PartitionStarts(source.Length, numThreads)
    {
      var n := source.Length;
      var chunkLength, split, start := n / numThreads, n % numThreads, 0;
      var i := 0;
      while i < numThreads
        invariant 0 <= i <= numThreads
        invariant start == SplitPoint(n, numThreads, i)
        invariant forall k :: 0 <= k < i ==> starts[k] == SplitPoint(n, numThreads, k)
      {
        starts[i] := start;
        SplitPointStep(n, numThreads, i);
        start := start + if i < split then chunkLength + 1 else chunkLength;
        i := i + 1;
      }
      starts[numThreads] := start;
      assert starts[..] == PartitionStarts(n, numThreads);
    }

    /** Worker `iam` sorts its chunk: in a copy (copy-first) or inside the
        input itself (copy-last). */
    method SortLocally(iam: nat, sort: seq<T> -> seq<T>, lt: (T, T) -> bool)
      requires Partitioned() && iam < numThreads && SortContract(sort, lt)
      modifies this, source
      ensures Partitioned()
      ensures pieces == old(pieces) && mergingPlaces == old(mergingPlaces)
      ensures sortingPlaces == old(sortingPlaces)[iam := sort(old(Chunk(iam)))]
      ensures SortedChunkOf(sortingPlaces[iam], old(Chunk(iam)), lt)
      ensures strategy == CopyFirst ==> source[..] == old(source[..])
      ensures strategy == CopyLast ==> WrittenAt(source[..], old(source[..]), starts[iam], sortingPlaces[iam])
    {
      ChunkBounds(starts[..], source.Length, iam);
      var chunk := source[starts[iam]..starts[iam + 1]];
      var sorted := sort(chunk);
      assert |sorted| == |multiset(sorted)| == |multiset(chunk)| == |chunk|;
      if strategy == CopyLast {
        WriteSegment(source, starts[iam], sorted);
      }
      sortingPlaces := sortingPlaces[iam := sorted];
    }

    /** `determine_samples`: worker `iam` copies `V * T - 1` elements of its
        chunk into its own slots of `samples`, at the offsets of an equal
        split of the chunk into `num_samples + 1` parts, kept inside the
        chunk. */
    method DetermineSamples(iam: nat, oversampling: nat) returns (numSamples: nat)
      requires Partitioned() && iam < numThreads && 1 <= oversampling
      requires samples.Length == numThreads * (oversampling * numThreads - 1)
      modifies samples
      ensures Partitioned() && Chunk(iam) == old(Chunk(iam))
      ensures numSamples + 1 == oversampling * numThreads
      ensures iam * numSamples + numSamples <= samples.Length
      ensures forall j :: iam * numSamples <= j < iam * numSamples + numSamples ==>
        0 <= j < samples.Length &&
        samples[j] == Chunk(iam)[SampleOffset(|Chunk(iam)|, numSamples, j - iam * numSamples)]
      ensures forall j :: 0 <= j < samples.Length && !(iam * numSamples <= j < iam * numSamples + numSamples) ==>
        samples[j] == old(samples[j])
      ensures SlotsHold(samples[..], iam, numSamples, DrawnFrom(Chunk(iam), numSamples))
    {
      numSamples := NumSamples(oversampling, numThreads);
      ChunkBounds(starts[..], source.Length, iam);
      var length := starts[iam + 1] - starts[iam];
      ghost var chunk := Chunk(iam);
      var base := iam * numSamples;
      WorkerSlots(numSamples, numThreads, iam);
      DrawSamples(source, starts[iam], length, samples, base, numSamples);
      forall j | base <= j < base + numSamples
        ensures samples[j] == chunk[SampleOffset(length, numSamples, j - base)]
      {
        assert source[starts[iam] + SampleOffset(length, numSamples, j - base)]
            == chunk[SampleOffset(length, numSamples, j - base)];
      }
      assert samples[base..base + numSamples] == DrawnFrom(chunk, numSamples);
    }

    /** The single-threaded `std::sort` of all samples. */
    method SortSamples(sort: seq<T> -> seq<T>, lt: (T, T) -> bool)
      requires SortContract(sort, lt)
      modifies samples
      ensures samples[..] == sort(old(samples[..]))
      ensures Sorted(samples[..], lt) && multiset(samples[..]) == multiset(old(samples[..]))
    {
      var sorted := sort(samples[..]);
      assert |sorted| == |multiset(sorted)| == |multiset(samples[..])| == samples.Length;
      WriteSegment(samples, 0, sorted);
      assert samples[..] == sorted;
    }

    /** Sampling mode: worker `iam`'s piece of every chunk runs from the lower
        bound of its lower splitter `samples[num_samples * iam]` to that of its
        upper splitter `samples[num_samples * (iam + 1)]`; the first worker
        starts at 0 and the last ends at the chunk's length. */
    method SamplingPieces(iam: nat, numSamples: nat, lt: (T, T) -> bool)
      requires LocallySorted(lt) && StrictWeakOrder(lt) && iam < numThreads
      requires samples.Length == numThreads * numSamples
      modifies this
      ensures Valid()
      ensures sortingPlaces == old(sortingPlaces) && mergingPlaces == old(mergingPlaces)
      ensures forall i :: 0 <= i < numThreads && i != iam ==> pieces[i] == old(pieces[i])
      ensures forall s :: 0 <= s < numThreads ==>
        pieces[iam][s] == SamplingPiece(sortingPlaces[s], samples[..], numSamples, numThreads, iam, lt)
    {
      var t := numThreads;
      ghost var smp := samples[..];
      var s := 0;
      while s < t
        invariant 0 <= s <= t
        invariant Valid() && sortingPlaces == old(sortingPlaces) && mergingPlaces == old(mergingPlaces)
        invariant forall i :: 0 <= i < t && i != iam ==> pieces[i] == old(pieces[i])
        invariant forall u :: 0 <= u < s ==>
          pieces[iam][u] == SamplingPiece(sortingPlaces[u], smp, numSamples, t, iam, lt)
      {
        assert Sorted(sortingPlaces[s], lt);
        var begin, end := SplitterBounds(sortingPlaces[s], starts[s + 1] - starts[s], samples[..], numSamples, t, iam, lt);
        SamplingPieceCharacterised(sortingPlaces[s], smp, numSamples, t, iam, lt, begin, end);
        pieces := pieces[iam := pieces[iam][s := Piece(begin, end)]];
        s := s + 1;
      }
    }

    /** Exact mode, first half: every worker but the last asks the rank
        selection for the offsets of global rank `starts[iam + 1]` and makes
        them its piece ends; the last worker ends every chunk at its length. */
    method ExactEnds(iam: nat, select: (seq<seq<T>>, int) -> seq<int>, lt: (T, T) -> bool)
      requires LocallySorted(lt) && iam < numThreads
      requires ExactSplits(sortingPlaces, starts[..], select, lt)
      modifies this
      ensures Valid()
      ensures sortingPlaces == old(sortingPlaces) && mergingPlaces == old(mergingPlaces)
      ensures forall i :: 0 <= i < numThreads && i != iam ==> pieces[i] == old(pieces[i])
      ensures forall s :: 0 <= s < numThreads ==>
        pieces[iam][s] == Piece(old(pieces[iam][s].begin), ExactEnd(sortingPlaces, starts[..], select, lt, iam, s))
    {
      var t := numThreads;
      var offsets: seq<int> := [];
      if iam < t - 1 {
        offsets := select(sortingPlaces, starts[iam + 1]);
        assert offsets == Cut(sortingPlaces, starts[..], select, iam);
        assert IsRankSplit(sortingPlaces, starts[iam + 1], offsets, lt);
      }
      var s := 0;
      while s < t
        invariant 0 <= s <= t
        invariant Valid() && sortingPlaces == old(sortingPlaces) && mergingPlaces == old(mergingPlaces)
        invariant forall i :: 0 <= i < t && i != iam ==> pieces[i] == old(pieces[i])
        invariant forall u :: 0 <= u < s ==>
          pieces[iam][u] == Piece(old(pieces[iam][u].begin), ExactEnd(sortingPlaces, starts[..], select, lt, iam, u))
        invariant forall u :: s <= u < t ==> pieces[iam][u] == old(pieces[iam][u])
      {
        var end := if iam < t - 1 then offsets[s] else starts[s + 1] - starts[s];
        pieces := pieces[iam := pieces[iam][s := pieces[iam][s].(end := end)]];
        s := s + 1;
      }
    }

    /** Exact mode, second half (after every end is known): each worker
        begins every chunk where the previous worker ends it, the first at 0. */
    method ExactBegins(iam: nat)
      requires Valid() && iam < numThreads
      modifies this
      ensures Valid()
      ensures sortingPlaces == old(sortingPlaces) && mergingPlaces == old(mergingPlaces)
      ensures forall i :: 0 <= i < numThreads && i != iam ==> pieces[i] == old(pieces[i])
      ensures forall s :: 0 <= s < numThreads ==>
        pieces[iam][s] == Piece(if iam > 0 then old(pieces[iam - 1][s].end) else 0, old(pieces[iam][s].end))
    {
      var t := numThreads;
      var s := 0;
      while s < t
        invariant 0 <= s <= t
        invariant Valid() && sortingPlaces == old(sortingPlaces) && mergingPlaces == old(mergingPlaces)
        invariant forall i :: 0 <= i < t && i != iam ==> pieces[i] == old(pieces[i])
        invariant forall u :: 0 <= u < s ==>
          pieces[iam][u] == Piece(if iam > 0 then old(pieces[iam - 1][u].end) else 0, old(pieces[iam][u].end))
        invariant forall u :: s <= u < t ==> pieces[iam][u] == old(pieces[iam][u])
      {
        var begin := if iam > 0 then pieces[iam - 1][s].end else 0;
        pieces := pieces[iam := pieces[iam][s := pieces[iam][s].(begin := begin)]];
        s := s + 1;
      }
    }

    /** Worker `iam`'s output position and length: the sums of its piece
        begins and of its piece lengths. */
    method OutputRange(iam: nat) returns (offset: int, lengthAm: int)
      requires Valid() && iam < numThreads
      ensures offset == OutputOffset(pieces, iam) && lengthAm == OutputLength(pieces, iam)
    {
      var row := pieces[iam];
      offset, lengthAm := 0, 0;
      var s := 0;
      while s < numThreads
        invariant 0 <= s <= numThreads
        invariant offset == SumBegins(row[..s]) && lengthAm == SumLengths(row[..s])
      {
        assert row[..s + 1][..s] == row[..s];
        lengthAm := lengthAm + (row[s].end - row[s].begin);
        offset := offset + row[s].begin;
        s := s + 1;
      }
      assert row[..numThreads] == row;
    }

    /** Worker `iam` merges its pieces, exactly `length_am` elements: straight
        into the input at its offset (copy-first) or into its own buffer
        (copy-last). */
    method MergeRow(iam: nat, merge: seq<seq<T>> -> seq<T>, lt: (T, T) -> bool)
      requires Valid() && iam < numThreads
      requires Tiles(pieces, Lengths(sortingPlaces)) && InChunk(pieces, Lengths(sortingPlaces))
      requires AllSorted(sortingPlaces, lt) && MergeContract(merge, lt)
      requires Sum(Lengths(sortingPlaces)) == source.Length
      modifies this, source
      ensures Valid() && sortingPlaces == old(sortingPlaces) && pieces == old(pieces)
      ensures strategy == CopyFirst ==>
        mergingPlaces == old(mergingPlaces) &&
        WrittenAt(source[..], old(source[..]), OutputOffset(pieces, iam), MergedRow(sortingPlaces, pieces, merge, iam))
      ensures strategy == CopyLast ==>
        source[..] == old(source[..]) &&
        mergingPlaces == old(mergingPlaces)[iam := MergedRow(sortingPlaces, pieces, merge, iam)]
    {
      var offset, lengthAm := OutputRange(iam);
      assert RowInChunk(pieces[iam], Lengths(sortingPlaces));
      var seqs := MergeInputs(sortingPlaces, pieces[iam]);
      var merged := merge(seqs);
      OutputSegmentWithin(pieces, Lengths(sortingPlaces), iam);
      MergedRowLength(sortingPlaces, pieces, merge, lt, iam);
      assert |merged| == lengthAm;
      if strategy == CopyFirst {
        WriteSegment(source, offset, merged);
      } else {
        mergingPlaces := mergingPlaces[iam := merged];
      }
    }

    /** Copy-last layout: worker `iam` copies its merged buffer back to its
        output segment of the input. */
    method WriteBack(iam: nat)
      requires Valid() && iam < numThreads
      requires 0 <= OutputOffset(pieces, iam)
      requires OutputOffset(pieces, iam) + |mergingPlaces[iam]| <= source.Length
      modifies source
      ensures WrittenAt(source[..], old(source[..]), OutputOffset(pieces, iam), mergingPlaces[iam])
    {
      var offset, lengthAm := OutputRange(iam);
      WriteSegment(source, offset, mergingPlaces[iam]);
    }
  }
}
