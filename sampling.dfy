/** Sampling-mode splitting: where each worker reads its samples from, which
    slots of the shared sample buffer it fills, and the pieces the sorted
    samples cut every sorted chunk into. */
module Sampling {
  import opened Ordering
  import opened EqualSplit
  import opened Pieces
  import opened Merging

  /** `num_samples`: samples drawn per worker with oversampling factor `v`. */
  function NumSamples(v: nat, t: nat): (ns: nat)
    requires 1 <= v && 1 <= t
    ensures ns + 1 == v * t
  {
    assert v * t >= 1 by { MulPositive(v, t); }
    v * t - 1
  }

  lemma MulPositive(a: nat, b: nat)
    requires 1 <= a && 1 <= b
    ensures a * b >= 1
  {
  }

  lemma MulStep(ns: nat, k: nat)
    ensures ns * (k + 1) == ns * k + ns
  {
  }

  /** `ns * i <= ns * j` when `i <= j`. */
  lemma {:induction false} MulMonotone(ns: nat, i: nat, j: nat)
    requires i <= j
    ensures ns * i <= ns * j
    decreases j - i
  {
    if i < j {
      MulMonotone(ns, i, j - 1);
      MulStep(ns, j - 1);
    }
  }

  /** Sample slot `k` of worker `iam` lies inside the buffer of `t * ns`
      samples. */
  lemma SampleSlotInRange(ns: nat, t: nat, iam: nat, k: nat)
    requires iam < t && k < ns
    ensures iam * ns + k < t * ns
  {
    MulMonotone(ns, iam + 1, t);
    MulStep(ns, iam);
  }

  /** Worker `iam`'s slots `[iam * ns, (iam + 1) * ns)` end inside the buffer. */
  lemma WorkerSlots(ns: nat, t: nat, iam: nat)
    requires iam < t
    ensures (iam + 1) * ns == iam * ns + ns <= t * ns
  {
    MulMonotone(ns, iam + 1, t);
    MulStep(ns, iam);
  }

  /** Different workers' sample slots never meet. */
  lemma SampleSlotsDisjoint(ns: nat, iam: nat, k: nat, other: nat, k': nat)
    requires other != iam && k < ns && k' < ns
    ensures other * ns + k' != iam * ns + k
  {
    if other < iam {
      MulMonotone(ns, other + 1, iam);
      MulStep(ns, other);
    } else {
      MulMonotone(ns, iam + 1, other);
      MulStep(ns, iam);
    }
  }

  /** Offset within the chunk of sample `k`, as the source computes it: the
      element right after the `k + 1`-th of `ns + 1` equal split points. */
  function SampleOffsetAsWritten(len: nat, ns: nat, k: nat): (r: nat)
    requires k < ns
    ensures r <= len
  {
    SplitPointBounded(len, ns + 1, k + 1);
    SplitPoint(len, ns + 1, k + 1)
  }

  /** The offset the source evidently means: the same element, but never past
      the chunk's last element. */
  function SampleOffset(len: nat, ns: nat, k: nat): (r: nat)
    requires 1 <= len && k < ns
    ensures r < len
    ensures SampleOffsetAsWritten(len, ns, k) < len ==> r == SampleOffsetAsWritten(len, ns, k)
  {
    var e := SampleOffsetAsWritten(len, ns, k);
    if e < len then e else len - 1
  }

  /** The samples a worker draws from its chunk `c`, in slot order: `ns` of
      them, each an element of `c`. */
  function DrawnFrom<T>(c: seq<T>, ns: nat): (r: seq<T>)
    ensures |c| >= 1 ==> |r| == ns
    ensures forall x :: x in r ==> x in c
  {
    if |c| == 0 then []
    else
      var r := seq(ns, k requires 0 <= k < ns => c[SampleOffset(|c|, ns, k)]);
      assert forall k :: 0 <= k < ns ==> r[k] in c;
      r
  }

  /** Worker `iam`'s slots `[iam * ns, (iam + 1) * ns)` of `samples` hold
      `drawn`. */
  ghost predicate SlotsHold<T>(samples: seq<T>, iam: nat, ns: nat, drawn: seq<T>) {
    iam * ns + ns <= |samples| && samples[iam * ns..iam * ns + ns] == drawn
  }

  /** A later worker's writes, which touch its own slots only, keep what an
      earlier worker's slots hold. */
  lemma SlotsKept<T>(before: seq<T>, after: seq<T>, i: nat, iam: nat, ns: nat, drawn: seq<T>)
    requires SlotsHold(before, i, ns, drawn) && |after| == |before| && i < iam
    requires forall j :: 0 <= j < |after| && !(iam * ns <= j < iam * ns + ns) ==> after[j] == before[j]
    ensures SlotsHold(after, i, ns, drawn)
  {
    MulMonotone(ns, i + 1, iam);
    MulStep(ns, i);
    assert i * ns + ns <= iam * ns;
    assert after[i * ns..i * ns + ns] == before[i * ns..i * ns + ns];
  }

  /** The source's sample reads stay inside the worker's chunk exactly when
      the chunk has more elements than there are samples (or no samples are
      drawn at all). */
  lemma SampleReadsInChunkIff(len: nat, ns: nat)
    requires 1 <= len
    ensures (forall k :: 0 <= k < ns ==> SampleOffsetAsWritten(len, ns, k) < len) <==> (ns == 0 || ns < len)
  {
    if 0 < ns {
      SplitPointLastPart(len, ns + 1);
      if ns < len {
        assert len / (ns + 1) >= 1;
        forall k | 0 <= k < ns ensures SampleOffsetAsWritten(len, ns, k) < len {
          SplitPointMonotone(len, ns + 1, k + 1, ns);
        }
      } else {
        assert len / (ns + 1) == 0;
        assert SampleOffsetAsWritten(len, ns, ns - 1) == len;
      }
    }
  }

  /** When the last chunk has no more elements than there are samples, the
      last worker's final sample read, as written, addresses `source[n]`, one
      past the end of the sequence. */
  lemma LastSampleReadPastEnd(n: nat, t: nat, v: nat)
    requires 1 <= t <= n && 1 <= v
    requires 0 < NumSamples(v, t)
    requires SplitPoint(n, t, t) - SplitPoint(n, t, t - 1) <= NumSamples(v, t)
    ensures SplitPoint(n, t, t - 1)
            + SampleOffsetAsWritten(SplitPoint(n, t, t) - SplitPoint(n, t, t - 1), NumSamples(v, t), NumSamples(v, t) - 1)
            == n
  {
    var ns := NumSamples(v, t);
    var len := SplitPoint(n, t, t) - SplitPoint(n, t, t - 1);
    SplitPointShort(len, ns + 1, ns);
  }

  /** A concrete input: five elements, two workers, oversampling ten (the
      default). Worker 1 owns `[3, 5)` and its second sample read, as
      written, is `source[5]`. */
  lemma FiveElementsTwoWorkersReadPastEnd()
    ensures NumSamples(10, 2) == 19
    ensures SplitPoint(5, 2, 1) == 3 && SplitPoint(5, 2, 2) == 5
    ensures SplitPoint(5, 2, 1) + SampleOffsetAsWritten(2, 19, 1) == 5
  {
  }

  /** With a chunk longer than the sample count the corrected offsets are the
      source's own. */
  lemma SampleOffsetUnchangedForLongChunks(len: nat, ns: nat, k: nat)
    requires ns < len && k < ns
    ensures SampleOffset(len, ns, k) == SampleOffsetAsWritten(len, ns, k)
  {
    SampleReadsInChunkIff(len, ns);
  }

  // ---------------------------------------------------------------------------
  // Splitters and pieces

  /** The splitter indices a worker uses are valid: `ns * iam` whenever it is
      positive, `ns * (iam + 1)` whenever it is below `ns * t`. */
  lemma SplitterIndices(ns: nat, t: nat, iam: nat)
    requires iam < t
    ensures ns * iam > 0 ==> ns * iam < ns * t
    ensures ns * iam <= ns * (iam + 1)
  {
    MulStep(ns, iam);
    MulMonotone(ns, iam + 1, t);
  }

  /** `pieces[iam][s]` in sampling mode: the lower bounds of the worker's
      lower and upper splitters in sorted chunk `s`, or the chunk's ends for
      the first and the last worker. */
  function SamplingPiece<T(!new)>(chunk: seq<T>, samples: seq<T>, ns: nat, t: nat, iam: nat, lt: (T, T) -> bool): (p: Piece)
    requires StrictWeakOrder(lt) && Sorted(chunk, lt)
    requires iam < t && |samples| == t * ns
    ensures 0 <= p.begin <= |chunk| && 0 <= p.end <= |chunk|
  {
    SplitterIndices(ns, t, iam);
    var begin :=
      if ns * iam > 0 then
        SortedIsPartitioned(chunk, samples[ns * iam], lt);
        LowerBound(chunk, samples[ns * iam], lt)
      else 0;
    var end :=
      if ns * (iam + 1) < ns * t then
        SortedIsPartitioned(chunk, samples[ns * (iam + 1)], lt);
        LowerBound(chunk, samples[ns * (iam + 1)], lt)
      else |chunk|;
    Piece(begin, end)
  }

  /** The piece the splitter positions give is the sampling piece: a lower
      bound is unique. */
  lemma SamplingPieceCharacterised<T(!new)>(chunk: seq<T>, samples: seq<T>, ns: nat, t: nat, iam: nat,
                                            lt: (T, T) -> bool, begin: int, end: int)
    requires StrictWeakOrder(lt) && Sorted(chunk, lt)
    requires iam < t && |samples| == t * ns
    requires ns * iam == 0 ==> begin == 0
    requires ns * iam > 0 ==> ns * iam < |samples| && IsLowerBound(chunk, samples[ns * iam], begin, lt)
    requires ns * (iam + 1) >= ns * t ==> end == |chunk|
    requires ns * (iam + 1) < ns * t ==> ns * (iam + 1) < |samples| && IsLowerBound(chunk, samples[ns * (iam + 1)], end, lt)
    ensures Piece(begin, end) == SamplingPiece(chunk, samples, ns, t, iam, lt)
  {
    if ns * iam > 0 {
      SortedIsPartitioned(chunk, samples[ns * iam], lt);
      LowerBoundUnique(chunk, samples[ns * iam], begin, lt);
    }
    if ns * (iam + 1) < ns * t {
      SortedIsPartitioned(chunk, samples[ns * (iam + 1)], lt);
      LowerBoundUnique(chunk, samples[ns * (iam + 1)], end, lt);
    }
  }

  /** The whole piece table in sampling mode. */
  function SamplingTable<T(!new)>(chunks: seq<seq<T>>, samples: seq<T>, ns: nat, lt: (T, T) -> bool): (pieces: seq<seq<Piece>>)
    requires StrictWeakOrder(lt) && AllSorted(chunks, lt)
    requires |samples| == |chunks| * ns
    ensures IsTable(pieces, |chunks|)
    ensures forall i, s :: 0 <= i < |chunks| && 0 <= s < |chunks| ==>
      pieces[i][s] == SamplingPiece(chunks[s], samples, ns, |chunks|, i, lt)
  {
    var t := |chunks|;
    seq(t, i requires 0 <= i < t =>
      seq(t, s requires 0 <= s < t => SamplingPiece(chunks[s], samples, ns, t, i, lt)))
  }

  /** The sampling pieces of every chunk tile it, each lies inside its chunk,
      and earlier workers' pieces hold no element a later worker's pieces
      must place before it. This needs the chunks and the samples sorted and
      at least one sample per worker boundary (`ns + 1 == v * t`). */
  lemma SamplingPiecesTile<T(!new)>(chunks: seq<seq<T>>, samples: seq<T>, v: nat, lt: (T, T) -> bool)
    requires StrictWeakOrder(lt) && AllSorted(chunks, lt) && Sorted(samples, lt)
    requires 1 <= v && 1 <= |chunks|
    requires |samples| == |chunks| * NumSamples(v, |chunks|)
    ensures Tiles(SamplingTable(chunks, samples, NumSamples(v, |chunks|), lt), Lengths(chunks))
    ensures InChunk(SamplingTable(chunks, samples, NumSamples(v, |chunks|), lt), Lengths(chunks))
    ensures RowsOrdered(chunks, SamplingTable(chunks, samples, NumSamples(v, |chunks|), lt), lt)
  {
    var t := |chunks|;
    var ns := NumSamples(v, t);
    var pieces := SamplingTable(chunks, samples, ns, lt);
    var lens := Lengths(chunks);
    forall i | 0 <= i < t - 1 ensures RowsAdjacent(pieces, i) {
      SamplingAdjacent(chunks, samples, v, lt, i);
    }
    forall i | 0 <= i < t ensures RowInChunk(pieces[i], lens) {
      forall s | 0 <= s < t ensures pieces[i][s].begin <= pieces[i][s].end {
        SamplingPieceOrdered(chunks[s], samples, ns, t, i, lt);
      }
    }
    forall i, j, s, u | 0 <= i < j < t && 0 <= s < t && 0 <= u < t
      ensures AllBefore(MergeInputs(chunks, pieces[i])[s], MergeInputs(chunks, pieces[j])[u], lt)
    {
      SamplingRowsOrdered(chunks, samples, v, lt, i, j, s, u);
    }
  }

  /** Worker `i + 1` starts every chunk where worker `i` ends it: both use the
      lower bound of sample `ns * (i + 1)`. */
  lemma SamplingAdjacent<T(!new)>(chunks: seq<seq<T>>, samples: seq<T>, v: nat, lt: (T, T) -> bool, i: nat)
    requires StrictWeakOrder(lt) && AllSorted(chunks, lt)
    requires 1 <= v && i + 1 < |chunks|
    requires |samples| == |chunks| * NumSamples(v, |chunks|)
    ensures RowsAdjacent(SamplingTable(chunks, samples, NumSamples(v, |chunks|), lt), i)
  {
    var t := |chunks|;
    var ns := NumSamples(v, t);
    assert ns > 0 by {
      MulMonotone(v, 2, t);
    }
    MulStep(ns, i);
    SplitterIndices(ns, t, i + 1);
    assert ns * (i + 1) > 0;
  }

  /** Within one chunk a worker's lower splitter position never exceeds its
      upper one, because the samples are sorted. */
  lemma SamplingPieceOrdered<T(!new)>(chunk: seq<T>, samples: seq<T>, ns: nat, t: nat, iam: nat, lt: (T, T) -> bool)
    requires StrictWeakOrder(lt) && Sorted(chunk, lt) && Sorted(samples, lt)
    requires iam < t && |samples| == t * ns
    ensures SamplingPiece(chunk, samples, ns, t, iam, lt).begin <= SamplingPiece(chunk, samples, ns, t, iam, lt).end
  {
    SplitterIndices(ns, t, iam);
    MulStep(ns, iam);
    if ns * iam > 0 && ns * (iam + 1) < ns * t {
      LowerBoundMonotone(chunk, samples[ns * iam], samples[ns * (iam + 1)], lt);
    }
  }

  /** Two splitter positions of a lower and a higher splitter separate the
      elements of two sorted sequences. */
  lemma SlicesSeparated<T(!new)>(c: seq<T>, d: seq<T>, x: T, y: T, p: Piece, q: Piece, lt: (T, T) -> bool)
    requires StrictWeakOrder(lt) && Sorted(c, lt) && Sorted(d, lt) && !lt(y, x)
    requires 0 <= p.begin <= p.end <= |c| && 0 <= q.begin <= q.end <= |d|
    requires PartitionedBy(c, x, lt) && PartitionedBy(d, y, lt)
    requires p.end == LowerBound(c, x, lt) && q.begin == LowerBound(d, y, lt)
    ensures AllBefore(c[p.begin..p.end], d[q.begin..q.end], lt)
  {
    var xs, ys := c[p.begin..p.end], d[q.begin..q.end];
    forall a, b | 0 <= a < |xs| && 0 <= b < |ys| ensures !lt(ys[b], xs[a]) {
      LowerBoundSeparates(c, d, x, y, p.begin + a, q.begin + b, lt);
    }
  }

  /** Elements in worker `i`'s piece of chunk `s` may precede those in worker
      `j`'s piece of chunk `u` for `i < j`: the former lie below the lower
      bound of sample `ns * (i + 1)`, the latter at or above the lower bound
      of sample `ns * j`, which is not ordered before it. */
  lemma SamplingRowsOrdered<T(!new)>(chunks: seq<seq<T>>, samples: seq<T>, v: nat, lt: (T, T) -> bool,
                                      i: nat, j: nat, s: nat, u: nat)
    requires StrictWeakOrder(lt) && AllSorted(chunks, lt) && Sorted(samples, lt)
    requires 1 <= v && i < j < |chunks| && s < |chunks| && u < |chunks|
    requires |samples| == |chunks| * NumSamples(v, |chunks|)
    requires InChunk(SamplingTable(chunks, samples, NumSamples(v, |chunks|), lt), Lengths(chunks))
    ensures var pieces := SamplingTable(chunks, samples, NumSamples(v, |chunks|), lt);
            AllBefore(MergeInputs(chunks, pieces[i])[s], MergeInputs(chunks, pieces[j])[u], lt)
  {
    var t := |chunks|;
    var ns := NumSamples(v, t);
    var pieces := SamplingTable(chunks, samples, ns, lt);
    var lo, hi := SamplingSplitters(samples, lt, v, t, i, j);
    var p: Piece, q: Piece := pieces[i][s], pieces[j][u];
    assert RowInChunk(pieces[i], Lengths(chunks)) && RowInChunk(pieces[j], Lengths(chunks));
    SortedIsPartitioned(chunks[s], samples[lo], lt);
    SortedIsPartitioned(chunks[u], samples[hi], lt);
    assert p.end == LowerBound(chunks[s], samples[lo], lt);
    assert q.begin == LowerBound(chunks[u], samples[hi], lt);
    SlicesSeparated(chunks[s], chunks[u], samples[lo], samples[hi], p, q, lt);
  }

  /** For workers `i < j` the upper splitter of `i` is a real sample, so is
      the lower splitter of `j`, and the latter is not ordered before the
      former. */
  lemma SamplingSplitters<T(!new)>(samples: seq<T>, lt: (T, T) -> bool, v: nat, t: nat, i: nat, j: nat) returns (lo: nat, hi: nat)
    requires StrictWeakOrder(lt) && Sorted(samples, lt) && 1 <= v && i < j < t
    requires |samples| == t * NumSamples(v, t)
    ensures lo == NumSamples(v, t) * (i + 1) && hi == NumSamples(v, t) * j
    ensures 0 < lo <= hi < |samples|
    ensures !lt(samples[hi], samples[lo])
  {
    var ns := NumSamples(v, t);
    assert ns > 0 by {
      MulMonotone(v, 2, t);
    }
    MulStep(ns, i);
    MulMonotone(ns, i + 1, j);
    MulMonotone(ns, j + 1, t);
    MulStep(ns, j);
    lo, hi := ns * (i + 1), ns * j;
  }
}
