/** Exact-mode splitting: every worker but the last asks the multi-sequence
    rank selection (`multisequence_partition`, whose body is not part of this
    model) for the per-chunk offsets of global rank `starts[iam + 1]`; these
    are its piece ends, and each begin is the previous worker's end. */
module Exact {
  import opened Ordering
  import opened Pieces
  import opened Merging

  /** `o` splits the sorted sequences `cs` at global rank `r`: one offset per
      sequence, inside it, adding up to `r`, and no element before an offset
      is ordered after an element at or beyond any offset. */
  ghost predicate IsRankSplit<T>(cs: seq<seq<T>>, r: int, o: seq<int>, lt: (T, T) -> bool) {
    && |o| == |cs|
    && (forall s :: 0 <= s < |cs| ==> 0 <= o[s] <= |cs[s]|)
    && Sum(o) == r
    && (forall s, u, a, b :: 0 <= s < |cs| && 0 <= u < |cs| && 0 <= a < o[s] && o[u] <= b < |cs[u]| ==>
          !lt(cs[u][b], cs[s][a]))
  }

  /** Contract of the rank selection: for sorted sequences and a rank within
      their total length it returns a rank split, and a larger rank never
      moves an offset backwards. */
  ghost predicate SelectContract<T(!new)>(select: (seq<seq<T>>, int) -> seq<int>, lt: (T, T) -> bool) {
    && (forall cs, r :: AllSorted(cs, lt) && 0 <= r <= Sum(Lengths(cs)) ==> IsRankSplit(cs, r, select(cs, r), lt))
    && (forall cs, r1, r2 :: AllSorted(cs, lt) && 0 <= r1 <= r2 <= Sum(Lengths(cs)) ==>
          |select(cs, r1)| == |select(cs, r2)| &&
          forall s :: 0 <= s < |select(cs, r1)| ==> select(cs, r1)[s] <= select(cs, r2)[s])
  }

  /** The offsets worker `i` obtains: the split at the end of its chunk. */
  function Cut<T>(chunks: seq<seq<T>>, starts: seq<int>, select: (seq<seq<T>>, int) -> seq<int>, i: nat): seq<int>
    requires i + 1 < |starts|
  {
    select(chunks, starts[i + 1])
  }

  /** The offsets every non-last worker obtains are rank splits at the ends of
      the workers' chunks. */
  ghost predicate ExactSplits<T>(chunks: seq<seq<T>>, starts: seq<int>, select: (seq<seq<T>>, int) -> seq<int>, lt: (T, T) -> bool) {
    && |starts| == |chunks| + 1
    && forall i :: 0 <= i < |chunks| - 1 ==> IsRankSplit(chunks, starts[i + 1], Cut(chunks, starts, select, i), lt)
  }

  /** Worker `i + 1`'s offsets are no smaller than worker `i`'s. */
  ghost predicate CutsOrdered<T>(chunks: seq<seq<T>>, starts: seq<int>, select: (seq<seq<T>>, int) -> seq<int>, i: nat)
    requires i + 2 < |starts|
    requires |Cut(chunks, starts, select, i)| == |Cut(chunks, starts, select, i + 1)| == |chunks|
  {
    forall s :: 0 <= s < |chunks| ==> Cut(chunks, starts, select, i)[s] <= Cut(chunks, starts, select, i + 1)[s]
  }

  /** Successive workers' offsets never move backwards. */
  ghost predicate ExactMonotone<T>(chunks: seq<seq<T>>, starts: seq<int>, select: (seq<seq<T>>, int) -> seq<int>, lt: (T, T) -> bool)
    requires ExactSplits(chunks, starts, select, lt)
  {
    forall i :: 0 <= i < |chunks| - 2 ==> CutsOrdered(chunks, starts, select, i)
  }

  /** `pieces[i][s].end` in exact mode. */
  function ExactEnd<T>(chunks: seq<seq<T>>, starts: seq<int>, select: (seq<seq<T>>, int) -> seq<int>,
                       lt: (T, T) -> bool, i: nat, s: nat): (e: int)
    requires ExactSplits(chunks, starts, select, lt)
    requires i < |chunks| && s < |chunks|
    ensures 0 <= e <= |chunks[s]|
  {
    if i < |chunks| - 1 then Cut(chunks, starts, select, i)[s] else |chunks[s]|
  }

  /** `pieces[i][s]` in exact mode: it begins where worker `i - 1` ends. */
  function ExactPiece<T>(chunks: seq<seq<T>>, starts: seq<int>, select: (seq<seq<T>>, int) -> seq<int>,
                         lt: (T, T) -> bool, i: nat, s: nat): (p: Piece)
    requires ExactSplits(chunks, starts, select, lt)
    requires i < |chunks| && s < |chunks|
    ensures 0 <= p.begin <= |chunks[s]| && 0 <= p.end <= |chunks[s]|
    ensures i == 0 ==> p.begin == 0
    ensures i == |chunks| - 1 ==> p.end == |chunks[s]|
  {
    Piece(if i > 0 then ExactEnd(chunks, starts, select, lt, i - 1, s) else 0,
          ExactEnd(chunks, starts, select, lt, i, s))
  }

  /** The whole piece table in exact mode. */
  function ExactTable<T>(chunks: seq<seq<T>>, starts: seq<int>, select: (seq<seq<T>>, int) -> seq<int>,
                         lt: (T, T) -> bool): (pieces: seq<seq<Piece>>)
    requires ExactSplits(chunks, starts, select, lt)
    ensures IsTable(pieces, |chunks|)
    ensures forall i, s :: 0 <= i < |chunks| && 0 <= s < |chunks| ==>
      pieces[i][s] == ExactPiece(chunks, starts, select, lt, i, s)
  {
    var t := |chunks|;
    seq(t, i requires 0 <= i < t =>
      seq(t, s requires 0 <= s < t => ExactPiece(chunks, starts, select, lt, i, s)))
  }

  /** The selection contract gives the rank splits and the monotonicity the
      table needs, once the chunk boundaries run from 0 to the total length
      without decreasing. */
  lemma SelectContractApplies<T(!new)>(chunks: seq<seq<T>>, starts: seq<int>,
                                      select: (seq<seq<T>>, int) -> seq<int>, lt: (T, T) -> bool)
    requires SelectContract(select, lt) && AllSorted(chunks, lt)
    requires |starts| == |chunks| + 1 && starts[0] == 0 && starts[|chunks|] == Sum(Lengths(chunks))
    requires forall i :: 0 <= i < |chunks| ==> starts[i] <= starts[i + 1]
    ensures ExactSplits(chunks, starts, select, lt)
    ensures ExactMonotone(chunks, starts, select, lt)
  {
    var t := |chunks|;
    forall i | 0 <= i <= t ensures 0 <= starts[i] <= starts[t] {
      StartsBetween(starts, 0, i);
      StartsBetween(starts, i, t);
    }
    forall i | 0 <= i < t - 1
      ensures IsRankSplit(chunks, starts[i + 1], Cut(chunks, starts, select, i), lt)
    {
    }
    forall i | 0 <= i < t - 2 ensures CutsOrdered(chunks, starts, select, i) {
      assert starts[i + 1] <= starts[i + 2];
    }
  }

  lemma {:induction false} StartsBetween(starts: seq<int>, i: nat, j: nat)
    requires i <= j < |starts|
    requires forall k :: 0 <= k < |starts| - 1 ==> starts[k] <= starts[k + 1]
    ensures starts[i] <= starts[j]
    decreases j - i
  {
    if i < j {
      StartsBetween(starts, i + 1, j);
    }
  }

  /** Exact-mode pieces tile every chunk. */
  lemma ExactTiles<T>(chunks: seq<seq<T>>, starts: seq<int>, select: (seq<seq<T>>, int) -> seq<int>, lt: (T, T) -> bool)
    requires ExactSplits(chunks, starts, select, lt) && 1 <= |chunks|
    ensures Tiles(ExactTable(chunks, starts, select, lt), Lengths(chunks))
  {
    var pieces := ExactTable(chunks, starts, select, lt);
    forall i | 0 <= i < |chunks| - 1 ensures RowsAdjacent(pieces, i) {
    }
  }

  /** With monotone offsets every exact-mode piece lies inside its chunk. */
  lemma ExactInChunk<T>(chunks: seq<seq<T>>, starts: seq<int>, select: (seq<seq<T>>, int) -> seq<int>, lt: (T, T) -> bool)
    requires ExactSplits(chunks, starts, select, lt) && ExactMonotone(chunks, starts, select, lt)
    ensures InChunk(ExactTable(chunks, starts, select, lt), Lengths(chunks))
  {
    var t := |chunks|;
    var pieces := ExactTable(chunks, starts, select, lt);
    forall i | 0 <= i < t ensures RowInChunk(pieces[i], Lengths(chunks)) {
      forall s | 0 <= s < t ensures 0 <= pieces[i][s].begin <= pieces[i][s].end <= Lengths(chunks)[s] {
        ExactPieceInChunk(chunks, starts, select, lt, i, s);
      }
    }
  }

  /** Perfect balance: each worker merges exactly as many elements as its
      own chunk holds, `starts[i + 1] - starts[i]`. */
  lemma ExactBalance<T>(chunks: seq<seq<T>>, starts: seq<int>, select: (seq<seq<T>>, int) -> seq<int>,
                        lt: (T, T) -> bool, i: nat)
    requires ExactSplits(chunks, starts, select, lt) && i < |chunks|
    requires starts[0] == 0 && starts[|chunks|] == Sum(Lengths(chunks))
    ensures OutputLength(ExactTable(chunks, starts, select, lt), i) == starts[i + 1] - starts[i]
  {
    var pieces := ExactTable(chunks, starts, select, lt);
    SumLengthsIsDifference(pieces[i]);
    ExactRowEnds(chunks, starts, select, lt, i);
    ExactRowBegins(chunks, starts, select, lt, i);
  }

  /** Worker `i`'s piece begins add up to `starts[i]`. */
  lemma ExactRowBegins<T>(chunks: seq<seq<T>>, starts: seq<int>, select: (seq<seq<T>>, int) -> seq<int>,
                          lt: (T, T) -> bool, i: nat)
    requires ExactSplits(chunks, starts, select, lt) && i < |chunks|
    requires starts[0] == 0 && starts[|chunks|] == Sum(Lengths(chunks))
    ensures SumBegins(ExactTable(chunks, starts, select, lt)[i]) == starts[i]
  {
    var pieces := ExactTable(chunks, starts, select, lt);
    if i == 0 {
      SumBeginsZero(pieces[0]);
    } else {
      ExactRowEnds(chunks, starts, select, lt, i - 1);
      forall s | 0 <= s < |chunks| ensures pieces[i - 1][s].end == pieces[i][s].begin {
      }
      SumEndsIsNextBegins(pieces[i - 1], pieces[i]);
    }
  }

  /** Worker `i`'s piece ends add up to `starts[i + 1]`. */
  lemma ExactRowEnds<T>(chunks: seq<seq<T>>, starts: seq<int>, select: (seq<seq<T>>, int) -> seq<int>,
                        lt: (T, T) -> bool, i: nat)
    requires ExactSplits(chunks, starts, select, lt) && i < |chunks|
    requires starts[|chunks|] == Sum(Lengths(chunks))
    ensures SumEnds(ExactTable(chunks, starts, select, lt)[i]) == starts[i + 1]
  {
    var t := |chunks|;
    var row := ExactTable(chunks, starts, select, lt)[i];
    if i < t - 1 {
      var o := Cut(chunks, starts, select, i);
      assert IsRankSplit(chunks, starts[i + 1], o, lt);
      forall s | 0 <= s < t ensures row[s].end == o[s] {
        assert row[s].end == ExactEnd(chunks, starts, select, lt, i, s);
      }
      SumEndsOfLengths(row, o);
    } else {
      forall s | 0 <= s < t ensures row[s].end == Lengths(chunks)[s] {
        assert row[s].end == ExactEnd(chunks, starts, select, lt, i, s);
      }
      SumEndsOfLengths(row, Lengths(chunks));
    }
  }

  /** Offsets of worker `i` never exceed those of a later non-last worker. */
  lemma {:induction false} ExactEndsMonotone<T>(chunks: seq<seq<T>>, starts: seq<int>,
                                                 select: (seq<seq<T>>, int) -> seq<int>, lt: (T, T) -> bool,
                                                 i: nat, k: nat, s: nat)
    requires ExactSplits(chunks, starts, select, lt) && ExactMonotone(chunks, starts, select, lt)
    requires i <= k < |chunks| - 1 && s < |chunks|
    ensures Cut(chunks, starts, select, i)[s] <= Cut(chunks, starts, select, k)[s]
    decreases k - i
  {
    if i < k {
      ExactEndsMonotone(chunks, starts, select, lt, i + 1, k, s);
      assert CutsOrdered(chunks, starts, select, i);
    }
  }

  /** Earlier workers' exact-mode pieces hold no element that a later
      worker's pieces must place before it. */
  lemma ExactRowsOrdered<T>(chunks: seq<seq<T>>, starts: seq<int>, select: (seq<seq<T>>, int) -> seq<int>, lt: (T, T) -> bool)
    requires ExactSplits(chunks, starts, select, lt) && ExactMonotone(chunks, starts, select, lt)
    ensures RowsOrdered(chunks, ExactTable(chunks, starts, select, lt), lt)
  {
    var t := |chunks|;
    var pieces := ExactTable(chunks, starts, select, lt);
    ExactInChunk(chunks, starts, select, lt);
    forall i, j, s, u | 0 <= i < j < t && 0 <= s < t && 0 <= u < t
      ensures AllBefore(MergeInputs(chunks, pieces[i])[s], MergeInputs(chunks, pieces[j])[u], lt)
    {
      assert RowInChunk(pieces[i], Lengths(chunks)) && RowInChunk(pieces[j], Lengths(chunks));
      ExactPiecesOrdered(chunks, starts, select, lt, i, j, s, u);
    }
  }

  /** Two ranges on opposite sides of a rank split are ordered. */
  lemma SplitSeparates<T>(chunks: seq<seq<T>>, r: int, o: seq<int>, lt: (T, T) -> bool,
                          s: nat, u: nat, p: Piece, q: Piece)
    requires IsRankSplit(chunks, r, o, lt) && s < |chunks| && u < |chunks|
    requires 0 <= p.begin <= p.end == o[s]
    requires o[u] <= q.begin <= q.end <= |chunks[u]|
    ensures AllBefore(chunks[s][p.begin..p.end], chunks[u][q.begin..q.end], lt)
  {
    var xs, ys := chunks[s][p.begin..p.end], chunks[u][q.begin..q.end];
    forall a, b | 0 <= a < |xs| && 0 <= b < |ys| ensures !lt(ys[b], xs[a]) {
      assert xs[a] == chunks[s][p.begin + a] && ys[b] == chunks[u][q.begin + b];
    }
  }

  /** An exact-mode piece is a range inside its chunk. */
  lemma ExactPieceInChunk<T>(chunks: seq<seq<T>>, starts: seq<int>, select: (seq<seq<T>>, int) -> seq<int>,
                             lt: (T, T) -> bool, i: nat, s: nat)
    requires ExactSplits(chunks, starts, select, lt) && ExactMonotone(chunks, starts, select, lt)
    requires i < |chunks| && s < |chunks|
    ensures var p := ExactPiece(chunks, starts, select, lt, i, s);
            0 <= p.begin <= p.end <= |chunks[s]|
  {
    if 0 < i < |chunks| - 1 {
      ExactEndsMonotone(chunks, starts, select, lt, i - 1, i, s);
    }
  }

  lemma ExactPiecesOrdered<T>(chunks: seq<seq<T>>, starts: seq<int>, select: (seq<seq<T>>, int) -> seq<int>,
                              lt: (T, T) -> bool, i: nat, j: nat, s: nat, u: nat)
    requires ExactSplits(chunks, starts, select, lt) && ExactMonotone(chunks, starts, select, lt)
    requires i < j < |chunks| && s < |chunks| && u < |chunks|
    ensures var p, q := ExactPiece(chunks, starts, select, lt, i, s), ExactPiece(chunks, starts, select, lt, j, u);
            0 <= p.begin <= p.end <= |chunks[s]| && 0 <= q.begin <= q.end <= |chunks[u]| &&
            AllBefore(chunks[s][p.begin..p.end], chunks[u][q.begin..q.end], lt)
  {
    var o := Cut(chunks, starts, select, i);
    var p, q := ExactPiece(chunks, starts, select, lt, i, s), ExactPiece(chunks, starts, select, lt, j, u);
    ExactPieceInChunk(chunks, starts, select, lt, i, s);
    ExactPieceInChunk(chunks, starts, select, lt, j, u);
    ExactEndsMonotone(chunks, starts, select, lt, i, j - 1, u);
    SplitSeparates(chunks, starts[i + 1], o, lt, s, u, p, q);
  }
}
