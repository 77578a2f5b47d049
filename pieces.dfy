/** The piece table `pieces[worker][chunk]` and the output segment each worker
    derives from its row of it. A table for `t` workers has `t` rows of `t`
    pieces; piece `[i][s]` is the half-open range of sorted chunk `s` that
    worker `i` merges. */
module Pieces {

  /** `PMWMSPiece`: a subsequence `[begin, end)` of one sorted chunk. */
  datatype Piece = Piece(begin: int, end: int)

  function Sum(xs: seq<int>): int {
    if |xs| == 0 then 0 else Sum(xs[..|xs| - 1]) + xs[|xs| - 1]
  }

  function SumBegins(row: seq<Piece>): int {
    if |row| == 0 then 0 else SumBegins(row[..|row| - 1]) + row[|row| - 1].begin
  }

  function SumEnds(row: seq<Piece>): int {
    if |row| == 0 then 0 else SumEnds(row[..|row| - 1]) + row[|row| - 1].end
  }

  /** Total number of elements a row of pieces covers. */
  function SumLengths(row: seq<Piece>): int {
    if |row| == 0 then 0 else SumLengths(row[..|row| - 1]) + (row[|row| - 1].end - row[|row| - 1].begin)
  }

  /** Length of each chunk, from the chunk boundaries `starts[0..t]`. */
  function ChunkLengths(starts: seq<int>): (lens: seq<int>)
    requires |starts| >= 1
    ensures |lens| == |starts| - 1
    ensures forall s :: 0 <= s < |lens| ==> lens[s] == starts[s + 1] - starts[s]
  {
    seq(|starts| - 1, s requires 0 <= s < |starts| - 1 => starts[s + 1] - starts[s])
  }

  ghost predicate IsTable(pieces: seq<seq<Piece>>, t: nat) {
    |pieces| == t && forall i :: 0 <= i < t ==> |pieces[i]| == t
  }

  /** Worker `i + 1` begins every chunk where worker `i` ends it. */
  ghost predicate RowsAdjacent(pieces: seq<seq<Piece>>, i: nat)
    requires i + 1 < |pieces| && |pieces[i]| == |pieces[i + 1]|
  {
    forall s :: 0 <= s < |pieces[i]| ==> pieces[i][s].end == pieces[i + 1][s].begin
  }

  /** The pieces of every chunk `s` follow one another across the workers:
      worker 0 starts at 0, each worker starts where the previous one ended,
      and the last worker ends at the chunk's length. */
  ghost predicate Tiles(pieces: seq<seq<Piece>>, lens: seq<int>) {
    var t := |lens|;
    && t >= 1
    && IsTable(pieces, t)
    && (forall s :: 0 <= s < t ==> pieces[0][s].begin == 0)
    && (forall s :: 0 <= s < t ==> pieces[t - 1][s].end == lens[s])
    && (forall i :: 0 <= i < t - 1 ==> RowsAdjacent(pieces, i))
  }

  /** Every piece of a row is a range inside its chunk. */
  ghost predicate RowInChunk(row: seq<Piece>, lens: seq<int>)
    requires |row| == |lens|
  {
    forall s :: 0 <= s < |row| ==> 0 <= row[s].begin <= row[s].end <= lens[s]
  }

  /** Every piece is a range inside its chunk. */
  ghost predicate InChunk(pieces: seq<seq<Piece>>, lens: seq<int>) {
    && IsTable(pieces, |lens|)
    && forall i :: 0 <= i < |lens| ==> RowInChunk(pieces[i], lens)
  }

  /** Where worker `i` writes its merged output: the sum of its begins. */
  function OutputOffset(pieces: seq<seq<Piece>>, i: nat): (offset: int)
    requires i < |pieces|
    ensures (forall s :: 0 <= s < |pieces[i]| ==> 0 <= pieces[i][s].begin) ==> 0 <= offset
  {
    SumBeginsNonNegative(pieces[i]);
    SumBegins(pieces[i])
  }

  /** How much worker `i` writes: the sum of its piece lengths, which is the
      sum of its ends minus the sum of its begins. */
  function OutputLength(pieces: seq<seq<Piece>>, i: nat): (length: int)
    requires i < |pieces|
    ensures length == SumEnds(pieces[i]) - SumBegins(pieces[i])
  {
    SumLengthsIsDifference(pieces[i]);
    SumLengths(pieces[i])
  }

  lemma {:induction false} SumBeginsNonNegative(row: seq<Piece>)
    ensures (forall s :: 0 <= s < |row| ==> 0 <= row[s].begin) ==> 0 <= SumBegins(row)
  {
    if |row| > 0 {
      SumBeginsNonNegative(row[..|row| - 1]);
    }
  }

  lemma {:induction false} SumLengthsIsDifference(row: seq<Piece>)
    ensures SumLengths(row) == SumEnds(row) - SumBegins(row)
  {
    if |row| > 0 {
      SumLengthsIsDifference(row[..|row| - 1]);
    }
  }

  lemma {:induction false} SumBeginsZero(row: seq<Piece>)
    requires forall s :: 0 <= s < |row| ==> row[s].begin == 0
    ensures SumBegins(row) == 0
  {
    if |row| > 0 {
      SumBeginsZero(row[..|row| - 1]);
    }
  }

  lemma {:induction false} SumEndsOfLengths(row: seq<Piece>, lens: seq<int>)
    requires |row| == |lens|
    requires forall s :: 0 <= s < |row| ==> row[s].end == lens[s]
    ensures SumEnds(row) == Sum(lens)
  {
    if |row| > 0 {
      SumEndsOfLengths(row[..|row| - 1], lens[..|lens| - 1]);
    }
  }

  lemma {:induction false} SumEndsIsNextBegins(row: seq<Piece>, next: seq<Piece>)
    requires |row| == |next|
    requires forall s :: 0 <= s < |row| ==> row[s].end == next[s].begin
    ensures SumEnds(row) == SumBegins(next)
  {
    if |row| > 0 {
      SumEndsIsNextBegins(row[..|row| - 1], next[..|next| - 1]);
    }
  }

  lemma {:induction false} SumLengthsNonNegative(row: seq<Piece>)
    requires forall s :: 0 <= s < |row| ==> row[s].begin <= row[s].end
    ensures SumLengths(row) >= 0
  {
    if |row| > 0 {
      SumLengthsNonNegative(row[..|row| - 1]);
    }
  }

  /** The chunk lengths add up to the distance between the first and the
      last boundary. */
  lemma {:induction false} ChunkLengthsSum(starts: seq<int>)
    requires |starts| >= 1
    ensures Sum(ChunkLengths(starts)) == starts[|starts| - 1] - starts[0]
  {
    if |starts| > 1 {
      var prefix := starts[..|starts| - 1];
      ChunkLengthsSum(prefix);
      assert ChunkLengths(starts)[..|starts| - 2] == ChunkLengths(prefix);
    }
  }

  /** Worker `i + 1` writes where worker `i` stopped. */
  lemma OutputSegmentStep(pieces: seq<seq<Piece>>, lens: seq<int>, i: nat)
    requires Tiles(pieces, lens)
    requires i + 1 < |lens|
    ensures OutputOffset(pieces, i + 1) == OutputOffset(pieces, i) + OutputLength(pieces, i)
  {
    assert RowsAdjacent(pieces, i);
    SumLengthsIsDifference(pieces[i]);
    SumEndsIsNextBegins(pieces[i], pieces[i + 1]);
  }

  /** Once the pieces tile every chunk, the output segments follow one
      another: worker 0 writes from 0, worker `i + 1` writes where worker `i`
      stopped, and the last worker stops at the total length. */
  lemma OutputSegmentsFollow(pieces: seq<seq<Piece>>, lens: seq<int>)
    requires Tiles(pieces, lens)
    ensures OutputOffset(pieces, 0) == 0
    ensures forall i :: 0 <= i < |lens| - 1 ==>
      OutputOffset(pieces, i + 1) == OutputOffset(pieces, i) + OutputLength(pieces, i)
    ensures OutputOffset(pieces, |lens| - 1) + OutputLength(pieces, |lens| - 1) == Sum(lens)
  {
    var t := |lens|;
    SumBeginsZero(pieces[0]);
    forall i | 0 <= i < t - 1
      ensures OutputOffset(pieces, i + 1) == OutputOffset(pieces, i) + OutputLength(pieces, i)
    {
      OutputSegmentStep(pieces, lens, i);
    }
    OutputSegmentLast(pieces, lens);
  }

  lemma OutputLengthNonNegative(pieces: seq<seq<Piece>>, lens: seq<int>, i: nat)
    requires InChunk(pieces, lens)
    requires i < |lens|
    ensures OutputLength(pieces, i) >= 0
  {
    assert RowInChunk(pieces[i], lens);
    SumLengthsNonNegative(pieces[i]);
  }

  /** A worker's segment ends no later than any later worker's begins. */
  lemma {:induction false} OutputSegmentEndsBefore(pieces: seq<seq<Piece>>, lens: seq<int>, i: nat, j: nat)
    requires Tiles(pieces, lens) && InChunk(pieces, lens)
    requires i < j < |lens|
    ensures OutputOffset(pieces, i) + OutputLength(pieces, i) <= OutputOffset(pieces, j)
    decreases j
  {
    OutputSegmentStep(pieces, lens, j - 1);
    if i < j - 1 {
      OutputSegmentEndsBefore(pieces, lens, i, j - 1);
      OutputLengthNonNegative(pieces, lens, j - 1);
    }
  }

  /** The last worker's segment ends at the total length. */
  lemma OutputSegmentLast(pieces: seq<seq<Piece>>, lens: seq<int>)
    requires Tiles(pieces, lens)
    ensures OutputOffset(pieces, |lens| - 1) + OutputLength(pieces, |lens| - 1) == Sum(lens)
  {
    var t := |lens|;
    SumLengthsIsDifference(pieces[t - 1]);
    SumEndsOfLengths(pieces[t - 1], lens);
  }

  /** Each segment lies inside `[0, Sum(lens))` and has non-negative length. */
  lemma OutputSegmentWithin(pieces: seq<seq<Piece>>, lens: seq<int>, i: nat)
    requires Tiles(pieces, lens) && InChunk(pieces, lens)
    requires i < |lens|
    ensures 0 <= OutputOffset(pieces, i)
    ensures 0 <= OutputLength(pieces, i)
    ensures OutputOffset(pieces, i) + OutputLength(pieces, i) <= Sum(lens)
  {
    OutputOffsetNonNegative(pieces, lens, i);
    OutputLengthNonNegative(pieces, lens, i);
    OutputSegmentEndsInside(pieces, lens, i);
  }

  lemma OutputOffsetNonNegative(pieces: seq<seq<Piece>>, lens: seq<int>, i: nat)
    requires Tiles(pieces, lens) && InChunk(pieces, lens)
    requires i < |lens|
    ensures 0 <= OutputOffset(pieces, i)
  {
    SumBeginsZero(pieces[0]);
    if i > 0 {
      OutputSegmentEndsBefore(pieces, lens, 0, i);
      OutputLengthNonNegative(pieces, lens, 0);
    }
  }

  lemma OutputSegmentEndsInside(pieces: seq<seq<Piece>>, lens: seq<int>, i: nat)
    requires Tiles(pieces, lens) && InChunk(pieces, lens)
    requires i < |lens|
    ensures OutputOffset(pieces, i) + OutputLength(pieces, i) <= Sum(lens)
  {
    var t := |lens|;
    OutputSegmentLast(pieces, lens);
    if i < t - 1 {
      OutputSegmentEndsBefore(pieces, lens, i, t - 1);
      OutputLengthNonNegative(pieces, lens, t - 1);
    }
  }
}
