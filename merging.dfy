/** Element-level view of the merge stage: the slices a worker hands to the
    merge kernel, the kernel's contract, and why the merged segments laid out
    one after another form a sorted permutation of the chunks. */
module Merging {
  import opened Ordering
  import opened Pieces

  /** Union of a sequence of multisets. */
  function SumBags<T>(bs: seq<multiset<T>>): multiset<T> {
    if |bs| == 0 then multiset{} else SumBags(bs[..|bs| - 1]) + bs[|bs| - 1]
  }

  /** All elements of a sequence of sequences, counted with multiplicity. */
  function Bag<T>(cs: seq<seq<T>>): multiset<T> {
    SumBags(seq(|cs|, k requires 0 <= k < |cs| => multiset(cs[k])))
  }

  /** The sequences one after another. */
  function Concat<T>(cs: seq<seq<T>>): seq<T> {
    if |cs| == 0 then [] else Concat(cs[..|cs| - 1]) + cs[|cs| - 1]
  }

  function Lengths<T>(cs: seq<seq<T>>): (lens: seq<int>)
    ensures |lens| == |cs|
    ensures forall s :: 0 <= s < |cs| ==> lens[s] == |cs[s]|
  {
    seq(|cs|, s requires 0 <= s < |cs| => |cs[s]|)
  }

  ghost predicate AllSorted<T>(cs: seq<seq<T>>, lt: (T, T) -> bool) {
    forall s :: 0 <= s < |cs| ==> Sorted(cs[s], lt)
  }

  /** Contract of `multiway_merge_base`: from sorted inputs it produces a sorted
      sequence holding exactly the input elements. */
  ghost predicate MergeContract<T(!new)>(merge: seq<seq<T>> -> seq<T>, lt: (T, T) -> bool) {
    forall cs :: AllSorted(cs, lt) ==> Sorted(merge(cs), lt) && multiset(merge(cs)) == Bag(cs)
  }

  /** The slices `[begin, end)` of every sorted chunk that one worker merges
      (the `seqs` vector built before the merge call). */
  function MergeInputs<T>(chunks: seq<seq<T>>, row: seq<Piece>): (inputs: seq<seq<T>>)
    requires |row| == |chunks| && RowInChunk(row, Lengths(chunks))
    ensures |inputs| == |chunks|
    ensures forall s :: 0 <= s < |chunks| ==>
      |inputs[s]| == row[s].end - row[s].begin &&
      forall k :: 0 <= k < |inputs[s]| ==> inputs[s][k] == chunks[s][row[s].begin + k]
  {
    seq(|chunks|, s requires 0 <= s < |chunks| => chunks[s][row[s].begin..row[s].end])
  }

  /** Worker `i` takes no element that worker `j > i` must place before it:
      every element of every piece of an earlier row may precede every element
      of every piece of a later row. */
  ghost predicate RowsOrdered<T>(chunks: seq<seq<T>>, pieces: seq<seq<Piece>>, lt: (T, T) -> bool) {
    var t := |chunks|;
    && InChunk(pieces, Lengths(chunks))
    && forall i, j, s, u :: 0 <= i < j < t && 0 <= s < t && 0 <= u < t ==>
         AllBefore(MergeInputs(chunks, pieces[i])[s], MergeInputs(chunks, pieces[j])[u], lt)
  }

  /** What worker `i` writes: the merge of its slices. */
  function MergedRow<T>(chunks: seq<seq<T>>, pieces: seq<seq<Piece>>, merge: seq<seq<T>> -> seq<T>, i: nat): seq<T>
    requires InChunk(pieces, Lengths(chunks)) && i < |chunks|
  {
    merge(MergeInputs(chunks, pieces[i]))
  }

  /** All merged rows, in worker order. */
  function MergedRows<T>(chunks: seq<seq<T>>, pieces: seq<seq<Piece>>, merge: seq<seq<T>> -> seq<T>): (rows: seq<seq<T>>)
    requires InChunk(pieces, Lengths(chunks))
    ensures |rows| == |chunks|
    ensures forall i :: 0 <= i < |chunks| ==> rows[i] == MergedRow(chunks, pieces, merge, i)
  {
    seq(|chunks|, i requires 0 <= i < |chunks| => MergedRow(chunks, pieces, merge, i))
  }

  // ---------------------------------------------------------------------------
  // Multiset sums

  lemma {:induction false} SumBagsPointwise<T>(xs: seq<multiset<T>>, ys: seq<multiset<T>>, zs: seq<multiset<T>>)
    requires |xs| == |ys| == |zs|
    requires forall k :: 0 <= k < |xs| ==> zs[k] == xs[k] + ys[k]
    ensures SumBags(zs) == SumBags(xs) + SumBags(ys)
  {
    if |xs| > 0 {
      var m := |xs| - 1;
      SumBagsPointwise(xs[..m], ys[..m], zs[..m]);
    }
  }

  lemma {:induction false} SumBagsSize<T>(cs: seq<seq<T>>)
    ensures |Bag(cs)| == Sum(Lengths(cs))
  {
    if |cs| > 0 {
      var m := |cs| - 1;
      SumBagsSize(cs[..m]);
      assert Lengths(cs[..m]) == Lengths(cs)[..m];
      var bs := seq(|cs|, k requires 0 <= k < |cs| => multiset(cs[k]));
      assert bs[..m] == seq(m, k requires 0 <= k < m => multiset(cs[..m][k]));
    }
  }

  lemma {:induction false} ConcatBag<T>(cs: seq<seq<T>>)
    ensures multiset(Concat(cs)) == Bag(cs)
  {
    if |cs| > 0 {
      var m := |cs| - 1;
      ConcatBag(cs[..m]);
      var bs := seq(|cs|, k requires 0 <= k < |cs| => multiset(cs[k]));
      assert bs[..m] == seq(m, k requires 0 <= k < m => multiset(cs[..m][k]));
    }
  }

  lemma {:induction false} ConcatLength<T>(cs: seq<seq<T>>)
    ensures |Concat(cs)| == Sum(Lengths(cs))
  {
    if |cs| > 0 {
      var m := |cs| - 1;
      ConcatLength(cs[..m]);
      assert Lengths(cs[..m]) == Lengths(cs)[..m];
    }
  }

  /** Extending a concatenation by one more sequence. */
  lemma ConcatSnoc<T>(cs: seq<seq<T>>, c: seq<T>)
    ensures Concat(cs + [c]) == Concat(cs) + c
  {
    assert (cs + [c])[..|cs|] == cs;
  }

  // ---------------------------------------------------------------------------
  // Sums over a matrix of multisets, by rows and by columns

  function Column<T>(m: seq<seq<multiset<T>>>, s: nat): (col: seq<multiset<T>>)
    requires forall i :: 0 <= i < |m| ==> s < |m[i]|
    ensures |col| == |m|
  {
    seq(|m|, i requires 0 <= i < |m| => m[i][s])
  }

  function RowTotals<T>(m: seq<seq<multiset<T>>>): (r: seq<multiset<T>>)
    ensures |r| == |m|
  {
    seq(|m|, i requires 0 <= i < |m| => SumBags(m[i]))
  }

  function ColumnTotals<T>(m: seq<seq<multiset<T>>>, w: nat): (c: seq<multiset<T>>)
    requires forall i :: 0 <= i < |m| ==> |m[i]| == w
    ensures |c| == w
  {
    seq(w, s requires 0 <= s < w => SumBags(Column(m, s)))
  }

  /** Adding up a matrix row by row gives what adding it up column by column
      gives. */
  lemma {:induction false} SumExchange<T>(m: seq<seq<multiset<T>>>, w: nat)
    requires forall i :: 0 <= i < |m| ==> |m[i]| == w
    ensures SumBags(RowTotals(m)) == SumBags(ColumnTotals(m, w))
  {
    if |m| == 0 {
      SumBagsZeros(ColumnTotals(m, w));
    } else {
      var k := |m| - 1;
      var top := m[..k];
      SumExchange(top, w);
      assert RowTotals(m)[..k] == RowTotals(top);
      forall s | 0 <= s < w
        ensures ColumnTotals(m, w)[s] == ColumnTotals(top, w)[s] + m[k][s]
      {
        ColumnTotalsStep(m, w, s);
      }
      SumBagsPointwise(ColumnTotals(top, w), m[k], ColumnTotals(m, w));
    }
  }

  /** A column total is the total without the last row plus that row's entry. */
  lemma ColumnTotalsStep<T>(m: seq<seq<multiset<T>>>, w: nat, s: nat)
    requires forall i :: 0 <= i < |m| ==> |m[i]| == w
    requires 0 < |m| && s < w
    ensures ColumnTotals(m, w)[s] == ColumnTotals(m[..|m| - 1], w)[s] + m[|m| - 1][s]
  {
    assert Column(m, s)[..|m| - 1] == Column(m[..|m| - 1], s);
  }

  lemma {:induction false} SumBagsZeros<T>(bs: seq<multiset<T>>)
    requires forall k :: 0 <= k < |bs| ==> bs[k] == multiset{}
    ensures SumBags(bs) == multiset{}
  {
    if |bs| > 0 {
      SumBagsZeros(bs[..|bs| - 1]);
    }
  }

  // ---------------------------------------------------------------------------
  // Permutation

  /** The pieces of one chunk, taken in worker order, add up to the chunk. */
  lemma {:induction false} ColumnTelescopes<T>(chunks: seq<seq<T>>, pieces: seq<seq<Piece>>, s: nat, k: nat)
    requires Tiles(pieces, Lengths(chunks)) && InChunk(pieces, Lengths(chunks))
    requires s < |chunks| && 1 <= k <= |chunks|
    ensures SumBags(seq(k, i requires 0 <= i < k => multiset(MergeInputs(chunks, pieces[i])[s])))
            == multiset(chunks[s][..pieces[k - 1][s].end])
  {
    var c := chunks[s];
    assert RowInChunk(pieces[k - 1], Lengths(chunks));
    var bs := seq(k, i requires 0 <= i < k => multiset(MergeInputs(chunks, pieces[i])[s]));
    var p := pieces[k - 1][s];
    assert MergeInputs(chunks, pieces[k - 1])[s] == c[p.begin..p.end];
    if k == 1 {
      assert c[..p.end] == c[p.begin..p.end];
    } else {
      ColumnTelescopes(chunks, pieces, s, k - 1);
      assert bs[..k - 1] == seq(k - 1, i requires 0 <= i < k - 1 => multiset(MergeInputs(chunks, pieces[i])[s]));
      assert RowsAdjacent(pieces, k - 2);
      assert pieces[k - 2][s].end == p.begin;
      assert c[..p.end] == c[..p.begin] + c[p.begin..p.end];
    }
  }

  /** `[i][s]`: the elements of piece `[i][s]`. */
  function PieceBags<T>(chunks: seq<seq<T>>, pieces: seq<seq<Piece>>): (m: seq<seq<multiset<T>>>)
    requires InChunk(pieces, Lengths(chunks))
    ensures |m| == |chunks|
    ensures forall i :: 0 <= i < |chunks| ==> |m[i]| == |chunks|
  {
    var t := |chunks|;
    seq(t, i requires 0 <= i < t =>
      seq(t, s requires 0 <= s < t => multiset(MergeInputs(chunks, pieces[i])[s])))
  }

  /** Added up row by row, the piece elements are the merged output. */
  lemma RowTotalsAreMergedRows<T(!new)>(chunks: seq<seq<T>>, pieces: seq<seq<Piece>>,
                                         merge: seq<seq<T>> -> seq<T>, lt: (T, T) -> bool)
    requires InChunk(pieces, Lengths(chunks))
    requires AllSorted(chunks, lt) && MergeContract(merge, lt)
    ensures SumBags(RowTotals(PieceBags(chunks, pieces))) == multiset(Concat(MergedRows(chunks, pieces, merge)))
  {
    var t := |chunks|;
    var rows := MergedRows(chunks, pieces, merge);
    var m := PieceBags(chunks, pieces);
    ConcatBag(rows);
    forall i | 0 <= i < t
      ensures multiset(rows[i]) == RowTotals(m)[i]
    {
      var inputs := MergeInputs(chunks, pieces[i]);
      SlicesSorted(chunks, pieces[i], lt);
      assert multiset(rows[i]) == Bag(inputs);
      assert seq(|inputs|, k requires 0 <= k < |inputs| => multiset(inputs[k])) == m[i];
    }
    assert seq(|rows|, k requires 0 <= k < |rows| => multiset(rows[k])) == RowTotals(m);
  }

  /** Added up column by column, the piece elements are the chunks. */
  lemma ColumnTotalsAreChunks<T>(chunks: seq<seq<T>>, pieces: seq<seq<Piece>>)
    requires Tiles(pieces, Lengths(chunks)) && InChunk(pieces, Lengths(chunks))
    ensures SumBags(ColumnTotals(PieceBags(chunks, pieces), |chunks|)) == Bag(chunks)
  {
    var t := |chunks|;
    var m := PieceBags(chunks, pieces);
    forall s | 0 <= s < t
      ensures ColumnTotals(m, t)[s] == multiset(chunks[s])
    {
      ColumnTelescopes(chunks, pieces, s, t);
      assert Column(m, s) == seq(t, i requires 0 <= i < t => multiset(MergeInputs(chunks, pieces[i])[s]));
      assert chunks[s][..pieces[t - 1][s].end] == chunks[s];
    }
    assert ColumnTotals(m, t) == seq(t, k requires 0 <= k < t => multiset(chunks[k]));
  }

  /** The merged rows hold exactly the elements of all chunks. */
  lemma MergedRowsArePermutation<T(!new)>(chunks: seq<seq<T>>, pieces: seq<seq<Piece>>,
                                           merge: seq<seq<T>> -> seq<T>, lt: (T, T) -> bool)
    requires Tiles(pieces, Lengths(chunks)) && InChunk(pieces, Lengths(chunks))
    requires AllSorted(chunks, lt) && MergeContract(merge, lt)
    ensures multiset(Concat(MergedRows(chunks, pieces, merge))) == Bag(chunks)
  {
    RowTotalsAreMergedRows(chunks, pieces, merge, lt);
    SumExchange(PieceBags(chunks, pieces), |chunks|);
    ColumnTotalsAreChunks(chunks, pieces);
  }

  /** Slices of sorted chunks are sorted. */
  lemma SlicesSorted<T>(chunks: seq<seq<T>>, row: seq<Piece>, lt: (T, T) -> bool)
    requires |row| == |chunks| && RowInChunk(row, Lengths(chunks))
    requires AllSorted(chunks, lt)
    ensures AllSorted(MergeInputs(chunks, row), lt)
  {
    var inputs := MergeInputs(chunks, row);
    forall s | 0 <= s < |inputs| ensures Sorted(inputs[s], lt) {
      assert Sorted(chunks[s], lt);
    }
  }

  // ---------------------------------------------------------------------------
  // Order

  lemma AllBeforeAppendLeft<T>(xs: seq<T>, ys: seq<T>, zs: seq<T>, lt: (T, T) -> bool)
    requires AllBefore(xs, zs, lt) && AllBefore(ys, zs, lt)
    ensures AllBefore(xs + ys, zs, lt)
  {
    forall a, b | 0 <= a < |xs + ys| && 0 <= b < |zs| ensures !lt(zs[b], (xs + ys)[a]) {
      if a < |xs| {
        assert (xs + ys)[a] == xs[a];
      } else {
        assert (xs + ys)[a] == ys[a - |xs|];
      }
    }
  }

  lemma {:induction false} ConcatAllBefore<T>(cs: seq<seq<T>>, zs: seq<T>, lt: (T, T) -> bool)
    requires forall i :: 0 <= i < |cs| ==> AllBefore(cs[i], zs, lt)
    ensures AllBefore(Concat(cs), zs, lt)
  {
    if |cs| > 0 {
      ConcatAllBefore(cs[..|cs| - 1], zs, lt);
      AllBeforeAppendLeft(Concat(cs[..|cs| - 1]), cs[|cs| - 1], zs, lt);
    }
  }

  /** Sorted sequences, each of whose elements may precede all elements of
      the later ones, concatenate to a sorted sequence. */
  lemma {:induction false} ConcatSorted<T>(cs: seq<seq<T>>, lt: (T, T) -> bool)
    requires AllSorted(cs, lt)
    requires forall i, j :: 0 <= i < j < |cs| ==> AllBefore(cs[i], cs[j], lt)
    ensures Sorted(Concat(cs), lt)
  {
    if |cs| > 0 {
      var m := |cs| - 1;
      ConcatSorted(cs[..m], lt);
      ConcatAllBefore(cs[..m], cs[m], lt);
      SortedAppend(Concat(cs[..m]), cs[m], lt);
    }
  }

  /** An element of a union of sequences occurs in one of them. */
  lemma {:induction false} BagMember<T>(cs: seq<seq<T>>, x: T) returns (s: nat, k: nat)
    requires x in Bag(cs)
    ensures s < |cs| && k < |cs[s]| && cs[s][k] == x
  {
    var m := |cs| - 1;
    var bs := seq(|cs|, k requires 0 <= k < |cs| => multiset(cs[k]));
    assert bs[..m] == seq(m, k requires 0 <= k < m => multiset(cs[..m][k]));
    if x in multiset(cs[m]) {
      s := m;
      k :| 0 <= k < |cs[m]| && cs[m][k] == x;
    } else {
      s, k := BagMember(cs[..m], x);
    }
  }

  /** The merges of two rows keep the order the rows have. */
  lemma MergedRowsOrdered<T(!new)>(chunks: seq<seq<T>>, pieces: seq<seq<Piece>>,
                                    merge: seq<seq<T>> -> seq<T>, lt: (T, T) -> bool, i: nat, j: nat)
    requires RowsOrdered(chunks, pieces, lt) && AllSorted(chunks, lt) && MergeContract(merge, lt)
    requires i < j < |chunks|
    ensures AllBefore(MergedRow(chunks, pieces, merge, i), MergedRow(chunks, pieces, merge, j), lt)
  {
    var xs, ys := MergedRow(chunks, pieces, merge, i), MergedRow(chunks, pieces, merge, j);
    var ins, jns := MergeInputs(chunks, pieces[i]), MergeInputs(chunks, pieces[j]);
    SlicesSorted(chunks, pieces[i], lt);
    SlicesSorted(chunks, pieces[j], lt);
    forall a, b | 0 <= a < |xs| && 0 <= b < |ys| ensures !lt(ys[b], xs[a]) {
      assert xs[a] in multiset(xs) && ys[b] in multiset(ys);
      var s, ka := BagMember(ins, xs[a]);
      var u, kb := BagMember(jns, ys[b]);
      assert AllBefore(ins[s], jns[u], lt);
    }
  }

  /** The merged rows, laid out one after another, are sorted. */
  lemma MergedRowsSorted<T(!new)>(chunks: seq<seq<T>>, pieces: seq<seq<Piece>>,
                                   merge: seq<seq<T>> -> seq<T>, lt: (T, T) -> bool)
    requires RowsOrdered(chunks, pieces, lt) && AllSorted(chunks, lt) && MergeContract(merge, lt)
    ensures Sorted(Concat(MergedRows(chunks, pieces, merge)), lt)
  {
    var rows := MergedRows(chunks, pieces, merge);
    forall i | 0 <= i < |rows| ensures Sorted(rows[i], lt) {
      SlicesSorted(chunks, pieces[i], lt);
    }
    forall i, j | 0 <= i < j < |rows| ensures AllBefore(rows[i], rows[j], lt) {
      MergedRowsOrdered(chunks, pieces, merge, lt, i, j);
    }
    ConcatSorted(rows, lt);
  }

  /** A merged row is exactly as long as the worker's output segment. */
  lemma MergedRowLength<T(!new)>(chunks: seq<seq<T>>, pieces: seq<seq<Piece>>,
                                  merge: seq<seq<T>> -> seq<T>, lt: (T, T) -> bool, i: nat)
    requires InChunk(pieces, Lengths(chunks)) && AllSorted(chunks, lt) && MergeContract(merge, lt)
    requires i < |chunks|
    ensures |MergedRow(chunks, pieces, merge, i)| == OutputLength(pieces, i)
  {
    var inputs := MergeInputs(chunks, pieces[i]);
    SlicesSorted(chunks, pieces[i], lt);
    SumBagsSize(inputs);
    SumLengthsOfSlices(chunks, pieces[i]);
  }

  lemma {:induction false} SumLengthsOfSlices<T>(chunks: seq<seq<T>>, row: seq<Piece>)
    requires |row| == |chunks| && RowInChunk(row, Lengths(chunks))
    ensures Sum(Lengths(MergeInputs(chunks, row))) == SumLengths(row)
  {
    if |row| > 0 {
      var m := |row| - 1;
      SumLengthsOfSlices(chunks[..m], row[..m]);
      assert Lengths(MergeInputs(chunks, row))[..m] == Lengths(MergeInputs(chunks[..m], row[..m]));
    }
  }

  // ---------------------------------------------------------------------------
  // Layout

  /** Once the pieces tile every chunk, rows as long as the workers' output
      lengths, laid end to end, put row `i` exactly at worker `i`'s output
      offset. */
  lemma {:induction false} SegmentsLayout<T>(pieces: seq<seq<Piece>>, lens: seq<int>, rows: seq<seq<T>>, i: nat)
    requires Tiles(pieces, lens) && |rows| == |lens|
    requires forall k :: 0 <= k < |rows| ==> |rows[k]| == OutputLength(pieces, k)
    requires i < |lens|
    ensures OutputOffset(pieces, i) == |Concat(rows[..i])|
  {
    if i == 0 {
      SumBeginsZero(pieces[0]);
      assert rows[..0] == [];
    } else {
      SegmentsLayout(pieces, lens, rows, i - 1);
      OutputSegmentStep(pieces, lens, i - 1);
      assert rows[..i] == rows[..i - 1] + [rows[i - 1]];
      ConcatSnoc(rows[..i - 1], rows[i - 1]);
    }
  }

  /** ... and together those rows are exactly as long as the chunks. */
  lemma SegmentsTotal<T>(pieces: seq<seq<Piece>>, lens: seq<int>, rows: seq<seq<T>>)
    requires Tiles(pieces, lens) && |rows| == |lens|
    requires forall k :: 0 <= k < |rows| ==> |rows[k]| == OutputLength(pieces, k)
    ensures |Concat(rows)| == Sum(lens)
  {
    var t := |lens|;
    var front, last := rows[..t - 1], rows[t - 1];
    SegmentsLayout(pieces, lens, rows, t - 1);
    OutputSegmentLast(pieces, lens);
    ConcatSnoc(front, last);
    assert front + [last] == rows;
  }

  /** Every merged row is as long as its worker's output segment. */
  lemma MergedRowLengths<T(!new)>(chunks: seq<seq<T>>, pieces: seq<seq<Piece>>,
                                   merge: seq<seq<T>> -> seq<T>, lt: (T, T) -> bool)
    requires InChunk(pieces, Lengths(chunks)) && AllSorted(chunks, lt) && MergeContract(merge, lt)
    ensures forall k :: 0 <= k < |chunks| ==> |MergedRows(chunks, pieces, merge)[k]| == OutputLength(pieces, k)
  {
    forall k | 0 <= k < |chunks| ensures |MergedRows(chunks, pieces, merge)[k]| == OutputLength(pieces, k) {
      MergedRowLength(chunks, pieces, merge, lt, k);
    }
  }
}
