/** The chunks the partition loop cuts the input into, their local sorting,
    and the end-to-end consequence: merging the rows of any well-formed piece
    table of the sorted chunks yields the input in sorted order. */
module Chunks {
  import opened Ordering
  import opened EqualSplit
  import opened Pieces
  import opened Merging

  /** `starts[0..t]` cut a sequence of length `n` into `t >= 1` consecutive
      non-empty chunks. */
  ghost predicate Boundaries(starts: seq<int>, n: int) {
    && |starts| >= 2
    && starts[0] == 0
    && starts[|starts| - 1] == n
    && forall j, k :: 0 <= j < k < |starts| ==> starts[j] < starts[k]
  }

  /** Chunk `s` lies inside the sequence and is not empty. */
  lemma ChunkBounds(starts: seq<int>, n: int, s: nat)
    requires Boundaries(starts, n) && s + 1 < |starts|
    ensures 0 <= starts[s] < starts[s + 1] <= n
  {
    var last := |starts| - 1;
    if 0 < s {
      assert starts[0] < starts[s];
    }
    if s + 1 < last {
      assert starts[s + 1] < starts[last];
    }
  }

  /** The chunk boundaries the partition loop computes for `t` workers. */
  function PartitionStarts(n: nat, t: nat): (starts: seq<int>)
    requires 1 <= t
    ensures |starts| == t + 1
    ensures starts[0] == 0 && starts[t] == n
  {
    seq(t + 1, k requires 0 <= k <= t => SplitPoint(n, t, k))
  }

  /** With `1 <= t <= n` the partition gives proper boundaries, the first
      `n % t` chunks hold `n / t + 1` elements and the others `n / t`. */
  lemma PartitionIsBoundaries(n: nat, t: nat)
    requires 1 <= t <= n
    ensures Boundaries(PartitionStarts(n, t), n)
    ensures forall k :: 0 <= k < t ==>
      PartitionStarts(n, t)[k + 1] - PartitionStarts(n, t)[k] == n / t + (if k < n % t then 1 else 0)
  {
    var starts := PartitionStarts(n, t);
    forall j, k | 0 <= j < k <= t ensures starts[j] < starts[k] {
      SplitPointPartsNonEmpty(n, t, j);
      SplitPointMonotone(n, t, j + 1, k);
    }
    forall k | 0 <= k < t
      ensures starts[k + 1] - starts[k] == n / t + (if k < n % t then 1 else 0)
    {
      SplitPointStep(n, t, k);
    }
  }

  /** The chunks of `input` between consecutive boundaries. */
  function ChunksOf<T>(input: seq<T>, starts: seq<int>): (chunks: seq<seq<T>>)
    requires Boundaries(starts, |input|)
    ensures |chunks| == |starts| - 1
    ensures forall s :: 0 <= s < |chunks| ==> chunks[s] == input[starts[s]..starts[s + 1]]
  {
    var t := |starts| - 1;
    seq(t, s requires 0 <= s < t => input[starts[s]..starts[s + 1]])
  }

  /** The first `k` chunks, one after another, are the input up to `starts[k]`. */
  lemma {:induction false} ChunksPrefix<T>(input: seq<T>, starts: seq<int>, k: nat)
    requires Boundaries(starts, |input|) && k < |starts|
    ensures 0 <= starts[k] <= |input|
    ensures Concat(ChunksOf(input, starts)[..k]) == input[..starts[k]]
  {
    var chunks := ChunksOf(input, starts);
    if k == 0 {
      assert chunks[..0] == [];
    } else {
      ChunksPrefix(input, starts, k - 1);
      ChunkBounds(starts, |input|, k - 1);
      assert chunks[..k][..k - 1] == chunks[..k - 1];
      assert Concat(chunks[..k]) == Concat(chunks[..k - 1]) + chunks[k - 1];
      SliceJoin(input, starts[k - 1], starts[k]);
    }
  }

  lemma SliceJoin<T>(s: seq<T>, a: int, b: int)
    requires 0 <= a <= b <= |s|
    ensures s[..a] + s[a..b] == s[..b]
  {
  }

  /** The chunks tile the input: laid end to end they give it back. */
  lemma ChunksTileInput<T>(input: seq<T>, starts: seq<int>)
    requires Boundaries(starts, |input|)
    ensures Concat(ChunksOf(input, starts)) == input
    ensures Bag(ChunksOf(input, starts)) == multiset(input)
  {
    var chunks := ChunksOf(input, starts);
    ChunksPrefix(input, starts, |starts| - 1);
    assert chunks[..|chunks|] == chunks;
    ConcatBag(chunks);
  }

  /** Sequences as long as the chunks between `starts` add up to the distance
      between the first and the last boundary. */
  lemma LengthsSum<T>(cs: seq<seq<T>>, starts: seq<int>)
    requires |starts| == |cs| + 1
    requires forall s :: 0 <= s < |cs| ==> |cs[s]| == starts[s + 1] - starts[s]
    ensures Sum(Lengths(cs)) == starts[|cs|] - starts[0]
  {
    assert Lengths(cs) == ChunkLengths(starts);
    ChunkLengthsSum(starts);
  }

  /** Contract of `std::sort` and `std::stable_sort`: the result is sorted and
      holds exactly the elements of the argument. */
  ghost predicate SortContract<T(!new)>(sort: seq<T> -> seq<T>, lt: (T, T) -> bool) {
    forall c :: Sorted(sort(c), lt) && multiset(sort(c)) == multiset(c)
  }

  /** Sequences of sequences holding pointwise the same elements hold the same
      elements altogether. */
  lemma BagPointwise<T>(xs: seq<seq<T>>, ys: seq<seq<T>>)
    requires |xs| == |ys|
    requires forall s :: 0 <= s < |xs| ==> multiset(xs[s]) == multiset(ys[s])
    ensures Bag(xs) == Bag(ys)
  {
    assert seq(|xs|, k requires 0 <= k < |xs| => multiset(xs[k]))
        == seq(|ys|, k requires 0 <= k < |ys| => multiset(ys[k]));
  }

  /** Chunk `s` sorted on its own: same length and elements, in order. */
  ghost predicate SortedChunkOf<T>(sorted: seq<T>, chunk: seq<T>, lt: (T, T) -> bool) {
    |sorted| == |chunk| && multiset(sorted) == multiset(chunk) && Sorted(sorted, lt)
  }

  /** The end-to-end property: for locally sorted chunks of the input and a
      piece table that tiles them with rows in order, the merged rows laid
      end to end are the input sorted. */
  lemma MergesortCorrect<T(!new)>(input: seq<T>, starts: seq<int>, sorted: seq<seq<T>>,
                                  pieces: seq<seq<Piece>>, merge: seq<seq<T>> -> seq<T>, lt: (T, T) -> bool)
    requires Boundaries(starts, |input|) && |sorted| == |starts| - 1
    requires forall s :: 0 <= s < |sorted| ==> SortedChunkOf(sorted[s], ChunksOf(input, starts)[s], lt)
    requires Tiles(pieces, Lengths(sorted)) && RowsOrdered(sorted, pieces, lt)
    requires MergeContract(merge, lt)
    ensures Sorted(Concat(MergedRows(sorted, pieces, merge)), lt)
    ensures multiset(Concat(MergedRows(sorted, pieces, merge))) == multiset(input)
    ensures |Concat(MergedRows(sorted, pieces, merge))| == |input|
  {
    var chunks := ChunksOf(input, starts);
    var out := Concat(MergedRows(sorted, pieces, merge));
    assert AllSorted(sorted, lt);
    MergedRowsSorted(sorted, pieces, merge, lt);
    MergedRowsArePermutation(sorted, pieces, merge, lt);
    BagPointwise(sorted, chunks);
    ChunksTileInput(input, starts);
    assert multiset(out) == multiset(input);
    assert |out| == |multiset(out)| == |multiset(input)| == |input|;
  }
}
