/** Division of a length into near-equal consecutive parts, the longer parts
    first. The partition loop of `parallel_mergesort` computes it for the
    chunk boundaries, and `equally_split` (whose body is not part of this
    model) is taken to compute the same offsets for the sample positions. */
module EqualSplit {

  /** Offset of part `k` when `n` elements are divided into `p` parts: every
      part has `n / p` elements and the first `n % p` parts one more. */
  function SplitPoint(n: nat, p: nat, k: nat): (r: nat)
    requires 1 <= p && k <= p
    ensures k == 0 ==> r == 0
    ensures k == p ==> r == n
  {
    k * (n / p) + (if k < n % p then k else n % p)
  }

  /** Part `k` has `n / p + 1` elements when `k < n % p`, otherwise `n / p`. */
  lemma SplitPointStep(n: nat, p: nat, k: nat)
    requires 1 <= p && k < p
    ensures SplitPoint(n, p, k + 1) == SplitPoint(n, p, k) + n / p + (if k < n % p then 1 else 0)
  {
    assert (k + 1) * (n / p) == k * (n / p) + n / p;
  }

  /** Offsets never decrease. */
  lemma SplitPointMonotone(n: nat, p: nat, j: nat, k: nat)
    requires 1 <= p && j <= k <= p
    ensures SplitPoint(n, p, j) <= SplitPoint(n, p, k)
  {
    MulMonotoneLeft(n / p, j, k);
  }

  lemma MulMonotoneLeft(q: nat, j: nat, k: nat)
    requires j <= k
    ensures j * q <= k * q
  {
    assert k * q == j * q + (k - j) * q;
  }

  /** No offset exceeds the length. */
  lemma SplitPointBounded(n: nat, p: nat, k: nat)
    requires 1 <= p && k <= p
    ensures SplitPoint(n, p, k) <= n
  {
    SplitPointMonotone(n, p, k, p);
  }

  /** With at most one part per element every part is non-empty. */
  lemma SplitPointPartsNonEmpty(n: nat, p: nat, k: nat)
    requires 1 <= p <= n && k < p
    ensures SplitPoint(n, p, k) + 1 <= SplitPoint(n, p, k + 1)
  {
    SplitPointStep(n, p, k);
    assert n / p >= 1 by {
      assert p * (n / p) + n % p == n && n % p < p;
    }
  }

  /** The last part is one of the short ones: it has exactly `n / p` elements. */
  lemma SplitPointLastPart(n: nat, p: nat)
    requires 1 <= p
    ensures SplitPoint(n, p, p) - SplitPoint(n, p, p - 1) == n / p
  {
    SplitPointStep(n, p, p - 1);
  }

  /** With fewer elements than parts, the first `n` parts hold one element
      each and the remaining parts are empty. */
  lemma SplitPointShort(n: nat, p: nat, k: nat)
    requires n < p && k <= p
    ensures SplitPoint(n, p, k) == if k < n then k else n
  {
    assert n / p == 0 && n % p == n by {
      assert p * 0 + n == n && 0 <= n < p;
    }
  }
}
