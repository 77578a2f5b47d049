/** Comparator properties, sortedness and the `std::lower_bound` search the
    splitter computation uses. The comparator is the caller's `comp`, a strict
    weak ordering as the C++ sorting algorithms require. */
module Ordering {

  /** `lt` is a strict weak ordering: irreflexive, transitive, and
      incomparability is transitive (stated in its contrapositive form). */
  ghost predicate StrictWeakOrder<T(!new)>(lt: (T, T) -> bool) {
    && (forall a :: !lt(a, a))
    && (forall a, b, c :: lt(a, b) && lt(b, c) ==> lt(a, c))
    && (forall a, b, c :: lt(a, c) ==> lt(a, b) || lt(b, c))
  }

  /** No element is ordered before an element that precedes it. */
  ghost predicate Sorted<T>(s: seq<T>, lt: (T, T) -> bool) {
    forall i, j :: 0 <= i < j < |s| ==> !lt(s[j], s[i])
  }

  /** The precondition of `std::lower_bound`: the elements ordered before `x`
      form a prefix of `s`. */
  ghost predicate PartitionedBy<T>(s: seq<T>, x: T, lt: (T, T) -> bool) {
    forall i, j :: 0 <= i <= j < |s| && lt(s[j], x) ==> lt(s[i], x)
  }

  /** Every element of `xs` may precede every element of `ys`. */
  ghost predicate AllBefore<T>(xs: seq<T>, ys: seq<T>, lt: (T, T) -> bool) {
    forall a, b :: 0 <= a < |xs| && 0 <= b < |ys| ==> !lt(ys[b], xs[a])
  }

  lemma SortedIsPartitioned<T(!new)>(s: seq<T>, x: T, lt: (T, T) -> bool)
    requires StrictWeakOrder(lt) && Sorted(s, lt)
    ensures PartitionedBy(s, x, lt)
  {
    forall i, j | 0 <= i <= j < |s| && lt(s[j], x)
      ensures lt(s[i], x)
    {
      if i < j {
        assert !lt(s[j], s[i]);
        assert lt(s[j], x) ==> lt(s[j], s[i]) || lt(s[i], x);
      }
    }
  }

  /** Binary search for the first position in `[lo, hi)` whose element is not
      ordered before `x`; everything before `lo` is known to be ordered before
      `x` and nothing from `hi` on is. */
  function LowerBoundIn<T>(s: seq<T>, x: T, lt: (T, T) -> bool, lo: nat, hi: nat): (r: nat)
    requires lo <= hi <= |s|
    requires PartitionedBy(s, x, lt)
    requires forall k :: 0 <= k < lo ==> lt(s[k], x)
    requires forall k :: hi <= k < |s| ==> !lt(s[k], x)
    ensures lo <= r <= hi
    ensures forall k :: 0 <= k < r ==> lt(s[k], x)
    ensures forall k :: r <= k < |s| ==> !lt(s[k], x)
    decreases hi - lo
  {
    if lo == hi then lo
    else
      var mid := (lo + hi) / 2;
      if lt(s[mid], x) then LowerBoundIn(s, x, lt, mid + 1, hi)
      else LowerBoundIn(s, x, lt, lo, mid)
  }

  /** `std::lower_bound(s.begin(), s.end(), x, lt) - s.begin()`: the first
      position whose element is not ordered before `x`. */
  function LowerBound<T>(s: seq<T>, x: T, lt: (T, T) -> bool): (r: nat)
    requires PartitionedBy(s, x, lt)
    ensures r <= |s|
    ensures forall k :: 0 <= k < r ==> lt(s[k], x)
    ensures forall k :: r <= k < |s| ==> !lt(s[k], x)
  {
    LowerBoundIn(s, x, lt, 0, |s|)
  }

  /** `r` is a position `std::lower_bound` may return for `x` in `s`:
      everything before it is ordered before `x` and nothing from it on is. */
  ghost predicate IsLowerBound<T>(s: seq<T>, x: T, r: int, lt: (T, T) -> bool) {
    && 0 <= r <= |s|
    && (forall k :: 0 <= k < r ==> lt(s[k], x))
    && (forall k :: r <= k < |s| ==> !lt(s[k], x))
  }

  /** There is only one such position, the one `LowerBound` computes. */
  lemma LowerBoundUnique<T>(s: seq<T>, x: T, r: int, lt: (T, T) -> bool)
    requires PartitionedBy(s, x, lt) && IsLowerBound(s, x, r, lt)
    ensures r == LowerBound(s, x, lt)
  {
    var b := LowerBound(s, x, lt);
    assert r < |s| ==> (r < b <==> lt(s[r], x));
    assert b < |s| ==> (b < r <==> lt(s[b], x));
  }

  /** A larger splitter never yields an earlier lower bound. */
  lemma LowerBoundMonotone<T(!new)>(s: seq<T>, x: T, y: T, lt: (T, T) -> bool)
    requires StrictWeakOrder(lt) && Sorted(s, lt)
    requires !lt(y, x)
    ensures PartitionedBy(s, x, lt) && PartitionedBy(s, y, lt)
    ensures LowerBound(s, x, lt) <= LowerBound(s, y, lt)
  {
    SortedIsPartitioned(s, x, lt);
    SortedIsPartitioned(s, y, lt);
    var rx := LowerBound(s, x, lt);
    forall k | 0 <= k < rx ensures lt(s[k], y) {
      assert lt(s[k], x) ==> lt(s[k], y) || lt(y, x);
    }
    var ry := LowerBound(s, y, lt);
    assert ry < |s| ==> !lt(s[ry], y);
  }

  /** Elements before the lower bound of `x` may precede elements at or after
      the lower bound of any `y` that is not ordered before `x`. */
  lemma LowerBoundSeparates<T(!new)>(s: seq<T>, t: seq<T>, x: T, y: T, a: nat, b: nat, lt: (T, T) -> bool)
    requires StrictWeakOrder(lt) && Sorted(s, lt) && Sorted(t, lt)
    requires !lt(y, x)
    ensures PartitionedBy(s, x, lt) && PartitionedBy(t, y, lt)
    ensures a < LowerBound(s, x, lt) && LowerBound(t, y, lt) <= b < |t| ==> !lt(t[b], s[a])
  {
    SortedIsPartitioned(s, x, lt);
    SortedIsPartitioned(t, y, lt);
    if a < LowerBound(s, x, lt) && LowerBound(t, y, lt) <= b < |t| {
      assert lt(s[a], x) && !lt(t[b], y);
      assert lt(s[a], x) ==> lt(s[a], y) || lt(y, x);
    }
  }

  /** Sortedness of a concatenation. */
  lemma SortedAppend<T>(xs: seq<T>, ys: seq<T>, lt: (T, T) -> bool)
    requires Sorted(xs, lt) && Sorted(ys, lt) && AllBefore(xs, ys, lt)
    ensures Sorted(xs + ys, lt)
  {
    var zs := xs + ys;
    forall i, j | 0 <= i < j < |zs| ensures !lt(zs[j], zs[i]) {
      if j < |xs| {
        assert zs[i] == xs[i] && zs[j] == xs[j];
      } else if i >= |xs| {
        assert zs[i] == ys[i - |xs|] && zs[j] == ys[j - |xs|];
      } else {
        assert zs[i] == xs[i] && zs[j] == ys[j - |xs|];
      }
    }
  }
}
