/**
 * The ordering the sort relies on, and the facts about sortedness and
 * permutation of a closed index range [lo, hi] that its proof is built from.
 */
module Ordering {

  /**
   * The three-way comparison of the element type, as Figure.CompareTo does it:
   * elements are compared by a real-valued metric (a figure's area).
   */
  function CompareTo<T>(key: T -> real, a: T, b: T): (r: int)
    ensures -1 <= r <= 1
    ensures r < 0 <==> key(a) < key(b)
    ensures r == 0 <==> key(a) == key(b)
  {
    if key(a) < key(b) then -1 else if key(a) == key(b) then 0 else 1
  }

  /** Positions lo..hi of `s` are in non-decreasing order of `key`. */
  ghost predicate SortedBetween<T>(s: seq<T>, key: T -> real, lo: int, hi: int)
  {
    forall p, q :: 0 <= lo <= p <= q <= hi < |s| ==> key(s[p]) <= key(s[q])
  }

  ghost predicate Sorted<T>(s: seq<T>, key: T -> real)
  {
    SortedBetween(s, key, 0, |s| - 1)
  }

  /**
   * `a` is `b` with only the positions lo..hi rearranged: same length, equal
   * outside the range, and the same multiset of values inside it.
   */
  ghost predicate PermutationWithin<T>(a: seq<T>, b: seq<T>, lo: int, hi: int)
  {
    && |a| == |b|
    && 0 <= lo <= hi + 1 <= |a|
    && (forall k :: 0 <= k < |a| && !(lo <= k <= hi) ==> a[k] == b[k])
    && multiset(a[lo..hi + 1]) == multiset(b[lo..hi + 1])
  }

  /** Exchanging two positions inside the range only rearranges the range. */
  lemma SwapPermutes<T>(a: seq<T>, lo: int, hi: int, i: int, j: int)
    requires 0 <= lo <= i <= hi < |a| && lo <= j <= hi
    ensures PermutationWithin(a[i := a[j]][j := a[i]], a, lo, hi)
  {
    var b := a[i := a[j]][j := a[i]];
    var s := a[lo..hi + 1];
    assert b[lo..hi + 1] == s[i - lo := s[j - lo]][j - lo := s[i - lo]];
  }

  lemma PermutationTransitive<T>(a: seq<T>, b: seq<T>, c: seq<T>, lo: int, hi: int)
    requires PermutationWithin(a, b, lo, hi) && PermutationWithin(b, c, lo, hi)
    ensures PermutationWithin(a, c, lo, hi)
  {
  }

  /** A rearrangement of a sub-range is a rearrangement of any range around it. */
  lemma PermutationWiden<T>(a: seq<T>, b: seq<T>, lo: int, hi: int, lo': int, hi': int)
    requires PermutationWithin(a, b, lo', hi')
    requires 0 <= lo <= lo' && hi' <= hi < |a|
    ensures PermutationWithin(a, b, lo, hi)
  {
    assert a[lo..lo'] == b[lo..lo'];
    assert a[hi' + 1..hi + 1] == b[hi' + 1..hi + 1];
    assert a[lo..hi + 1] == a[lo..lo'] + a[lo'..hi' + 1] + a[hi' + 1..hi + 1];
    assert b[lo..hi + 1] == b[lo..lo'] + b[lo'..hi' + 1] + b[hi' + 1..hi + 1];
  }

  /** Rearranging the whole sequence keeps its multiset. */
  lemma PermutationWhole<T>(a: seq<T>, b: seq<T>)
    requires PermutationWithin(a, b, 0, |a| - 1)
    ensures multiset(a) == multiset(b)
  {
    assert a[0..|a|] == a;
    assert b[0..|b|] == b;
  }

  /** A property every value of the range has survives rearranging the range. */
  lemma PermutationKeeps<T>(a: seq<T>, b: seq<T>, lo: int, hi: int, p: T -> bool)
    requires PermutationWithin(a, b, lo, hi)
    requires forall k :: lo <= k <= hi ==> p(b[k])
    ensures forall k :: lo <= k <= hi ==> p(a[k])
  {
    forall k | lo <= k <= hi
      ensures p(a[k])
    {
      assert a[k] == a[lo..hi + 1][k - lo];
      assert a[k] in multiset(b[lo..hi + 1]);
      var m :| 0 <= m < hi + 1 - lo && b[lo..hi + 1][m] == a[k];
      assert b[lo + m] == a[k];
    }
  }

  /** Sortedness of a range survives changes made only outside it. */
  lemma SortedUnchanged<T>(a: seq<T>, b: seq<T>, key: T -> real, lo: int, hi: int)
    requires |a| == |b| && SortedBetween(b, key, lo, hi)
    requires forall k :: lo <= k <= hi && 0 <= k < |a| ==> a[k] == b[k]
    ensures SortedBetween(a, key, lo, hi)
  {
  }

  /**
   * After a partition step around a pivot metric `kx`, with lo..i-1 not above
   * it and j+1..hi not below it, sorting lo..j and i..hi sorts lo..hi.
   */
  lemma PartitionSorted<T>(a: seq<T>, key: T -> real, lo: int, hi: int, i: int, j: int, kx: real)
    requires 0 <= lo <= hi < |a| && lo - 1 <= j < i <= hi + 1
    requires forall k :: lo <= k < i ==> key(a[k]) <= kx
    requires forall k :: j < k <= hi ==> key(a[k]) >= kx
    requires SortedBetween(a, key, lo, j) && SortedBetween(a, key, i, hi)
    ensures SortedBetween(a, key, lo, hi)
  {
    forall p, q | lo <= p <= q <= hi
      ensures key(a[p]) <= key(a[q])
    {
      if q <= j {
      } else if i <= p {
      } else {
        assert key(a[p]) <= kx <= key(a[q]);
      }
    }
  }

  /**
   * One level of quicksort: `parted` rearranges `a` within [lo, hi] into the
   * two sides of pivot metric `kx`; `left` then sorts [lo, j] (when lo < j)
   * and `right` sorts [i, hi] (when i < hi). The result is a sorted
   * rearrangement of `a` within [lo, hi].
   */
  lemma QuicksortStep<T>(a: seq<T>, parted: seq<T>, left: seq<T>, right: seq<T>, key: T -> real,
                         lo: int, hi: int, i: int, j: int, kx: real)
    requires PermutationWithin(parted, a, lo, hi) && lo <= hi < |a|
    requires lo - 1 <= j < i <= hi + 1
    requires forall k :: lo <= k < i ==> key(parted[k]) <= kx
    requires forall k :: j < k <= hi ==> key(parted[k]) >= kx
    requires lo < j ==> PermutationWithin(left, parted, lo, j) && SortedBetween(left, key, lo, j)
    requires !(lo < j) ==> left == parted
    requires i < hi ==> PermutationWithin(right, left, i, hi) && SortedBetween(right, key, i, hi)
    requires !(i < hi) ==> right == left
    ensures PermutationWithin(right, a, lo, hi)
    ensures SortedBetween(right, key, lo, hi)
  {
    if lo < j {
      PermutationKeeps(left, parted, lo, j, v => key(v) <= kx);
      PermutationWiden(left, parted, lo, hi, lo, j);
    }
    PermutationTransitive(left, parted, a, lo, hi);
    if i < hi {
      PermutationKeeps(right, left, i, hi, v => key(v) >= kx);
      PermutationWiden(right, left, lo, hi, i, hi);
      SortedUnchanged(right, left, key, lo, j);
    }
    PermutationTransitive(right, left, a, lo, hi);
    PartitionSorted(right, key, lo, hi, i, j, kx);
  }

  /**
   * The exchange step of a partition: with i <= j, a value not below `kx` at i
   * and one not above it at j, exchanging them extends both sides by one.
   */
  lemma ExchangeStep<T>(a: seq<T>, key: T -> real, lo: int, hi: int, i: int, j: int, kx: real)
    requires 0 <= lo <= i <= j <= hi < |a|
    requires forall k :: lo <= k < i ==> key(a[k]) <= kx
    requires forall k :: j < k <= hi ==> key(a[k]) >= kx
    requires key(a[i]) >= kx && key(a[j]) <= kx
    ensures var b := a[i := a[j]][j := a[i]];
      && PermutationWithin(b, a, lo, hi)
      && (forall k :: lo <= k <= i ==> key(b[k]) <= kx)
      && (forall k :: j <= k <= hi ==> key(b[k]) >= kx)
  {
    SwapPermutes(a, lo, hi, i, j);
  }
}
