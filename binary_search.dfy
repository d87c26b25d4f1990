/**
 * Lower and upper bound over a half-open range `[first, last)` of a slice
 * whose elements are non-decreasing under a three-way comparison
 * (binary_search/binary_search.go).
 */
module BinarySearch {

  /**
   * The comparison's sign says how `v1` relates to `v2`: negative when
   * `v1 < v2`, zero when they are equal, positive when `v1 > v2`. It must
   * describe a total preorder: swapping the arguments flips the sign, and
   * "at most" is transitive.
   */
  ghost predicate Comparator<V(!new)>(compare: (V, V) -> int) {
    && (forall a, b :: compare(a, b) < 0 <==> compare(b, a) > 0)
    && (forall a, b, c :: compare(a, b) <= 0 && compare(b, c) <= 0 ==> compare(a, c) <= 0)
  }

  /** "Strictly below" follows "at most": `a <= b < c` gives `a < c`. */
  lemma LessAfterAtMost<V(!new)>(compare: (V, V) -> int, a: V, b: V, c: V)
    requires Comparator(compare)
    ensures compare(a, b) <= 0 && compare(b, c) < 0 ==> compare(a, c) < 0
  {
  }

  /** The elements of `[first, last)` are non-decreasing under `compare`. */
  ghost predicate NonDecreasing<V>(compare: (V, V) -> int, elements: seq<V>, first: int, last: int)
    requires 0 <= first <= last <= |elements|
  {
    forall i, j :: first <= i < j < last ==> compare(elements[i], elements[j]) <= 0
  }

  /** The range is a valid half-open range of `elements`, or empty with `last < first`. */
  predicate InRange<V>(elements: seq<V>, first: int, last: int) {
    first <= last ==> 0 <= first && last <= |elements|
  }

  /** The searcher holds only the comparison it was created with. */
  datatype BinarySearcher<!V(!new)> = BinarySearcher(compare: (V, V) -> int)
  {
    /**
     * The leftmost position `p` of `[first, last]` such that every element
     * before it (within the range) is below `val` and every element from it
     * on is at least `val`; `last` when all are below `val`.
     */
    method LowerBound(elements: seq<V>, first: int, last: int, val: V) returns (p: int)
      requires Comparator(compare) && InRange(elements, first, last)
      requires first <= last ==> NonDecreasing(compare, elements, first, last)
      ensures last < first ==> p == first
      ensures first <= last ==> first <= p <= last
      ensures first <= last ==> forall k :: first <= k < p ==> compare(elements[k], val) < 0
      ensures first <= last ==> forall k :: p <= k < last ==> compare(elements[k], val) >= 0
      ensures first <= last ==> p == FirstAtLeast(compare, elements, first, last, val)
    {
      var cnt := last - first;
      p := first;
      ghost var target := if first <= last then FirstAtLeast(compare, elements, first, last, val) else first;
      if first <= last {
        AtLeastFromLowerBound(compare, elements, first, last, val);
      }
      while cnt > 0
        invariant last < first ==> p == first && cnt < 0
        invariant first <= last ==> first <= p && cnt >= 0 && p + cnt <= last
        invariant first <= last ==> p <= target <= p + cnt
      {
        var half := cnt / 2;
        var middle := p + half;
        if compare(elements[middle], val) < 0 {
          p := middle;
          p := p + 1;
          cnt := cnt - (half + 1);
        } else {
          cnt := half;
        }
      }
    }

    /**
     * The leftmost position `p` of `[first, last]` such that every element
     * before it (within the range) is at most `val` and every element from it
     * on is above `val`; `last` when none is above `val`.
     */
    method UpperBound(elements: seq<V>, first: int, last: int, val: V) returns (p: int)
      requires Comparator(compare) && InRange(elements, first, last)
      requires first <= last ==> NonDecreasing(compare, elements, first, last)
      ensures last < first ==> p == first
      ensures first <= last ==> first <= p <= last
      ensures first <= last ==> forall k :: first <= k < p ==> compare(elements[k], val) <= 0
      ensures first <= last ==> forall k :: p <= k < last ==> compare(elements[k], val) > 0
      ensures first <= last ==> p == FirstAbove(compare, elements, first, last, val)
    {
      var cnt := last - first;
      p := first;
      ghost var target := if first <= last then FirstAbove(compare, elements, first, last, val) else first;
      if first <= last {
        AboveFromUpperBound(compare, elements, first, last, val);
      }
      while cnt > 0
        invariant last < first ==> p == first && cnt < 0
        invariant first <= last ==> first <= p && cnt >= 0 && p + cnt <= last
        invariant first <= last ==> p <= target <= p + cnt
      {
        var half := cnt / 2;
        var middle := p + half;
        if compare(elements[middle], val) <= 0 {
          p := middle;
          p := p + 1;
          cnt := cnt - (half + 1);
        } else {
          cnt := half;
        }
      }
    }
  }

  /**
   * The reference lower bound, by linear scan: the first position of
   * `[first, last)` whose element is at least `val`, or `last`.
   */
  function FirstAtLeast<V>(compare: (V, V) -> int, elements: seq<V>, first: int, last: int, val: V): (p: int)
    requires 0 <= first <= last <= |elements|
    ensures first <= p <= last
    ensures forall k :: first <= k < p ==> compare(elements[k], val) < 0
    ensures p < last ==> compare(elements[p], val) >= 0
    decreases last - first
  {
    if first == last || compare(elements[first], val) >= 0 then first
    else FirstAtLeast(compare, elements, first + 1, last, val)
  }

  /**
   * The reference upper bound, by linear scan: the first position of
   * `[first, last)` whose element is above `val`, or `last`.
   */
  function FirstAbove<V>(compare: (V, V) -> int, elements: seq<V>, first: int, last: int, val: V): (p: int)
    requires 0 <= first <= last <= |elements|
    ensures first <= p <= last
    ensures forall k :: first <= k < p ==> compare(elements[k], val) <= 0
    ensures p < last ==> compare(elements[p], val) > 0
    decreases last - first
  {
    if first == last || compare(elements[first], val) > 0 then first
    else FirstAbove(compare, elements, first + 1, last, val)
  }

  /** In a non-decreasing range, every element from the lower bound on is at least `val`. */
  lemma AtLeastFromLowerBound<V(!new)>(compare: (V, V) -> int, elements: seq<V>, first: int, last: int, val: V)
    requires Comparator(compare) && 0 <= first <= last <= |elements| && NonDecreasing(compare, elements, first, last)
    ensures forall k :: FirstAtLeast(compare, elements, first, last, val) <= k < last ==> compare(elements[k], val) >= 0
  {
    var p := FirstAtLeast(compare, elements, first, last, val);
    forall k | p <= k < last ensures compare(elements[k], val) >= 0 {
      LessAfterAtMost(compare, elements[p], elements[k], val);
    }
  }

  /** In a non-decreasing range, every element from the upper bound on is above `val`. */
  lemma AboveFromUpperBound<V(!new)>(compare: (V, V) -> int, elements: seq<V>, first: int, last: int, val: V)
    requires Comparator(compare) && 0 <= first <= last <= |elements| && NonDecreasing(compare, elements, first, last)
    ensures forall k :: FirstAbove(compare, elements, first, last, val) <= k < last ==> compare(elements[k], val) > 0
  {
    var p := FirstAbove(compare, elements, first, last, val);
    forall k | p <= k < last ensures compare(elements[k], val) > 0 {
      assert p < k ==> compare(elements[p], elements[k]) <= 0;
    }
  }

  /**
   * On the same range and value the lower bound never exceeds the upper
   * bound: every element below `val` is also at most `val`.
   */
  lemma {:induction false} LowerBelowUpper<V>(compare: (V, V) -> int, elements: seq<V>, first: int, last: int, val: V)
    requires 0 <= first <= last <= |elements|
    ensures FirstAtLeast(compare, elements, first, last, val) <= FirstAbove(compare, elements, first, last, val)
    decreases last - first
  {
    if first < last && compare(elements[first], val) < 0 {
      LowerBelowUpper(compare, elements, first + 1, last, val);
    }
  }

  /** `v1 - v2`, the comparison the source's tests use on integers. */
  function IntCompare(v1: int, v2: int): (c: int)
    ensures c < 0 <==> v1 < v2
    ensures c == 0 <==> v1 == v2
  {
    v1 - v2
  }

  lemma IntCompareIsComparator()
    ensures Comparator(IntCompare)
  {
  }

  /** The source's table of expected bounds over `[1, 3]` and `[1, 3, 5]`. */
  lemma BoundsExamples()
    ensures FirstAtLeast(IntCompare, [1, 3], 0, 2, 0) == 0 && FirstAbove(IntCompare, [1, 3], 0, 2, 0) == 0
    ensures FirstAtLeast(IntCompare, [1, 3], 0, 2, 1) == 0 && FirstAbove(IntCompare, [1, 3], 0, 2, 1) == 1
    ensures FirstAtLeast(IntCompare, [1, 3], 0, 2, 2) == 1 && FirstAbove(IntCompare, [1, 3], 0, 2, 2) == 1
    ensures FirstAtLeast(IntCompare, [1, 3], 0, 2, 3) == 1 && FirstAbove(IntCompare, [1, 3], 0, 2, 3) == 2
    ensures FirstAtLeast(IntCompare, [1, 3], 0, 2, 4) == 2 && FirstAbove(IntCompare, [1, 3], 0, 2, 4) == 2
    ensures FirstAtLeast(IntCompare, [1, 3, 5], 0, 3, 0) == 0 && FirstAbove(IntCompare, [1, 3, 5], 0, 3, 0) == 0
    ensures FirstAtLeast(IntCompare, [1, 3, 5], 0, 3, 3) == 1 && FirstAbove(IntCompare, [1, 3, 5], 0, 3, 3) == 2
    ensures FirstAtLeast(IntCompare, [1, 3, 5], 0, 3, 4) == 2 && FirstAbove(IntCompare, [1, 3, 5], 0, 3, 4) == 2
    ensures FirstAtLeast(IntCompare, [1, 3, 5], 0, 3, 5) == 2 && FirstAbove(IntCompare, [1, 3, 5], 0, 3, 5) == 3
    ensures FirstAtLeast(IntCompare, [1, 3, 5], 0, 3, 6) == 3 && FirstAbove(IntCompare, [1, 3, 5], 0, 3, 6) == 3
  {
  }
}
