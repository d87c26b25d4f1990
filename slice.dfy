/**
 * Sorting and deduplicating a slice of integers (util/slice.go).
 */
module Slice {
  import opened Orders

  /** Every element is at most the next one. */
  predicate Ascending(s: seq<int>) {
    forall i, j :: 0 <= i < j < |s| ==> s[i] <= s[j]
  }

  /** The head of an ascending sequence is at most each of its elements. */
  lemma HeadIsLeast(s: seq<int>)
    requires Ascending(s) && s != []
    ensures forall y :: y in s ==> s[0] <= y
  {
    forall y | y in s ensures s[0] <= y {
      var i :| 0 <= i < |s| && s[i] == y;
    }
  }

  /** An ascending sequence stays ascending behind a lower bound of its elements. */
  lemma AscendingCons(a: int, t: seq<int>)
    requires Ascending(t) && forall y :: y in t ==> a <= y
    ensures Ascending([a] + t)
  {
    forall i, j | 0 <= i < j < |[a] + t| ensures ([a] + t)[i] <= ([a] + t)[j] {
      if i == 0 {
        assert t[j - 1] in t;
      }
    }
  }

  /** Inserts `x` into an ascending sequence at its place. */
  function InsertInt(x: int, s: seq<int>): (r: seq<int>)
    requires Ascending(s)
    ensures Ascending(r) && multiset(r) == multiset(s) + multiset{x} && |r| == |s| + 1
    ensures forall y :: y in r ==> y == x || y in s
  {
    if s == [] || x <= s[0] then
      if s != [] then HeadIsLeast(s); AscendingCons(x, s); [x] + s
      else [x]
    else
      var rest := InsertInt(x, s[1..]);
      HeadIsLeast(s);
      AscendingCons(s[0], rest);
      assert s == [s[0]] + s[1..];
      [s[0]] + rest
  }

  /**
   * The result of the library sort `sort.Ints`: the same elements, in
   * ascending order (written as an insertion sort; the library's algorithm
   * is not shown).
   */
  function SortInts(s: seq<int>): (r: seq<int>)
    ensures Ascending(r) && multiset(r) == multiset(s) && |r| == |s|
  {
    if s == [] then []
    else
      assert s == [s[0]] + s[1..];
      InsertInt(s[0], SortInts(s[1..]))
  }

  /**
   * Copies the input, sorts the copy and appends every element that differs
   * from the last one kept. The result is strictly increasing and holds
   * exactly the input's values; the input array is only read.
   */
  method SortAndUniq(a: array<int>) returns (deduped: seq<int>)
    requires a.Length >= 1
    ensures StrictlySorted(deduped, IntLess)
    ensures forall x :: x in deduped <==> x in a[..]
  {
    var m := a.Length;
    var tmp := SortInts(a[..]);
    SortIntsSameValues(a[..]);
    deduped := [tmp[0]];
    var j := 0;
    for i := 1 to m
      invariant |deduped| == j + 1 && deduped[j] == tmp[i - 1]
      invariant StrictlySorted(deduped, IntLess)
      invariant forall x :: x in deduped <==> x in tmp[..i]
    {
      assert tmp[i - 1] <= tmp[i];
      DedupStep(deduped, tmp[..i], tmp[i]);
      if tmp[i] != deduped[j] {
        deduped := deduped + [tmp[i]];
        j := j + 1;
      }
      assert tmp[..i + 1] == tmp[..i] + [tmp[i]];
    }
    assert tmp[..m] == tmp;
  }

  /** Sorting keeps the values. */
  lemma SortIntsSameValues(s: seq<int>)
    ensures forall x :: x in SortInts(s) <==> x in s
  {
    forall x ensures x in SortInts(s) <==> x in s {
      assert x in SortInts(s) <==> x in multiset(SortInts(s));
      assert x in s <==> x in multiset(s);
    }
  }

  /**
   * One step of the deduplicating loop: a value at least the last one kept
   * is appended when it differs from it, and the kept values stay strictly
   * increasing and the same as the values seen.
   */
  lemma DedupStep(deduped: seq<int>, seen: seq<int>, x: int)
    requires StrictlySorted(deduped, IntLess) && deduped != [] && deduped[|deduped| - 1] <= x
    requires forall y :: y in deduped <==> y in seen
    ensures var d := if x != deduped[|deduped| - 1] then deduped + [x] else deduped;
      && StrictlySorted(d, IntLess)
      && forall y :: y in d <==> y in seen + [x]
  {
    if x != deduped[|deduped| - 1] {
      AppendAbove(deduped, x);
    }
  }

  /** Appending a value above the last element keeps a sequence strictly increasing. */
  lemma AppendAbove(s: seq<int>, x: int)
    requires StrictlySorted(s, IntLess) && s != [] && s[|s| - 1] < x
    ensures StrictlySorted(s + [x], IntLess)
  {
    forall i, j | 0 <= i < j < |s| + 1 ensures IntLess((s + [x])[i], (s + [x])[j]) {
      if j == |s| && i < |s| - 1 {
        assert IntLess(s[i], s[|s| - 1]);
      }
    }
  }

  /**
   * Sorting and deduplicating depends only on the set of values: two inputs
   * with the same values give the same result.
   */
  lemma SortAndUniqDeterminedBySet(a: seq<int>, b: seq<int>, ra: seq<int>, rb: seq<int>)
    requires StrictlySorted(ra, IntLess) && (forall x :: x in ra <==> x in a)
    requires StrictlySorted(rb, IntLess) && (forall x :: x in rb <==> x in b)
    requires forall x :: x in a <==> x in b
    ensures ra == rb
  {
    IntLessStrictTotal();
    assert forall x :: x in ra <==> x in rb;
    StrictlySortedUnique(ra, rb, IntLess);
  }

  /** The source's example: `[3, 1, 1, 2, 3, 2]` becomes `[1, 2, 3]`. */
  method SortAndUniqExample() returns (r: seq<int>)
    ensures r == [1, 2, 3]
  {
    var a := new int[6];
    a[0], a[1], a[2], a[3], a[4], a[5] := 3, 1, 1, 2, 3, 2;
    r := SortAndUniq(a);
    assert forall x :: x in a[..] <==> x in [1, 2, 3] by {
      assert a[..] == [3, 1, 1, 2, 3, 2];
    }
    SortAndUniqDeterminedBySet(a[..], [1, 2, 3], r, [1, 2, 3]);
  }
}
