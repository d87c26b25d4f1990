/**
 * Order relations used as parameters throughout the project: the `less`
 * functions of the heaps and the sparse table, and the order that sorts node
 * identifiers and integers.
 */
module Orders {

  /** `lt` is irreflexive, transitive and any two distinct values are comparable. */
  ghost predicate StrictTotalOrder<T(!new)>(lt: (T, T) -> bool) {
    && (forall x :: !lt(x, x))
    && (forall x, y, z :: lt(x, y) && lt(y, z) ==> lt(x, z))
    && (forall x, y :: x != y ==> lt(x, y) || lt(y, x))
  }

  /**
   * `lt` is a strict weak order: irreflexive, transitive, and "not less than"
   * is transitive too (incomparable values form equivalence classes).
   */
  ghost predicate StrictWeakOrder<T(!new)>(lt: (T, T) -> bool) {
    && (forall x :: !lt(x, x))
    && (forall x, y, z {:trigger lt(x, y), lt(y, z), lt(x, z)} :: lt(x, y) && lt(y, z) ==> lt(x, z))
    && (forall x, y, z {:trigger lt(x, y), lt(y, z), lt(x, z)} :: !lt(x, y) && !lt(y, z) ==> !lt(x, z))
  }

  /** `<` on integers, the order the source's tests use. */
  predicate IntLess(x: int, y: int) {
    x < y
  }

  lemma IntLessStrictTotal()
    ensures StrictTotalOrder(IntLess) && StrictWeakOrder(IntLess)
  {
  }

  /** Every element is `lt` every later element. */
  predicate StrictlySorted<T>(s: seq<T>, lt: (T, T) -> bool) {
    forall i, j :: 0 <= i < j < |s| ==> lt(s[i], s[j])
  }

  /** The head of a non-empty strictly sorted sequence is below each of its other elements. */
  lemma SortedHead<T>(s: seq<T>, lt: (T, T) -> bool, x: T)
    requires StrictlySorted(s, lt) && x in s
    ensures x == s[0] || lt(s[0], x)
  {
    var i :| 0 <= i < |s| && s[i] == x;
    if i > 0 { assert lt(s[0], s[i]); }
  }

  /** A strictly sorted sequence is determined by the set of its elements. */
  lemma {:induction false} StrictlySortedUnique<T(!new)>(a: seq<T>, b: seq<T>, lt: (T, T) -> bool)
    requires StrictTotalOrder(lt)
    requires StrictlySorted(a, lt) && StrictlySorted(b, lt)
    requires forall x :: x in a <==> x in b
    ensures a == b
  {
    if a != [] { assert a[0] in b; }
    if b != [] { assert b[0] in a; }
    if a != [] && b != [] {
      SortedHead(a, lt, b[0]);
      SortedHead(b, lt, a[0]);
      assert a[0] == b[0];
      forall x ensures x in a[1..] <==> x in b[1..] {
        if x in a[1..] {
          var i :| 1 <= i < |a| && a[i] == x;
          assert lt(a[0], x) && x in b;
          var j :| 0 <= j < |b| && b[j] == x;
          assert j != 0 && b[1..][j - 1] == x;
        }
        if x in b[1..] {
          var i :| 1 <= i < |b| && b[i] == x;
          assert lt(b[0], x) && x in a;
          var j :| 0 <= j < |a| && a[j] == x;
          assert j != 0 && a[1..][j - 1] == x;
        }
      }
      StrictlySortedUnique(a[1..], b[1..], lt);
      assert a == [a[0]] + a[1..];
      assert b == [b[0]] + b[1..];
    }
  }
}
