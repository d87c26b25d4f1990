/**
 * Range-minimum queries over a static slice by a sparse table
 * (rmq/rmq.go): `st[i][j]` holds a minimum of the `2^i` elements from `j`
 * on, and a query combines two possibly overlapping power-of-two windows.
 */
module RangeMinimum {
  import opened Orders

  /** `1 << k`. */
  function Pow2(k: nat): (p: nat)
    ensures p >= 1
  {
    if k == 0 then 1 else 2 * Pow2(k - 1)
  }

  /** `floor(log2(i))`: the `k` with `2^k <= i < 2^(k+1)`. */
  function FloorLog2(i: int): (k: nat)
    requires i >= 1
    ensures Pow2(k) <= i < Pow2(k + 1)
  {
    if i == 1 then 0 else FloorLog2(i / 2) + 1
  }

  /** The floor logarithm is the only `k` with `2^k <= i < 2^(k+1)`. */
  lemma {:induction false} FloorLog2Unique(i: int, k: nat)
    requires i >= 1 && Pow2(k) <= i < Pow2(k + 1)
    ensures FloorLog2(i) == k
  {
    var f := FloorLog2(i);
    if f < k {
      Pow2Monotone(f + 1, k);
    } else if k < f {
      Pow2Monotone(k + 1, f);
    }
  }

  lemma {:induction false} Pow2Monotone(a: nat, b: nat)
    requires a <= b
    ensures Pow2(a) <= Pow2(b)
    decreases b
  {
    if a < b {
      Pow2Monotone(a, b - 1);
    }
  }

  /** A larger argument never has a smaller floor logarithm. */
  lemma FloorLog2Monotone(i: int, j: int)
    requires 1 <= i <= j
    ensures FloorLog2(i) <= FloorLog2(j)
  {
    var a, b := FloorLog2(i), FloorLog2(j);
    if b < a {
      Pow2Monotone(b + 1, a);
    }
  }

  /**
   * `calcLog2n`: a table with `log2[i] == floor(log2(i))` for `1 <= i <= n`,
   * by `log2[i] = log2[i / 2] + 1`. The source writes `log2[1]`
   * unconditionally, so it needs `n >= 1`.
   */
  method CalcLog2n(n: int) returns (log2: array<int>)
    requires n >= 1
    ensures fresh(log2) && log2.Length == n + 1 && log2[0] == 0
    ensures forall i {:trigger log2[i]} :: 1 <= i <= n ==> log2[i] == FloorLog2(i)
  {
    log2 := new int[n + 1](_ => 0);
    log2[1] := 0;
    for i := 2 to n + 1
      invariant log2[0] == 0
      invariant forall k {:trigger log2[k]} :: 1 <= k < i ==> log2[k] == FloorLog2(k)
    {
      assert log2[i / 2] == FloorLog2(i / 2);
      assert FloorLog2(i) == FloorLog2(i / 2) + 1;
      log2[i] := log2[i / 2] + 1;
    }
  }

  /** `v` is one of `e[lo..hi)` and no element there is `less` than it. */
  ghost predicate IsMinimum<V>(less: (V, V) -> bool, e: seq<V>, lo: int, hi: int, v: V)
    requires 0 <= lo <= hi <= |e|
  {
    && (exists k :: lo <= k < hi && e[k] == v)
    && (forall k :: lo <= k < hi ==> !less(e[k], v))
  }

  /** Of two candidates, the one the source keeps: `a` only when `less(a, b)`. */
  function Pick<V>(less: (V, V) -> bool, a: V, b: V): V {
    if less(a, b) then a else b
  }

  /**
   * The value the source stores in `st[i][j]`: the element itself on row 0,
   * and otherwise the right half's entry unless the left half's is `less`.
   */
  function Table<V>(less: (V, V) -> bool, e: seq<V>, i: nat, j: int): V
    requires 0 <= j && j + Pow2(i) <= |e|
  {
    if i == 0 then e[j]
    else
      var right := Table(less, e, i - 1, j + Pow2(i - 1));
      var left := Table(less, e, i - 1, j);
      Pick(less, left, right)
  }

  /**
   * Of a minimum `a` of one range and a minimum `b` of another, the one the
   * source keeps (`a` when `less(a, b)`, otherwise `b`) is a minimum of
   * their union.
   */
  lemma Combine<V(!new)>(less: (V, V) -> bool, e: seq<V>, lo1: int, hi1: int, lo2: int, hi2: int, a: V, b: V)
    requires StrictWeakOrder(less)
    requires 0 <= lo1 <= lo2 <= hi1 <= hi2 <= |e| && lo1 < hi1 && lo2 < hi2
    requires IsMinimum(less, e, lo1, hi1, a) && IsMinimum(less, e, lo2, hi2, b)
    ensures IsMinimum(less, e, lo1, hi2, Pick(less, a, b))
  {
    var r := Pick(less, a, b);
    forall k | lo1 <= k < hi2 ensures !less(e[k], r) {
      if k < hi1 {
        assert !less(e[k], a);
      }
      if lo2 <= k {
        assert !less(e[k], b);
      }
    }
  }

  /** One element on its own is its minimum. */
  lemma Single<V(!new)>(less: (V, V) -> bool, e: seq<V>, j: int)
    requires StrictWeakOrder(less) && 0 <= j < |e|
    ensures IsMinimum(less, e, j, j + 1, e[j])
  {
  }

  /** The sparse-table invariant: `Table(i, j)` is a minimum of `e[j .. j + 2^i)`. */
  lemma {:induction false} TableIsMinimum<V(!new)>(less: (V, V) -> bool, e: seq<V>, i: nat, j: int)
    requires StrictWeakOrder(less) && 0 <= j && j + Pow2(i) <= |e|
    ensures IsMinimum(less, e, j, j + Pow2(i), Table(less, e, i, j))
  {
    if i == 0 {
      Single(less, e, j);
    } else {
      var h := Pow2(i - 1);
      TableIsMinimum(less, e, i - 1, j);
      TableIsMinimum(less, e, i - 1, j + h);
      Combine(less, e, j, j + h, j + h, j + 2 * h, Table(less, e, i - 1, j), Table(less, e, i - 1, j + h));
    }
  }

  /**
   * Under a strict total order a range has exactly one minimum: the
   * smallest of its elements.
   */
  lemma MinimumUnique<V(!new)>(less: (V, V) -> bool, e: seq<V>, lo: int, hi: int, v: V, w: V)
    requires StrictTotalOrder(less) && 0 <= lo <= hi <= |e|
    requires IsMinimum(less, e, lo, hi, v) && IsMinimum(less, e, lo, hi, w)
    ensures v == w
  {
    var i :| lo <= i < hi && e[i] == v;
    var j :| lo <= j < hi && e[j] == w;
    assert !less(e[i], w) && !less(e[j], v);
  }

  /** The sparse table over a non-empty slice and the `less` it was built with. */
  class SparseTable<V(!new)> {
    var log2: array<int>
    /** The original array of elements. */
    const elements: seq<V>
    /** `st[i, j]`: a minimum of the `2^i` elements from `j` on, where they exist. */
    var st: array2<V>
    const less: (V, V) -> bool

    /**
     * `log2` holds the floor logarithms up to `n`, and `st` has rows
     * `0 .. floor(log2(n))` of `n` cells, each within range the sparse-table value.
     */
    ghost predicate Valid()
      reads this, log2, st
    {
      && StrictWeakOrder(less)
      && |elements| >= 1
      && log2.Length == |elements| + 1
      && (forall i {:trigger log2[i]} :: 1 <= i <= |elements| ==> log2[i] == FloorLog2(i))
      && st.Length0 == FloorLog2(|elements|) + 1 && st.Length1 == |elements|
      && RowsBuilt(st, st.Length0)
    }

    /** Rows `0 .. rows - 1` of `t` hold the sparse-table values wherever their window fits. */
    ghost predicate RowsBuilt(t: array2<V>, rows: int)
      reads t
    {
      forall r, j :: 0 <= r < rows && r < t.Length0 && 0 <= j < t.Length1 && j + Pow2(r) <= |elements| ==> t[r, j] == Table(less, elements, r, j)
    }

    /**
     * `NewRMQ`: the floor-logarithm table and the sparse table of a
     * non-empty slice; `less` must be a strict weak order for the answers
     * to be minima.
     */
    constructor (elements: seq<V>, less: (V, V) -> bool)
      requires |elements| >= 1 && StrictWeakOrder(less)
      ensures Valid() && this.elements == elements && this.less == less
    {
      this.elements := elements;
      this.less := less;
      var table := CalcLog2n(|elements|);
      log2 := table;
      st := new V[1, 1]((_, _) => elements[0]);
      new;
      CalcSparseTable();
    }

    /**
     * `calcSparseTable`: row 0 copies the elements, and row `i` combines two
     * adjacent windows of row `i - 1`.
     */
    method CalcSparseTable()
      requires |elements| >= 1 && log2.Length == |elements| + 1
      requires forall i {:trigger log2[i]} :: 1 <= i <= |elements| ==> log2[i] == FloorLog2(i)
      modifies this
      ensures log2 == old(log2) && fresh(st)
      ensures st.Length0 == FloorLog2(|elements|) + 1 && st.Length1 == |elements|
      ensures RowsBuilt(st, st.Length0)
    {
      var n := |elements|;
      var m := log2[n];
      var zero := elements[0];
      var t := new V[m + 1, n]((_, _) => zero);
      for j := 0 to n
        modifies t
        invariant forall k :: 0 <= k < j ==> t[0, k] == elements[k]
      {
        t[0, j] := elements[j];
      }
      for i := 1 to m + 1
        modifies t
        invariant RowsBuilt(t, i)
      {
        FillRow(t, i);
      }
      st := t;
    }

    /** Fills row `i` of `t` from row `i - 1`. */
    method FillRow(t: array2<V>, i: nat)
      requires 1 <= i < t.Length0 && t.Length1 == |elements| && RowsBuilt(t, i)
      modifies t
      ensures RowsBuilt(t, i + 1)
    {
      var n := |elements|;
      var w, h := Pow2(i), Pow2(i - 1);
      var j := 0;
      while j + w - 1 < n
        invariant 0 <= j && RowsBuilt(t, i)
        invariant forall k :: 0 <= k < j && k + w <= n ==> t[i, k] == Table(less, elements, i, k)
        decreases n - j
      {
        var left, right := t[i - 1, j], t[i - 1, j + h];
        assert left == Table(less, elements, i - 1, j) && right == Table(less, elements, i - 1, j + h);
        // The source stores `right` and then overwrites it with `left` when `left` is less.
        var v := right;
        if less(left, v) {
          v := left;
        }
        t[i, j] := v;
        j := j + 1;
      }
    }

    /**
     * `RMQ(l, r)`: a minimum of `elements[l..r]`, both ends included, read
     * from the two windows of length `2^floor(log2(r - l + 1))` that start
     * at `l` and end at `r`.
     */
    function RMQ(l: int, r: int): (v: V)
      reads this, log2, st
      requires Valid() && 0 <= l <= r < |elements|
      ensures IsMinimum(less, elements, l, r + 1, v)
    {
      var k := log2[r - l + 1];
      QueryWindows(|elements|, l, r, k);
      var result := st[k, r - Pow2(k) + 1];
      var left := st[k, l];
      QueryIsMinimum(less, elements, l, r, k);
      if less(left, result) then left else result
    }
  }

  /**
   * The two windows of length `2^k`, `k = floor(log2(r - l + 1))`, that
   * start at `l` and end at `r` lie in `[l, r]`, overlap or touch, and
   * `k` is a row of the table over `n` elements.
   */
  lemma QueryWindows(n: int, l: int, r: int, k: nat)
    requires 0 <= l <= r < n && k == FloorLog2(r - l + 1)
    ensures k <= FloorLog2(n)
    ensures l <= r - Pow2(k) + 1 <= l + Pow2(k) <= r + 1
  {
    FloorLog2Monotone(r - l + 1, n);
  }

  /**
   * The two windows' table entries combined as the query combines them
   * give a minimum of `e[l..r]`.
   */
  lemma QueryIsMinimum<V(!new)>(less: (V, V) -> bool, e: seq<V>, l: int, r: int, k: nat)
    requires StrictWeakOrder(less) && 0 <= l <= r < |e| && k == FloorLog2(r - l + 1)
    ensures l <= r - Pow2(k) + 1 && r + 1 <= |e|
    ensures var left, right := Table(less, e, k, l), Table(less, e, k, r - Pow2(k) + 1);
      IsMinimum(less, e, l, r + 1, Pick(less, left, right))
  {
    QueryWindows(|e|, l, r, k);
    var left, right := Table(less, e, k, l), Table(less, e, k, r - Pow2(k) + 1);
    TableIsMinimum(less, e, k, l);
    TableIsMinimum(less, e, k, r - Pow2(k) + 1);
    Combine(less, e, l, l + Pow2(k), r - Pow2(k) + 1, r + 1, left, right);
  }

  /**
   * The source's test over `[6, 1, 0, 10, 9]` with `<`: the minima of
   * `[0, 0]`, `[0, 1]`, `[0, 2]`, `[0, 3]`, `[0, 4]` and `[3, 4]` are 6, 1,
   * 0, 0, 0 and 9.
   */
  method RangeMinimumExample() returns (a: int, b: int, c: int, d: int, f: int, g: int)
    ensures a == 6 && b == 1 && c == 0 && d == 0 && f == 0 && g == 9
  {
    var e := [6, 1, 0, 10, 9];
    IntLessStrictTotal();
    var q := new SparseTable(e, IntLess);
    a := q.RMQ(0, 0);
    b := q.RMQ(0, 1);
    c := q.RMQ(0, 2);
    d := q.RMQ(0, 3);
    f := q.RMQ(0, 4);
    g := q.RMQ(3, 4);
    ExampleMinima(e);
    MinimumUnique(IntLess, e, 0, 1, a, 6);
    MinimumUnique(IntLess, e, 0, 2, b, 1);
    MinimumUnique(IntLess, e, 0, 3, c, 0);
    MinimumUnique(IntLess, e, 0, 4, d, 0);
    MinimumUnique(IntLess, e, 0, 5, f, 0);
    MinimumUnique(IntLess, e, 3, 5, g, 9);
  }

  /**
   * The minima of the test's ranges, checked element by element.
   * The input is a parameter pinned by `requires` rather than a literal in the
   * body: the solver then unfolds the literal once, which keeps the proof cheap.
   */
  lemma ExampleMinima(e: seq<int>)
    requires e == [6, 1, 0, 10, 9]
    ensures IsMinimum(IntLess, e, 0, 1, 6) && IsMinimum(IntLess, e, 0, 2, 1) && IsMinimum(IntLess, e, 0, 3, 0)
    ensures IsMinimum(IntLess, e, 0, 4, 0) && IsMinimum(IntLess, e, 0, 5, 0) && IsMinimum(IntLess, e, 3, 5, 9)
  {
    assert e[0] == 6 && e[1] == 1 && e[2] == 0 && e[4] == 9;
  }
}
