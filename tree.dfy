/**
 * A generator of full trees (generator/tree/tree.go): `NewFullTree` builds,
 * breadth first, the tree of a given height in which every vertex above the
 * last level has exactly `degree` children, numbering the vertices in BFS
 * order and linking each to the next one in that order.
 */
module FullTree {
  import opened Wrappers

  /** The error `NewFullTree` returns for a non-positive height or degree. */
  datatype TreeError = InvalidShape(height: int, degree: int)

  /** A vertex and its position in the tree. */
  class Vertex {
    /** BFS order, from 0 at the root. */
    var order: int
    /** Distance from the root. */
    var level: int
    /** Empty for a leaf; `nil` entries only while the children are created. */
    var children: seq<Vertex?>
    var parent: Vertex?
    /** The vertex that follows in BFS order. */
    var next: Vertex?

    /** A vertex without children and without successor. */
    constructor (order: int, level: int, parent: Vertex?)
      ensures this.order == order && this.level == level && this.parent == parent
      ensures children == [] && next == null
    {
      this.order := order;
      this.level := level;
      this.parent := parent;
      children := [];
      next := null;
    }

    predicate IsLeaf()
      reads this
    {
      |children| == 0
    }

    predicate IsRoot()
      reads this
    {
      parent == null
    }

    /** A vertex that is neither the root nor a leaf. */
    predicate IsInternal()
      reads this
    {
      !IsRoot() && !IsLeaf()
    }

    /**
     * `IsInternal` as written, unrolled `fuel` times: it negates a call of
     * itself where it meant `IsLeaf`. The conjunction stops at the root with
     * `false`; any other vertex calls itself again before answering.
     */
    function IsInternalAsWritten(fuel: nat): (r: Option<bool>)
      reads this
    {
      if IsRoot() then Some(false)
      else if fuel == 0 then None
      else match IsInternalAsWritten(fuel - 1)
        case Some(b) => Some(!b)
        case None => None
    }
  }

  /** No unrolling of `IsInternal` as written answers for a vertex other than the root. */
  lemma {:induction false} IsInternalAsWrittenNeverAnswers(v: Vertex, fuel: nat)
    requires !v.IsRoot()
    ensures v.IsInternalAsWritten(fuel) == None
  {
    if fuel > 0 {
      IsInternalAsWrittenNeverAnswers(v, fuel - 1);
    }
  }

  /** `D^e`. */
  function Power(b: nat, e: nat): (p: nat)
    ensures b >= 1 ==> p >= 1
  {
    if e == 0 then 1 else b * Power(b, e - 1)
  }

  /**
   * `d * m`, by repeated addition: the construction's proof then needs only
   * linear arithmetic (`TimesIsProduct` relates it to `*`).
   */
  function Times(d: nat, m: nat): nat {
    if m == 0 then 0 else Times(d, m - 1) + d
  }

  /** `x / d`, by repeated subtraction (`QuotIsDiv` relates it to `/`). */
  function Quot(x: nat, d: nat): (q: nat)
    requires d >= 1
    ensures q <= x
    decreases x
  {
    if x < d then 0 else Quot(x - d, d) + 1
  }

  /**
   * The number of vertices above level `height` of a full tree of degree `d`:
   * a root and `d` such subtrees one level lower.
   */
  function Count(height: nat, d: nat): (n: nat)
    ensures height >= 1 ==> n >= 1
  {
    if height == 0 then 0 else 1 + Times(d, Count(height - 1, d))
  }

  /** The order of the parent of the vertex of order `k > 0`: `(k - 1)/d`. */
  function ParentOrder(k: nat, d: nat): (p: nat)
    requires k >= 1 && d >= 1
    ensures p < k
  {
    Quot(k - 1, d)
  }

  /** The order of the first child of the vertex of order `k`: `k*d + 1`. */
  function FirstChild(k: nat, d: nat): nat {
    Times(d, k) + 1
  }

  /** The level of the vertex of order `k`: one more than its parent's. */
  function Level(k: nat, d: nat): nat
    requires d >= 1
    decreases k
  {
    if k == 0 then 0 else Level(ParentOrder(k, d), d) + 1
  }

  lemma {:induction false} TimesIsProduct(d: nat, m: nat)
    ensures Times(d, m) == d * m
  {
    if m > 0 {
      TimesIsProduct(d, m - 1);
      Distribute(d, m - 1, 1);
    }
  }

  lemma {:induction false} TimesMonotone(d: nat, a: nat, b: nat)
    requires a <= b
    ensures Times(d, a) <= Times(d, b)
  {
    if a < b {
      TimesMonotone(d, a, b - 1);
    }
  }

  lemma {:induction false} TimesAtLeast(d: nat, m: nat)
    requires d >= 1
    ensures Times(d, m) >= m
  {
    if m > 0 {
      TimesAtLeast(d, m - 1);
    }
  }

  /** `Quot(x, d) < c` exactly when `x < d * c`. */
  lemma {:induction false} QuotBelow(x: nat, d: nat, c: nat)
    requires d >= 1
    ensures Quot(x, d) < c <==> x < Times(d, c)
    decreases x
  {
    if c > 0 {
      TimesMonotone(d, 1, c);
      if x >= d {
        QuotBelow(x - d, d, c - 1);
      }
    }
  }

  /** The vertex after `j` others among the children of `k` has parent `k`. */
  lemma {:induction false} QuotOfChild(k: nat, j: nat, d: nat)
    requires j < d
    ensures Quot(Times(d, k) + j, d) == k
  {
    if k > 0 {
      QuotOfChild(k - 1, j, d);
    }
  }

  lemma QuotIsDiv(x: nat, d: nat)
    requires d >= 1
    ensures Quot(x, d) == x / d
  {
    var q := Quot(x, d);
    QuotBelow(x, d, q);
    QuotBelow(x, d, q + 1);
    TimesIsProduct(d, q);
    TimesIsProduct(d, q + 1);
    DivBelow(x, d, q);
    DivBelow(x, d, q + 1);
  }

  /** `x / d < c` exactly when `x < d * c`. */
  lemma DivBelow(x: nat, d: nat, c: nat)
    requires d >= 1
    ensures x / d < c <==> x < d * c
  {
    var q, r := x / d, x % d;
    assert x == d * q + r && 0 <= r < d;
    if q < c {
      assert d * q <= d * (c - 1) by { MulLeft(d, q, c - 1); }
      assert d * (c - 1) == d * c - d;
    } else {
      MulLeft(d, c, q);
    }
  }

  lemma MulDivCancel(a: nat, b: nat)
    requires b >= 1
    ensures (b * a) / b == a
  {
    DivBelow(b * a, b, a + 1);
    assert b * (a + 1) == b * a + b;
    DivBelow(b * a, b, a);
  }

  lemma Distribute(a: int, b: int, c: int)
    ensures a * (b + c) == a * b + a * c
  {
  }

  lemma MulLeft(d: nat, a: nat, b: nat)
    requires a <= b
    ensures d * a <= d * b
  {
  }

  /** The children of `k` all have `k` as parent and are one level lower. */
  lemma ChildParent(k: nat, j: nat, d: nat)
    requires d >= 1 && j < d
    ensures ParentOrder(FirstChild(k, d) + j, d) == k
    ensures Level(FirstChild(k, d) + j, d) == Level(k, d) + 1
  {
    QuotOfChild(k, j, d);
  }

  /**
   * The vertices above level `height` are exactly those whose order is below
   * `Count(height, d)`.
   */
  lemma {:induction false} LevelBelow(k: nat, height: nat, d: nat)
    requires d >= 1
    ensures Level(k, d) < height <==> k < Count(height, d)
  {
    if height > 0 && k > 0 {
      LevelBelow(ParentOrder(k, d), height - 1, d);
      QuotBelow(k - 1, d, Count(height - 1, d));
    }
  }

  /** From `(d - 1) * c == p - 1` follows `(d - 1) * (1 + d * c) == d * p - 1`. */
  lemma NextLevelAlgebra(d: int, c: int, p: int)
    requires (d - 1) * c == p - 1
    ensures (d - 1) * (1 + d * c) == d * p - 1
  {
    var e := d - 1;
    Distribute(e, 1, d * c);
    assert e * (d * c) == d * (e * c);
    Distribute(d, p, -1);
  }

  /** `(d - 1) * Count(height, d) == d^height - 1`. */
  lemma {:induction false} CountTimesDegree(height: nat, d: nat)
    requires d >= 1
    ensures (d - 1) * Count(height, d) == Power(d, height) - 1
  {
    if height > 0 {
      CountTimesDegree(height - 1, d);
      TimesIsProduct(d, Count(height - 1, d));
      NextLevelAlgebra(d, Count(height - 1, d), Power(d, height - 1));
    }
  }

  /**
   * The size of a full tree: `(D^H - 1)/(D - 1)` vertices for `D > 1`, and
   * the `H` vertices of a path for `D = 1`.
   */
  lemma SizeFormula(height: nat, d: nat)
    requires d >= 1
    ensures d == 1 ==> Count(height, d) == height
    ensures d > 1 ==> Count(height, d) == (Power(d, height) - 1) / (d - 1)
  {
    CountTimesDegree(height, d);
    if d == 1 {
      CountOfPath(height);
    } else {
      var c := Count(height, d);
      assert (Power(d, height) - 1) == (d - 1) * c;
      MulDivCancel(c, d - 1);
    }
  }

  lemma {:induction false} CountOfPath(height: nat)
    ensures Count(height, 1) == height
  {
    if height > 0 {
      CountOfPath(height - 1);
      TimesIsProduct(1, Count(height - 1, 1));
    }
  }

  /** The fields of one vertex, read at one moment. */
  datatype Fields = Fields(order: int, level: int, children: seq<Vertex?>, parent: Vertex?, next: Vertex?)

  /** The fields of each of `vs`, in the current heap. */
  ghost function View(vs: seq<Vertex>): (v: seq<Fields>)
    reads vs
    ensures |v| == |vs|
    ensures forall k {:trigger v[k]} :: 0 <= k < |vs| ==> v[k] == Fields(vs[k].order, vs[k].level, vs[k].children, vs[k].parent, vs[k].next)
  {
    seq(|vs|, k reads vs requires 0 <= k < |vs| => Fields(vs[k].order, vs[k].level, vs[k].children, vs[k].parent, vs[k].next))
  }

  /** `v[k]` lists the `d` vertices of `vs` from `FirstChild(k, d)` on as its children. */
  ghost predicate ChildrenAt(v: seq<Fields>, vs: seq<Vertex>, k: nat, d: nat)
    requires k < |v|
  {
    && FirstChild(k, d) + d <= |vs|
    && |v[k].children| == d
    && forall j :: 0 <= j < d ==> v[k].children[j] == vs[FirstChild(k, d) + j]
  }

  /** Each vertex knows its BFS order and its level. */
  ghost predicate Numbered(v: seq<Fields>, d: int)
    requires d >= 1
  {
    forall k :: 0 <= k < |v| ==> v[k].order == k && v[k].level == Level(k, d)
  }

  /** The root has no parent; every other vertex has the parent of order `(order - 1)/d`. */
  ghost predicate Parented(v: seq<Fields>, vs: seq<Vertex>, d: int)
    requires d >= 1
  {
    && |v| == |vs|
    && forall k :: 0 <= k < |v| ==> v[k].parent == if k == 0 then null else vs[ParentOrder(k, d)]
  }

  /** Each of the first `upto` vertices but the last is linked to its successor; none other is linked. */
  ghost predicate Chained(v: seq<Fields>, vs: seq<Vertex>, upto: int) {
    && |v| == |vs| && upto <= |vs|
    && forall k :: 0 <= k < |v| ==> v[k].next == if k + 1 < upto then vs[k + 1] else null
  }

  /** The vertices above the last level have their `d` children; the others have none. */
  ghost predicate Leveled(v: seq<Fields>, vs: seq<Vertex>, height: int, d: int)
    requires d >= 1
  {
    forall k :: 0 <= k < |v| ==>
      if Level(k, d) < height - 1 then ChildrenAt(v, vs, k, d) else v[k].children == []
  }

  /**
   * The shape `NewFullTree` promises, on the vertices `vs` listed by BFS
   * order with fields `v`: each knows its order and level, the root has no
   * parent and every other vertex has the parent of order `(order - 1)/D`,
   * each is linked to the next one, and the vertices above the last level
   * have the `D` children of orders `order*D + 1 .. order*D + D` while the
   * others have none.
   */
  ghost predicate Shape(v: seq<Fields>, vs: seq<Vertex>, height: int, d: int)
    requires height >= 1 && d >= 1
  {
    && |v| == |vs| == Count(height, d)
    && Numbered(v, d) && Parented(v, vs, d) && Chained(v, vs, |vs|) && Leveled(v, vs, height, d)
  }

  /** `Shape` of the vertices' current fields. */
  ghost predicate FullShape(vs: seq<Vertex>, height: int, d: int)
    reads vs
    requires height >= 1 && d >= 1
  {
    Shape(View(vs), vs, height, d)
  }

  /** The tree's root and shape parameters; the vertices are reached from the root. */
  class FullTree {
    const root: Vertex
    const height: int
    const degree: int
    const size: int
    /** The vertices in BFS order. */
    ghost const vertices: seq<Vertex>

    ghost predicate Valid()
      reads vertices
    {
      && height >= 1 && degree >= 1
      && |vertices| >= 1 && root == vertices[0] && size == |vertices|
      && FullShape(vertices, height, degree)
    }

    constructor (root: Vertex, height: int, degree: int, size: int, ghost vertices: seq<Vertex>)
      ensures this.root == root && this.height == height && this.degree == degree
      ensures this.size == size && this.vertices == vertices
    {
      this.root := root;
      this.height := height;
      this.degree := degree;
      this.size := size;
      this.vertices := vertices;
    }

    /** The root: order 0, level 0, no parent, and first in BFS order. */
    function Root(): (r: Vertex)
      reads vertices
      requires Valid()
      ensures r == vertices[0] && r.order == 0 && r.level == 0 && r.IsRoot()
    {
      assert View(vertices)[0] == Fields(root.order, root.level, root.children, root.parent, root.next);
      root
    }

    /** `(D^H - 1)/(D - 1)`, or `H` when `D = 1`: the number of vertices. */
    function Size(): (n: int)
      reads vertices
      requires Valid()
      ensures n == |vertices|
      ensures degree == 1 ==> n == height
      ensures degree > 1 ==> n == (Power(degree, height) - 1) / (degree - 1)
    {
      SizeFormula(height, degree);
      size
    }

    function Height(): int {
      height
    }

    function Degree(): int {
      degree
    }

    /** Only the first vertex is a root; every other one's parent has order `(order - 1)/D` and lists it as a child. */
    lemma ParentOf(k: int)
      requires Valid() && 0 <= k < |vertices|
      ensures vertices[k].IsRoot() <==> k == 0
      ensures k > 0 ==> vertices[k].parent != null && vertices[k].parent.order == (k - 1) / degree
      ensures k > 0 ==> vertices[k] in vertices[k].parent.children
    {
      var v := View(vertices);
      assert Shape(v, vertices, height, degree);
      assert vertices[k].parent == v[k].parent;
      if k > 0 {
        var p := ParentOrder(k, degree);
        assert vertices[k].parent == vertices[p];
        assert vertices[p].order == v[p].order == p;
        QuotIsDiv(k - 1, degree);
        QuotBelow(k - 1, degree, p);
        QuotBelow(k - 1, degree, p + 1);
        var j := k - FirstChild(p, degree);
        assert 0 <= j < degree;
        LevelBelow(k, height, degree);
        assert Level(p, degree) < height - 1;
        assert ChildrenAt(v, vertices, p, degree);
        assert v[p].children[j] == vertices[k];
        assert vertices[p].children == v[p].children;
      }
    }

    /** A vertex is a leaf exactly when it is on the last level, `height - 1`; no vertex is lower. */
    lemma LeafAtBottom(k: int)
      requires Valid() && 0 <= k < |vertices|
      ensures vertices[k].level < height
      ensures vertices[k].IsLeaf() <==> vertices[k].level == height - 1
    {
      var v := View(vertices);
      assert Shape(v, vertices, height, degree);
      assert vertices[k].level == v[k].level == Level(k, degree);
      assert vertices[k].children == v[k].children;
      LevelBelow(k, height, degree);
    }

    /**
     * A vertex above the last level has `degree` children, child `j` having
     * order `order*degree + j + 1`, one more level, and the vertex as parent.
     */
    lemma ChildOf(k: int, j: int)
      requires Valid() && 0 <= k < |vertices| && !vertices[k].IsLeaf() && 0 <= j < degree
      ensures |vertices[k].children| == degree
      ensures var c := vertices[k].children[j];
        c != null && c.order == k * degree + j + 1 && c.level == vertices[k].level + 1 && c.parent == vertices[k]
    {
      var v := View(vertices);
      assert Shape(v, vertices, height, degree);
      assert vertices[k].children == v[k].children;
      assert v[k].level == Level(k, degree) && v[k].order == k;
      assert Level(k, degree) < height - 1;
      assert ChildrenAt(v, vertices, k, degree);
      var i := FirstChild(k, degree) + j;
      assert vertices[k].children[j] == vertices[i];
      assert vertices[i].order == v[i].order == i && vertices[i].level == v[i].level == Level(i, degree);
      assert vertices[i].parent == v[i].parent == vertices[ParentOrder(i, degree)];
      ChildParent(k, j, degree);
      TimesIsProduct(degree, k);
    }

    /** The internal vertices are those other than the root above the last level. */
    lemma InternalAt(k: int)
      requires Valid() && 0 <= k < |vertices|
      ensures vertices[k].IsInternal() <==> 0 < k && vertices[k].level < height - 1
    {
      ParentOf(k);
      LeafAtBottom(k);
    }

    /** `next` follows BFS order; the last vertex has no successor. */
    lemma NextInOrder(k: int)
      requires Valid() && 0 <= k < |vertices|
      ensures k + 1 < size ==> vertices[k].next != null && vertices[k].next.order == k + 1
      ensures k + 1 == size ==> vertices[k].next == null
    {
      var v := View(vertices);
      assert vertices[k].next == v[k].next == if k + 1 < |vertices| then vertices[k + 1] else null;
      if k + 1 < size {
        assert vertices[k + 1].order == v[k + 1].order == k + 1;
      }
    }
  }

  /**
   * The counts of the construction after `head` vertices were dequeued:
   * `m` of them, those above the last level, received `d` children each.
   */
  ghost predicate Counted(vs: seq<Vertex>, head: int, m: int, height: int, d: int)
    requires height >= 1 && d >= 1
  {
    && 0 <= head <= |vs| <= Count(height, d)
    && m == (if head < Count(height - 1, d) then head else Count(height - 1, d))
    && |vs| == 1 + Times(d, m)
  }

  /** The first `m` vertices have their children; the others have none yet. */
  ghost predicate Raised(v: seq<Fields>, vs: seq<Vertex>, m: int, d: int)
    requires d >= 1
  {
    forall k :: 0 <= k < |v| ==> if k < m then ChildrenAt(v, vs, k, d) else v[k].children == []
  }

  /**
   * The state of the construction after `head` vertices were dequeued:
   * `vs` holds the vertices created so far in BFS order, with fields `v`;
   * the `m` vertices dequeued above the last level have their children,
   * and each dequeued vertex but the last is linked to its successor.
   */
  ghost predicate BfsState(v: seq<Fields>, vs: seq<Vertex>, head: int, m: int, height: int, d: int)
    requires height >= 1 && d >= 1
  {
    && |v| == |vs| && Counted(vs, head, m, height, d)
    && Numbered(v, d) && Parented(v, vs, d) && Chained(v, vs, head) && Raised(v, vs, m, d)
  }

  /** The fields once the vertex of order `head` is dequeued: it becomes its predecessor's successor. */
  ghost function Dequeued(v: seq<Fields>, vs: seq<Vertex>, head: nat): (v': seq<Fields>)
    requires head < |v| == |vs|
  {
    if head == 0 then v else v[head - 1 := v[head - 1].(next := vs[head])]
  }

  /** The fields once the vertex of order `head` has received the new vertices `kids` as children. */
  ghost function Grown(v: seq<Fields>, vs: seq<Vertex>, head: nat, kids: seq<Vertex>): seq<Fields>
    requires head < |v| == |vs|
  {
    v[head := v[head].(children := kids)]
      + seq(|kids|, j => Fields(|v| + j, v[head].level + 1, [], vs[head], null))
  }

  lemma BfsStart(root: Vertex, height: int, d: int)
    requires height >= 1 && d >= 1
    ensures BfsState([Fields(0, 0, [], null, null)], [root], 0, 0, height, d)
  {
  }

  /** The dequeued vertex is on the last level exactly when all vertices above it have been dequeued. */
  lemma LastLevel(v: seq<Fields>, vs: seq<Vertex>, head: int, m: int, height: int, d: int)
    requires height >= 1 && d >= 1 && BfsState(v, vs, head, m, height, d) && head < |vs|
    ensures v[head].level < height
    ensures v[head].level == height - 1 <==> head >= Count(height - 1, d)
  {
    LevelBelow(head, height - 1, d);
    LevelBelow(head, height, d);
  }

  /** Dequeuing changes no order, level, parent or children. */
  lemma DequeuedKeeps(v: seq<Fields>, vs: seq<Vertex>, head: nat, m: int, d: int)
    requires d >= 1 && head < |v| == |vs|
    requires Numbered(v, d) && Parented(v, vs, d) && Raised(v, vs, m, d)
    ensures var v' := Dequeued(v, vs, head);
      Numbered(v', d) && Parented(v', vs, d) && Raised(v', vs, m, d)
  {
    var v' := Dequeued(v, vs, head);
    forall k | 0 <= k < |v'| && k < m
      ensures ChildrenAt(v', vs, k, d)
    {
      assert ChildrenAt(v, vs, k, d);
    }
  }

  /** Dequeuing the vertex of order `head` links its predecessor to it. */
  lemma DequeuedChains(v: seq<Fields>, vs: seq<Vertex>, head: nat)
    requires head < |v| == |vs| && Chained(v, vs, head)
    ensures Chained(Dequeued(v, vs, head), vs, head + 1)
  {
  }

  /** Dequeuing a vertex of the last level only links it to its predecessor. */
  lemma LeafStep(v: seq<Fields>, vs: seq<Vertex>, head: int, m: int, height: int, d: int)
    requires height >= 1 && d >= 1 && BfsState(v, vs, head, m, height, d) && head < |vs|
    requires head >= Count(height - 1, d)
    ensures BfsState(Dequeued(v, vs, head), vs, head + 1, m, height, d)
  {
    DequeuedKeeps(v, vs, head, m, d);
    DequeuedChains(v, vs, head);
  }

  /** The new children know their orders, levels and parent. */
  lemma GrownNumbered(v: seq<Fields>, vs: seq<Vertex>, head: nat, d: int, kids: seq<Vertex>)
    requires d >= 1 && head < |v| == |vs| == FirstChild(head, d) && |kids| == d
    requires Numbered(v, d) && Parented(v, vs, d)
    ensures Numbered(Grown(v, vs, head, kids), d)
    ensures Parented(Grown(v, vs, head, kids), vs + kids, d)
  {
    var v' := Grown(v, vs, head, kids);
    var vs' := vs + kids;
    forall k | |vs| <= k < |vs'|
      ensures v'[k].order == k && v'[k].level == Level(k, d)
      ensures v'[k].parent == vs'[ParentOrder(k, d)]
    {
      ChildParent(head, k - |vs|, d);
    }
  }

  /** The new children are not linked yet, and `head` now has them as children. */
  lemma GrownChildren(v: seq<Fields>, vs: seq<Vertex>, head: nat, m: int, d: int, kids: seq<Vertex>)
    requires d >= 1 && head < |v| == |vs| == FirstChild(head, d) && |kids| == d && m == head
    requires Chained(v, vs, head + 1) && Raised(v, vs, m, d)
    ensures Chained(Grown(v, vs, head, kids), vs + kids, head + 1)
    ensures Raised(Grown(v, vs, head, kids), vs + kids, m + 1, d)
  {
    var v' := Grown(v, vs, head, kids);
    var vs' := vs + kids;
    assert ChildrenAt(v', vs', head, d);
    forall k | 0 <= k < |v'| && k < head
      ensures ChildrenAt(v', vs', k, d)
    {
      assert ChildrenAt(v, vs, k, d);
    }
  }

  /** Dequeuing a vertex above the last level links it and gives it `d` new children. */
  lemma InternalStep(v: seq<Fields>, vs: seq<Vertex>, head: int, m: int, height: int, d: int, kids: seq<Vertex>)
    requires height >= 1 && d >= 1 && BfsState(v, vs, head, m, height, d) && head < |vs|
    requires head < Count(height - 1, d) && |kids| == d
    ensures BfsState(Grown(Dequeued(v, vs, head), vs, head, kids), vs + kids, head + 1, m + 1, height, d)
  {
    var v1 := Dequeued(v, vs, head);
    TimesMonotone(d, m + 1, Count(height - 1, d));
    DequeuedKeeps(v, vs, head, m, d);
    DequeuedChains(v, vs, head);
    GrownNumbered(v1, vs, head, d, kids);
    GrownChildren(v1, vs, head, m, d, kids);
  }

  /** Once the queue is empty the vertices have the full tree's shape. */
  lemma BfsDone(v: seq<Fields>, vs: seq<Vertex>, head: int, m: int, height: int, d: int)
    requires height >= 1 && d >= 1 && BfsState(v, vs, head, m, height, d) && head == |vs|
    ensures Shape(v, vs, height, d)
  {
    if head < Count(height - 1, d) {
      TimesAtLeast(d, head);
      assert false;
    }
    forall k | 0 <= k < |vs|
      ensures Level(k, d) < height - 1 <==> k < m
    {
      LevelBelow(k, height - 1, d);
    }
  }

  /**
   * Creates the `degree` children of `cur`, the vertex of order `c`,
   * numbering them on from `order`, and appends them to the queue.
   */
  method AddChildren(cur: Vertex, ghost c: int, degree: int, order: int, q: seq<Vertex>, ghost vs: seq<Vertex>)
    returns (order': int, q': seq<Vertex>, ghost vs': seq<Vertex>)
    requires degree >= 1 && order + 1 == |vs| && 0 <= c < |vs| && vs[c] == cur
    requires forall k :: 0 <= k < |vs| ==> vs[k].order == k
    modifies cur
    ensures order' == order + degree && |vs'| == |vs| + degree
    ensures vs' == vs + vs'[|vs|..] && q' == q + vs'[|vs|..]
    ensures View(vs') == Grown(old(View(vs)), vs, c, vs'[|vs|..])
    ensures forall k :: |vs| <= k < |vs'| ==> fresh(vs'[k])
  {
    ghost var v0 := View(vs);
    cur.children := seq(degree, _ => null);
    order', q', vs' := order, q, vs;
    for i := 0 to degree
      invariant order' == order + i && |vs'| == |vs| + i
      invariant vs' == vs + vs'[|vs|..] && q' == q + vs'[|vs|..]
      invariant forall k :: |vs| <= k < |vs'| ==> fresh(vs'[k])
      invariant |cur.children| == degree
      invariant forall j :: 0 <= j < i ==> cur.children[j] == vs'[|vs| + j]
      invariant View(vs') == v0[c := v0[c].(children := cur.children)]
        + seq(i, j => Fields(|vs| + j, v0[c].level + 1, [], cur, null))
    {
      ghost var w := View(vs');
      order' := order' + 1;
      var child := new Vertex(order', cur.level + 1, cur);
      cur.children := cur.children[i := child];
      q' := q' + [child];
      vs' := vs' + [child];
      ghost var target := v0[c := v0[c].(children := cur.children)]
        + seq(i + 1, j => Fields(|vs| + j, v0[c].level + 1, [], cur, null));
      assert w[c].order == c;
      forall k | 0 <= k < |vs'|
        ensures View(vs')[k] == target[k]
      {
        if k < |vs'| - 1 {
          assert w[k].order == (if k < |vs| then k else k);
        }
      }
    }
    assert cur.children == vs'[|vs|..];
  }

  /** The vertex `cur` of order `head` becomes the successor of `previous`, when there is one. */
  method Succeed(previous: Vertex?, cur: Vertex, ghost vs: seq<Vertex>, ghost head: int)
    requires 0 <= head < |vs| && cur == vs[head] && previous == if head == 0 then null else vs[head - 1]
    requires forall k :: 0 <= k < |vs| ==> vs[k].order == k
    modifies vs
    ensures View(vs) == Dequeued(old(View(vs)), vs, head)
    ensures forall k :: 0 <= k < |vs| ==> vs[k].order == k
  {
    ghost var v0 := View(vs);
    if previous != null {
      previous.next := cur;
    }
    assert View(vs) == Dequeued(v0, vs, head);
  }

  /**
   * One turn of the construction's loop, after `cur`, the vertex of order
   * `head`, was taken off the queue: it becomes the successor of
   * `previous`, and unless it is on the last level it receives its
   * children, which join the queue.
   */
  method Visit(cur: Vertex, previous: Vertex?, height: int, degree: int, order: int, q: seq<Vertex>,
               ghost vs: seq<Vertex>, ghost head: int, ghost m: int)
    returns (order': int, q': seq<Vertex>, ghost vs': seq<Vertex>, ghost m': int)
    requires height >= 1 && degree >= 1
    requires BfsState(View(vs), vs, head, m, height, degree) && |vs| == order + 1
    requires head < |vs| && cur == vs[head] && q == vs[head + 1..]
    requires previous == if head == 0 then null else vs[head - 1]
    modifies vs
    ensures BfsState(View(vs'), vs', head + 1, m', height, degree) && |vs'| == order' + 1
    ensures |vs| <= |vs'| && vs'[..|vs|] == vs && q' == vs'[head + 1..]
    ensures forall k :: |vs| <= k < |vs'| ==> fresh(vs'[k])
  {
    ghost var v0 := View(vs);
    forall k | 0 <= k < |vs|
      ensures vs[k].order == k
    {
      assert v0[k].order == k;
    }
    Succeed(previous, cur, vs, head);
    assert cur.level == View(vs)[head].level == v0[head].level;
    LastLevel(v0, vs, head, m, height, degree);
    if cur.level == height - 1 {
      LeafStep(v0, vs, head, m, height, degree);
      return order, q, vs, m;
    }
    order', q', vs' := AddChildren(cur, head, degree, order, q, vs);
    assert vs'[head + 1..] == vs[head + 1..] + vs'[|vs|..];
    InternalStep(v0, vs, head, m, height, degree, vs'[|vs|..]);
    m' := m + 1;
  }

  /**
   * Builds the full tree of `height` levels in which every vertex above the
   * last level has `degree` children; fails when either is not positive.
   * The vertices are created breadth first from a queue, each dequeued
   * vertex becoming the successor of the one dequeued before it.
   */
  method NewFullTree(height: int, degree: int) returns (r: Result<FullTree, TreeError>)
    ensures r.Failure? <==> height <= 0 || degree <= 0
    ensures r.Failure? ==> r.error == InvalidShape(height, degree)
    ensures r.Success? ==> var t := r.value;
      && fresh(t) && t.Valid() && t.height == height && t.degree == degree
  {
    if height <= 0 || degree <= 0 {
      return Failure(InvalidShape(height, degree));
    }
    var order := 0;
    var level := 0;
    var root := new Vertex(order, level, null);
    var previous: Vertex? := null;
    var q := [root];
    ghost var vs := [root];
    ghost var head := 0;
    // the number of dequeued vertices that received children
    ghost var m := 0;
    BfsStart(root, height, degree);
    assert View(vs) == [Fields(0, 0, [], null, null)];
    while |q| > 0
      invariant BfsState(View(vs), vs, head, m, height, degree) && |vs| == order + 1
      invariant q == vs[head..]
      invariant previous == if head == 0 then null else vs[head - 1]
      invariant vs[0] == root
      invariant forall k :: 0 <= k < |vs| ==> fresh(vs[k])
      decreases Count(height, degree) - head
    {
      var cur := q[0];
      q := q[1..];
      ghost var before := vs;
      order, q, vs, m := Visit(cur, previous, height, degree, order, q, vs, head, m);
      previous := cur;
      assert previous == before[head] == vs[head];
      head := head + 1;
    }
    BfsDone(View(vs), vs, head, m, height, degree);
    var t := new FullTree(root, height, degree, order + 1, vs);
    return Success(t);
  }

  /**
   * The source's cases: heights and degrees (1, 1), (1, 2), (2, 3) and (10, 2) give 1, 1, 4 and 1023 vertices.
   * The height 10 is a parameter pinned by `requires`, which keeps the unfolding of `Count` cheap.
   */
  lemma SizeExamples(h: nat)
    requires h == 10
    ensures Count(1, 1) == 1 && Count(1, 2) == 1 && Count(2, 3) == 4 && Count(h, 2) == 1023
  {
    SizeFormula(h, 2);
    assert Power(2, 10) == 1024;
  }
}
