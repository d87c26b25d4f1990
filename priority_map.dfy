/**
 * The priority map (priority_map/priority_map.go): key-value pairs kept in
 * a hash map from key to element and in a heap of the same elements
 * ordered by value, so that a pair is found by its key and the pair with a
 * least value is found at the heap's root.
 */
module PriorityMap {
  import opened Wrappers
  import opened Orders
  import opened Heap
  import opened KeyedHeap

  class PriorityMap<K(==), V(!new)> {
    const h: HeapStruct<K, V>
    var m: map<K, Element<K, V>>
    /** The stored pairs. */
    ghost var contents: map<K, V>

    /** The heap is valid, holds exactly the map's elements, and their values are `contents`. */
    ghost predicate Valid()
      reads this, h, h.e
    {
      Keyed(h, m, contents)
    }

    /** The order on values. */
    function Less(): (V, V) -> bool
      reads this
    {
      h.less
    }

    /** `NewPriorityMap`: no pairs, ordered by `less`. */
    constructor (less: (V, V) -> bool)
      requires StrictWeakOrder(less)
      ensures Valid() && contents == map[] && Less() == less && fresh(h) && h.e == []
    {
      h := new HeapStruct(less);
      m := map[];
      contents := map[];
    }

    /** `Set`: the key now maps to `v`, whether or not it was present. */
    method Set(k: K, v: V)
      requires Valid()
      modifies this, h, h.e`index, h.e`value
      ensures Valid() && contents == old(contents)[k := v]
      ensures forall i :: 0 <= i < |h.e| ==> h.e[i] in old(h.e) || fresh(h.e[i])
    {
      if k in m {
        Replace(k, v);
      } else {
        var x := new Element(k, v);
        Add(x);
      }
    }

    /** `Set` on a present key: the element's value changes in place. */
    method Replace(k: K, v: V)
      requires Valid() && k in contents
      modifies this, h, h.e`index, h.e`value
      ensures Valid() && contents == old(contents)[k := v]
      ensures forall i :: 0 <= i < |h.e| ==> h.e[i] in old(h.e)
    {
      ghost var c0 := contents;
      Update(h, m, k, v, c0);
      contents := c0[k := v];
    }

    /** `Set` on an absent key: the new element `x` joins the heap and the map. */
    method Add(x: Element<K, V>)
      requires Valid() && x.key !in contents && x !in h.e
      modifies this, h, h.e`index, x`index
      ensures Valid() && contents == old(contents)[x.key := x.value]
      ensures forall i :: 0 <= i < |h.e| ==> h.e[i] in old(h.e) || h.e[i] == x
    {
      var m0 := m;
      ghost var c0 := contents;
      m := m0[x.key := x];
      InsertNew(h, m0, x, c0);
      contents := c0[x.key := x.value];
    }

    /** `Get`: the key's value, or nothing when the key is absent. */
    function Get(k: K): (r: Option<V>)
      reads this, h, h.e
      requires Valid()
      ensures r.Some? <==> k in contents
      ensures r.Some? ==> r.value == contents[k]
    {
      if k in m then Some(m[k].value) else None
    }

    /** `Delete`: the key and its value are gone; other pairs stay. */
    method Delete(k: K)
      requires Valid()
      modifies this, h, h.e`index
      ensures Valid() && contents == old(contents) - {k}
      ensures forall i :: 0 <= i < |h.e| ==> h.e[i] in old(h.e)
    {
      var m0 := m;
      ghost var c0 := contents;
      m := m0 - {k};
      Remove(h, m0, k, c0);
      contents := c0 - {k};
    }

    /**
     * `Top`: a stored pair whose value no stored value is less than, or
     * nothing when the map is empty.
     */
    function Top(): (r: Option<(K, V)>)
      reads this, h, h.e
      requires Valid()
      ensures r.None? <==> contents == map[]
      ensures r.Some? ==> r.value.0 in contents && contents[r.value.0] == r.value.1
      ensures r.Some? ==> forall k :: k in contents ==> !Less()(contents[k], r.value.1)
    {
      EmptyPairs(h, m, contents);
      if h.Len() <= 0 then None
      else
        MinimalPair(h, m, contents);
        Some((h.e[0].key, h.e[0].value))
    }

    /** `Pop`: removes and returns the pair `Top` gives; nothing changes when empty. */
    method Pop() returns (r: Option<(K, V)>)
      requires Valid()
      modifies this, h, h.e`index
      ensures Valid() && r == old(Top())
      ensures r.None? ==> contents == old(contents)
      ensures r.Some? ==> contents == old(contents) - {r.value.0}
      ensures forall i :: 0 <= i < |h.e| ==> h.e[i] in old(h.e)
    {
      EmptyPairs(h, m, contents);
      if h.Len() == 0 {
        return None;
      }
      var m0, x := m, h.e[0];
      ghost var c0 := contents;
      m, contents := m0 - {x.key}, c0 - {x.key};
      x := RemoveRoot(h, m0, c0);
      r := Some((x.key, x.value));
    }

    /** `Size`: the number of stored pairs. */
    function Size(): (n: int)
      reads this, h, h.e
      requires Valid()
      ensures n == |contents|
    {
      h.Len()
    }
  }

  /**
   * `for pm.Size() > 0 { pm.Pop() }`: empties the map and returns the
   * popped pairs, a pop sequence of the old contents.
   */
  method Drain<K(==), V(!new)>(pm: PriorityMap<K, V>) returns (ps: seq<(K, V)>)
    requires pm.Valid()
    modifies pm, pm.h, pm.h.e`index
    ensures pm.Valid() && pm.contents == map[]
    ensures PairPopSequence(old(pm.contents), ps, map[], pm.Less())
  {
    ps := [];
    while pm.Size() > 0
      invariant pm.Valid() && forall i :: 0 <= i < |pm.h.e| ==> pm.h.e[i] in old(pm.h.e)
      invariant PairPopSequence(old(pm.contents), ps, pm.contents, pm.Less())
      decreases pm.Size()
    {
      ghost var before := pm.contents;
      var r := pm.Pop();
      PairPopSequenceExtend(old(pm.contents), ps, before, pm.Less(), r.value);
      ps := ps + [r.value];
    }
  }

  /** A new map ordered by `<` holding ("a", 1): `Top` gives that pair and the size is 1. */
  method ExampleSingle() returns (pm: PriorityMap<string, int>, t1: Option<(string, int)>, n1: int)
    ensures fresh(pm) && fresh(pm.h) && pm.Valid() && pm.contents == map["a" := 1] && pm.Less() == IntLess
    ensures forall i :: 0 <= i < |pm.h.e| ==> fresh(pm.h.e[i])
    ensures t1 == Some(("a", 1)) && n1 == 1
  {
    IntLessStrictTotal();
    pm := new PriorityMap(IntLess);
    pm.Set("a", 1);
    t1 := pm.Top();
    n1 := pm.Size();
  }

  /**
   * Setting "a" again replaces its value; after deleting it the map is
   * empty, `Get` finds nothing and `Pop` and `Top` give nothing.
   */
  method ExampleReplaceDelete(pm: PriorityMap<string, int>)
    returns (g1: Option<int>, n0: int, g0: Option<int>, p0: Option<(string, int)>, t0: Option<(string, int)>)
    requires pm.Valid() && pm.contents == map["a" := 1]
    modifies pm, pm.h, pm.h.e`index, pm.h.e`value
    ensures g1 == Some(10) && n0 == 0 && g0 == None && p0 == None && t0 == None
  {
    pm.Set("a", 10);
    g1 := pm.Get("a");
    pm.Delete("a");
    n0 := pm.Size();
    g0 := pm.Get("a");
    p0 := pm.Pop();
    t0 := pm.Top();
  }

  /** The source's test of a single pair, set, replaced and deleted. */
  method SinglePairExample()
    returns (t1: Option<(string, int)>, n1: int, g1: Option<int>, n0: int, g0: Option<int>,
             p0: Option<(string, int)>, t0: Option<(string, int)>)
    ensures t1 == Some(("a", 1)) && n1 == 1 && g1 == Some(10)
    ensures n0 == 0 && g0 == None && p0 == None && t0 == None
  {
    var pm;
    pm, t1, n1 := ExampleSingle();
    g1, n0, g0, p0, t0 := ExampleReplaceDelete(pm);
  }

  /** `a` with 20 and `b` with 10, in a new map ordered by `<`. */
  method ExamplePair<K(==)>(a: K, b: K) returns (pm: PriorityMap<K, int>)
    requires a != b
    ensures fresh(pm) && fresh(pm.h) && pm.Valid() && pm.contents == map[a := 20, b := 10]
    ensures pm.Less() == IntLess && forall i :: 0 <= i < |pm.h.e| ==> fresh(pm.h.e[i])
  {
    IntLessStrictTotal();
    pm := new PriorityMap(IntLess);
    pm.Set(a, 20);
    pm.Set(b, 10);
  }

  /** `a` and `c` with 20 and `b` with 10, in a new map ordered by `<`. */
  method ExampleTriple<K(==)>(a: K, b: K, c: K) returns (pm: PriorityMap<K, int>)
    requires a != b && b != c && a != c
    ensures fresh(pm) && fresh(pm.h) && pm.Valid() && pm.contents == map[a := 20, b := 10, c := 20]
    ensures pm.Less() == IntLess && forall i :: 0 <= i < |pm.h.e| ==> fresh(pm.h.e[i])
  {
    pm := ExamplePair(a, b);
    pm.Set(c, 20);
  }

  /** Popping `a` and `c`, both with 20, gives them in either order. */
  lemma PopTies<K>(a: K, c: K, ps: seq<(K, int)>)
    requires a != c && PairPopSequence(map[a := 20, c := 20], ps, map[], IntLess)
    ensures |ps| == 2 && ps[0].1 == 20 && ps[1].1 == 20
    ensures multiset{ps[0].0, ps[1].0} == multiset{a, c}
  {
    var m := map[a := 20, c := 20];
    assert a in m;
    PairPopHead(m, ps, map[], IntLess);
    var other := if ps[0].0 == a then c else a;
    assert m - {ps[0].0} == map[other := 20];
    assert other in map[other := 20];
    PairPopHead(map[other := 20], ps[1..], map[], IntLess);
    assert map[other := 20] - {ps[1].0} == map[];
    assert ps[2..] == [];
  }

  /**
   * Popping everything from `ExampleTriple` gives (`b`, 10) first, then the
   * value 20 twice, once with key `a` and once with key `c`.
   */
  lemma PopTriple<K>(a: K, b: K, c: K, ps: seq<(K, int)>)
    requires a != b && b != c && a != c
    requires PairPopSequence(map[a := 20, b := 10, c := 20], ps, map[], IntLess)
    ensures |ps| == 3 && ps[0] == (b, 10) && ps[1].1 == 20 && ps[2].1 == 20
    ensures multiset{ps[1].0, ps[2].0} == multiset{a, c}
  {
    var m := map[a := 20, b := 10, c := 20];
    assert a in m;
    PairPopHead(m, ps, map[], IntLess);
    assert ps[0].0 == b by {
      assert !IntLess(m[b], ps[0].1);
    }
    assert m - {b} == map[a := 20, c := 20];
    PopTies(a, c, ps[1..]);
  }

  /**
   * The source's test of duplicate values: with "a" and "c" at 20 and "b"
   * at 10, the pops give ("b", 10), then 20 twice, with keys "a" and "c".
   */
  method DuplicateValuesExample() returns (ps: seq<(string, int)>)
    ensures |ps| == 3 && ps[0] == ("b", 10) && ps[1].1 == 20 && ps[2].1 == 20
    ensures multiset{ps[1].0, ps[2].0} == multiset{"a", "c"}
  {
    var pm := ExampleTriple("a", "b", "c");
    ps := Drain(pm);
    PopTriple("a", "b", "c", ps);
  }
}
