/**
 * The heap set (heapset/heap_set.go): the same store as the priority map,
 * key-value pairs kept in a hash map `s` from key to element and in a heap
 * of the same elements ordered by value.
 */
module HeapSet {
  import opened Wrappers
  import opened Orders
  import opened Heap
  import opened KeyedHeap

  class HeapSet<K(==), V(!new)> {
    const h: HeapStruct<K, V>
    var s: map<K, Element<K, V>>
    /** The stored pairs. */
    ghost var contents: map<K, V>

    /** The heap is valid, holds exactly the map's elements, and their values are `contents`. */
    ghost predicate Valid()
      reads this, h, h.e
    {
      Keyed(h, s, contents)
    }

    /** The order on values. */
    function Less(): (V, V) -> bool
      reads this
    {
      h.less
    }

    /** `NewHeapSet`: no pairs, ordered by `less`. */
    constructor (less: (V, V) -> bool)
      requires StrictWeakOrder(less)
      ensures Valid() && contents == map[] && Less() == less && fresh(h) && h.e == []
    {
      h := new HeapStruct(less);
      s := map[];
      contents := map[];
    }

    /** `Set`: the key now maps to `v`, whether or not it was present. */
    method Set(k: K, v: V)
      requires Valid()
      modifies this, h, h.e`index, h.e`value
      ensures Valid() && contents == old(contents)[k := v]
      ensures forall i :: 0 <= i < |h.e| ==> h.e[i] in old(h.e) || fresh(h.e[i])
    {
      if k in s {
        Replace(k, v);
      } else {
        var x := new Element(k, v);
        Add(x);
      }
    }

    /** `Set` on a present key: the element's value changes in place. */
    method Replace(k: K, v: V)
      requires Valid() && k in contents
      modifies this, h, h.e`index, h.e`value
      ensures Valid() && contents == old(contents)[k := v]
      ensures forall i :: 0 <= i < |h.e| ==> h.e[i] in old(h.e)
    {
      ghost var c0 := contents;
      Update(h, s, k, v, c0);
      contents := c0[k := v];
    }

    /** `Set` on an absent key: the new element `x` joins the heap and the map. */
    method Add(x: Element<K, V>)
      requires Valid() && x.key !in contents && x !in h.e
      modifies this, h, h.e`index, x`index
      ensures Valid() && contents == old(contents)[x.key := x.value]
      ensures forall i :: 0 <= i < |h.e| ==> h.e[i] in old(h.e) || h.e[i] == x
    {
      var s0 := s;
      ghost var c0 := contents;
      s := s0[x.key := x];
      InsertNew(h, s0, x, c0);
      contents := c0[x.key := x.value];
    }

    /** `Get`: the key's value, or nothing when the key is absent. */
    function Get(k: K): (r: Option<V>)
      reads this, h, h.e
      requires Valid()
      ensures r.Some? <==> k in contents
      ensures r.Some? ==> r.value == contents[k]
    {
      if k in s then Some(s[k].value) else None
    }

    /** `Delete`: the key and its value are gone; other pairs stay. */
    method Delete(k: K)
      requires Valid()
      modifies this, h, h.e`index
      ensures Valid() && contents == old(contents) - {k}
      ensures forall i :: 0 <= i < |h.e| ==> h.e[i] in old(h.e)
    {
      var s0 := s;
      ghost var c0 := contents;
      s := s0 - {k};
      Remove(h, s0, k, c0);
      contents := c0 - {k};
    }

    /**
     * `Top`: a stored pair whose value no stored value is less than, or
     * nothing when the set is empty.
     */
    function Top(): (r: Option<(K, V)>)
      reads this, h, h.e
      requires Valid()
      ensures r.None? <==> contents == map[]
      ensures r.Some? ==> r.value.0 in contents && contents[r.value.0] == r.value.1
      ensures r.Some? ==> forall k :: k in contents ==> !Less()(contents[k], r.value.1)
    {
      EmptyPairs(h, s, contents);
      if h.Len() <= 0 then None
      else
        MinimalPair(h, s, contents);
        Some((h.e[0].key, h.e[0].value))
    }

    /** `Pop`: removes and returns the pair `Top` gives; nothing changes when empty. */
    method Pop() returns (r: Option<(K, V)>)
      requires Valid()
      modifies this, h, h.e`index
      ensures Valid() && r == old(Top())
      ensures r.None? ==> contents == old(contents)
      ensures r.Some? ==> contents == old(contents) - {r.value.0}
      ensures forall i :: 0 <= i < |h.e| ==> h.e[i] in old(h.e)
    {
      EmptyPairs(h, s, contents);
      if h.Len() == 0 {
        return None;
      }
      var s0, x := s, h.e[0];
      ghost var c0 := contents;
      s, contents := s0 - {x.key}, c0 - {x.key};
      x := RemoveRoot(h, s0, c0);
      r := Some((x.key, x.value));
    }

    /** `Size`: the number of stored pairs. */
    function Size(): (n: int)
      reads this, h, h.e
      requires Valid()
      ensures n == |contents|
    {
      h.Len()
    }
  }

  /**
   * `for hs.Size() > 0 { hs.Pop() }`: empties the set and returns the
   * popped pairs, a pop sequence of the old contents.
   */
  method Drain<K(==), V(!new)>(hs: HeapSet<K, V>) returns (ps: seq<(K, V)>)
    requires hs.Valid()
    modifies hs, hs.h, hs.h.e`index
    ensures hs.Valid() && hs.contents == map[]
    ensures PairPopSequence(old(hs.contents), ps, map[], hs.Less())
  {
    ps := [];
    while hs.Size() > 0
      invariant hs.Valid() && forall i :: 0 <= i < |hs.h.e| ==> hs.h.e[i] in old(hs.h.e)
      invariant PairPopSequence(old(hs.contents), ps, hs.contents, hs.Less())
      decreases hs.Size()
    {
      ghost var before := hs.contents;
      var r := hs.Pop();
      PairPopSequenceExtend(old(hs.contents), ps, before, hs.Less(), r.value);
      ps := ps + [r.value];
    }
  }

  /** A new set ordered by `<` holding ("a", 1): `Top` gives that pair and the size is 1. */
  method ExampleSingle() returns (hs: HeapSet<string, int>, t1: Option<(string, int)>, n1: int)
    ensures fresh(hs) && fresh(hs.h) && hs.Valid() && hs.contents == map["a" := 1] && hs.Less() == IntLess
    ensures forall i :: 0 <= i < |hs.h.e| ==> fresh(hs.h.e[i])
    ensures t1 == Some(("a", 1)) && n1 == 1
  {
    IntLessStrictTotal();
    hs := new HeapSet(IntLess);
    hs.Set("a", 1);
    t1 := hs.Top();
    n1 := hs.Size();
  }

  /**
   * Setting "a" again replaces its value; after deleting it the set is
   * empty, `Get` finds nothing and `Pop` and `Top` give nothing.
   */
  method ExampleReplaceDelete(hs: HeapSet<string, int>)
    returns (g1: Option<int>, n0: int, g0: Option<int>, p0: Option<(string, int)>, t0: Option<(string, int)>)
    requires hs.Valid() && hs.contents == map["a" := 1]
    modifies hs, hs.h, hs.h.e`index, hs.h.e`value
    ensures g1 == Some(10) && n0 == 0 && g0 == None && p0 == None && t0 == None
  {
    hs.Set("a", 10);
    g1 := hs.Get("a");
    hs.Delete("a");
    n0 := hs.Size();
    g0 := hs.Get("a");
    p0 := hs.Pop();
    t0 := hs.Top();
  }

  /** The source's test of a single pair, set, replaced and deleted. */
  method SinglePairExample()
    returns (t1: Option<(string, int)>, n1: int, g1: Option<int>, n0: int, g0: Option<int>,
             p0: Option<(string, int)>, t0: Option<(string, int)>)
    ensures t1 == Some(("a", 1)) && n1 == 1 && g1 == Some(10)
    ensures n0 == 0 && g0 == None && p0 == None && t0 == None
  {
    var hs;
    hs, t1, n1 := ExampleSingle();
    g1, n0, g0, p0, t0 := ExampleReplaceDelete(hs);
  }
}
