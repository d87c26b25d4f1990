/**
 * The design the priority map (priority_map/priority_map.go) and the heap
 * set (heapset/heap_set.go) share: a hash map from each key to its element
 * and a heap of the same elements ordered by value. The two packages are
 * the same code under different names; their mutating operations are
 * written here once, over the heap and the map, and each package's class
 * calls them on its own fields. A ghost map `c` names the pairs stored.
 */
module KeyedHeap {
  import opened Wrappers
  import opened Orders
  import opened HeapOrder
  import opened Heap

  /**
   * The map and the heap's slice hold the same elements: every key maps to
   * an element of the slice that carries that key, every element of the
   * slice is the one its key maps to, and so there are as many keys as
   * elements. (Keys never change, so this reads no mutable state.)
   */
  ghost predicate Matches<K, V>(e: seq<Element<K, V>>, m: map<K, Element<K, V>>)
  {
    && |m| == |e|
    && (forall k :: k in m ==> m[k].key == k && m[k] in e)
    && (forall i :: 0 <= i < |e| ==> e[i].key in m && m[e[i].key] == e[i])
  }

  /**
   * The invariant of both packages: a valid heap whose slice matches the
   * map, and `c` is what the map stores, each key with its element's value.
   */
  ghost predicate Keyed<K, V(!new)>(h: HeapStruct<K, V>, m: map<K, Element<K, V>>, c: map<K, V>)
    reads h, h.e
  {
    && h.Valid()
    && Matches(h.e, m)
    && c.Keys == m.Keys
    && forall k :: k in m ==> c[k] == m[k].value
  }

  /** Reordering the slice keeps it matching the map. */
  lemma MatchesPerm<K, V>(e: seq<Element<K, V>>, m: map<K, Element<K, V>>, e2: seq<Element<K, V>>)
    requires Matches(e, m) && multiset(e2) == multiset(e)
    ensures Matches(e2, m)
  {
    forall k | k in m ensures m[k] in e2 {
      assert m[k] in multiset(e);
    }
    forall i | 0 <= i < |e2| ensures e2[i] in e {
      assert e2[i] in multiset(e2);
    }
    assert |e2| == |multiset(e2)|;
  }

  /** Adding an element with a new key to the slice and the map keeps them matching. */
  lemma MatchesPush<K, V>(e: seq<Element<K, V>>, m: map<K, Element<K, V>>, x: Element<K, V>, e2: seq<Element<K, V>>)
    requires Matches(e, m) && x.key !in m && multiset(e2) == multiset(e) + multiset{x}
    ensures Matches(e2, m[x.key := x])
  {
    var m2 := m[x.key := x];
    forall k | k in m2 ensures m2[k] in e2 {
      if k != x.key {
        assert m[k] in multiset(e);
      }
      assert m2[k] in multiset(e2);
    }
    forall i | 0 <= i < |e2| ensures e2[i] in e || e2[i] == x {
      assert e2[i] in multiset(e2);
    }
    assert |e2| == |multiset(e2)|;
  }

  /** Removing an element from the slice and its key from the map keeps them matching. */
  lemma MatchesRemove<K, V>(e: seq<Element<K, V>>, m: map<K, Element<K, V>>, x: Element<K, V>, e2: seq<Element<K, V>>)
    requires Matches(e, m) && x in e
    requires multiset(e2) + multiset{x} == multiset(e) && forall i :: 0 <= i < |e2| ==> e2[i] != x
    ensures Matches(e2, m - {x.key})
  {
    var m2 := m - {x.key};
    forall k | k in m2 ensures m2[k] in e2 {
      assert m[k] in multiset(e);
      assert m[k] != x;
    }
    forall i | 0 <= i < |e2| ensures e2[i] in e {
      assert e2[i] in multiset(e);
    }
    assert x.key in m;
    assert |m2| == |m| - 1;
    assert |e2| == |multiset(e2)|;
  }

  /** The element at the heap's root carries a value no stored value is less than. */
  lemma MinimalPair<K, V(!new)>(h: HeapStruct<K, V>, m: map<K, Element<K, V>>, c: map<K, V>)
    requires Keyed(h, m, c) && |h.e| > 0
    ensures h.e[0].key in c && c[h.e[0].key] == h.e[0].value
    ensures forall k :: k in c ==> !h.less(c[k], h.e[0].value)
  {
    RootIsMinimum(h.Values(), h.less);
    forall k | k in c ensures !h.less(c[k], h.e[0].value) {
      h.SlotOf(m[k]);
      assert h.Values()[m[k].index] == m[k].value;
    }
  }

  /** The map stores nothing exactly when the heap is empty. */
  lemma EmptyPairs<K, V(!new)>(h: HeapStruct<K, V>, m: map<K, Element<K, V>>, c: map<K, V>)
    requires Keyed(h, m, c)
    ensures c == map[] <==> |h.e| == 0
  {
    if |h.e| == 0 {
      assert c.Keys == {};
    } else {
      assert h.e[0].key in c;
    }
  }

  /** `Set` on an absent key: the new element `x` is pushed on the heap and entered in the map. */
  method InsertNew<K, V(!new)>(h: HeapStruct<K, V>, m: map<K, Element<K, V>>, x: Element<K, V>, ghost c: map<K, V>)
    requires Keyed(h, m, c) && x.key !in m && x !in h.e
    modifies h, h.e`index, x`index
    ensures Keyed(h, m[x.key := x], c[x.key := x.value])
    ensures forall i :: 0 <= i < |h.e| ==> h.e[i] in old(h.e) || h.e[i] == x
  {
    HeapPush(h, x);
    MatchesPush(old(h.e), m, x, h.e);
  }

  /** `Set` on a present key: the element's value changes and `heap.Fix` restores the order. */
  method Update<K, V(!new)>(h: HeapStruct<K, V>, m: map<K, Element<K, V>>, k: K, v: V, ghost c: map<K, V>)
    requires Keyed(h, m, c) && k in m
    modifies h, h.e`index, h.e`value
    ensures Keyed(h, m, c[k := v])
    ensures forall i :: 0 <= i < |h.e| ==> h.e[i] in old(h.e)
  {
    var x := m[k];
    h.SlotOf(x);
    h.Distinct();
    assert forall k' :: k' in m && k' != k ==> m[k'] != x;
    SetValue(h, x, x.index, v);
    HeapFix(h, x.index);
    MatchesPerm(old(h.e), m, h.e);
  }

  /** The value change of `Update`: only the value in slot `i` differs, and the order may break only there. */
  method SetValue<K, V(!new)>(h: HeapStruct<K, V>, x: Element<K, V>, i: int, v: V)
    requires h.Valid() && 0 <= i < |h.e| && h.e[i] == x
    modifies x`value
    ensures h.e == old(h.e) && h.Indexed() && StrictWeakOrder(h.less)
    ensures x.value == v && DownInv(h.Values(), h.less, |h.e|, i, i)
  {
    h.Distinct();
    ghost var v0 := h.Values();
    x.value := v;
    assert forall j :: 0 <= j < |h.e| && j != i ==> h.Values()[j] == v0[j];
    FixStart(v0, h.Values(), h.less, i);
  }

  /**
   * What `Delete` does to the heap: the element in slot `i` is swapped with
   * the last (unless it is the last), popped off, and `heap.Fix` restores the
   * order at slot `i`.
   */
  method RemoveAt<K, V(!new)>(h: HeapStruct<K, V>, i: int) returns (x: Element<K, V>)
    requires h.Valid() && 0 <= i < |h.e|
    modifies h, h.e`index
    ensures h.Valid() && x == old(h.e[i])
    ensures forall k :: 0 <= k < |h.e| ==> h.e[k] in old(h.e) && h.e[k] != x
    ensures multiset(h.e) + multiset{x} == multiset(old(h.e))
  {
    if i == h.Len() - 1 {
      ghost var e0, v0 := h.e, h.Values();
      OrderedPrefix(v0, h.less, i);
      DropLast(e0);
      x := h.Pop();
    } else {
      x := RemoveInner(h, i);
    }
  }

  /** `RemoveAt` for a slot before the last. */
  method RemoveInner<K, V(!new)>(h: HeapStruct<K, V>, i: int) returns (x: Element<K, V>)
    requires h.Valid() && 0 <= i < |h.e| - 1
    modifies h, h.e`index
    ensures h.Valid() && x == old(h.e[i])
    ensures forall k :: 0 <= k < |h.e| ==> h.e[k] in old(h.e) && h.e[k] != x
    ensures multiset(h.e) + multiset{x} == multiset(old(h.e))
  {
    ghost var v0 := h.Values();
    x := SwapOut(h, i);
    FixStart(v0, h.Values(), h.less, i);
    HeapFix(h, i);
  }

  /** The swap and the pop of `RemoveInner`: the last element moves into slot `i`. */
  method SwapOut<K, V(!new)>(h: HeapStruct<K, V>, i: int) returns (x: Element<K, V>)
    requires h.Indexed() && 0 <= i < |h.e| - 1
    modifies h, h.e`index
    ensures h.Indexed() && x == old(h.e[i]) && x !in h.e
    ensures h.e == SwapSeq(old(h.e), i, |old(h.e)| - 1)[..|old(h.e)| - 1]
    ensures h.Values() == SwapSeq(old(h.Values()), i, |old(h.e)| - 1)[..|old(h.e)| - 1]
    ensures multiset(h.e) + multiset{x} == multiset(old(h.e))
  {
    var last := h.Len() - 1;
    h.Swap(i, last);
    ghost var e1 := h.e;
    SwapPerm(old(h.e), i, last);
    x := h.Pop();
    DropLast(e1);
    assert forall k :: 0 <= k < |h.e| ==> h.e[k].index == k;
  }

  /** `Delete`: removes the key's pair; an absent key changes nothing. */
  method Remove<K, V(!new)>(h: HeapStruct<K, V>, m: map<K, Element<K, V>>, k: K, ghost c: map<K, V>)
    requires Keyed(h, m, c)
    modifies h, h.e`index
    ensures Keyed(h, m - {k}, c - {k})
    ensures forall i :: 0 <= i < |h.e| ==> h.e[i] in old(h.e)
  {
    if k !in m {
      assert m - {k} == m && c - {k} == c;
      return;
    }
    var item := m[k];
    h.SlotOf(item);
    var x := RemoveAt(h, item.index);
    MatchesRemove(old(h.e), m, x, h.e);
  }

  /** `Pop` on a non-empty heap: removes the element at the root, a pair with a least value. */
  method RemoveRoot<K, V(!new)>(h: HeapStruct<K, V>, m: map<K, Element<K, V>>, ghost c: map<K, V>)
    returns (x: Element<K, V>)
    requires Keyed(h, m, c) && |h.e| > 0
    modifies h, h.e`index
    ensures x == old(h.e[0]) && Keyed(h, m - {x.key}, c - {x.key})
    ensures forall i :: 0 <= i < |h.e| ==> h.e[i] in old(h.e)
  {
    x := HeapPop(h);
    MatchesRemove(old(h.e), m, x, h.e);
  }

  /**
   * `ps` is what a sequence of `Pop`s can return from a map holding `c`,
   * leaving `rest`: each pair is stored when it is popped and no value
   * stored then is less than its value.
   */
  ghost predicate PairPopSequence<K, V>(c: map<K, V>, ps: seq<(K, V)>, rest: map<K, V>, lt: (V, V) -> bool)
    decreases |ps|
  {
    if ps == [] then rest == c
    else
      && ps[0].0 in c && c[ps[0].0] == ps[0].1
      && (forall k :: k in c ==> !lt(c[k], ps[0].1))
      && PairPopSequence(c - {ps[0].0}, ps[1..], rest, lt)
  }

  /** The first step of a pair pop sequence that does not leave everything behind. */
  lemma PairPopHead<K, V>(c: map<K, V>, ps: seq<(K, V)>, rest: map<K, V>, lt: (V, V) -> bool)
    requires PairPopSequence(c, ps, rest, lt) && rest != c
    ensures ps != [] && ps[0].0 in c && c[ps[0].0] == ps[0].1
    ensures forall k :: k in c ==> !lt(c[k], ps[0].1)
    ensures PairPopSequence(c - {ps[0].0}, ps[1..], rest, lt)
  {
  }

  /** One more `Pop` extends a pop sequence. */
  lemma {:induction false} PairPopSequenceExtend<K, V>(c: map<K, V>, ps: seq<(K, V)>, rest: map<K, V>,
                                                      lt: (V, V) -> bool, p: (K, V))
    requires PairPopSequence(c, ps, rest, lt)
    requires p.0 in rest && rest[p.0] == p.1 && forall k :: k in rest ==> !lt(rest[k], p.1)
    ensures PairPopSequence(c, ps + [p], rest - {p.0}, lt)
    decreases |ps|
  {
    if ps == [] {
      assert PairPopSequence(c - {p.0}, [], rest - {p.0}, lt);
      assert [p][1..] == [];
    } else {
      PairPopSequenceExtend(c - {ps[0].0}, ps[1..], rest, lt, p);
      assert (ps + [p])[1..] == ps[1..] + [p];
    }
  }

  /**
   * Draining by `Pop` returns stored pairs, each key once, and no value
   * comes out after a value it is less than; every stored key is either
   * popped or left behind.
   */
  lemma {:induction false} PairPopSequenceSorted<K, V>(c: map<K, V>, ps: seq<(K, V)>, rest: map<K, V>, lt: (V, V) -> bool)
    requires PairPopSequence(c, ps, rest, lt)
    ensures forall i :: 0 <= i < |ps| ==> ps[i].0 in c && c[ps[i].0] == ps[i].1 && ps[i].0 !in rest
    ensures forall i, j :: 0 <= i < j < |ps| ==> ps[i].0 != ps[j].0 && !lt(ps[j].1, ps[i].1)
    ensures forall k :: k in rest ==> k in c && rest[k] == c[k]
    ensures forall k :: k in c ==> k in rest || exists i :: 0 <= i < |ps| && ps[i].0 == k
    ensures |ps| + |rest| == |c|
    decreases |ps|
  {
    if ps != [] {
      var c1 := c - {ps[0].0};
      PairPopSequenceSorted(c1, ps[1..], rest, lt);
      assert c1.Keys == c.Keys - {ps[0].0};
      forall k | k in c ensures k in rest || exists i :: 0 <= i < |ps| && ps[i].0 == k {
        if k == ps[0].0 {
          assert ps[0].0 == k;
        } else if k !in rest {
          assert k in c1;
          var i :| 0 <= i < |ps[1..]| && ps[1..][i].0 == k;
          assert ps[i + 1].0 == k;
        }
      }
      forall i | 0 <= i < |ps| ensures ps[i].0 in c && c[ps[i].0] == ps[i].1 && ps[i].0 !in rest {
        if i > 0 {
          assert ps[i] == ps[1..][i - 1];
        }
      }
      forall i, j | 0 <= i < j < |ps| ensures ps[i].0 != ps[j].0 && !lt(ps[j].1, ps[i].1) {
        assert ps[j] == ps[1..][j - 1];
        if i > 0 {
          assert ps[i] == ps[1..][i - 1];
        } else {
          assert ps[j].0 in c1;
        }
      }
    }
  }
}
