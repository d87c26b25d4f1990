/**
 * The heap shared by the priority map, the heap set and the priority queue:
 * `heapStruct`, a slice of pointers to elements that each remember their
 * slot (`index`), ordered by a `less` function on the elements' values; and
 * the three functions of Go's `container/heap` that the packages call on it
 * (`heap.Push`, `heap.Pop`, `heap.Fix`), written out with the library's
 * `up` and `down` loops.
 */
module Heap {
  import opened Orders
  import opened HeapOrder

  /**
   * A key-value pair stored in the heap, with its slot in the heap's slice
   * (`Element` of the priority map, `element` of the heap set; the priority
   * queue's `heapElement` has no key and is this class with the key type
   * `()`). The key is never reassigned and is a constant here.
   */
  class Element<K, V> {
    const key: K
    var value: V
    var index: int

    /** A fresh element outside any heap: Go's zero `index`. */
    constructor (key: K, value: V)
      ensures this.key == key && this.value == value && index == 0
    {
      this.key := key;
      this.value := value;
      index := 0;
    }
  }

  /** `heapStruct`: the heap's slice and the order on values. */
  class HeapStruct<K, V(!new)> {
    var e: seq<Element<K, V>>
    const less: (V, V) -> bool

    /** `newHeapStruct`: an empty slice and the given order. */
    constructor (less: (V, V) -> bool)
      ensures e == [] && this.less == less
    {
      e := [];
      this.less := less;
    }

    /** The values in slot order. */
    ghost function Values(): (v: seq<V>)
      reads this, e
      ensures |v| == |e|
      ensures forall i {:trigger v[i]} :: 0 <= i < |e| ==> v[i] == e[i].value
    {
      seq(|e|, i reads this, e requires 0 <= i < |e| => e[i].value)
    }

    /** Every element records its own slot (so no element is in two slots). */
    ghost predicate Indexed()
      reads this, e
    {
      forall i :: 0 <= i < |e| ==> e[i].index == i
    }

    /** The heap is ordered under a strict weak order and every element knows its slot. */
    ghost predicate Valid()
      reads this, e
    {
      Indexed() && StrictWeakOrder(less) && HeapOrdered(Values(), less)
    }

    /** Distinct slots hold distinct elements. */
    lemma Distinct()
      requires Indexed()
      ensures forall i, j :: 0 <= i < |e| && 0 <= j < |e| && e[i] == e[j] ==> i == j
    {
    }

    /** An element in the heap sits in the slot it records. */
    lemma SlotOf(x: Element<K, V>)
      requires Indexed() && x in e
      ensures 0 <= x.index < |e| && e[x.index] == x
    {
    }

    /** `Len`. */
    function Len(): (n: int)
      reads this
      ensures n == |e| && n >= 0
    {
      |e|
    }

    /** `Less`: the order on the values in two slots. */
    function Less(i: int, j: int): (b: bool)
      reads this, e
      requires 0 <= i < |e| && 0 <= j < |e|
      ensures b == less(Values()[i], Values()[j])
    {
      less(e[i].value, e[j].value)
    }

    /** `Swap`: exchanges two slots and records the new slots in the two elements. */
    method Swap(i: int, j: int)
      requires 0 <= i < |e| && 0 <= j < |e| && Indexed()
      modifies this, e`index
      ensures e == SwapSeq(old(e), i, j) && forall k :: 0 <= k < |e| ==> e[k] in old(e)
      ensures Indexed() && Values() == SwapSeq(old(Values()), i, j)
    {
      e := SwapSeq(e, i, j);
      e[i].index := i;
      e[j].index := j;
      assert forall k :: 0 <= k < |e| ==> Values()[k] == SwapSeq(old(Values()), i, j)[k];
    }

    /** `Push`: appends an element outside the heap and records its slot. */
    method Push(x: Element<K, V>)
      requires Indexed() && x !in e
      modifies this, x`index
      ensures e == old(e) + [x] && x.index == |old(e)|
      ensures Indexed() && Values() == old(Values()) + [x.value]
    {
      var n := |e|;
      x.index := n;
      e := e + [x];
      assert forall k :: 0 <= k < |e| ==> Values()[k] == (old(Values()) + [x.value])[k];
    }

    /** `Pop`: removes and returns the last element, whose slot becomes -1. */
    method Pop() returns (x: Element<K, V>)
      requires Indexed() && |e| >= 1
      modifies this, e`index
      ensures x == old(e)[|old(e)| - 1] && x.index == -1
      ensures e == old(e)[..|old(e)| - 1]
      ensures Indexed() && Values() == old(Values())[..|old(e)| - 1]
    {
      var n := |e|;
      x := e[n - 1];
      x.index := -1;
      e := e[..n - 1];
      assert forall k :: 0 <= k < |e| ==> Values()[k] == old(Values())[k];
    }
  }

  /** The exchange in a round of `up`: the invariant moves to the parent. */
  method SwapUp<K, V(!new)>(h: HeapStruct<K, V>, j: int)
    requires h.Indexed() && StrictWeakOrder(h.less)
    requires 0 < j < |h.e| && UpInv(h.Values(), h.less, j)
    requires h.less(h.Values()[j], h.Values()[Parent(j)])
    modifies h, h.e`index
    ensures h.Indexed() && |h.e| == |old(h.e)|
    ensures forall k :: 0 <= k < |h.e| ==> h.e[k] in old(h.e)
    ensures multiset(h.e) == multiset(old(h.e)) && multiset(h.Values()) == multiset(old(h.Values()))
    ensures UpInv(h.Values(), h.less, Parent(j))
  {
    ghost var e, v := h.e, h.Values();
    UpStep(v, h.less, j);
    SwapPerm(e, Parent(j), j);
    SwapPerm(v, Parent(j), j);
    h.Swap(Parent(j), j);
  }

  /**
   * `up(h, j)`: moves slot `j` up while it is less than its parent. The
   * heap ends ordered, with the same elements.
   */
  method Up<K, V(!new)>(h: HeapStruct<K, V>, j0: int)
    requires h.Indexed() && StrictWeakOrder(h.less)
    requires 0 <= j0 < |h.e| && UpInv(h.Values(), h.less, j0)
    modifies h, h.e`index
    ensures h.Valid() && forall k :: 0 <= k < |h.e| ==> h.e[k] in old(h.e)
    ensures multiset(h.e) == multiset(old(h.e)) && multiset(h.Values()) == multiset(old(h.Values()))
  {
    var j := j0;
    while true
      invariant h.Indexed() && 0 <= j < |h.e| && |h.e| == |old(h.e)|
      invariant forall k :: 0 <= k < |h.e| ==> h.e[k] in old(h.e)
      invariant multiset(h.e) == multiset(old(h.e)) && multiset(h.Values()) == multiset(old(h.Values()))
      invariant UpInv(h.Values(), h.less, j)
      decreases j
    {
      var i := Parent(j);
      if i == j || !h.Less(j, i) {
        UpDone(h.Values(), h.less, j);
        return;
      }
      SwapUp(h, j);
      j := i;
    }
  }

  /**
   * One round of `down`'s loop at slot `i`: picks the smaller child and,
   * if it is less than `i`, exchanges the two and continues from the
   * child; otherwise (or without a child) stops, changing nothing.
   */
  method DownRound<K, V(!new)>(h: HeapStruct<K, V>, n: int, i0: int, i: int) returns (next: int, stop: bool)
    requires h.Indexed() && StrictWeakOrder(h.less)
    requires 0 <= i0 <= i && 0 <= n <= |h.e| && DownInv(h.Values(), h.less, n, i0, i)
    modifies h, h.e`index
    ensures h.Indexed() && |h.e| == |old(h.e)|
    ensures forall k :: n <= k < |h.e| ==> h.e[k] == old(h.e)[k]
    ensures forall k :: 0 <= k < |h.e| ==> h.e[k] in old(h.e)
    ensures multiset(h.e) == multiset(old(h.e)) && multiset(h.Values()) == multiset(old(h.Values()))
    ensures stop ==> h.e == old(h.e)
    ensures stop && (i0 < i || i0 == 0) ==> Ordered(h.Values(), h.less, n)
    ensures stop && i0 == i && i0 < n == |h.e| ==> UpInv(h.Values(), h.less, i0)
    ensures !stop ==> i < next < n && DownInv(h.Values(), h.less, n, i0, next)
  {
    var j1 := 2 * i + 1;
    if j1 >= n {
      DownDone(h.Values(), h.less, n, i0, i, j1);
      return i, true;
    }
    var j := j1;
    var j2 := j1 + 1;
    if j2 < n && h.Less(j2, j1) {
      j := j2;
    }
    if !h.Less(j, i) {
      DownDone(h.Values(), h.less, n, i0, i, j);
      return i, true;
    }
    SwapDown(h, n, i0, i, j);
    return j, false;
  }

  /** The exchange in a round of `down`: the invariant moves to the chosen child. */
  method SwapDown<K, V(!new)>(h: HeapStruct<K, V>, n: int, i0: int, i: int, j: int)
    requires h.Indexed() && StrictWeakOrder(h.less)
    requires 0 <= i0 <= i && 0 <= n <= |h.e| && DownInv(h.Values(), h.less, n, i0, i)
    requires ChosenChild(h.Values(), h.less, n, i, j) && h.less(h.Values()[j], h.Values()[i])
    modifies h, h.e`index
    ensures h.Indexed() && |h.e| == |old(h.e)|
    ensures forall k :: n <= k < |h.e| ==> h.e[k] == old(h.e)[k]
    ensures forall k :: 0 <= k < |h.e| ==> h.e[k] in old(h.e)
    ensures multiset(h.e) == multiset(old(h.e)) && multiset(h.Values()) == multiset(old(h.Values()))
    ensures DownInv(h.Values(), h.less, n, i0, j)
  {
    ghost var e, v := h.e, h.Values();
    DownStep(v, h.less, n, i0, i, j);
    SwapPerm(e, i, j);
    SwapPerm(v, i, j);
    h.Swap(i, j);
  }

  /**
   * `down(h, i0, n)`: moves slot `i0` down, within the first `n` slots,
   * while one of its children is less, and reports whether it moved. The
   * slots from `n` on are untouched; the first `n` end ordered when it moved
   * or started at the root, and otherwise nothing changed and only `i0`'s
   * place against its parent is open.
   */
  method Down<K, V(!new)>(h: HeapStruct<K, V>, i0: int, n: int) returns (moved: bool)
    requires h.Indexed() && StrictWeakOrder(h.less)
    requires 0 <= i0 && 0 <= n <= |h.e| && DownInv(h.Values(), h.less, n, i0, i0)
    modifies h, h.e`index
    ensures h.Indexed() && |h.e| == |old(h.e)|
    ensures forall k :: n <= k < |h.e| ==> h.e[k] == old(h.e)[k]
    ensures forall k :: 0 <= k < |h.e| ==> h.e[k] in old(h.e)
    ensures multiset(h.e) == multiset(old(h.e)) && multiset(h.Values()) == multiset(old(h.Values()))
    ensures moved || i0 == 0 ==> Ordered(h.Values(), h.less, n)
    ensures !moved ==> h.e == old(h.e)
    ensures !moved && i0 < n == |h.e| ==> UpInv(h.Values(), h.less, i0)
  {
    var i := i0;
    while true
      invariant h.Indexed() && i0 <= i && |h.e| == |old(h.e)|
      invariant forall k :: n <= k < |h.e| ==> h.e[k] == old(h.e)[k]
      invariant forall k :: 0 <= k < |h.e| ==> h.e[k] in old(h.e)
      invariant multiset(h.e) == multiset(old(h.e)) && multiset(h.Values()) == multiset(old(h.Values()))
      invariant DownInv(h.Values(), h.less, n, i0, i)
      invariant i == i0 ==> h.e == old(h.e)
      decreases n - i
    {
      var next, stop := DownRound(h, n, i0, i);
      if stop {
        break;
      }
      i := next;
    }
    moved := i > i0;
  }

  /**
   * `heap.Push(h, x)`: appends an element outside the heap and moves it up.
   * The heap stays ordered and gains exactly that element.
   */
  method HeapPush<K, V(!new)>(h: HeapStruct<K, V>, x: Element<K, V>)
    requires h.Valid() && x !in h.e
    modifies h, h.e`index, x`index
    ensures h.Valid() && forall k :: 0 <= k < |h.e| ==> h.e[k] in old(h.e) || h.e[k] == x
    ensures multiset(h.e) == multiset(old(h.e)) + multiset{x}
    ensures multiset(h.Values()) == multiset(old(h.Values())) + multiset{x.value}
  {
    PushStart(h.Values(), h.less, x.value);
    h.Push(x);
    Up(h, |h.e| - 1);
  }

  /**
   * The first two steps of `heap.Pop`: the root goes to the last slot and
   * the element that replaced it moves down among the others.
   */
  method SinkRoot<K, V(!new)>(h: HeapStruct<K, V>)
    requires h.Valid() && |h.e| >= 1
    modifies h, h.e`index
    ensures h.Indexed() && |h.e| == |old(h.e)|
    ensures forall k :: 0 <= k < |h.e| ==> h.e[k] in old(h.e)
    ensures h.e[|h.e| - 1] == old(h.e[0]) && h.Values()[|h.e| - 1] == old(h.Values()[0])
    ensures Ordered(h.Values(), h.less, |h.e| - 1)
    ensures multiset(h.e) == multiset(old(h.e)) && multiset(h.Values()) == multiset(old(h.Values()))
  {
    ghost var e0, v0 := h.e, h.Values();
    var n := h.Len() - 1;
    PopStart(v0, h.less);
    SwapPerm(e0, 0, n);
    SwapPerm(v0, 0, n);
    h.Swap(0, n);
    var _ := Down(h, 0, n);
  }

  /**
   * `heap.Pop(h)`: exchanges the root with the last slot, moves the new
   * root down among the others and removes the last slot. It returns the
   * former root, whose value no value in the heap is less than; the heap
   * stays ordered and loses exactly that element.
   */
  method HeapPop<K, V(!new)>(h: HeapStruct<K, V>) returns (x: Element<K, V>)
    requires h.Valid() && |h.e| >= 1
    modifies h, h.e`index
    ensures h.Valid() && x == old(h.e[0]) && x.value == old(h.Values()[0])
    ensures forall k :: 0 <= k < |old(h.Values())| ==> !h.less(old(h.Values())[k], x.value)
    ensures forall k :: 0 <= k < |h.e| ==> h.e[k] in old(h.e) && h.e[k] != x
    ensures multiset(h.e) + multiset{x} == multiset(old(h.e))
    ensures multiset(h.Values()) + multiset{x.value} == multiset(old(h.Values()))
  {
    RootIsMinimum(h.Values(), h.less);
    SinkRoot(h);
    ghost var e1, v1 := h.e, h.Values();
    var n := h.Len() - 1;
    OrderedPrefix(v1, h.less, n);
    DropLast(e1);
    DropLast(v1);
    x := h.Pop();
    assert h.Values() == v1[..n];
  }

  /**
   * `heap.Fix(h, i)`: after the element in slot `i` changed, moves it down
   * or, if it does not move down, up. The heap ends ordered with the same
   * elements.
   */
  method HeapFix<K, V(!new)>(h: HeapStruct<K, V>, i: int)
    requires h.Indexed() && StrictWeakOrder(h.less)
    requires 0 <= i < |h.e| && DownInv(h.Values(), h.less, |h.e|, i, i)
    modifies h, h.e`index
    ensures h.Valid() && |h.e| == |old(h.e)| && forall k :: 0 <= k < |h.e| ==> h.e[k] in old(h.e)
    ensures multiset(h.e) == multiset(old(h.e)) && multiset(h.Values()) == multiset(old(h.Values()))
  {
    var moved := Down(h, i, h.Len());
    if !moved {
      Up(h, i);
    }
  }
}
