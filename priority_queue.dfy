/**
 * A priority queue over any value type ordered by a caller-supplied `less`
 * (priority_queue/priority_queue.go): a heap of elements that carry only a
 * value. Its contents are the multiset of values in the heap.
 */
module PriorityQueue {
  import opened Wrappers
  import opened Orders
  import opened HeapOrder
  import opened Heap

  /**
   * `ErrQueueIsEmpty`: `Top` or `Pop` on an empty queue. `NoCompare`: the
   * error `NewPriorityQueue` returns without a `less` function.
   */
  datatype QueueError = ErrQueueIsEmpty | NoCompare

  class PriorityQueue<V(!new)> {
    const hs: HeapStruct<(), V>

    /** The heap is ordered, indexed, and its order is a strict weak order. */
    ghost predicate Valid()
      reads this, hs, hs.e
    {
      hs.Valid()
    }

    /** The values in the queue, with their multiplicities. */
    ghost function Contents(): multiset<V>
      reads this, hs, hs.e
    {
      multiset(hs.Values())
    }

    /** The order on values. */
    function Less(): (V, V) -> bool
      reads this
    {
      hs.less
    }

    /** The queue literal of `NewPriorityQueue`: an empty heap with the given order. */
    constructor (less: (V, V) -> bool)
      requires StrictWeakOrder(less)
      ensures Valid() && Contents() == multiset{} && Less() == less && fresh(hs)
    {
      hs := new HeapStruct(less);
    }

    /** `Push`: the value joins the contents. */
    method Push(v: V)
      requires Valid()
      modifies hs, hs.e`index
      ensures Valid() && Contents() == old(Contents()) + multiset{v}
      ensures forall k :: 0 <= k < |hs.e| ==> hs.e[k] in old(hs.e) || fresh(hs.e[k])
    {
      var e := new Element((), v);
      HeapPush(hs, e);
    }

    /**
     * `Top`: a value of the queue that no value in it is less than, or
     * `ErrQueueIsEmpty` when the queue is empty.
     */
    function Top(): (r: Result<V, QueueError>)
      reads this, hs, hs.e
      requires Valid()
      ensures r.Failure? <==> Contents() == multiset{}
      ensures r.Failure? ==> r.error == ErrQueueIsEmpty
      ensures r.Success? ==> r.value in Contents() && forall y :: y in Contents() ==> !Less()(y, r.value)
    {
      if hs.Len() == 0 then Failure(ErrQueueIsEmpty)
      else
        RootIsMinimum(hs.Values(), hs.less);
        assert hs.Values()[0] == hs.e[0].value;
        Success(hs.e[0].value)
    }

    /**
     * `Pop`: removes and returns the value `Top` gives; on an empty queue
     * returns `ErrQueueIsEmpty` and changes nothing.
     */
    method Pop() returns (r: Result<V, QueueError>)
      requires Valid()
      modifies hs, hs.e`index
      ensures Valid()
      ensures r == old(Top()) && forall k :: 0 <= k < |hs.e| ==> hs.e[k] in old(hs.e)
      ensures r.Failure? ==> Contents() == old(Contents())
      ensures r.Success? ==> Contents() == old(Contents()) - multiset{r.value}
    {
      var t := Top();
      if t.Failure? {
        return Failure(t.error);
      }
      var x := HeapPop(hs);
      return Success(t.value);
    }

    /** `Size`: the number of values, counted with multiplicity. */
    function Size(): (n: int)
      reads this, hs, hs.e
      requires Valid()
      ensures n == |Contents()|
    {
      hs.Len()
    }
  }

  /**
   * `NewPriorityQueue`: an empty queue ordered by `less`, or `NoCompare`
   * when no `less` is given (Go's nil function).
   */
  method NewPriorityQueue<V(!new)>(less: Option<(V, V) -> bool>) returns (r: Result<PriorityQueue<V>, QueueError>)
    requires less.Some? ==> StrictWeakOrder(less.value)
    ensures r.Failure? <==> less.None?
    ensures r.Failure? ==> r.error == NoCompare
    ensures r.Success? ==> fresh(r.value) && fresh(r.value.hs) && r.value.Valid()
    ensures r.Success? ==> r.value.Contents() == multiset{} && r.value.Less() == less.value
  {
    if less.None? {
      return Failure(NoCompare);
    }
    var pq := new PriorityQueue(less.value);
    return Success(pq);
  }

  /**
   * `xs` is what a sequence of `Pop`s can return from a queue holding `c`,
   * leaving `rest`: each value is in what is left before it and no value
   * left then is less than it.
   */
  ghost predicate PopSequence<V>(c: multiset<V>, xs: seq<V>, rest: multiset<V>, lt: (V, V) -> bool)
    decreases |xs|
  {
    if xs == [] then rest == c
    else
      && xs[0] in c
      && (forall y :: y in c ==> !lt(y, xs[0]))
      && PopSequence(c - multiset{xs[0]}, xs[1..], rest, lt)
  }

  /** One more `Pop` extends a pop sequence. */
  lemma {:induction false} PopSequenceExtend<V>(c: multiset<V>, xs: seq<V>, rest: multiset<V>, lt: (V, V) -> bool, x: V)
    requires PopSequence(c, xs, rest, lt)
    requires x in rest && forall y :: y in rest ==> !lt(y, x)
    ensures PopSequence(c, xs + [x], rest - multiset{x}, lt)
    decreases |xs|
  {
    if xs == [] {
      assert PopSequence(c - multiset{x}, [], rest - multiset{x}, lt);
      assert [x][1..] == [];
    } else {
      PopSequenceExtend(c - multiset{xs[0]}, xs[1..], rest, lt, x);
      assert (xs + [x])[1..] == xs[1..] + [x];
    }
  }

  /**
   * Popping returns values out of the queue, and no value comes out after
   * a value it is less than: draining a queue returns its contents in
   * non-decreasing order.
   */
  lemma {:induction false} PopSequenceSorted<V>(c: multiset<V>, xs: seq<V>, rest: multiset<V>, lt: (V, V) -> bool)
    requires PopSequence(c, xs, rest, lt)
    ensures multiset(xs) + rest == c
    ensures forall i, j :: 0 <= i < j < |xs| ==> !lt(xs[j], xs[i])
    decreases |xs|
  {
    if xs != [] {
      PopSequenceSorted(c - multiset{xs[0]}, xs[1..], rest, lt);
      assert xs == [xs[0]] + xs[1..];
      assert multiset(xs) == multiset{xs[0]} + multiset(xs[1..]);
      assert multiset{xs[0]} + (c - multiset{xs[0]}) == c;
      forall i, j | 0 <= i < j < |xs| ensures !lt(xs[j], xs[i]) {
        assert xs[j] == xs[1..][j - 1];
        if i == 0 {
          assert xs[j] in multiset(xs[1..]);
          assert xs[j] in c - multiset{xs[0]};
        } else {
          assert xs[i] == xs[1..][i - 1];
        }
      }
    }
  }

  /**
   * `for pq.Size() > 0 { pq.Pop() }`: empties the queue and returns what
   * it popped, a pop sequence of the old contents.
   */
  method Drain<V(!new)>(pq: PriorityQueue<V>) returns (xs: seq<V>)
    requires pq.Valid()
    modifies pq.hs, pq.hs.e`index
    ensures pq.Valid() && pq.Contents() == multiset{}
    ensures PopSequence(old(pq.Contents()), xs, multiset{}, pq.Less())
  {
    xs := [];
    while pq.Size() > 0
      invariant pq.Valid() && forall k :: 0 <= k < |pq.hs.e| ==> pq.hs.e[k] in old(pq.hs.e)
      invariant PopSequence(old(pq.Contents()), xs, pq.Contents(), pq.Less())
      decreases pq.Size()
    {
      ghost var before := pq.Contents();
      var r := pq.Pop();
      PopSequenceExtend(old(pq.Contents()), xs, before, pq.Less(), r.value);
      xs := xs + [r.value];
    }
  }

  /** The first step of a pop sequence that does not leave everything behind. */
  lemma PopHead<V>(c: multiset<V>, xs: seq<V>, rest: multiset<V>, lt: (V, V) -> bool)
    requires PopSequence(c, xs, rest, lt) && rest != c
    ensures xs != [] && xs[0] in c && forall y :: y in c ==> !lt(y, xs[0])
    ensures PopSequence(c - multiset{xs[0]}, xs[1..], rest, lt)
  {
  }

  /** With `<` on integers, the only pop sequence of 20, 20 is 20, 20. */
  lemma ExamplePopTwenties(xs: seq<int>)
    requires PopSequence(multiset{20, 20}, xs, multiset{}, IntLess)
    ensures xs == [20, 20]
  {
    var c := multiset{20, 20};
    PopHead(c, xs, multiset{}, IntLess);
    assert c - multiset{xs[0]} == multiset{20};
    var ys := xs[1..];
    PopHead(multiset{20}, ys, multiset{}, IntLess);
    assert multiset{20} - multiset{ys[0]} == multiset{};
    assert ys[1..] == [];
    assert xs == [xs[0]] + [ys[0]];
  }

  /** With `<` on integers, the only pop sequence of 10, 20, 20 is 10, 20, 20. */
  lemma ExamplePopTail(xs: seq<int>)
    requires PopSequence(multiset{10, 20, 20}, xs, multiset{}, IntLess)
    ensures xs == [10, 20, 20]
  {
    var c := multiset{10, 20, 20};
    PopHead(c, xs, multiset{}, IntLess);
    assert 10 in c;
    assert c - multiset{xs[0]} == multiset{20, 20};
    ExamplePopTwenties(xs[1..]);
    assert xs == [xs[0]] + xs[1..];
  }

  /** With `<` on integers, the only pop sequence of 10, 20, 5, 20 is 5, 10, 20, 20. */
  lemma ExamplePopSequence(xs: seq<int>)
    requires PopSequence(multiset{10, 20, 5, 20}, xs, multiset{}, IntLess)
    ensures xs == [5, 10, 20, 20]
  {
    var c := multiset{10, 20, 5, 20};
    PopHead(c, xs, multiset{}, IntLess);
    assert 5 in c;
    assert c - multiset{xs[0]} == multiset{10, 20, 20};
    ExamplePopTail(xs[1..]);
    assert xs == [xs[0]] + xs[1..];
  }

  /** A new queue ordered by `<`, on which `Top` and `Pop` fail. */
  method ExampleEmpty() returns (pq: PriorityQueue<int>, t0: Result<int, QueueError>, p0: Result<int, QueueError>)
    ensures fresh(pq) && fresh(pq.hs) && pq.Valid() && pq.Contents() == multiset{} && pq.Less() == IntLess
    ensures t0 == Failure(ErrQueueIsEmpty) && p0 == Failure(ErrQueueIsEmpty) && pq.hs.e == []
  {
    IntLessStrictTotal();
    var r := NewPriorityQueue(Some(IntLess));
    pq := r.value;
    t0 := pq.Top();
    p0 := pq.Pop();
    assert |pq.hs.Values()| == |pq.Contents()|;
  }

  /** Pushing 10 makes it the top; after 20, 5 and 20 the size is 4. */
  method ExampleFill(pq: PriorityQueue<int>) returns (t1: Result<int, QueueError>, n4: int)
    requires pq.Valid() && pq.Contents() == multiset{} && pq.Less() == IntLess
    modifies pq.hs, pq.hs.e`index
    ensures pq.Valid() && pq.Contents() == multiset{10, 20, 5, 20}
    ensures forall k :: 0 <= k < |pq.hs.e| ==> pq.hs.e[k] in old(pq.hs.e) || fresh(pq.hs.e[k])
    ensures t1 == Success(10) && n4 == 4
  {
    pq.Push(10);
    t1 := pq.Top();
    pq.Push(20);
    pq.Push(5);
    pq.Push(20);
    n4 := pq.Size();
  }

  /**
   * The source's test: `Top` and `Pop` fail on an empty queue; after
   * pushing 10 `Top` gives 10; after pushing 20, 5 and 20 the size is 4
   * and popping until the queue is empty gives 5, 10, 20, 20.
   */
  method PriorityQueueExample() returns (t0: Result<int, QueueError>, p0: Result<int, QueueError>,
                                         t1: Result<int, QueueError>, n4: int, popped: seq<int>, n0: int)
    ensures t0 == Failure(ErrQueueIsEmpty) && p0 == Failure(ErrQueueIsEmpty)
    ensures t1 == Success(10) && n4 == 4
    ensures popped == [5, 10, 20, 20] && n0 == 0
  {
    var pq;
    pq, t0, p0 := ExampleEmpty();
    t1, n4 := ExampleFill(pq);
    popped := Drain(pq);
    ExamplePopSequence(popped);
    n0 := pq.Size();
  }
}
