/**
 * A stack stored in a growing slice with a separate element count
 * (stack/stack.go). The source's package comment calls it FIFO; it is the
 * last-in-first-out stack its code and tests describe.
 */
module Stack {
  import opened Wrappers

  /** `ErrEmpty`: `Pop` or `Top` on an empty stack. */
  datatype StackError = ErrEmpty

  class Stack<V> {
    var elements: seq<V>
    var size: int

    /** The count field always equals the length of the slice. */
    ghost predicate Valid()
      reads this
    {
      size == |elements|
    }

    /** `NewStack`: an empty stack. */
    constructor ()
      ensures Valid() && elements == []
    {
      elements := [];
      size := 0;
    }

    /** Appends `x` at the top. */
    method Push(x: V)
      requires Valid()
      modifies this
      ensures Valid() && elements == old(elements) + [x]
    {
      elements := elements + [x];
      size := size + 1;
    }

    /**
     * Removes and returns the top element; on an empty stack returns
     * `ErrEmpty` and changes nothing.
     */
    method Pop() returns (r: Result<V, StackError>)
      requires Valid()
      modifies this
      ensures Valid()
      ensures old(size) == 0 ==> r == Failure(ErrEmpty) && elements == old(elements)
      ensures old(size) > 0 ==> r == Success(old(elements)[old(size) - 1]) && elements == old(elements)[..old(size) - 1]
    {
      if size == 0 {
        return Failure(ErrEmpty);
      }
      var v := elements[size - 1];
      size := size - 1;
      elements := elements[..size];
      return Success(v);
    }

    /** The top element, or `ErrEmpty` on an empty stack. */
    function Top(): (r: Result<V, StackError>)
      reads this
      requires Valid()
      ensures r.Failure? <==> elements == []
      ensures r.Success? ==> r.value == elements[|elements| - 1]
    {
      if size > 0 then Success(elements[size - 1]) else Failure(ErrEmpty)
    }

    /** The stack holds no element. */
    function IsEmpty(): (b: bool)
      reads this
      requires Valid()
      ensures b <==> elements == []
    {
      size == 0
    }

    /** The number of elements. */
    function Size(): (n: int)
      reads this
      requires Valid()
      ensures n == |elements|
    {
      size
    }
  }

  /**
   * The source's test sequence: both operations fail on an empty stack;
   * after pushing 1 and 2, `Top` gives 2 twice, then `Pop` gives 2 and 1,
   * and the stack is empty again.
   */
  method StackExample() returns (t0: Result<int, StackError>, p0: Result<int, StackError>,
                                 t1: Result<int, StackError>, t2: Result<int, StackError>,
                                 p1: Result<int, StackError>, p2: Result<int, StackError>, n: int, e: bool)
    ensures t0 == Failure(ErrEmpty) && p0 == Failure(ErrEmpty)
    ensures t1 == Success(2) && t2 == Success(2)
    ensures p1 == Success(2) && p2 == Success(1)
    ensures n == 0 && e
  {
    var s := new Stack<int>();
    t0 := s.Top();
    p0 := s.Pop();
    s.Push(1);
    s.Push(2);
    t1 := s.Top();
    t2 := s.Top();
    p1 := s.Pop();
    p2 := s.Pop();
    n := s.Size();
    e := s.IsEmpty();
  }
}
