/** The generic `Stack<T>`: last in, first out, over a growable list. */
module Generics {
  import opened Wrappers

  class Stack<T> {
    /** The list `internalStack`; its last element is the top. */
    var internalStack: seq<T>

    constructor ()
      ensures internalStack == []
    {
      internalStack := [];
    }

    function Count(): nat
      reads this
    {
      |internalStack|
    }

    /** `internalStack.Add(obj)`: the new element goes on top, the elements below stay as they are. */
    method Push(obj: T)
      modifies this
      ensures internalStack == old(internalStack) + [obj]
      ensures Count() == old(Count()) + 1
    {
      internalStack := internalStack + [obj];
    }

    /**
     * Removes and returns the top element; on an empty stack it throws InvalidOperationException
     * and the stack stays empty.
     */
    method Pop() returns (r: Result<T>)
      modifies this
      ensures old(internalStack) == [] ==> r == Failure(InvalidOperation) && internalStack == []
      ensures old(internalStack) != [] ==>
        && r == Success(old(internalStack)[|old(internalStack)| - 1])
        && internalStack == old(internalStack)[..|old(internalStack)| - 1]
        && Count() == old(Count()) - 1
    {
      if |internalStack| == 0 {
        return Failure(InvalidOperation);
      }
      var temp := internalStack[|internalStack| - 1];
      internalStack := internalStack[..|internalStack| - 1];
      return Success(temp);
    }
  }

  /** Last in, first out: a `Pop` right after `Push(x)` returns `x` and restores the earlier contents. */
  method PushThenPop<T>(s: Stack<T>, x: T) returns (r: Result<T>)
    modifies s
    ensures r == Success(x)
    ensures s.internalStack == old(s.internalStack)
  {
    s.Push(x);
    r := s.Pop();
  }
}
