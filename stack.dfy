/** A slice-backed LIFO container: pushes and pops happen at the tail. */
module Stacks {

  class Stack<T> {
    /** The contents, bottom first; the last element is the top. */
    var elems: seq<T>

    /** `NewStack`: an empty stack. */
    constructor ()
      ensures elems == []
    {
      elems := [];
    }

    /** Appends `x` at the tail. */
    method Push(x: T)
      modifies this
      ensures elems == old(elems) + [x]
      ensures Size() == old(Size()) + 1 && Peek() == x
    {
      elems := elems + [x];
    }

    /** Removes and returns the last element; the slice index `len-1`
        panics on an empty stack. */
    method Pop() returns (x: T)
      requires elems != []
      modifies this
      ensures x == old(elems)[|old(elems)| - 1]
      ensures elems == old(elems)[..|old(elems)| - 1]
      ensures old(elems) == elems + [x]
    {
      x := elems[|elems| - 1];
      elems := elems[..|elems| - 1];
    }

    function Size(): (n: nat)
      reads this
      ensures n == |elems|
    {
      |elems|
    }

    function IsEmpty(): (b: bool)
      reads this
      ensures b <==> Size() == 0
      ensures b <==> elems == []
    {
      |elems| == 0
    }

    /** The last element, left in place; panics on an empty stack. */
    function Peek(): (x: T)
      reads this
      requires elems != []
      ensures x == elems[|elems| - 1]
      ensures elems == elems[..|elems| - 1] + [x]
    {
      elems[|elems| - 1]
    }
  }

  /** Pushing then popping gives back the pushed element and the previous
      contents. */
  method PushThenPop<T>(s: Stack<T>, x: T) returns (y: T)
    modifies s
    ensures y == x && s.elems == old(s.elems)
  {
    s.Push(x);
    y := s.Pop();
  }

  /** `Peek` returns what `Pop` then returns, and changes nothing itself. */
  method PeekThenPop<T>(s: Stack<T>) returns (peeked: T, popped: T)
    requires s.elems != []
    modifies s
    ensures peeked == popped == old(s.elems)[|old(s.elems)| - 1]
    ensures s.elems == old(s.elems)[..|old(s.elems)| - 1]
  {
    peeked := s.Peek();
    popped := s.Pop();
  }
}
