/**
  A generic last-in-first-out stack. The elements are held in a list whose
  last element is the top of the stack; push, pop and clear change that list
  in place, the other operations only read it.
 */
module Stacks {

  /** An optional value: what peek returns (None for an empty stack). */
  datatype Option<T> = None | Some(value: T)

  /** The single error kind of the stack: popping from an empty stack. */
  datatype StackError = IndexError

  /** The outcome of pop: the removed element, or the error it raises. */
  datatype Result<T> = Success(value: T) | Failure(error: StackError)

  class Stack<T> {
    /** The stack's list; its last element is the top. */
    var items: seq<T>

    /** A new stack holds nothing. */
    constructor ()
      ensures items == []
      ensures IsEmpty() && Size() == 0
    {
      items := [];
    }

    /** Places `item` on top; everything below it stays as it was. */
    method Push(item: T)
      modifies this
      ensures items == old(items) + [item]
      ensures Size() == old(Size()) + 1
      ensures Peek() == Some(item)
    {
      items := items + [item];
    }

    /**
      Removes and returns the top element. On an empty stack it fails with
      IndexError and leaves the stack as it was.
     */
    method Pop() returns (r: Result<T>)
      modifies this
      ensures old(IsEmpty()) <==> r.Failure?
      ensures r.Failure? ==> r.error == IndexError && items == old(items)
      ensures r.Success? ==> old(Peek()) == Some(r.value) && Size() == old(Size()) - 1
      ensures r.Success? ==> items == old(items)[..|old(items)| - 1]
      ensures old(items) == items + (if r.Success? then [r.value] else [])
    {
      if IsEmpty() {
        return Failure(IndexError);
      }
      r := Success(items[|items| - 1]);
      items := items[..|items| - 1];
    }

    /** Whether the stack holds no element. */
    function IsEmpty(): (empty: bool)
      reads this
      ensures empty <==> items == []
    {
      |items| == 0
    }

    /** The top element without removing it, or None when the stack is empty. */
    function Peek(): (top: Option<T>)
      reads this
      ensures top.None? <==> IsEmpty()
      ensures top.Some? ==> top.value == items[|items| - 1] && top.value in items
    {
      if IsEmpty() then None else Some(items[|items| - 1])
    }

    /** The number of elements on the stack. */
    function Size(): (n: nat)
      reads this
      ensures n == |items|
      ensures n == 0 <==> IsEmpty()
    {
      |items|
    }

    /** The same count as Size, under the length protocol. */
    function Length(): (n: nat)
      reads this
      ensures n == Size()
    {
      |items|
    }

    /** Removes every element. */
    method Clear()
      modifies this
      ensures items == []
      ensures IsEmpty() && Size() == 0 && Peek() == None
    {
      items := [];
    }
  }
}
