/**
  The ways the repository's demonstration drives a stack: pushing a list of
  values and popping them all back, and a pop straight after a push.
 */
module StackUsage {
  import opened Stacks

  /**
    Pushes every element of `xs` onto a new stack, then pops until the stack
    is empty, collecting what pop returns: the elements come back in reverse
    order, and every pop succeeds.
   */
  method DrainReversed<T>(xs: seq<T>) returns (out: seq<T>)
    ensures |out| == |xs|
    ensures forall k :: 0 <= k < |xs| ==> out[k] == xs[|xs| - 1 - k]
  {
    var stack := new Stack<T>();
    for i := 0 to |xs|
      invariant stack.items == xs[..i]
    {
      stack.Push(xs[i]);
    }
    assert xs[..|xs|] == xs;
    out := [];
    while !stack.IsEmpty()
      // the stack still holds the part of xs not yet popped
      invariant |out| <= |xs|
      invariant stack.items == xs[..|xs| - |out|]
      invariant forall k :: 0 <= k < |out| ==> out[k] == xs[|xs| - 1 - k]
      decreases |stack.items|
    {
      var r := stack.Pop();
      assert r.Success?;
      out := out + [r.value];
    }
  }

  /** A pop straight after a push returns the pushed value and restores the stack. */
  method PushThenPop<T>(s: Stack<T>, x: T) returns (r: Result<T>)
    modifies s
    ensures r == Success(x)
    ensures s.items == old(s.items)
  {
    s.Push(x);
    r := s.Pop();
  }
}
