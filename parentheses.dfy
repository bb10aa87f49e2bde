/**
  The bracket checker: scans a text once, pushing every opener on a stack of
  characters and popping it again at the closer that should match it.
 */
module Parentheses {
  import opened Stacks
  import opened BracketGrammar

  /**
    True exactly when the brackets of `expression` are properly nested and
    matched; characters that are not brackets play no part. Returns false as
    soon as a closer finds the stack empty or pops an opener of another kind.
   */
  method CheckParentheses(expression: string) returns (ok: bool)
    ensures ok <==> Balanced(Brackets(expression))
  {
    var stack := new Stack<char>();
    assert stack.items + Brackets(expression[0..]) == Brackets(expression);
    for i := 0 to |expression|
      // the stack holds the openers of expression[..i] still waiting for a closer
      invariant forall k :: 0 <= k < |stack.items| ==> IsOpener(stack.items[k])
      invariant Balanced(Brackets(expression)) <==> Balanced(stack.items + Brackets(expression[i..]))
    {
      var c := expression[i];
      ghost var rest := Brackets(expression[i + 1..]);
      BracketsFrom(expression, i);
      if IsOpener(c) {
        assert stack.items + ([c] + rest) == (stack.items + [c]) + rest;
        stack.Push(c);
      } else if IsCloser(c) {
        if stack.IsEmpty() {
          assert stack.items + ([c] + rest) == [c] + rest;
          CloserFirstUnbalanced(c, rest);
          return false;
        }
        ghost var below := stack.items[..|stack.items| - 1];
        ghost var o := stack.items[|stack.items| - 1];
        assert stack.items + ([c] + rest) == below + [o, c] + rest;
        PairsAreBrackets(c);
        var popped := stack.Pop();
        if popped.value != Pairs[c] {
          if Balanced(below + [o, c] + rest) {
            DeletePair(below, rest, o, c);
          }
          return false;
        }
        if Balanced(below + [o, c] + rest) {
          DeletePair(below, rest, o, c);
        }
        if Balanced(below + rest) {
          InsertPair(below, rest, o, c);
        }
      } else {
        assert stack.items + ([] + rest) == stack.items + rest;
      }
    }
    assert expression[|expression|..] == [];
    OpenersBalancedOnlyIfEmpty(stack.items);
    assert stack.items + [] == stack.items;
    return stack.IsEmpty();
  }

  /**
    Runs the checker over a list of expressions, one verdict per expression in
    the same order.
   */
  method CheckAll(expressions: seq<string>) returns (verdicts: seq<bool>)
    ensures |verdicts| == |expressions|
    ensures forall k :: 0 <= k < |expressions| ==> (verdicts[k] <==> Balanced(Brackets(expressions[k])))
  {
    verdicts := [];
    for i := 0 to |expressions|
      invariant |verdicts| == i
      invariant forall k :: 0 <= k < i ==> (verdicts[k] <==> Balanced(Brackets(expressions[k])))
    {
      var ok := CheckParentheses(expressions[i]);
      verdicts := verdicts + [ok];
    }
  }
}
