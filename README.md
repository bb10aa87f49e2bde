# Generic stack and bracket checker

A model of the generic last-in-first-out `Stack` of `code/noop4_2.py` and of
the bracket checker `check_parentheses` that its demonstration builds on it.

- `stack.dfy`, module `Stacks`: the class `Stack<T>`. Its list of elements is
  the field `items`, whose last element is the top of the stack. `Push`, `Pop`
  and `Clear` are methods that change `items` in place. `IsEmpty`, `Peek`,
  `Size` and `Length` (Python's `__len__`) are functions that only read it.
  Python's `IndexError` from `pop` on an empty stack becomes the `Failure`
  case of a `Result`, and `peek`'s `None` becomes an `Option`.
- `bracket_grammar.dfy`, module `BracketGrammar`: what the checker decides,
  defined without a stack.
  - `Brackets(s)` keeps the characters of `s` that are one of `()[]{}`.
  - `Balanced` is the grammar `B ::= "" | o B c B`, where `o` and `c` are
    matching opener and closer.
  - The lemmas `InsertPair` and `DeletePair` are the two facts that let a
    stack of pending openers decide that grammar.
- `parentheses.dfy`, module `Parentheses`: `CheckParentheses` runs the same
  scan as the source over a `Stack<char>`. It is proved to return true
  exactly when `Balanced(Brackets(expression))` holds. `CheckAll` runs it
  over a list of expressions.
- `demonstration.dfy`, module `ParenthesesDemo`: the grammar's verdict on each
  of the demonstration's six expressions and on the empty text, and a method
  that runs the checker on the six expressions.
- `stack_usage.dfy`, module `StackUsage`:
  - pushing a list and then popping until the stack is empty gives the list
    reversed;
  - a pop straight after a push returns the pushed value and restores the
    stack.

## Model

| member | source | states |
|---|---|---|
| Stacks.Stack.constructor | code/noop4_2.py:14-16 | a new stack holds no items: it is empty and its size is 0 |
| Stacks.Stack.Push | code/noop4_2.py:18-20 | the new list is the old list with the item appended; the size grows by one; the items below are unchanged; peek now returns the item |
| Stacks.Stack.Pop | code/noop4_2.py:22-26 | fails with IndexError exactly when the stack was empty, and then leaves it unchanged; otherwise it returns the old top and the new list is the old one without its last element |
| Stacks.Stack.IsEmpty | code/noop4_2.py:28-30 | true exactly when the list is empty |
| Stacks.Stack.Peek | code/noop4_2.py:32-36 | None exactly when the stack is empty, otherwise Some of the last element of the list; it only reads the stack (for element types that include None, see Left out) |
| Stacks.Stack.Size | code/noop4_2.py:38-40 | the number of items, which is 0 exactly when the stack is empty |
| Stacks.Stack.Clear | code/noop4_2.py:42-44 | afterwards the list is empty, the size is 0 and peek returns None |
| Stacks.Stack.Length | code/noop4_2.py:54-56 | `len()` gives the same count as `size()` |
| StackUsage.DrainReversed | code/noop4_2.py:85-96 | pushing a list and popping until empty gives back every element in reverse order: for an input of n elements, position k of the result holds input element n-1-k (that no pop fails is checked by an assertion in the body, not stated by the contract) |
| StackUsage.PushThenPop | code/noop4_2.py:18-26 | a pop straight after push(x) succeeds with x and restores the stack's list |
| BracketGrammar.PairsAreBrackets | code/noop4_2.py:151 | the keys of the pairs table `Pairs` are exactly the closers, and each maps to the opener it closes |
| BracketGrammar.IsOpener | code/noop4_2.py:154 | true exactly for the characters of "([{", the ones the scan pushes |
| BracketGrammar.IsCloser | code/noop4_2.py:156 | true exactly for the characters of ")]}", the ones for which the scan pops |
| BracketGrammar.Matches | code/noop4_2.py:159 | the popped opener passes the test against `pairs[char]` exactly for the pairs (), [] and {}; a matching pair is always an opener followed by a closer |
| BracketGrammar.Brackets | code/noop4_2.py:153-156 | the characters the scan acts on: only brackets, never more than the text holds |
| BracketGrammar.BracketsAppend | code/noop4_2.py:153-156 | the scan's bracket sequence for a concatenation is the concatenation of the parts' sequences |
| BracketGrammar.NonBracketIgnored | code/noop4_2.py:154-156 | deleting a character that is not a bracket leaves the bracket sequence, and so the verdict, unchanged |
| BracketGrammar.BracketsOfBrackets | code/noop4_2.py:153-156 | a text made only of brackets is its own bracket sequence |
| BracketGrammar.OpenersBalancedOnlyIfEmpty | code/noop4_2.py:162 | a sequence made only of openers is balanced exactly when it is empty, which is why the final `is_empty()` decides the answer |
| BracketGrammar.CloserFirstUnbalanced | code/noop4_2.py:156-158 | a sequence that starts with a closer is not balanced, which is why a closer met with an empty stack returns False |
| BracketGrammar.DeletePair | code/noop4_2.py:159-160 | if an adjacent opener and closer lie in a balanced sequence, they match, and deleting them leaves a balanced sequence; so a mismatched pop means the text is unbalanced |
| BracketGrammar.InsertPair | code/noop4_2.py:155-160 | inserting a matched opener and closer anywhere in a balanced sequence keeps it balanced; so popping a matching opener keeps the verdict |
| BracketGrammar.BalancedEndsWithCloser | code/noop4_2.py:162 | a non-empty balanced sequence ends with a closer |
| BracketGrammar.Concat | code/noop4_2.py:153-162 | balanced sequences are closed under concatenation |
| Parentheses.CheckParentheses | code/noop4_2.py:148-162 | returns true exactly when the brackets of the expression are properly nested and matched (`Balanced(Brackets(expression))`); characters that are not brackets play no part |
| Parentheses.CheckAll | code/noop4_2.py:173-174 | one verdict per expression, in order, each true exactly when that expression's brackets are balanced |
| ParenthesesDemo.TwoGroupsAccepted | code/noop4_2.py:165 | "(a + b) * (c - d)" is balanced |
| ParenthesesDemo.MixedKindsAccepted | code/noop4_2.py:166 | "[(x + y) * {z - w}]" is balanced |
| ParenthesesDemo.MismatchedKindRejected | code/noop4_2.py:167 | "(a + b] * c" is not balanced |
| ParenthesesDemo.UnclosedOpenerRejected | code/noop4_2.py:168 | "((a + b) * c" is not balanced |
| ParenthesesDemo.UnmatchedCloserRejected | code/noop4_2.py:169 | "a + b) * c" is not balanced |
| ParenthesesDemo.NestedAccepted | code/noop4_2.py:170 | "{[()]}" is balanced |
| ParenthesesDemo.CheckDemonstrationExpressions | code/noop4_2.py:164-174 | running the checker on the six expressions in their order gives true, true, false, false, false, true |
| ParenthesesDemo.EmptyAccepted | code/noop4_2.py:162 | the empty text is balanced: with no characters the scan returns `is_empty()` of a new stack |

## Left out

- `__str__` and `__repr__` (lines 46-52) build display text only. They are not modelled.
- The printing in `demonstrate_stack` is not modelled. The stack operations it performs are covered by `DrainReversed`, `PushThenPop` and the contracts of the stack's members.
- The `Person` class of the demonstration (lines 103-109) is not modelled. It only supplies values to push.
- The message text of the `IndexError` raised by `pop` is not modelled. Only the error kind is.
- Python's `TypeVar`/`Generic` typing is not modelled. The Dafny type parameter `T` of `Stack<T>` takes its place, and Dafny checks it statically rather than leaving it as a hint.
- `code/noop4_1.py` is not part of this model.
- Stacks.Stack.Peek: the result is an `Option`, so on a stack whose top element is itself None (say a stack of `Option<int>` after pushing None) it returns `Some(None)`, which differs from the `None` of an empty stack. Python's `peek` returns `None` in both cases, so a caller there cannot tell an empty stack from one whose top is None. "None exactly when empty" holds for the model and for the source only on element types that exclude None.
- The status line printed for each expression (lines 175-176) is not modelled; `CheckAll` returns the verdicts instead.
- The empty text is not one of the demonstration's expressions. Its verdict is added for completeness.
