/**
  The expressions the repository's demonstration hands to the bracket checker,
  and the grammar's verdict on each. Through the postcondition of
  CheckParentheses (ok <==> Balanced(Brackets(expression))) these are the
  answers the checker gives, as CheckDemonstrationExpressions shows by
  running it on them.

  Evaluating Brackets on a long string literal in one step is costly for the
  verifier, so each expression is cut into short pieces: one lemma per piece
  gives its brackets, a Cut lemma says where the expression is cut, a Join
  lemma spells out the concatenation of the pieces' brackets, and
  BracketsAppend puts the two together.
 */
module ParenthesesDemo {
  import opened BracketGrammar
  import opened Parentheses

  // ---- "(a + b) * (c - d)": two groups side by side --------------------

  lemma TwoGroupsPiece1() ensures Brackets("(a + ") == "(" {}
  lemma TwoGroupsPiece2() ensures Brackets("b) * ") == ")" {}
  lemma TwoGroupsPiece3() ensures Brackets("(c - ") == "(" {}
  lemma TwoGroupsPiece4() ensures Brackets("d)") == ")" {}
  lemma TwoGroupsCut() ensures "(a + b) * (c - d)" == "(a + " + ("b) * " + ("(c - " + "d)")) {}
  lemma TwoGroupsJoin() ensures "(" + (")" + ("(" + ")")) == "()()" {}

  /** The brackets of "(a + b) * (c - d)" are "()()". */
  lemma TwoGroupsBrackets()
    ensures Brackets("(a + b) * (c - d)") == "()()"
  {
    TwoGroupsPiece1();
    TwoGroupsPiece2();
    TwoGroupsPiece3();
    TwoGroupsPiece4();
    TwoGroupsCut();
    TwoGroupsJoin();
    BracketsAppend("(c - ", "d)");
    BracketsAppend("b) * ", "(c - " + "d)");
    BracketsAppend("(a + ", "b) * " + ("(c - " + "d)"));
  }

  /** The grammar accepts two groups side by side. */
  lemma TwoGroupsSequence()
    ensures Balanced("()()")
  {
    Wrap('(', "", ')');
    assert "()" == ['('] + "" + [')'];
    Concat("()", "()");
    assert "()()" == "()" + "()";
  }

  /** "(a + b) * (c - d)" is accepted. */
  lemma TwoGroupsAccepted()
    ensures Balanced(Brackets("(a + b) * (c - d)"))
  {
    TwoGroupsBrackets();
    TwoGroupsSequence();
  }

  // ---- "[(x + y) * {z - w}]": two kinds of group inside a third --------

  lemma MixedKindsPiece1() ensures Brackets("[(x + ") == "[(" {}
  lemma MixedKindsPiece2() ensures Brackets("y) * ") == ")" {}
  lemma MixedKindsPiece3() ensures Brackets("{z - ") == "{" {}
  lemma MixedKindsPiece4() ensures Brackets("w}]") == "}]" {}
  lemma MixedKindsCut() ensures "[(x + y) * {z - w}]" == "[(x + " + ("y) * " + ("{z - " + "w}]")) {}
  lemma MixedKindsJoin() ensures "[(" + (")" + ("{" + "}]")) == "[(){}]" {}

  /** The brackets of "[(x + y) * {z - w}]" are "[(){}]". */
  lemma MixedKindsBrackets()
    ensures Brackets("[(x + y) * {z - w}]") == "[(){}]"
  {
    MixedKindsPiece1();
    MixedKindsPiece2();
    MixedKindsPiece3();
    MixedKindsPiece4();
    MixedKindsCut();
    MixedKindsJoin();
    BracketsAppend("{z - ", "w}]");
    BracketsAppend("y) * ", "{z - " + "w}]");
    BracketsAppend("[(x + ", "y) * " + ("{z - " + "w}]"));
  }

  /** The grammar accepts a round and a curly group side by side inside a square one. */
  lemma MixedKindsSequence()
    ensures Balanced("[(){}]")
  {
    Wrap('(', "", ')');
    assert "()" == ['('] + "" + [')'];
    Wrap('{', "", '}');
    assert "{}" == ['{'] + "" + ['}'];
    Concat("()", "{}");
    assert "(){}" == "()" + "{}";
    Wrap('[', "(){}", ']');
    assert "[(){}]" == ['['] + "(){}" + [']'];
  }

  /** "[(x + y) * {z - w}]" is accepted. */
  lemma MixedKindsAccepted()
    ensures Balanced(Brackets("[(x + y) * {z - w}]"))
  {
    MixedKindsBrackets();
    MixedKindsSequence();
  }

  // ---- "(a + b] * c": a closer of another kind -------------------------

  lemma MismatchedKindPiece2() ensures Brackets("b] * c") == "]" {}
  lemma MismatchedKindCut() ensures "(a + b] * c" == "(a + " + "b] * c" {}
  lemma MismatchedKindJoin() ensures "(" + "]" == "(]" {}

  /** The brackets of "(a + b] * c" are "(]". */
  lemma MismatchedKindBrackets()
    ensures Brackets("(a + b] * c") == "(]"
  {
    TwoGroupsPiece1();
    MismatchedKindPiece2();
    MismatchedKindCut();
    MismatchedKindJoin();
    BracketsAppend("(a + ", "b] * c");
  }

  /** The grammar rejects an opener followed by a closer of another kind. */
  lemma MismatchedKindSequence()
    ensures !Balanced("(]")
  {
  }

  /** "(a + b] * c" is rejected. */
  lemma MismatchedKindRejected()
    ensures !Balanced(Brackets("(a + b] * c"))
  {
    MismatchedKindBrackets();
    MismatchedKindSequence();
  }

  // ---- "((a + b) * c": an opener never closed --------------------------

  lemma UnclosedOpenerPiece1() ensures Brackets("((a + ") == "((" {}
  lemma UnclosedOpenerPiece2() ensures Brackets("b) * c") == ")" {}
  lemma UnclosedOpenerCut() ensures "((a + b) * c" == "((a + " + "b) * c" {}
  lemma UnclosedOpenerJoin() ensures "((" + ")" == "(()" {}

  /** The brackets of "((a + b) * c" are "(()". */
  lemma UnclosedOpenerBrackets()
    ensures Brackets("((a + b) * c") == "(()"
  {
    UnclosedOpenerPiece1();
    UnclosedOpenerPiece2();
    UnclosedOpenerCut();
    UnclosedOpenerJoin();
    BracketsAppend("((a + ", "b) * c");
  }

  /** The grammar rejects a group preceded by an opener that is never closed. */
  lemma UnclosedOpenerSequence()
    ensures !Balanced("(()")
  {
  }

  /** "((a + b) * c" is rejected. */
  lemma UnclosedOpenerRejected()
    ensures !Balanced(Brackets("((a + b) * c"))
  {
    UnclosedOpenerBrackets();
    UnclosedOpenerSequence();
  }

  // ---- "a + b) * c": a closer with nothing to close --------------------

  lemma UnmatchedCloserPiece1() ensures Brackets("a + ") == "" {}
  lemma UnmatchedCloserCut() ensures "a + b) * c" == "a + " + "b) * c" {}
  lemma UnmatchedCloserJoin() ensures "" + ")" == ")" {}

  /** The brackets of "a + b) * c" are ")". */
  lemma UnmatchedCloserBrackets()
    ensures Brackets("a + b) * c") == ")"
  {
    UnmatchedCloserPiece1();
    UnclosedOpenerPiece2();
    UnmatchedCloserCut();
    UnmatchedCloserJoin();
    BracketsAppend("a + ", "b) * c");
  }

  /** The grammar rejects a lone closer. */
  lemma UnmatchedCloserSequence()
    ensures !Balanced(")")
  {
    CloserFirstUnbalanced(')', "");
    assert ")" == [')'] + "";
  }

  /** "a + b) * c" is rejected. */
  lemma UnmatchedCloserRejected()
    ensures !Balanced(Brackets("a + b) * c"))
  {
    UnmatchedCloserBrackets();
    UnmatchedCloserSequence();
  }

  // ---- "{[()]}": three kinds, each nested in the next ------------------

  /** "{[()]}" holds nothing but brackets. */
  lemma NestedBrackets()
    ensures Brackets("{[()]}") == "{[()]}"
  {
  }

  /** The grammar accepts three kinds of group, each nested in the next. */
  lemma NestedSequence()
    ensures Balanced("{[()]}")
  {
    Wrap('(', "", ')');
    assert "()" == ['('] + "" + [')'];
    Wrap('[', "()", ']');
    assert "[()]" == ['['] + "()" + [']'];
    Wrap('{', "[()]", '}');
    assert "{[()]}" == ['{'] + "[()]" + ['}'];
  }

  /** "{[()]}" is accepted. */
  lemma NestedAccepted()
    ensures Balanced(Brackets("{[()]}"))
  {
    NestedBrackets();
    NestedSequence();
  }

  /** The empty text is accepted. */
  lemma EmptyAccepted()
    ensures Balanced(Brackets(""))
  {
  }

  // ---- the demonstration's run ------------------------------------------

  /**
    Runs the checker over the demonstration's six expressions, in their
    order: the first two and the last are accepted, the other three rejected.
   */
  method CheckDemonstrationExpressions() returns (verdicts: seq<bool>)
    ensures verdicts == [true, true, false, false, false, true]
  {
    var twoGroups := CheckParentheses("(a + b) * (c - d)");
    TwoGroupsAccepted();
    var mixedKinds := CheckParentheses("[(x + y) * {z - w}]");
    MixedKindsAccepted();
    var mismatchedKind := CheckParentheses("(a + b] * c");
    MismatchedKindRejected();
    var unclosedOpener := CheckParentheses("((a + b) * c");
    UnclosedOpenerRejected();
    var unmatchedCloser := CheckParentheses("a + b) * c");
    UnmatchedCloserRejected();
    var nested := CheckParentheses("{[()]}");
    NestedAccepted();
    verdicts := [twoGroups, mixedKinds, mismatchedKind, unclosedOpener, unmatchedCloser, nested];
  }
}
