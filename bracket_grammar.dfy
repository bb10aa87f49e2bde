/**
  What it means for the brackets of a text to be properly nested and matched.
  The three bracket kinds are (), [] and {}; every other character is not a
  bracket. Balanced is the grammar
      B ::= ""  |  o B c B      (o an opener, c its closer)
  over the bracket characters of the text, stated independently of any stack.
 */
module BracketGrammar {

  /** For each closer, the opener it closes. */
  const Pairs: map<char, char> := map[')' := '(', ']' := '[', '}' := '{']

  /** The characters the scan pushes. */
  predicate IsOpener(c: char)
    ensures IsOpener(c) <==> c in "([{"
  {
    c == '(' || c == '[' || c == '{'
  }

  /** The characters the scan pops for. */
  predicate IsCloser(c: char)
    ensures IsCloser(c) <==> c in ")]}"
  {
    c == ')' || c == ']' || c == '}'
  }

  predicate IsBracket(c: char) {
    IsOpener(c) || IsCloser(c)
  }

  /** Whether the closer `c` closes the opener `o`. */
  predicate Matches(o: char, c: char)
    ensures Matches(o, c) ==> IsOpener(o) && IsCloser(c)
    ensures Matches(o, c) <==> (o == '(' && c == ')') || (o == '[' && c == ']') || (o == '{' && c == '}')
  {
    c in Pairs && Pairs[c] == o
  }

  /** The closers are exactly the keys of Pairs, and each maps to an opener. */
  lemma PairsAreBrackets(c: char)
    ensures c in Pairs <==> IsCloser(c)
    ensures c in Pairs ==> IsOpener(Pairs[c]) && Matches(Pairs[c], c)
  {
  }

  /** The bracket characters of `s`, in order; every other character dropped. */
  function Brackets(s: string): (t: string)
    ensures |t| <= |s|
    ensures forall k :: 0 <= k < |t| ==> IsBracket(t[k])
  {
    if |s| == 0 then []
    else (if IsBracket(s[0]) then [s[0]] else []) + Brackets(s[1..])
  }

  /** The bracket grammar B ::= "" | o B c B. */
  ghost predicate Balanced(t: string)
    decreases |t|, 1
  {
    t == [] || exists i :: 0 < i < |t| && GroupEndsAt(t, i)
  }

  /** t is o B c B with the first group's closer at position i. */
  ghost predicate GroupEndsAt(t: string, i: int)
    requires 0 < i < |t|
    decreases |t|, 0
  {
    Matches(t[0], t[i]) && Balanced(t[1..i]) && Balanced(t[i + 1..])
  }

  // ---------------------------------------------------------------------------
  // Brackets: the filter distributes over concatenation, so a non-bracket
  // character anywhere in a text changes nothing.

  /** The brackets of a concatenation are the concatenation of the brackets. */
  lemma {:induction false} BracketsAppend(a: string, b: string)
    ensures Brackets(a + b) == Brackets(a) + Brackets(b)
    decreases |a|
  {
    if a == [] {
      assert a + b == b;
    } else {
      assert (a + b)[0] == a[0];
      assert (a + b)[1..] == a[1..] + b;
      BracketsAppend(a[1..], b);
    }
  }

  /** Removing a character that is not a bracket leaves the bracket sequence unchanged. */
  lemma NonBracketIgnored(x: string, c: char, y: string)
    requires !IsBracket(c)
    ensures Brackets(x + [c] + y) == Brackets(x + y)
  {
    BracketsAppend(x + [c], y);
    BracketsAppend(x, [c]);
    BracketsAppend(x, y);
    assert Brackets([c]) == [] by {
      assert [c][1..] == [];
    }
  }

  /** One step of the scan: the bracket suffix from position i. */
  lemma BracketsFrom(s: string, i: nat)
    requires i < |s|
    ensures Brackets(s[i..]) == (if IsBracket(s[i]) then [s[i]] else []) + Brackets(s[i + 1..])
  {
    assert s[i..][0] == s[i];
    assert s[i..][1..] == s[i + 1..];
  }

  /** A text made of brackets only is its own bracket sequence. */
  lemma {:induction false} BracketsOfBrackets(t: string)
    requires forall k :: 0 <= k < |t| ==> IsBracket(t[k])
    ensures Brackets(t) == t
    decreases |t|
  {
    if t != [] {
      BracketsOfBrackets(t[1..]);
    }
  }

  // ---------------------------------------------------------------------------
  // Shape of balanced sequences.

  /** A non-empty balanced sequence opens with an opener. */
  lemma BalancedStartsWithOpener(t: string)
    requires Balanced(t) && t != []
    ensures IsOpener(t[0])
  {
    var i :| 0 < i < |t| && GroupEndsAt(t, i);
  }

  /** A non-empty balanced sequence ends with a closer. */
  lemma {:induction false} BalancedEndsWithCloser(t: string)
    requires Balanced(t) && t != []
    ensures IsCloser(t[|t| - 1])
    decreases |t|
  {
    var i :| 0 < i < |t| && GroupEndsAt(t, i);
    if i < |t| - 1 {
      var rest := t[i + 1..];
      BalancedEndsWithCloser(rest);
      assert rest[|rest| - 1] == t[|t| - 1];
    }
  }

  /** A sequence of openers only is balanced just when it is empty. */
  lemma OpenersBalancedOnlyIfEmpty(t: string)
    requires forall k :: 0 <= k < |t| ==> IsOpener(t[k])
    ensures Balanced(t) <==> t == []
  {
    if t != [] && Balanced(t) {
      BalancedEndsWithCloser(t);
    }
  }

  /** A matched pair around a balanced sequence, followed by a balanced sequence, is balanced. */
  lemma Group(o: char, inner: string, c: char, rest: string)
    requires Matches(o, c) && Balanced(inner) && Balanced(rest)
    ensures Balanced([o] + inner + [c] + rest)
  {
    var t := [o] + inner + [c] + rest;
    var i := |inner| + 1;
    assert t[0] == o && t[i] == c;
    assert t[1..i] == inner;
    assert t[i + 1..] == rest;
    assert GroupEndsAt(t, i);
  }

  /** A matched pair around a balanced sequence is balanced. */
  lemma Wrap(o: char, inner: string, c: char)
    requires Matches(o, c) && Balanced(inner)
    ensures Balanced([o] + inner + [c])
  {
    Group(o, inner, c, []);
    assert [o] + inner + [c] + [] == [o] + inner + [c];
  }

  /** Balanced sequences are closed under concatenation. */
  lemma {:induction false} Concat(x: string, y: string)
    requires Balanced(x) && Balanced(y)
    ensures Balanced(x + y)
    decreases |x|
  {
    if x == [] {
      assert x + y == y;
    } else {
      var i :| 0 < i < |x| && GroupEndsAt(x, i);
      Concat(x[i + 1..], y);
      Group(x[0], x[1..i], x[i], x[i + 1..] + y);
      assert x + y == [x[0]] + x[1..i] + [x[i]] + (x[i + 1..] + y) by {
        assert x == [x[0]] + x[1..i] + [x[i]] + x[i + 1..];
      }
    }
  }

  // ---------------------------------------------------------------------------
  // Inserting or deleting an adjacent matched pair: the two facts that make a
  // stack of pending openers decide the grammar.

  /** Inserting a matched pair anywhere into a balanced sequence keeps it balanced. */
  lemma {:induction false} InsertPair(x: string, y: string, o: char, c: char)
    requires Matches(o, c)
    requires Balanced(x + y)
    ensures Balanced(x + [o, c] + y)
    decreases |x + y|, 1
  {
    var w := x + y;
    if x == [] {
      Group(o, [], c, w);
      assert x + [o, c] + y == [o] + [] + [c] + w;
    } else {
      var i :| 0 < i < |w| && GroupEndsAt(w, i);
      if |x| <= i {
        InsertInFirstGroup(x, y, o, c, i);
      } else {
        InsertInRest(x, y, o, c, i);
      }
    }
  }

  /** InsertPair when the insertion point lies inside the first group's contents. */
  lemma {:induction false} InsertInFirstGroup(x: string, y: string, o: char, c: char, i: int)
    requires Matches(o, c)
    requires 0 < |x| <= i < |x + y| && GroupEndsAt(x + y, i)
    ensures Balanced(x + [o, c] + y)
    decreases |x + y|, 0
  {
    var w := x + y;
    var x1, y1 := x[1..], w[|x|..i];
    SplitAroundInsertion(x, y, o, c, i);
    InsertPair(x1, y1, o, c);
    Group(w[0], x1 + [o, c] + y1, w[i], w[i + 1..]);
  }

  /** The slicing behind InsertInFirstGroup. */
  lemma SplitAroundInsertion(x: string, y: string, o: char, c: char, i: int)
    requires 0 < |x| <= i < |x + y|
    ensures var w := x + y;
      && w[1..i] == x[1..] + w[|x|..i]
      && x + [o, c] + y == [w[0]] + (x[1..] + [o, c] + w[|x|..i]) + [w[i]] + w[i + 1..]
  {
    var w := x + y;
    var x1, y1 := x[1..], w[|x|..i];
    assert w[1..i] == x1 + y1;
    assert x == [w[0]] + x1;
    assert y == y1 + [w[i]] + w[i + 1..];
  }

  /** InsertPair when the insertion point lies after the first group. */
  lemma {:induction false} InsertInRest(x: string, y: string, o: char, c: char, i: int)
    requires Matches(o, c)
    requires 0 < i < |x| && GroupEndsAt(x + y, i)
    ensures Balanced(x + [o, c] + y)
    decreases |x + y|, 0
  {
    var w := x + y;
    var x2 := x[i + 1..];
    assert w[i + 1..] == x2 + y;
    InsertPair(x2, y, o, c);
    Group(w[0], w[1..i], w[i], x2 + [o, c] + y);
    assert x + [o, c] + y == [w[0]] + w[1..i] + [w[i]] + (x2 + [o, c] + y) by {
      assert x == [w[0]] + w[1..i] + [w[i]] + x2;
    }
  }

  /**
    In a balanced sequence o B c B, an adjacent opener-closer pair at positions
    k, k + 1 is either the outer pair itself (with B empty), or lies wholly
    inside the first B, or wholly inside the second.
   */
  lemma PairPosition(w: string, i: int, k: int)
    requires 0 < i < |w| && GroupEndsAt(w, i)
    requires 0 <= k && k + 1 < |w| && IsOpener(w[k]) && IsCloser(w[k + 1])
    ensures (k == 0 && i == 1) || (0 < k && k + 1 < i) || i < k
  {
    var b1 := w[1..i];
    if k == 0 && i != 1 {
      assert b1[0] == w[1];
      BalancedStartsWithOpener(b1);
      assert false;
    } else if k != 0 && k + 1 == i {
      assert b1[|b1| - 1] == w[k];
      BalancedEndsWithCloser(b1);
      assert false;
    }
  }

  /**
    An adjacent opener-closer pair in a balanced sequence is a matched pair,
    and deleting it leaves a balanced sequence.
   */
  lemma {:induction false} DeletePair(x: string, y: string, o: char, c: char)
    requires IsOpener(o) && IsCloser(c)
    requires Balanced(x + [o, c] + y)
    ensures Matches(o, c)
    ensures Balanced(x + y)
    decreases |x + y|, 1
  {
    var w := x + [o, c] + y;
    var k := |x|;
    assert w[k] == o && w[k + 1] == c;
    var i :| 0 < i < |w| && GroupEndsAt(w, i);
    PairPosition(w, i, k);
    if k == 0 {
      assert x + y == w[i + 1..];
    } else if k + 1 < i {
      DeleteInFirstGroup(x, y, o, c, i);
    } else {
      DeleteInRest(x, y, o, c, i);
    }
  }

  /** DeletePair when the pair lies inside the first group's contents. */
  lemma {:induction false} DeleteInFirstGroup(x: string, y: string, o: char, c: char, i: int)
    requires IsOpener(o) && IsCloser(c)
    requires 0 < |x| && |x| + 1 < i < |x| + 2 + |y|
    requires GroupEndsAt(x + [o, c] + y, i)
    ensures Matches(o, c)
    ensures Balanced(x + y)
    decreases |x + y|, 0
  {
    var w := x + [o, c] + y;
    var j := i - |x| - 2;
    var x1, y1 := x[1..], y[..j];
    SplitAroundInnerPair(x, y, o, c, i);
    DeletePair(x1, y1, o, c);
    Group(w[0], x1 + y1, w[i], w[i + 1..]);
  }

  /** The slicing behind DeleteInFirstGroup. */
  lemma SplitAroundInnerPair(x: string, y: string, o: char, c: char, i: int)
    requires 0 < |x| && |x| + 1 < i < |x| + 2 + |y|
    ensures var w, j := x + [o, c] + y, i - |x| - 2;
      && w[1..i] == x[1..] + [o, c] + y[..j]
      && x + y == [w[0]] + (x[1..] + y[..j]) + [w[i]] + w[i + 1..]
  {
    var w, j := x + [o, c] + y, i - |x| - 2;
    var x1, y1, b2 := x[1..], y[..j], w[i + 1..];
    assert x == [w[0]] + x1;
    assert y == y1 + [w[i]] + b2 by {
      assert y[j] == w[i];
      assert y[j + 1..] == b2;
    }
    assert w[1..i] == x1 + [o, c] + y1;
  }

  /** DeletePair when the pair lies after the first group. */
  lemma {:induction false} DeleteInRest(x: string, y: string, o: char, c: char, i: int)
    requires IsOpener(o) && IsCloser(c)
    requires 0 < i < |x|
    requires GroupEndsAt(x + [o, c] + y, i)
    ensures Matches(o, c)
    ensures Balanced(x + y)
    decreases |x + y|, 0
  {
    var w := x + [o, c] + y;
    var b1, b2 := w[1..i], w[i + 1..];
    var x2 := x[i + 1..];
    assert x == [w[0]] + b1 + [w[i]] + x2 by {
      assert x[1..i] == b1;
      assert x == [x[0]] + x[1..i] + [x[i]] + x2;
    }
    assert b2 == x2 + [o, c] + y;
    DeletePair(x2, y, o, c);
    Group(w[0], b1, w[i], x2 + y);
    assert x + y == [w[0]] + b1 + [w[i]] + (x2 + y);
  }

  /** A sequence that opens with a closer is not balanced. */
  lemma CloserFirstUnbalanced(c: char, rest: string)
    requires IsCloser(c)
    ensures !Balanced([c] + rest)
  {
    if Balanced([c] + rest) {
      BalancedStartsWithOpener([c] + rest);
      assert false;
    }
  }
}
