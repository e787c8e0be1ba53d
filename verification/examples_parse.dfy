/** Worked inputs for the expression parser: multiplication binds tighter
    than addition, and subtraction groups to the left. */
module ParseExamples {
  import opened Base
  import opened Chars
  import opened Operators
  import opened Lexer
  import opened ExprParser

  lemma LexIdentifier(d: Dialect, q: string, i: nat)
    requires i < |q| && IsAlpha(q[i]) && !IsAlnum(At(q, i + 1))
    requires q[i] != 'S' && q[i] != 'F' && q[i] != 'W' && q[i] != 'A' && q[i] != 'O'
    ensures Lex(d, q, i) == Lexed(Identifier([q[i]]), i + 1)
  {
    assert q[i..i + 1] == [q[i]];
    assert Span(q, i, Spaces) == i;
    assert Span(q, i, AlNums) == i + 1 by {
      assert Span(q, i + 1, AlNums) == i + 1;
    }
    LexWord(d, q, i);
  }

  lemma LexOperator(d: Dialect, q: string, i: nat)
    requires i < |q| && IsOperatorChar(q[i]) && !IsOperatorChar(At(q, i + 1))
    requires IsOperator([q[i]])
    ensures Lex(d, q, i) == Lexed(Operator([q[i]]), i + 1)
  {
    assert q[i..i + 1] == [q[i]];
    assert Span(q, i, Spaces) == i;
    assert Span(q, i, OperatorChars) == i + 1 by {
      assert Span(q, i + 1, OperatorChars) == i + 1;
    }
    LexOperatorRun(d, q, i);
  }

  /** The tokens of a five-character query `a?b?c` whose `?`s are
      one-character operators. */
  lemma Tokens(d: Dialect, q: string)
    requires |q| == 5 && q[0] == 'a' && q[2] == 'b' && q[4] == 'c'
    requires IsOperatorChar(q[1]) && IsOperator([q[1]])
    requires IsOperatorChar(q[3]) && IsOperator([q[3]])
    ensures Lex(d, q, 0) == Lexed(Identifier("a"), 1)
    ensures Lex(d, q, 1) == Lexed(Operator([q[1]]), 2)
    ensures Lex(d, q, 2) == Lexed(Identifier("b"), 3)
    ensures Lex(d, q, 3) == Lexed(Operator([q[3]]), 4)
    ensures Lex(d, q, 4) == Lexed(Identifier("c"), 5)
    ensures Lex(d, q, 5).tok == Eof
  {
    LeadingTokens(d, q);
    TrailingTokens(d, q);
  }

  lemma LeadingTokens(d: Dialect, q: string)
    requires |q| == 5 && q[0] == 'a' && q[2] == 'b'
    requires IsOperatorChar(q[1]) && IsOperator([q[1]])
    requires IsOperatorChar(q[3])
    ensures Lex(d, q, 0) == Lexed(Identifier("a"), 1)
    ensures Lex(d, q, 1) == Lexed(Operator([q[1]]), 2)
    ensures Lex(d, q, 2) == Lexed(Identifier("b"), 3)
  {
    LexIdentifier(d, q, 0);
    LexOperator(d, q, 1);
    LexIdentifier(d, q, 2);
  }

  lemma TrailingTokens(d: Dialect, q: string)
    requires |q| == 5 && q[4] == 'c'
    requires IsOperatorChar(q[3]) && IsOperator([q[3]])
    ensures Lex(d, q, 3) == Lexed(Operator([q[3]]), 4)
    ensures Lex(d, q, 4) == Lexed(Identifier("c"), 5)
    ensures Lex(d, q, 5).tok == Eof
  {
    LexOperator(d, q, 3);
    LexIdentifier(d, q, 4);
    assert Span(q, 5, Spaces) == 5;
  }

  /** An identifier token is a column-reference primary. */
  lemma PrimaryIdentifier(d: Dialect, q: string, i: nat, n: string, j: nat)
    requires Lex(d, q, i) == Lexed(Identifier(n), j)
    ensures ParsePrimary(d, q, i) == Parsed(Some(ColumnRef(n)), j)
  {
  }

  /** An identifier followed by nothing that binds tighter than `cp` is a
      right operand on its own. */
  lemma OperandAlone(d: Dialect, q: string, i: nat, cp: int, n: string, j: nat)
    requires Lex(d, q, i) == Lexed(Identifier(n), j)
    requires !(Lex(d, q, j).tok.Operator? && OperatorPrecedence(Lex(d, q, j).tok.op) > cp)
    ensures RightOperand(d, q, i, cp) == Parsed(Some(ColumnRef(n)), j)
  {
    PrimaryIdentifier(d, q, i, n, j);
  }

  /** An identifier followed by a tighter operator absorbs it, and what
      follows, through ParseRHS with precedence cp + 1. */
  lemma OperandAbsorbs(d: Dialect, q: string, i: nat, cp: int, n: string, j: nat)
    requires Lex(d, q, i) == Lexed(Identifier(n), j)
    requires Lex(d, q, j).tok.Operator? && OperatorPrecedence(Lex(d, q, j).tok.op) > cp
    ensures RightOperand(d, q, i, cp) == ParseRHS(d, q, j, cp + 1, ColumnRef(n))
  {
    PrimaryIdentifier(d, q, i, n, j);
  }

  /** An operation starting with an identifier continues with ParseRHS at
      precedence 0. */
  lemma OperationFrom(d: Dialect, q: string, n: string, j: nat)
    requires Lex(d, q, 0) == Lexed(Identifier(n), j)
    ensures ParseOperation(d, q, 0) == ParseRHS(d, q, j, 0, ColumnRef(n))
  {
    PrimaryIdentifier(d, q, 0, n, j);
  }

  /** The loop stops before a token that is not an operator binding at
      least `prec`. */
  lemma RHSStops(d: Dialect, q: string, i: nat, prec: int, lhs: Expr)
    requires Typed(lhs)
    requires !Lex(d, q, i).tok.Operator? || OperatorPrecedence(Lex(d, q, i).tok.op) < prec
    ensures ParseRHS(d, q, i, prec, lhs) == Parsed(Some(lhs), i)
  {
  }

  /** One turn of the loop: the operator at `i` and its right operand join
      the tree. */
  lemma RHSTakes(d: Dialect, q: string, i: nat, prec: int, lhs: Expr, op: string, j: nat, rhs: Parsed)
    requires Typed(lhs)
    requires Lex(d, q, i) == Lexed(Operator(op), j) && OperatorPrecedence(op) >= prec
    requires RightOperand(d, q, j, OperatorPrecedence(op)) == rhs && rhs.expr.Some?
    ensures Typed(Binary(op, OperatorType(op), lhs, rhs.expr.value))
    ensures ParseRHS(d, q, i, prec, lhs) == ParseRHS(d, q, rhs.next, prec, Binary(op, OperatorType(op), lhs, rhs.expr.value))
  {
  }

  /** The table entries of the three operators the examples use. */
  lemma ArithmeticOperators()
    ensures OperatorPrecedence("*") == 1200 && OperatorType("*") == Mul
    ensures OperatorPrecedence("+") == 1100 && OperatorType("+") == Add
    ensures OperatorPrecedence("-") == 1100 && OperatorType("-") == Sub
    ensures IsOperatorChar('*') && IsOperatorChar('+') && IsOperatorChar('-')
  {
  }

  /** The tokens of `a+b*c`. */
  lemma ProductTokens(d: Dialect)
    ensures Lex(d, "a+b*c", 0) == Lexed(Identifier("a"), 1)
    ensures Lex(d, "a+b*c", 1) == Lexed(Operator("+"), 2)
    ensures Lex(d, "a+b*c", 2) == Lexed(Identifier("b"), 3)
    ensures Lex(d, "a+b*c", 3) == Lexed(Operator("*"), 4)
    ensures Lex(d, "a+b*c", 4) == Lexed(Identifier("c"), 5)
    ensures Lex(d, "a+b*c", 5).tok == Eof
  {
    var q := "a+b*c";
    ArithmeticOperators();
    assert [q[1]] == "+" && [q[3]] == "*";
    Tokens(d, q);
  }

  /** In `a+b*c`, the operand of `+` is `b*c`. */
  lemma ProductOperand(d: Dialect)
    ensures RightOperand(d, "a+b*c", 2, 1100)
         == Parsed(Some(Binary("*", Mul, ColumnRef("b"), ColumnRef("c"))), 5)
  {
    var q := "a+b*c";
    ProductTokens(d);
    ArithmeticOperators();
    OperandAbsorbs(d, q, 2, 1100, "b", 3);
    OperandAlone(d, q, 4, 1200, "c", 5);
    RHSTakes(d, q, 3, 1101, ColumnRef("b"), "*", 4, Parsed(Some(ColumnRef("c")), 5));
    RHSStops(d, q, 5, 1101, Binary("*", Mul, ColumnRef("b"), ColumnRef("c")));
  }

  /** `a + b * c` reads as `a + (b * c)`. */
  lemma ProductBindsTighter(d: Dialect)
    ensures ParseOperation(d, "a+b*c", 0)
         == Parsed(Some(Binary("+", Add, ColumnRef("a"), Binary("*", Mul, ColumnRef("b"), ColumnRef("c")))), 5)
  {
    var q := "a+b*c";
    var bc := Binary("*", Mul, ColumnRef("b"), ColumnRef("c"));
    ProductTokens(d);
    ArithmeticOperators();
    OperationFrom(d, q, "a", 1);
    ProductOperand(d);
    RHSTakes(d, q, 1, 0, ColumnRef("a"), "+", 2, Parsed(Some(bc), 5));
    RHSStops(d, q, 5, 0, Binary("+", Add, ColumnRef("a"), bc));
  }

  /** `a - b - c` reads as `(a - b) - c`. */
  lemma SubtractionGroupsLeft(d: Dialect)
    ensures ParseOperation(d, "a-b-c", 0)
         == Parsed(Some(Binary("-", Sub, Binary("-", Sub, ColumnRef("a"), ColumnRef("b")), ColumnRef("c"))), 5)
  {
    var q := "a-b-c";
    var ab := Binary("-", Sub, ColumnRef("a"), ColumnRef("b"));
    ArithmeticOperators();
    assert [q[1]] == "-" && [q[3]] == "-";
    Tokens(d, q);
    OperationFrom(d, q, "a", 1);
    OperandAlone(d, q, 2, 1100, "b", 3);
    RHSTakes(d, q, 1, 0, ColumnRef("a"), "-", 2, Parsed(Some(ColumnRef("b")), 3));
    OperandAlone(d, q, 4, 1100, "c", 5);
    RHSTakes(d, q, 3, 0, ab, "-", 4, Parsed(Some(ColumnRef("c")), 5));
    RHSStops(d, q, 5, 0, Binary("-", Sub, ab, ColumnRef("c")));
  }
}
