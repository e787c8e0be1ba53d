/** The shape precedence climbing gives a tree. Parentheses let a query
    place any tree anywhere, so the shape is stated for a query with no `(`
    from the starting index on: there every primary is a constant or a
    column, tighter operators end up below looser ones, and operators of
    equal precedence group to the left. */
module Precedence {
  import opened Base
  import opened Operators
  import opened Lexer
  import opened ExprParser

  /** No opening parenthesis at or after index `i`. */
  predicate NoParenFrom(q: string, i: nat) {
    forall k | i <= k < |q| :: q[k] != '('
  }

  /** An atom binds at every level; a binary node binds at `p` when its
      operator's precedence is at least `p`. */
  predicate Binds(e: Expr, p: int) {
    e.Binary? ==> OperatorPrecedence(e.op) >= p
  }

  /** Every binary node's left child binds at the node's own precedence and
      its right child strictly tighter: `a - b - c` is `(a - b) - c` and
      `a + b * c` is `a + (b * c)`. */
  predicate Ordered(e: Expr) {
    match e
    case Binary(op, _, l, r) =>
      Binds(l, OperatorPrecedence(op)) && Binds(r, OperatorPrecedence(op) + 1)
      && Ordered(l) && Ordered(r)
    case _ => true
  }

  /** The token at `i` is an operator of precedence at least `p`. */
  predicate OperatorAtLeast(d: Dialect, q: string, i: nat, p: int) {
    var t := Lex(d, q, i).tok;
    t.Operator? && OperatorPrecedence(t.op) >= p
  }

  /** Without parentheses a successful primary is a constant or a column. */
  lemma PrimaryAtom(d: Dialect, q: string, i: nat)
    requires NoParenFrom(q, i)
    requires ParsePrimary(d, q, i).expr.Some?
    ensures !ParsePrimary(d, q, i).expr.value.Binary?
  {
    var t := Lex(d, q, i);
    if t.tok == LeftParen {
      assert false;
    }
  }

  /** A right operand of an operator of precedence `cp` binds strictly
      tighter than `cp`, and it stops before any operator that does not. */
  lemma {:induction false} OperandOrdered(d: Dialect, q: string, i: nat, cp: int)
    requires NoParenFrom(q, i)
    requires RightOperand(d, q, i, cp).expr.Some?
    ensures Ordered(RightOperand(d, q, i, cp).expr.value)
    ensures Binds(RightOperand(d, q, i, cp).expr.value, cp + 1)
    ensures !OperatorAtLeast(d, q, RightOperand(d, q, i, cp).next, cp + 1)
    decreases |q| - i
  {
    var p := ParsePrimary(d, q, i);
    PrimaryAtom(d, q, i);
    OperandUnfolds(d, q, i, cp);
    if OperatorAtLeast(d, q, p.next, cp + 1) {
      RHSOrdered(d, q, p.next, cp + 1, p.expr.value);
    }
  }

  /** RightOperand, unfolded once: the primary, extended only when an
      operator binding tighter than `cp` follows it. */
  lemma OperandUnfolds(d: Dialect, q: string, i: nat, cp: int)
    requires RightOperand(d, q, i, cp).expr.Some?
    ensures var p := ParsePrimary(d, q, i);
            p.expr.Some? &&
            RightOperand(d, q, i, cp)
              == if OperatorAtLeast(d, q, p.next, cp + 1) then ParseRHS(d, q, p.next, cp + 1, p.expr.value) else p
  {
  }

  /** The right-hand-side loop keeps its tree ordered: given a left side
      that binds at `prec`, and at the precedence of an operator that may
      follow it, the result binds at `prec`, and the loop stops only at a
      token that is not an operator of precedence `prec` or more. */
  lemma {:induction false} RHSOrdered(d: Dialect, q: string, i: nat, prec: int, lhs: Expr)
    requires NoParenFrom(q, i)
    requires Typed(lhs) && Ordered(lhs) && Binds(lhs, prec)
    requires Lex(d, q, i).tok.Operator? ==> Binds(lhs, OperatorPrecedence(Lex(d, q, i).tok.op))
    requires ParseRHS(d, q, i, prec, lhs).expr.Some?
    ensures Ordered(ParseRHS(d, q, i, prec, lhs).expr.value)
    ensures Binds(ParseRHS(d, q, i, prec, lhs).expr.value, prec)
    ensures !OperatorAtLeast(d, q, ParseRHS(d, q, i, prec, lhs).next, prec)
    decreases |q| - i
  {
    var t := Lex(d, q, i);
    if OperatorAtLeast(d, q, i, prec) {
      var op := t.tok.op;
      var cp := OperatorPrecedence(op);
      var rhs := RightOperand(d, q, t.next, cp);
      RHSUnfolds(d, q, i, prec, lhs);
      OperandOrdered(d, q, t.next, cp);
      var b := Binary(op, OperatorType(op), lhs, rhs.expr.value);
      assert Ordered(b);
      RHSOrdered(d, q, rhs.next, prec, b);
    }
  }

  /** The operator step of ParseRHS, unfolded once. */
  lemma RHSUnfolds(d: Dialect, q: string, i: nat, prec: int, lhs: Expr)
    requires Typed(lhs)
    requires OperatorAtLeast(d, q, i, prec)
    requires ParseRHS(d, q, i, prec, lhs).expr.Some?
    ensures var t := Lex(d, q, i);
            var rhs := RightOperand(d, q, t.next, OperatorPrecedence(t.tok.op));
            rhs.expr.Some? &&
            ParseRHS(d, q, i, prec, lhs)
              == ParseRHS(d, q, rhs.next, prec, Binary(t.tok.op, OperatorType(t.tok.op), lhs, rhs.expr.value))
  {
  }

  /** A parenthesis-free operation is ordered by precedence, and it takes in
      every operator that follows: the next token is not an operator. */
  lemma OperationOrdered(d: Dialect, q: string, i: nat)
    requires NoParenFrom(q, i)
    requires ParseOperation(d, q, i).expr.Some?
    ensures Ordered(ParseOperation(d, q, i).expr.value)
    ensures !Lex(d, q, ParseOperation(d, q, i).next).tok.Operator?
  {
    var p := ParsePrimary(d, q, i);
    PrimaryAtom(d, q, i);
    RHSOrdered(d, q, p.next, 0, p.expr.value);
  }
}
