/** Expression trees and the precedence-climbing parser of parser.h:295-390
    and parser.hpp:285-381. Every parse function returns the index it stopped
    at even when it fails, because ParseOperationList goes on after an
    operation that came back NULL. */
module ExprParser {
  import opened Base
  import opened Chars
  import opened Operators
  import opened Lexer

  /** ConstantOperation, ColumnOperation and BinaryOperation. A constant keeps
      its lexeme (the source converts it with strtod); a binary node records
      the operator's spelling and its code. */
  datatype Expr =
    | Const(lexeme: string)
    | ColumnRef(name: string)
    | Binary(op: string, optype: int, left: Expr, right: Expr)

  datatype Parsed = Parsed(expr: Option<Expr>, next: nat)

  datatype Listed = Listed(exprs: seq<Option<Expr>>, next: nat)

  /** Every binary node carries a recognised operator and the code
      OperatorType gives it (the BinaryOperation constructor of
      parser.hpp:50, CreateBinaryOperation in parser.h:351). */
  predicate Typed(e: Expr) {
    match e
    case Binary(op, t, l, r) => IsOperator(op) && t == OperatorType(op) && Typed(l) && Typed(r)
    case _ => true
  }

  /** ParsePrimary: a constant, an identifier, or `(` expression `)`. Any
      other token, or a missing `)`, is NULL. The token is consumed either way. */
  function ParsePrimary(d: Dialect, q: string, i: nat): (r: Parsed)
    ensures i <= r.next
    ensures r.expr.Some? ==> i < |q| && i < r.next && Typed(r.expr.value)
    ensures r.expr.Some? ==> Lex(d, q, i).tok.Constant? || Lex(d, q, i).tok.Identifier? || Lex(d, q, i).tok == LeftParen
    // a parenthesised operation must be closed by `)`, and a failed inner
    // operation fails the primary
    ensures Lex(d, q, i).tok == LeftParen ==>
              var inner := ParseOperation(d, q, Lex(d, q, i).next);
              var close := Lex(d, q, inner.next);
              && (r.expr.Some? <==> inner.expr.Some? && close.tok == RightParen)
              && (r.expr.Some? ==> r.expr == inner.expr)
              && r.next == close.next
    decreases |q| - i, 1
  {
    var t := Lex(d, q, i);
    match t.tok
    case Constant(l) => Parsed(Some(Const(l)), t.next)
    case Identifier(n) => Parsed(Some(ColumnRef(n)), t.next)
    case LeftParen =>
      var inner := ParseOperation(d, q, t.next);
      var close := Lex(d, q, inner.next);
      if close.tok == RightParen then Parsed(inner.expr, close.next)
      else Parsed(None, close.next)
    case _ => Parsed(None, t.next)
  }

  /** ParseRHS: extends `lhs` with every following operator that binds at
      least as tightly as `prec`; the loop of the source is the final
      recursive call. */
  function ParseRHS(d: Dialect, q: string, i: nat, prec: int, lhs: Expr): (r: Parsed)
    requires Typed(lhs)
    ensures i <= r.next
    ensures r.expr.Some? ==> Typed(r.expr.value)
    decreases |q| - i, 0
  {
    var t := Lex(d, q, i);
    if !t.tok.Operator? || OperatorPrecedence(t.tok.op) < prec then Parsed(Some(lhs), i)
    else
      var rhs := RightOperand(d, q, t.next, OperatorPrecedence(t.tok.op));
      if rhs.expr.None? then rhs
      else ParseRHS(d, q, rhs.next, prec, Binary(t.tok.op, OperatorType(t.tok.op), lhs, rhs.expr.value))
  }

  /** The right operand of an operator of precedence `cp` (parser.h:336-349):
      a primary which absorbs, through the recursive ParseRHS with precedence
      cp + 1, the operators that follow it and bind strictly tighter. */
  function RightOperand(d: Dialect, q: string, i: nat, cp: int): (r: Parsed)
    ensures i <= r.next
    ensures r.expr.Some? ==> i < |q| && i < r.next && Typed(r.expr.value)
    decreases |q| - i, 2
  {
    var p := ParsePrimary(d, q, i);
    if p.expr.None? then p
    else
      var after := Lex(d, q, p.next);
      if after.tok.Operator? && OperatorPrecedence(after.tok.op) > cp
      then ParseRHS(d, q, p.next, cp + 1, p.expr.value)
      else p
  }

  /** ParseOperation: a primary followed by its right-hand side. */
  function ParseOperation(d: Dialect, q: string, i: nat): (r: Parsed)
    ensures i <= r.next
    ensures r.expr.Some? ==> i < |q| && i < r.next && Typed(r.expr.value)
    decreases |q| - i, 2
  {
    var p := ParsePrimary(d, q, i);
    if p.expr.None? then p
    else ParseRHS(d, q, p.next, 0, p.expr.value)
  }

  /** ParseOperationList: comma-separated operations. A failed operation is
      kept as a NULL entry and parsing continues after the comma; the list is
      never empty, and it ends at the first operation not followed by a comma. */
  function ParseOperationList(d: Dialect, q: string, i: nat): (r: Listed)
    ensures |r.exprs| >= 1
    ensures r.exprs[0] == ParseOperation(d, q, i).expr
    ensures i <= r.next
    ensures Lex(d, q, r.next).tok != Comma
    decreases |q| - i
  {
    var p := ParseOperation(d, q, i);
    var sep := Lex(d, q, p.next);
    if sep.tok == Comma then
      var rest := ParseOperationList(d, q, sep.next);
      Listed([p.expr] + rest.exprs, rest.next)
    else Listed([p.expr], p.next)
  }
}
