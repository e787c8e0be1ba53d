/** What the expression parser guarantees: the tree's in-order reading is the
    token sequence it consumed (parentheses dropped), and without
    parentheses the tree is shaped by precedence, tighter operators below
    looser ones and equal ones grouped to the left. */
module ExprProps {
  import opened Base
  import opened Chars
  import opened Operators
  import opened Lexer
  import opened ExprParser

  /** Following `step` from `i` reads the tokens `ts` and stops at `j`. */
  ghost predicate Walks(step: nat -> Lexed, i: nat, ts: seq<Token>, j: nat)
    decreases |ts|
  {
    if ts == [] then i == j
    else step(i).tok == ts[0] && Walks(step, step(i).next, ts[1..], j)
  }

  /** The tokenizer of a query as a step function. */
  function LexFrom(d: Dialect, q: string): nat -> Lexed {
    (i: nat) => Lex(d, q, i)
  }

  /** Lexing `ts` one token after another leads from index `i` to `j`. */
  ghost predicate Consumes(d: Dialect, q: string, i: nat, ts: seq<Token>, j: nat) {
    Walks(LexFrom(d, q), i, ts, j)
  }

  /** The tokens of a tree read left to right. */
  function Flatten(e: Expr): seq<Token> {
    match e
    case Const(l) => [Constant(l)]
    case ColumnRef(n) => [Identifier(n)]
    case Binary(op, _, l, r) => Flatten(l) + [Operator(op)] + Flatten(r)
  }

  /** A token sequence with its parentheses removed. */
  function Unbracket(ts: seq<Token>): seq<Token> {
    if ts == [] then []
    else if ts[0] == LeftParen || ts[0] == RightParen then Unbracket(ts[1..])
    else [ts[0]] + Unbracket(ts[1..])
  }

  lemma {:induction false} UnbracketAppend(a: seq<Token>, b: seq<Token>)
    ensures Unbracket(a + b) == Unbracket(a) + Unbracket(b)
    decreases |a|
  {
    if a == [] {
      assert a + b == b;
    } else {
      assert (a + b)[1..] == a[1..] + b;
      UnbracketAppend(a[1..], b);
    }
  }

  /** Walking two token sequences one after the other walks their
      concatenation. */
  lemma {:induction false} WalksAppend(step: nat -> Lexed, i: nat, a: seq<Token>, j: nat, b: seq<Token>, k: nat)
    requires Walks(step, i, a, j) && Walks(step, j, b, k)
    ensures Walks(step, i, a + b, k)
    decreases |a|
  {
    if a == [] {
      assert a + b == b;
    } else {
      var ab := a + b;
      assert ab[0] == a[0] && ab[1..] == a[1..] + b;
      WalksAppend(step, step(i).next, a[1..], j, b, k);
    }
  }

  /** Consuming two token sequences one after the other consumes their
      concatenation. */
  lemma ConsumesAppend(d: Dialect, q: string, i: nat, a: seq<Token>, j: nat, b: seq<Token>, k: nat)
    requires Consumes(d, q, i, a, j) && Consumes(d, q, j, b, k)
    ensures Consumes(d, q, i, a + b, k)
  {
    WalksAppend(LexFrom(d, q), i, a, j, b, k);
  }

  lemma ConsumesOne(d: Dialect, q: string, i: nat)
    ensures Consumes(d, q, i, [Lex(d, q, i).tok], Lex(d, q, i).next)
  {
    assert [Lex(d, q, i).tok][1..] == [];
  }

  /** A successful primary consumed tokens whose unbracketed reading is the
      primary's tree. */
  lemma {:induction false} PrimaryTrace(d: Dialect, q: string, i: nat) returns (ts: seq<Token>)
    requires ParsePrimary(d, q, i).expr.Some?
    ensures Consumes(d, q, i, ts, ParsePrimary(d, q, i).next)
    ensures Unbracket(ts) == Flatten(ParsePrimary(d, q, i).expr.value)
    decreases |q| - i, 1
  {
    var t := Lex(d, q, i);
    ConsumesOne(d, q, i);
    match t.tok
    case Constant(l) =>
      ts := [t.tok];
    case Identifier(n) =>
      ts := [t.tok];
    case LeftParen =>
      var inner := ParseOperation(d, q, t.next);
      var close := Lex(d, q, inner.next);
      var mid := OperationTrace(d, q, t.next);
      ConsumesOne(d, q, inner.next);
      ConsumesAppend(d, q, i, [LeftParen], t.next, mid, inner.next);
      ConsumesAppend(d, q, i, [LeftParen] + mid, inner.next, [RightParen], close.next);
      ts := [LeftParen] + mid + [RightParen];
      UnbracketAppend([LeftParen], mid);
      UnbracketAppend([LeftParen] + mid, [RightParen]);
  }

  /** A successful right-hand-side parse appends to `lhs`'s reading exactly
      the unbracketed tokens it consumed. */
  lemma {:induction false} RHSTrace(d: Dialect, q: string, i: nat, prec: int, lhs: Expr) returns (ts: seq<Token>)
    requires Typed(lhs)
    requires ParseRHS(d, q, i, prec, lhs).expr.Some?
    ensures Consumes(d, q, i, ts, ParseRHS(d, q, i, prec, lhs).next)
    ensures Flatten(lhs) + Unbracket(ts) == Flatten(ParseRHS(d, q, i, prec, lhs).expr.value)
    decreases |q| - i, 1
  {
    var t := Lex(d, q, i);
    if !t.tok.Operator? || OperatorPrecedence(t.tok.op) < prec {
      ts := [];
      assert Flatten(lhs) + [] == Flatten(lhs);
    } else {
      ts := RHSTraceStep(d, q, i, prec, lhs);
    }
  }

  /** The step of RHSTrace where an operator is taken: its operand is read,
      and the loop goes on with the combined tree. */
  lemma {:induction false} RHSTraceStep(d: Dialect, q: string, i: nat, prec: int, lhs: Expr) returns (ts: seq<Token>)
    requires Typed(lhs)
    requires Lex(d, q, i).tok.Operator? && OperatorPrecedence(Lex(d, q, i).tok.op) >= prec
    requires ParseRHS(d, q, i, prec, lhs).expr.Some?
    ensures Consumes(d, q, i, ts, ParseRHS(d, q, i, prec, lhs).next)
    ensures Flatten(lhs) + Unbracket(ts) == Flatten(ParseRHS(d, q, i, prec, lhs).expr.value)
    decreases |q| - i, 0
  {
    var t := Lex(d, q, i);
    var op := t.tok.op;
    var rhs := RightOperand(d, q, t.next, OperatorPrecedence(op));
    RHSUnfold(d, q, i, prec, lhs);
    var b := Binary(op, OperatorType(op), lhs, rhs.expr.value);
    var tsR := OperandTrace(d, q, t.next, OperatorPrecedence(op));
    var tsL := RHSTrace(d, q, rhs.next, prec, b);
    ts := [t.tok] + tsR + tsL;
    var r := ParseRHS(d, q, rhs.next, prec, b);
    ConsumesOne(d, q, i);
    StepJoin(d, q, i, op, OperatorType(op), t.next, lhs, rhs.expr.value, tsR, rhs.next, tsL, r.next, r.expr.value);
  }

  /** Joins the pieces of one loop turn: the operator token, the operand's
      tokens and the rest of the loop's tokens. */
  lemma StepJoin(d: Dialect, q: string, i: nat, op: string, ty: int, k: nat, lhs: Expr, operand: Expr,
                 tsR: seq<Token>, j: nat, tsL: seq<Token>, l: nat, whole: Expr)
    requires Consumes(d, q, i, [Operator(op)], k)
    requires Consumes(d, q, k, tsR, j) && Unbracket(tsR) == Flatten(operand)
    requires Consumes(d, q, j, tsL, l)
    requires Flatten(Binary(op, ty, lhs, operand)) + Unbracket(tsL) == Flatten(whole)
    ensures Consumes(d, q, i, [Operator(op)] + tsR + tsL, l)
    ensures Flatten(lhs) + Unbracket([Operator(op)] + tsR + tsL) == Flatten(whole)
  {
    ConsumesAppend(d, q, i, [Operator(op)], k, tsR, j);
    ConsumesAppend(d, q, i, [Operator(op)] + tsR, j, tsL, l);
    FlattenJoin(op, ty, lhs, operand, tsR, tsL, whole);
  }

  /** The reading of one loop turn: the tree so far, the operator, the
      operand, and whatever the rest of the loop adds. */
  lemma FlattenJoin(op: string, ty: int, lhs: Expr, operand: Expr, tsR: seq<Token>, tsL: seq<Token>, whole: Expr)
    requires Unbracket(tsR) == Flatten(operand)
    requires Flatten(Binary(op, ty, lhs, operand)) + Unbracket(tsL) == Flatten(whole)
    ensures Flatten(lhs) + Unbracket([Operator(op)] + tsR + tsL) == Flatten(whole)
  {
    UnbracketOperator(op, tsR, tsL);
    Regroup(Flatten(lhs), [Operator(op)], Flatten(operand), Unbracket(tsL));
  }

  /** An operator token survives unbracketing, in front of the rest. */
  lemma UnbracketOperator(op: string, a: seq<Token>, b: seq<Token>)
    ensures Unbracket([Operator(op)] + a + b) == [Operator(op)] + Unbracket(a) + Unbracket(b)
  {
    var o := [Operator(op)];
    UnbracketAppend(o, a);
    UnbracketAppend(o + a, b);
    UnbracketSingle(Operator(op));
  }

  /** Regrouping a concatenation of four. */
  lemma Regroup<T>(a: seq<T>, b: seq<T>, c: seq<T>, d: seq<T>)
    ensures a + (b + c + d) == (a + b + c) + d
  {
  }

  /** A token other than a parenthesis is kept by unbracketing. */
  lemma UnbracketSingle(t: Token)
    requires t != LeftParen && t != RightParen
    ensures Unbracket([t]) == [t]
  {
    assert [t][1..] == [];
  }

  /** One turn of the right-hand-side loop: when the next token is an
      operator binding at least `prec`, a successful parse read its operand
      and continued from the tree joining `lhs` and that operand. */
  lemma RHSUnfold(d: Dialect, q: string, i: nat, prec: int, lhs: Expr)
    requires Typed(lhs)
    requires Lex(d, q, i).tok.Operator? && OperatorPrecedence(Lex(d, q, i).tok.op) >= prec
    requires ParseRHS(d, q, i, prec, lhs).expr.Some?
    ensures var t := Lex(d, q, i);
            var rhs := RightOperand(d, q, t.next, OperatorPrecedence(t.tok.op));
            rhs.expr.Some? &&
            ParseRHS(d, q, i, prec, lhs)
              == ParseRHS(d, q, rhs.next, prec, Binary(t.tok.op, OperatorType(t.tok.op), lhs, rhs.expr.value))
  {
  }

  /** A successful right operand consumed tokens whose unbracketed reading
      is the operand's tree. */
  lemma {:induction false} OperandTrace(d: Dialect, q: string, i: nat, cp: int) returns (ts: seq<Token>)
    requires RightOperand(d, q, i, cp).expr.Some?
    ensures Consumes(d, q, i, ts, RightOperand(d, q, i, cp).next)
    ensures Unbracket(ts) == Flatten(RightOperand(d, q, i, cp).expr.value)
    decreases |q| - i, 4
  {
    if Absorbs(d, q, i, cp) {
      ts := AbsorbTrace(d, q, i, cp);
    } else {
      RightOperandUnfold(d, q, i, cp);
      ts := PrimaryTrace(d, q, i);
    }
  }

  /** The right operand whose primary absorbs the tighter operators after
      it. */
  lemma {:induction false} AbsorbTrace(d: Dialect, q: string, i: nat, cp: int) returns (ts: seq<Token>)
    requires RightOperand(d, q, i, cp).expr.Some? && Absorbs(d, q, i, cp)
    ensures Consumes(d, q, i, ts, RightOperand(d, q, i, cp).next)
    ensures Unbracket(ts) == Flatten(RightOperand(d, q, i, cp).expr.value)
    decreases |q| - i, 3
  {
    RightOperandUnfold(d, q, i, cp);
    ts := PrimaryRHSTrace(d, q, i, cp + 1);
  }

  /** Whether the primary at `i` is followed by an operator that binds
      tighter than `cp`. */
  predicate Absorbs(d: Dialect, q: string, i: nat, cp: int) {
    var p := ParsePrimary(d, q, i);
    var after := Lex(d, q, p.next);
    after.tok.Operator? && OperatorPrecedence(after.tok.op) > cp
  }

  /** The two shapes of a right operand: a primary that absorbs the tighter
      operators after it, or the primary alone. */
  lemma RightOperandUnfold(d: Dialect, q: string, i: nat, cp: int)
    requires ParsePrimary(d, q, i).expr.Some?
    ensures var p := ParsePrimary(d, q, i);
            && (Absorbs(d, q, i, cp) ==> RightOperand(d, q, i, cp) == ParseRHS(d, q, p.next, cp + 1, p.expr.value))
            && (!Absorbs(d, q, i, cp) ==> RightOperand(d, q, i, cp) == p)
  {
  }

  /** A primary followed by the operators that extend it, binding at least
      as tightly as `prec`. */
  lemma {:induction false} PrimaryRHSTrace(d: Dialect, q: string, i: nat, prec: int) returns (ts: seq<Token>)
    requires ParsePrimary(d, q, i).expr.Some?
    requires var p := ParsePrimary(d, q, i); ParseRHS(d, q, p.next, prec, p.expr.value).expr.Some?
    ensures var p := ParsePrimary(d, q, i);
            var r := ParseRHS(d, q, p.next, prec, p.expr.value);
            Consumes(d, q, i, ts, r.next) && Unbracket(ts) == Flatten(r.expr.value)
    decreases |q| - i, 2
  {
    var p := ParsePrimary(d, q, i);
    var r := ParseRHS(d, q, p.next, prec, p.expr.value);
    var tsP := PrimaryTrace(d, q, i);
    var tsI := RHSTrace(d, q, p.next, prec, p.expr.value);
    ts := tsP + tsI;
    PrimaryJoin(d, q, i, tsP, p.next, tsI, r.next, p.expr.value, r.expr.value);
  }

  /** Joins a primary's tokens with those of the operators that extend it. */
  lemma PrimaryJoin(d: Dialect, q: string, i: nat, tsP: seq<Token>, j: nat, tsI: seq<Token>, k: nat, primary: Expr, whole: Expr)
    requires Consumes(d, q, i, tsP, j) && Unbracket(tsP) == Flatten(primary)
    requires Consumes(d, q, j, tsI, k) && Flatten(primary) + Unbracket(tsI) == Flatten(whole)
    ensures Consumes(d, q, i, tsP + tsI, k)
    ensures Unbracket(tsP + tsI) == Flatten(whole)
  {
    ConsumesAppend(d, q, i, tsP, j, tsI, k);
    UnbracketAppend(tsP, tsI);
  }

  /** In-order traversal of a parsed operation reproduces the source's
      operand/operator order: its reading is the consumed tokens without
      parentheses. */
  lemma {:induction false} OperationTrace(d: Dialect, q: string, i: nat) returns (ts: seq<Token>)
    requires ParseOperation(d, q, i).expr.Some?
    ensures Consumes(d, q, i, ts, ParseOperation(d, q, i).next)
    ensures Unbracket(ts) == Flatten(ParseOperation(d, q, i).expr.value)
    decreases |q| - i, 3
  {
    ts := PrimaryRHSTrace(d, q, i, 0);
  }

  /** Every entry of an operation list parsed. */
  predicate AllParsed(es: seq<Option<Expr>>) {
    forall k | 0 <= k < |es| :: es[k].Some?
  }

  /** The reading of a list of trees: each tree's reading, in order,
      separated by commas. */
  function Readings(es: seq<Option<Expr>>): seq<Token>
    requires |es| >= 1 && AllParsed(es)
    decreases |es|
  {
    if |es| == 1 then Flatten(es[0].value)
    else Flatten(es[0].value) + [Comma] + Readings(es[1..])
  }

  /** A tree's reading has no comma. */
  lemma {:induction false} FlattenNoComma(e: Expr)
    ensures multiset(Flatten(e))[Comma] == 0
  {
    match e
    case Binary(op, _, l, r) =>
      FlattenNoComma(l);
      FlattenNoComma(r);
      assert multiset(Flatten(e)) == multiset(Flatten(l)) + multiset([Operator(op)]) + multiset(Flatten(r));
    case _ =>
  }

  /** The reading of `n` trees holds exactly `n - 1` commas. */
  lemma {:induction false} ReadingsCommas(es: seq<Option<Expr>>)
    requires |es| >= 1 && AllParsed(es)
    ensures multiset(Readings(es))[Comma] == |es| - 1
    decreases |es|
  {
    FlattenNoComma(es[0].value);
    if |es| > 1 {
      ReadingsCommas(es[1..]);
      assert multiset(Readings(es)) == multiset(Flatten(es[0].value)) + multiset([Comma]) + multiset(Readings(es[1..]));
    }
  }

  /** A list whose entries all parsed consumed its operations one after
      another, separated by commas: without parentheses the tokens read are
      the entries' readings joined by commas, one comma fewer than entries. */
  lemma {:induction false} ListTrace(d: Dialect, q: string, i: nat) returns (ts: seq<Token>)
    requires AllParsed(ParseOperationList(d, q, i).exprs)
    ensures Consumes(d, q, i, ts, ParseOperationList(d, q, i).next)
    ensures Unbracket(ts) == Readings(ParseOperationList(d, q, i).exprs)
    ensures multiset(Unbracket(ts))[Comma] == |ParseOperationList(d, q, i).exprs| - 1
    decreases |q| - i
  {
    var r := ParseOperationList(d, q, i);
    var p := ParseOperation(d, q, i);
    var sep := Lex(d, q, p.next);
    assert r.exprs[0] == p.expr;
    var tsP := OperationTrace(d, q, i);
    if sep.tok == Comma {
      var rest := ParseOperationList(d, q, sep.next);
      assert r.exprs == [p.expr] + rest.exprs;
      assert r.exprs[1..] == rest.exprs;
      assert AllParsed(rest.exprs) by {
        forall k | 0 <= k < |rest.exprs| ensures rest.exprs[k].Some? {
          assert rest.exprs[k] == r.exprs[k + 1];
        }
      }
      var tsR := ListTrace(d, q, sep.next);
      ConsumesOne(d, q, p.next);
      ConsumesAppend(d, q, i, tsP, p.next, [Comma], sep.next);
      ConsumesAppend(d, q, i, tsP + [Comma], sep.next, tsR, rest.next);
      ts := tsP + [Comma] + tsR;
      UnbracketAppend(tsP + [Comma], tsR);
      UnbracketAppend(tsP, [Comma]);
      UnbracketSingle(Comma);
    } else {
      ts := tsP;
    }
    ReadingsCommas(r.exprs);
  }
}
