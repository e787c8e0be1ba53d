/** The clause grammar `SELECT list [FROM table [WHERE operation]]` read
    straight through, part by part, as a reference for the state-driven
    clause loop of parser.h:445-517 and parser.hpp:393-454. The loop is
    proved to compute exactly this reading, so every order the grammar does
    not allow (a second SELECT, FROM before SELECT, WHERE without FROM, a
    comma-separated WHERE, trailing tokens) is refused by the loop. */
module ClauseGrammar {
  import opened Base
  import opened Lexer
  import opened ExprParser
  import opened Catalog
  import opened QueryParser

  /** The clauses read so far and the index after them. */
  datatype Partial = Partial(clauses: Clauses, next: nat)

  /** The SELECT part after the keyword at `i`: C's `*`, or an operation
      list that does not read past the end and, in C, does not start with
      a NULL entry. */
  function SelectPart(d: Dialect, q: string, i: nat): Result<Partial> {
    if StarFollows(d, q, i) then Ok(Partial(NoClauses.(selectAll := true), Lex(d, q, i).next))
    else
      var list := ParseOperationList(d, q, i);
      if list.next > |q| then Err(Undefined)
      else if d == C && list.exprs[0].None? then Err(Rejected)
      else Ok(Partial(NoClauses.(select := Some(list.exprs)), list.next))
  }

  /** After the SELECT part: the end, or FROM with a registered table's name
      followed by the WHERE part. */
  function FromPart(d: Dialect, reg: Registry, q: string, p: Partial): (r: Result<Clauses>)
    ensures r.Ok? ==> r.value.select == p.clauses.select && r.value.selectAll == p.clauses.selectAll
  {
    var f := Lex(d, q, p.next);
    if f.tok == Eof then Ok(p.clauses)
    else if f.tok != From then Err(Rejected)
    else
      var n := Lex(d, q, f.next);
      if !n.tok.Identifier? || GetTable(reg, n.tok.name).None? then Err(Rejected)
      else WherePart(d, q, Partial(p.clauses.(table := GetTable(reg, n.tok.name)), n.next))
  }

  /** After the FROM part: the end, or WHERE with a single operation that
      does not read past the end, followed by the end. */
  function WherePart(d: Dialect, q: string, p: Partial): (r: Result<Clauses>)
    ensures r.Ok? ==> r.value.select == p.clauses.select && r.value.selectAll == p.clauses.selectAll
    ensures r.Ok? ==> r.value.table == p.clauses.table
  {
    var w := Lex(d, q, p.next);
    if w.tok == Eof then Ok(p.clauses)
    else if w.tok != Where then Err(Rejected)
    else
      var list := ParseOperationList(d, q, w.next);
      if list.next > |q| then Err(Undefined)
      else if |list.exprs| > 1 || Lex(d, q, list.next).tok != Eof then Err(Rejected)
      else Ok(p.clauses.(where := Some(list.exprs[0])))
  }

  /** A whole query: nothing at all, or SELECT followed by the parts. */
  function Grammar(d: Dialect, reg: Registry, q: string): Result<Clauses> {
    var t := Lex(d, q, 0);
    if t.tok == Eof then Ok(NoClauses)
    else if t.tok != Select then Err(Rejected)
    else
      match SelectPart(d, q, t.next)
      case Err(f) => Err(f)
      case Ok(p) => FromPart(d, reg, q, p)
  }

  /** After the WHERE list only the end of input is accepted. */
  lemma {:induction false} ScanAfterWhere(d: Dialect, reg: Registry, q: string, i: nat, c: Clauses)
    requires Matches(AfterWhere, c) && Sound(d, reg, c) && i <= |q|
    ensures Scan(d, reg, q, i, AfterWhere, c) == if Lex(d, q, i).tok == Eof then Ok(c) else Err(Rejected)
  {
  }

  /** After FROM the loop reads exactly the WHERE part. */
  lemma {:induction false} ScanAfterFrom(d: Dialect, reg: Registry, q: string, p: Partial)
    requires Matches(AfterFrom, p.clauses) && Sound(d, reg, p.clauses) && p.next <= |q|
    ensures Scan(d, reg, q, p.next, AfterFrom, p.clauses) == WherePart(d, q, p)
  {
    var w := Lex(d, q, p.next);
    if w.tok == Where {
      var list := ParseOperationList(d, q, w.next);
      if list.next <= |q| && |list.exprs| <= 1 {
        ScanAfterWhere(d, reg, q, list.next, p.clauses.(where := Some(list.exprs[0])));
      }
    }
  }

  /** After the SELECT part the loop reads exactly the FROM part. */
  lemma {:induction false} ScanAfterSelect(d: Dialect, reg: Registry, q: string, p: Partial)
    requires Matches(AfterSelect, p.clauses) && Sound(d, reg, p.clauses) && p.next <= |q|
    ensures Scan(d, reg, q, p.next, AfterSelect, p.clauses) == FromPart(d, reg, q, p)
  {
    var f := Lex(d, q, p.next);
    if f.tok == From {
      var n := Lex(d, q, f.next);
      if n.tok.Identifier? && GetTable(reg, n.tok.name).Some? {
        ScanAfterFrom(d, reg, q, Partial(p.clauses.(table := GetTable(reg, n.tok.name)), n.next));
      }
    }
  }

  /** The clause loop accepts, refuses and fails exactly as the grammar
      reads: same clauses, same failure. */
  lemma {:induction false} ScanIsGrammar(d: Dialect, reg: Registry, q: string)
    ensures Clauses0(d, reg, q) == Grammar(d, reg, q)
  {
    var t := Lex(d, q, 0);
    if t.tok == Select {
      var sp := SelectPart(d, q, t.next);
      if sp.Ok? {
        ScanAfterSelect(d, reg, q, sp.value);
        assert Clauses0(d, reg, q) == Scan(d, reg, q, sp.value.next, AfterSelect, sp.value.clauses);
      }
    }
  }
}
