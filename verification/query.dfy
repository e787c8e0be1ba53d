/** ParseQuery of parser.h:434-535 and parser.hpp:383-462: a loop over
    top-level tokens driven by a clause state, accepting only
    `SELECT list [FROM table [WHERE operation]]`, followed by column
    resolution against the table FROM named. */
module QueryParser {
  import opened Base
  import opened Operators
  import opened Lexer
  import opened ExprParser
  import opened Catalog
  import opened ColumnLists

  /** The `state` variable: tok_invalid until SELECT, then the last clause
      keyword seen. */
  datatype ClauseState = Start | AfterSelect | AfterFrom | AfterWhere

  /** What the clause loop has gathered. `select` is the SELECT list as
      ParseOperationList returned it; `selectAll` records C's `SELECT *`;
      `table` is the table GetTable found for FROM; `where` is present once a
      WHERE clause was read, holding its single entry, which may be NULL. */
  datatype Clauses = Clauses(
    select: Option<seq<Option<Expr>>>,
    selectAll: bool,
    table: Option<Table>,
    where: Option<Option<Expr>>)

  const NoClauses := Clauses(None, false, None, None)

  /** The clauses a state can have gathered. */
  predicate Matches(st: ClauseState, c: Clauses) {
    match st
    case Start => c == NoClauses
    case AfterSelect => (c.select.Some? || c.selectAll) && c.table.None? && c.where.None?
    case AfterFrom => (c.select.Some? || c.selectAll) && c.table.Some? && c.where.None?
    case AfterWhere => (c.select.Some? || c.selectAll) && c.table.Some? && c.where.Some?
  }

  /** Clause order: a WHERE only after a FROM, a FROM only after a SELECT. */
  predicate InOrder(c: Clauses) {
    (c.where.Some? ==> c.table.Some?) && (c.table.Some? ==> c.select.Some? || c.selectAll)
  }

  /** What the loop guarantees of each clause: a registered table; a
      non-empty SELECT list whose first entry, in C, is not NULL; `SELECT *`
      only in C and never together with a list. */
  predicate Sound(d: Dialect, reg: Registry, c: Clauses) {
    && (c.table.Some? ==> GetTable(reg, c.table.value.name) == c.table)
    && (c.select.Some? ==> |c.select.value| >= 1 && (d == C ==> c.select.value[0].Some?))
    && !(c.select.Some? && c.selectAll)
    && (d == Cpp ==> !c.selectAll)
  }

  /** C's special case: the token after SELECT is an operator whose spelling
      starts with '*'. */
  predicate StarFollows(d: Dialect, q: string, i: nat) {
    var t := Lex(d, q, i).tok;
    d == C && t.Operator? && t.op[0] == '*'
  }

  /** The clause loop from index `i`. Every way out other than the end of
      input returns NULL, including an invalid token. Once SELECT is read,
      the select list is never changed again. An operation list that ends
      beyond the terminator has read memory past the query (its final
      PeekToken, and every read after the overrun, happen there), which is
      undefined before any check of the list's entries. */
  function Scan(d: Dialect, reg: Registry, q: string, i: nat, st: ClauseState, c: Clauses): (r: Result<Clauses>)
    requires Matches(st, c) && Sound(d, reg, c)
    ensures r.Err? ==> r.failure == Rejected || r.failure == Undefined
    ensures r.Ok? ==> Sound(d, reg, r.value) && InOrder(r.value)
    ensures r.Ok? && st != Start ==> r.value.select == c.select && r.value.selectAll == c.selectAll
    decreases |q| - i
  {
    var t := Lex(d, q, i);
    match t.tok
    case Eof => Ok(c)
    case Select =>
      if st != Start then Err(Rejected)
      else if StarFollows(d, q, t.next) then
        Scan(d, reg, q, Lex(d, q, t.next).next, AfterSelect, c.(selectAll := true))
      else
        var list := ParseOperationList(d, q, t.next);
        if list.next > |q| then Err(Undefined)
        else if d == C && list.exprs[0].None? then Err(Rejected)
        else Scan(d, reg, q, list.next, AfterSelect, c.(select := Some(list.exprs)))
    case From =>
      if st != AfterSelect then Err(Rejected)
      else
        var n := Lex(d, q, t.next);
        if !n.tok.Identifier? then Err(Rejected)
        else
          (match GetTable(reg, n.tok.name)
           case None => Err(Rejected)
           case Some(tb) => Scan(d, reg, q, n.next, AfterFrom, c.(table := Some(tb))))
    case Where =>
      if st != AfterFrom then Err(Rejected)
      else
        var list := ParseOperationList(d, q, t.next);
        if list.next > |q| then Err(Undefined)
        else if |list.exprs| > 1 then Err(Rejected)
        else Scan(d, reg, q, list.next, AfterWhere, c.(where := Some(list.exprs[0])))
    case Overrun => Err(Undefined)
    case _ => Err(Rejected)
  }

  /** The clause loop over a whole query. */
  function Clauses0(d: Dialect, reg: Registry, q: string): Result<Clauses> {
    Scan(d, reg, q, 0, Start, NoClauses)
  }

  /** The C query: the first SELECT expression, the table's name, the WHERE
      operation when it parsed, and the union of the two column lists. */
  datatype QueryC = QueryC(select: Expr, table: string, where: Option<Expr>, columns: ColumnList)

  /** The columns of the WHERE operation, when there is one to scan. */
  function WhereColumns(t: Table, w: Option<Option<Expr>>): Result<Option<ColumnList>> {
    match w
    case Some(Some(e)) =>
      (match GetColumns(t, e)
       case None => Err(Rejected)
       case Some(l) => Ok(Some(l)))
    case _ => Ok(None)
  }

  /** ParseQuery of parser.h after its loop. Without FROM the local `table`
      is read uninitialised (and `SELECT *` passes NULL to GetTable); with
      `SELECT *` over a table without columns the first node of an empty
      list is dereferenced. */
  function ParseQueryC(reg: Registry, q: string): (r: Result<QueryC>)
    ensures r.Err? && r.failure != Rejected ==> r.failure == Undefined
    ensures r.Ok? ==> GetTable(reg, r.value.table).Some?
    ensures r.Ok? ==> |r.value.columns| >= 1 && NoDuplicates(r.value.columns)
  {
    match Clauses0(C, reg, q)
    case Err(f) => Err(f)
    case Ok(c) =>
      if c.table.None? then Err(Undefined)
      else
        var t := c.table.value;
        if c.selectAll && |t.columns| == 0 then Err(Undefined)
        else
          var sel := if c.selectAll then ColumnRef(t.columns[0].name) else c.select.value[0].value;
          match GetColumns(t, sel)
          case None => Err(Rejected)
          case Some(cols) =>
            match WhereColumns(t, c.where)
            case Err(f) => Err(f)
            case Ok(wcols) =>
              var where := if c.where.Some? then c.where.value else None;
              var all := if wcols.None? then cols else Extend(cols, wcols.value);
              QueryCFacts(t, sel, cols, wcols);
              Ok(QueryC(sel, t.name, where, all))
  }

  lemma QueryCFacts(t: Table, sel: Expr, cols: ColumnList, wcols: Option<ColumnList>)
    requires GetColumns(t, sel) == Some(cols)
    ensures wcols.Some? && NoDuplicates(cols) ==> NoDuplicates(Extend(cols, wcols.value))
    ensures wcols.Some? ==> |Extend(cols, wcols.value)| >= |cols|
    ensures |cols| >= 1 && NoDuplicates(cols)
  {
    GetColumnsSpec(t, sel);
    if wcols.Some? {
      ExtendContents(cols, wcols.value);
    }
  }

  /** A C++ SELECT entry with the column list GetColumns gave it. */
  datatype Selected = Selected(expr: Expr, columns: ColumnList)

  /** The C++ query: every SELECT entry, the table's name, and the WHERE
      list's single entry (NULL when it failed to parse). */
  datatype QueryCpp = QueryCpp(selection: seq<Selected>, table: Option<string>, where: Option<Option<Expr>>)

  /** The loop of parser.hpp:455-460: each entry in order gets its own
      column list; a NULL entry is dereferenced, an unknown column returns
      NULL. */
  function Attach(t: Table, exprs: seq<Option<Expr>>): (r: Result<seq<Selected>>)
    ensures r.Err? ==> r.failure == Rejected || r.failure == Undefined
    ensures r.Ok? <==> forall k | 0 <= k < |exprs| :: exprs[k].Some? && GetColumns(t, exprs[k].value).Some?
    ensures r.Ok? ==> |r.value| == |exprs|
    ensures r.Ok? ==> forall k | 0 <= k < |exprs| ::
              exprs[k] == Some(r.value[k].expr) && GetColumns(t, r.value[k].expr) == Some(r.value[k].columns)
  {
    if exprs == [] then Ok([])
    else if exprs[0].None? then Err(Undefined)
    else
      match GetColumns(t, exprs[0].value)
      case None => Err(Rejected)
      case Some(cols) =>
        match Attach(t, exprs[1..])
        case Err(f) => Err(f)
        case Ok(rest) => Ok([Selected(exprs[0].value, cols)] + rest)
  }

  /** ParseQuery of parser.hpp after its loop. Without SELECT nothing is
      resolved; with SELECT but without FROM the local `table` is read
      uninitialised. */
  function ParseQueryCpp(reg: Registry, q: string): (r: Result<QueryCpp>)
    ensures r.Err? && r.failure != Rejected ==> r.failure == Undefined
    ensures r.Ok? && r.value.table.Some? ==> GetTable(reg, r.value.table.value).Some?
    ensures r.Ok? && r.value.where.Some? ==> r.value.table.Some?
  {
    match Clauses0(Cpp, reg, q)
    case Err(f) => Err(f)
    case Ok(c) =>
      if c.select.None? then Ok(QueryCpp([], None, None))
      else if c.table.None? then Err(Undefined)
      else
        var t := c.table.value;
        match Attach(t, c.select.value)
        case Err(f) => Err(f)
        case Ok(sel) => Ok(QueryCpp(sel, Some(t.name), c.where))
  }
}
