/** What ParseQuery promises about whole queries: SELECT first, the SELECT
    list each dialect keeps, the special `SELECT *` of C, and the column
    list C computes for the executor. */
module QueryProps {
  import opened Base
  import opened Chars
  import opened Lexer
  import opened ExprParser
  import opened Catalog
  import opened ColumnLists
  import opened QueryParser
  import opened ClauseGrammar

  /** A query must open with SELECT: any other first token, including an
      invalid one or a FROM or WHERE, makes ParseQuery return NULL. */
  lemma FirstTokenMustBeSelect(reg: Registry, q: string)
    ensures Lex(C, q, 0).tok != Select && Lex(C, q, 0).tok != Eof ==> ParseQueryC(reg, q) == Err(Rejected)
    ensures Lex(Cpp, q, 0).tok != Select && Lex(Cpp, q, 0).tok != Eof ==> ParseQueryCpp(reg, q) == Err(Rejected)
  {
  }

  /** A query without any token: the C parser goes on to resolve columns in
      a table it never set, the C++ parser returns a query without SELECT
      list and table. */
  lemma EmptyQuery(reg: Registry, q: string)
    ensures Lex(C, q, 0).tok == Eof ==> ParseQueryC(reg, q) == Err(Undefined)
    ensures Lex(Cpp, q, 0).tok == Eof ==> ParseQueryCpp(reg, q) == Ok(QueryCpp([], None, None))
  {
  }

  /** The C parser keeps only the first SELECT expression: when the query
      is accepted, its select operation is the first entry of the list read
      after SELECT, whatever follows it. */
  lemma CKeepsFirstSelect(reg: Registry, q: string)
    requires Lex(C, q, 0).tok == Select && !StarFollows(C, q, Lex(C, q, 0).next)
    ensures var list := ParseOperationList(C, q, Lex(C, q, 0).next);
            ParseQueryC(reg, q).Ok? ==> Some(ParseQueryC(reg, q).value.select) == list.exprs[0]
  {
    ScanIsGrammar(C, reg, q);
  }

  /** The C++ parser keeps every SELECT expression, in order, each with the
      column list GetColumns computed for it. */
  lemma CppKeepsEverySelect(reg: Registry, q: string)
    requires Lex(Cpp, q, 0).tok == Select
    ensures var list := ParseOperationList(Cpp, q, Lex(Cpp, q, 0).next);
            var r := ParseQueryCpp(reg, q);
            r.Ok? ==>
              && r.value.table.Some?
              && |r.value.selection| == |list.exprs|
              && forall k | 0 <= k < |list.exprs| ::
                   && list.exprs[k] == Some(r.value.selection[k].expr)
                   && GetColumns(GetTable(reg, r.value.table.value).value, r.value.selection[k].expr)
                      == Some(r.value.selection[k].columns)
  {
    var t := Lex(Cpp, q, 0);
    var list := ParseOperationList(Cpp, q, t.next);
    var c := NoClauses.(select := Some(list.exprs));
    assert Clauses0(Cpp, reg, q) == Scan(Cpp, reg, q, list.next, AfterSelect, c);
  }

  /** C's `SELECT *`: when the query is accepted, the select operation is a
      reference to the first column of the FROM table, so only that column
      is selected. */
  lemma CSelectStar(reg: Registry, q: string)
    requires Lex(C, q, 0).tok == Select && StarFollows(C, q, Lex(C, q, 0).next)
    ensures var r := ParseQueryC(reg, q);
            r.Ok? ==>
              var t := GetTable(reg, r.value.table).value;
              |t.columns| >= 1 && r.value.select == ColumnRef(t.columns[0].name)
  {
    var t := Lex(C, q, 0);
    var c := NoClauses.(selectAll := true);
    assert Clauses0(C, reg, q) == Scan(C, reg, q, Lex(C, q, t.next).next, AfterSelect, c);
  }

  /** The columns of an accepted C query: the table's columns that a name in
      the select operation or in the WHERE operation resolves to, each once,
      and no other. */
  lemma QueryColumnsC(reg: Registry, q: string)
    ensures var r := ParseQueryC(reg, q);
            r.Ok? ==>
              var t := GetTable(reg, r.value.table).value;
              forall col :: Some(col) in r.value.columns <==>
                (exists n | n in Refs(r.value.select) :: GetColumn(t, n) == Some(col)) ||
                (r.value.where.Some? && exists n | n in Refs(r.value.where.value) :: GetColumn(t, n) == Some(col))
  {
    var r := ParseQueryC(reg, q);
    if r.Ok? {
      var c := Clauses0(C, reg, q).value;
      var t := c.table.value;
      var sel := r.value.select;
      assert GetTable(reg, r.value.table) == Some(t);
      GetColumnsMembers(t, sel);
      var cols := GetColumns(t, sel).value;
      if r.value.where.Some? {
        var w := r.value.where.value;
        assert c.where == Some(Some(w));
        GetColumnsMembers(t, w);
        var wcols := GetColumns(t, w).value;
        assert r.value.columns == Extend(cols, wcols);
        ExtendContents(cols, wcols);
      } else {
        assert r.value.columns == cols;
      }
    }
  }

  /** SELECT followed directly by the end of input: there is no FROM, and
      both parsers go on to read the `table` they never set. */
  lemma SelectWithoutFrom(d: Dialect, reg: Registry, q: string)
    requires Lex(d, q, 0).tok == Select
    requires var sp := SelectPart(d, q, Lex(d, q, 0).next); sp.Ok? && Lex(d, q, sp.value.next).tok == Eof
    ensures d == C ==> ParseQueryC(reg, q) == Err(Undefined)
    ensures d == Cpp ==> ParseQueryCpp(reg, q) == Err(Undefined)
  {
    ScanIsGrammar(d, reg, q);
  }

  /** A SELECT list that reads past the terminator makes either parser's
      behaviour undefined, whatever its entries are. */
  lemma SelectListOverrun(d: Dialect, reg: Registry, q: string)
    requires Lex(d, q, 0).tok == Select && !StarFollows(d, q, Lex(d, q, 0).next)
    requires ParseOperationList(d, q, Lex(d, q, 0).next).next > |q|
    ensures d == C ==> ParseQueryC(reg, q) == Err(Undefined)
    ensures d == Cpp ==> ParseQueryCpp(reg, q) == Err(Undefined)
  {
    ScanIsGrammar(d, reg, q);
  }

  /** The same for a WHERE list after a well-formed SELECT and FROM. */
  lemma WhereListOverrun(d: Dialect, reg: Registry, q: string)
    requires Lex(d, q, 0).tok == Select
    requires var sp := SelectPart(d, q, Lex(d, q, 0).next);
             && sp.Ok?
             && var f := Lex(d, q, sp.value.next);
             && f.tok == From
             && var n := Lex(d, q, f.next);
             && n.tok.Identifier? && GetTable(reg, n.tok.name).Some?
             && var w := Lex(d, q, n.next);
             && w.tok == Where
             && ParseOperationList(d, q, w.next).next > |q|
    ensures d == C ==> ParseQueryC(reg, q) == Err(Undefined)
    ensures d == Cpp ==> ParseQueryCpp(reg, q) == Err(Undefined)
  {
    ScanIsGrammar(d, reg, q);
  }

  /** `SELECT >>`: the unknown run ends the query, its terminator is taken
      as the invalid primary, and the list then peeks beyond the query. */
  lemma SelectRunAtEnd(reg: Registry)
    ensures ParseQueryC(reg, "SELECT >>") == Err(Undefined)
    ensures ParseQueryCpp(reg, "SELECT >>") == Err(Undefined)
  {
    RunAtEndTokens(C);
    RunAtEndTokens(Cpp);
    SelectListOverrun(C, reg, "SELECT >>");
    SelectListOverrun(Cpp, reg, "SELECT >>");
  }

  lemma RunAtEndTokens(d: Dialect)
    ensures Lex(d, "SELECT >>", 0) == Lexed(Select, 6)
    ensures Lex(d, "SELECT >>", 6) == Lexed(Invalid, 10)
    ensures ParseOperationList(d, "SELECT >>", 6).next == 10
  {
    var q := "SELECT >>";
    assert q[0..6] == "SELECT";
    assert Span(q, 0, Spaces) == 0;
    assert Span(q, 0, AlNums) == 6;
    RunAtEndInvalid(d);
    assert ParsePrimary(d, q, 6) == Parsed(None, 10);
  }

  lemma RunAtEndInvalid(d: Dialect)
    ensures Lex(d, "SELECT >>", 6) == Lexed(Invalid, 10)
  {
    var q := "SELECT >>";
    assert q[7..9] == ">>";
    assert Span(q, 6, Spaces) == 7;
    assert Span(q, 7, OperatorChars) == 9;
  }
}
