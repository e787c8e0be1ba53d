/** Worked inputs for the tokenizer: keywords are case-sensitive whole
    words, an unrecognised operator run is skipped before the punctuation
    check, and the two dialects differ on an embedded NUL. */
module LexExamples {
  import opened Base
  import opened Chars
  import opened Operators
  import opened Lexer

  /** A keyword followed by more letters is an identifier, and keywords are
      upper case only. */
  lemma KeywordsAreWholeWords(d: Dialect)
    ensures Lex(d, "SELECTx", 0) == Lexed(Identifier("SELECTx"), 7)
    ensures Lex(d, "select", 0) == Lexed(Identifier("select"), 6)
    ensures Lex(d, " SELECT a", 0) == Lexed(Select, 7)
  {
    LongerWord(d);
    LowerCaseWord(d);
    KeywordWord(d);
  }

  lemma LongerWord(d: Dialect)
    ensures Lex(d, "SELECTx", 0) == Lexed(Identifier("SELECTx"), 7)
  {
    var q := "SELECTx";
    assert q[0..7] == "SELECTx";
    assert Span(q, 0, Spaces) == 0;
    assert Span(q, 0, AlNums) == 7;
  }

  lemma LowerCaseWord(d: Dialect)
    ensures Lex(d, "select", 0) == Lexed(Identifier("select"), 6)
  {
    var q := "select";
    assert q[0..6] == "select";
    assert Span(q, 0, Spaces) == 0;
    assert Span(q, 0, AlNums) == 6;
  }

  lemma KeywordWord(d: Dialect)
    ensures Lex(d, " SELECT a", 0) == Lexed(Select, 7)
  {
    var q := " SELECT a";
    assert q[1..7] == "SELECT";
    assert Span(q, 0, Spaces) == 1;
    assert Span(q, 1, AlNums) == 7;
  }

  /** `>>` is no operator, so the run is passed over and the `(` after it
      is the token; `>>,` likewise reads as a comma. */
  lemma UnknownOperatorRunIsSkipped(d: Dialect)
    ensures Lex(d, " >>(", 0) == Lexed(LeftParen, 4)
    ensures Lex(d, ">>,", 0) == Lexed(Comma, 3)
    ensures Lex(d, "=a", 0) == Lexed(Invalid, 2)
  {
    SkippedBeforeParen(d);
    SkippedBeforeComma(d);
    SkippedBeforeLetter(d);
  }

  lemma SkippedBeforeParen(d: Dialect)
    ensures Lex(d, " >>(", 0) == Lexed(LeftParen, 4)
  {
    var q := " >>(";
    assert q[1..3] == ">>";
    assert Span(q, 0, Spaces) == 1;
    assert Span(q, 1, OperatorChars) == 3;
  }

  lemma SkippedBeforeComma(d: Dialect)
    ensures Lex(d, ">>,", 0) == Lexed(Comma, 3)
  {
    var q := ">>,";
    assert q[0..2] == ">>";
    assert Span(q, 0, Spaces) == 0;
    assert Span(q, 0, OperatorChars) == 2;
  }

  /** An unknown run that reaches the end makes the terminator itself the
      invalid token, so the next token would be read beyond the query. */
  lemma RunAtEndOverruns(d: Dialect)
    ensures Lex(d, ">>", 0) == Lexed(Invalid, 3)
    ensures Lex(d, ">>", 3) == Lexed(Overrun, 3)
  {
    var q := ">>";
    assert q[0..2] == ">>";
    assert Span(q, 0, Spaces) == 0;
    assert Span(q, 0, OperatorChars) == 2;
  }

  /** `=` is no operator either (equality is `==`), and the letter after
      it is consumed as an invalid token. */
  lemma SkippedBeforeLetter(d: Dialect)
    ensures Lex(d, "=a", 0) == Lexed(Invalid, 2)
  {
    var q := "=a";
    assert q[0..1] == "=";
    assert Span(q, 0, Spaces) == 0;
    assert Span(q, 0, OperatorChars) == 1;
  }

  /** The longest operator run is taken whole: `<=` is one token, and
      `<>` is the inequality operator. */
  lemma OperatorRuns(d: Dialect)
    ensures Lex(d, "<=1", 0) == Lexed(Operator("<="), 2)
    ensures Lex(d, "<>1", 0) == Lexed(Operator("<>"), 2)
  {
    var q := "<=1";
    assert Span(q, 0, Spaces) == 0;
    assert Span(q, 0, OperatorChars) == 2;
    assert q[0..2] == "<=";
    var q2 := "<>1";
    assert Span(q2, 0, Spaces) == 0;
    assert Span(q2, 0, OperatorChars) == 2;
    assert q2[0..2] == "<>";
  }

  /** A number is the run of digits and dots, however many dots it has. */
  lemma NumbersTakeEveryDot(d: Dialect)
    ensures Lex(d, "1.2.3+", 0) == Lexed(Constant("1.2.3"), 5)
  {
    var q := "1.2.3+";
    assert Span(q, 0, Spaces) == 0;
    assert Span(q, 1, NumberChars) == 5;
    assert q[0..5] == "1.2.3";
  }

  /** A semicolon ends the query in both dialects; an embedded NUL ends it
      only for the C tokenizer, which reads a NUL-terminated buffer. */
  lemma EndOfQuery()
    ensures Lex(C, "  ;a", 0) == Lexed(Eof, 2)
    ensures Lex(Cpp, "  ;a", 0) == Lexed(Eof, 2)
    ensures Lex(C, "\0a", 0) == Lexed(Eof, 0)
    ensures Lex(Cpp, "\0a", 0) == Lexed(Invalid, 1)
  {
    var q := "  ;a";
    assert Span(q, 0, Spaces) == 2;
    var q2 := "\0a";
    assert Span(q2, 0, Spaces) == 0;
  }
}
