/** The hand-written tokenizer `_ParseToken` of parser.h:207-281 and
    parser.hpp:200-272. A token carries its own lexeme, which the source keeps
    in the global `strval`; the index the source advances through a pointer or
    reference is returned as `next`. */
module Lexer {
  import opened Base
  import opened Chars
  import opened Operators

  datatype Token =
    | Select
    | From
    | Where
    | Operator(op: string)
    | Constant(lexeme: string)
    | Identifier(name: string)
    | LeftParen
    | RightParen
    | Comma
    | Invalid
    | Eof
    | Overrun

  datatype Lexed = Lexed(tok: Token, next: nat)

  /** Whether the first non-blank position `j` ends the query. C stops at
      the terminating '\0' (so also at an embedded one); C++ stops at
      `size()`. Both stop at ';'. */
  predicate AtEnd(d: Dialect, q: string, j: nat) {
    match d
    case C => At(q, j) == '\0' || At(q, j) == ';'
    case Cpp => j >= |q| || q[j] == ';'
  }

  /** The token a whole alphanumeric word stands for. */
  function Word(w: string): Token {
    if w == "SELECT" then Select
    else if w == "FROM" then From
    else if w == "WHERE" then Where
    else if w == "AND" then Operator(w)
    else if w == "OR" then Operator(w)
    else Identifier(w)
  }

  /** Keywords are case-sensitive whole words: only the exact spellings
      SELECT, FROM and WHERE are clause keywords, AND and OR are operators,
      and every other word (`select`, `SELECTx`) is an identifier. */
  lemma WordClasses(w: string)
    ensures Word(w) == Select <==> w == "SELECT"
    ensures Word(w) == From <==> w == "FROM"
    ensures Word(w) == Where <==> w == "WHERE"
    ensures Word(w).Operator? <==> w == "AND" || w == "OR"
    ensures Word(w).Operator? ==> Word(w).op == w
    ensures Word(w) == Identifier(w) <==> w !in {"SELECT", "FROM", "WHERE", "AND", "OR"}
  {
  }

  /** The tail of `_ParseToken`: '(', ')' and ',' are single-character
      tokens; any other character is consumed as an invalid token. */
  function Punctuation(q: string, j: nat): (r: Lexed)
    ensures r.next == j + 1 && r.tok != Eof && r.tok != Overrun && !r.tok.Operator?
    ensures r.tok == LeftParen ==> j < |q| && q[j] == '('
  {
    var c := At(q, j);
    if c == '(' then Lexed(LeftParen, j + 1)
    else if c == ')' then Lexed(RightParen, j + 1)
    else if c == ',' then Lexed(Comma, j + 1)
    else Lexed(Invalid, j + 1)
  }

  /** One step of the tokenizer from index `i`. An operator run that is not a
      recognised operator falls through to the punctuation checks at the index
      AFTER the run, so `>>(` lexes as `(`, not as an invalid token. When such
      a run reaches the end, the terminator itself is consumed as an invalid
      token and the index moves one past it; a later call from there reads
      memory beyond the query (past the C buffer's terminator, or
      `query[index]` with index > size() in C++), which is `Overrun`. */
  function Lex(d: Dialect, q: string, i: nat): (r: Lexed)
    // starting beyond the terminator is the out-of-bounds read
    ensures r.tok == Overrun <==> i > |q|
    ensures r.tok == Overrun ==> r.next == i
    // end of input consumes exactly the leading whitespace
    ensures i <= |q| ==>
              var s := Span(q, i, Spaces);
              (r.tok == Eof <==> AtEnd(d, q, s)) && (r.tok == Eof ==> r.next == s)
    // every other token is progress from a start inside the query
    ensures r.tok != Eof && r.tok != Overrun ==>
              Span(q, i, Spaces) < |q| && Span(q, i, Spaces) < r.next <= |q| + 1
    ensures i <= r.next
    ensures r.tok.Operator? ==> IsOperator(r.tok.op) && |r.tok.op| > 0 && r.next <= |q|
    ensures r.tok.Identifier? ==> r.next <= |q|
    ensures r.tok == LeftParen ==> i < r.next <= |q| && q[r.next - 1] == '('
  {
    if i > |q| then Lexed(Overrun, i)
    else
      var s := Span(q, i, Spaces);
      if AtEnd(d, q, s) then Lexed(Eof, s)
      else
        var c := q[s];
        if IsAlpha(c) then
          var e := Span(q, s, AlNums);
          Lexed(Word(q[s..e]), e)
        else if IsDigit(c) || c == '.' then
          var e := Span(q, s + 1, NumberChars);
          Lexed(Constant(q[s..e]), e)
        else if IsOperatorChar(c) then OperatorRun(q, s)
        else Punctuation(q, s)
  }

  /** The token of the maximal run of operator characters at `s`: an
      operator when the whole run is one, otherwise whatever punctuation
      follows the run. */
  function OperatorRun(q: string, s: nat): (r: Lexed)
    requires s < |q| && IsOperatorChar(q[s])
    ensures s < r.next <= |q| + 1
    ensures r.tok != Eof && r.tok != Overrun
    ensures r.tok.Operator? ==> IsOperator(r.tok.op) && |r.tok.op| > 0 && r.next <= |q|
    ensures r.tok == LeftParen ==> r.next <= |q| && q[r.next - 1] == '('
  {
    var e := Span(q, s, OperatorChars);
    if IsOperator(q[s..e]) then Lexed(Operator(q[s..e]), e)
    else Punctuation(q, e)
  }

  /** PeekToken: the token at `i`, leaving the caller's index where it is
      (the index is passed by value in parser.hpp:274 and copied in
      parser.h:284). */
  function Peek(d: Dialect, q: string, i: nat): Token {
    Lex(d, q, i).tok
  }

  /** Keywords and identifiers are whole alphanumeric words: the token is
      decided by the maximal run, case-sensitively. */
  lemma LexWord(d: Dialect, q: string, i: nat)
    requires var s := Span(q, i, Spaces); s < |q| && IsAlpha(q[s])
    ensures var s := Span(q, i, Spaces);
            var e := Span(q, s, AlNums);
            && Lex(d, q, i) == Lexed(Word(q[s..e]), e)
            && (forall m | s <= m < e :: IsAlnum(q[m]))
            && !IsAlnum(At(q, e))
  {
    var s := Span(q, i, Spaces);
    assert !AtEnd(d, q, s);
    SpanRun(q, s, AlNums);
  }

  /** A numeric constant is the maximal run of digits and '.' that starts at
      a digit or '.'. */
  lemma LexNumber(d: Dialect, q: string, i: nat)
    requires var s := Span(q, i, Spaces); s < |q| && (IsDigit(q[s]) || q[s] == '.')
    ensures var s := Span(q, i, Spaces);
            var e := Span(q, s + 1, NumberChars);
            && Lex(d, q, i) == Lexed(Constant(q[s..e]), e)
            && (forall m | s <= m < e :: IsDigit(q[m]) || q[m] == '.')
            && !(IsDigit(At(q, e)) || At(q, e) == '.')
  {
    var s := Span(q, i, Spaces);
    assert !AtEnd(d, q, s);
    SpanRun(q, s + 1, NumberChars);
  }

  /** A maximal run of operator characters is an operator token exactly when
      the whole run is a recognised operator; otherwise lexing resumes with
      the punctuation checks right after the run. */
  lemma LexOperatorRun(d: Dialect, q: string, i: nat)
    requires var s := Span(q, i, Spaces); s < |q| && IsOperatorChar(q[s])
    ensures var s := Span(q, i, Spaces);
            var e := Span(q, s, OperatorChars);
            && (Lex(d, q, i).tok.Operator? <==> IsOperator(q[s..e]))
            && (IsOperator(q[s..e]) ==> Lex(d, q, i) == Lexed(Operator(q[s..e]), e))
            && (!IsOperator(q[s..e]) ==> Lex(d, q, i) == Punctuation(q, e))
  {
    var s := Span(q, i, Spaces);
    assert !AtEnd(d, q, s);
    var e := Span(q, s, OperatorChars);
    if !IsOperator(q[s..e]) {
      assert !Punctuation(q, e).tok.Operator?;
    }
  }
}
