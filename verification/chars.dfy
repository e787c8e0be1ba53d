/** Character classes of <ctype.h> in the "C" locale, and the maximal-run
    scanning that both lexers and both descriptor readers are built from. */
module Chars {

  /** `isspace`: space, tab, newline, vertical tab, form feed, carriage return. */
  predicate IsSpace(c: char) {
    c == ' ' || c == '\t' || c == '\n' || c == '\r' || c as int == 0x0B || c as int == 0x0C
  }

  predicate IsDigit(c: char) {
    '0' <= c <= '9'
  }

  predicate IsAlpha(c: char) {
    ('a' <= c <= 'z') || ('A' <= c <= 'Z')
  }

  predicate IsAlnum(c: char) {
    IsAlpha(c) || IsDigit(c)
  }

  /** The characters an operator is made of (IsOperatorCharacter in parser.h,
      the char overload of IsOperator in parser.hpp). */
  predicate IsOperatorChar(c: char) {
    c == '+' || c == '-' || c == '*' || c == '/' || c == '>' ||
    c == '<' || c == '=' || c == '!' || c == '|' || c == '&'
  }

  /** The character classes a scanning loop of the source runs over. */
  datatype Kind = Spaces | AlNums | Digits | NumberChars | OperatorChars

  predicate In(k: Kind, c: char) {
    match k
    case Spaces => IsSpace(c)
    case AlNums => IsAlnum(c)
    case Digits => IsDigit(c)
    case NumberChars => IsDigit(c) || c == '.'
    case OperatorChars => IsOperatorChar(c)
  }

  /** The character a NUL-terminated buffer holds at `i` for `i <= |q|`: at
      the end the source reads the terminating '\0' (std::string guarantees
      the same for index size()). Indices beyond the terminator are never
      given to `At` by the tokenizer: they are its `Overrun` case. */
  function At(q: string, i: nat): char {
    if i < |q| then q[i] else '\0'
  }

  /** The end of the maximal run of `k`-characters that starts at `i`. No
      class contains '\0', so the run never passes the end of `q`. */
  function Span(q: string, i: nat, k: Kind): (j: nat)
    ensures i <= j
    ensures j <= |q| || j == i
    ensures !In(k, At(q, j))
    decreases |q| - i
  {
    if i < |q| && In(k, q[i]) then Span(q, i + 1, k) else i
  }

  /** Every character of the run belongs to the class. */
  lemma {:induction false} SpanRun(q: string, i: nat, k: Kind)
    ensures forall m | i <= m < Span(q, i, k) :: m < |q| && In(k, q[m])
    decreases |q| - i
  {
    if i < |q| && In(k, q[i]) {
      SpanRun(q, i + 1, k);
    }
  }

  /** A run known to end at `j` is the run Span finds. */
  lemma {:induction false} SpanWhole(q: string, i: nat, j: nat, k: Kind)
    requires i <= j <= |q|
    requires forall m | i <= m < j :: In(k, q[m])
    requires !In(k, At(q, j))
    ensures Span(q, i, k) == j
    decreases j - i
  {
    if i < j {
      SpanWhole(q, i + 1, j, k);
    }
  }

  /** A run that is already maximal does not grow when scanned again. */
  lemma SpanIdempotent(q: string, i: nat, k: Kind)
    ensures Span(q, Span(q, i, k), k) == Span(q, i, k)
  {
  }
}
