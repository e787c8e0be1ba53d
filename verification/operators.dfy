/** The operator table shared by both parsers: OperatorType,
    OperatorPrecedence and IsOperator (parser.h:161-205, parser.hpp:154-198). */
module Operators {

  /** The codes OPTYPE_mul .. OPTYPE_or of parser.h:11-22. */
  const Mul := 1
  const Div := 2
  const Add := 3
  const Sub := 4
  const Lt := 5
  const Le := 6
  const Eq := 7
  const Ne := 8
  const Gt := 9
  const Ge := 10
  const And := 11
  const Or := 12

  /** OperatorType's chain of comparisons (parser.h:161-180) as a table;
      the spellings are pairwise distinct, so first match and lookup agree. */
  const Codes: map<string, int> := map[
    "/" := Div, "*" := Mul, "+" := Add, "-" := Sub,
    ">=" := Ge, ">" := Gt, "<" := Lt, "<=" := Le,
    "==" := Eq, "!=" := Ne, "<>" := Ne,
    "&&" := And, "AND" := And, "||" := Or, "OR" := Or]

  /** OperatorPrecedence's chain (parser.h:182-201): C's order, higher binds
      tighter, levels a hundred apart. */
  const Precedences: map<string, int> := map[
    "/" := 1200, "*" := 1200, "+" := 1100, "-" := 1100,
    ">=" := 700, ">" := 700, "<" := 700, "<=" := 700,
    "==" := 600, "!=" := 600, "<>" := 600,
    "&&" := 400, "AND" := 400, "||" := 300, "OR" := 300]

  /** Every spelling the source recognises as an operator. */
  const Spellings: set<string> :=
    {"/", "*", "+", "-", ">=", ">", "<", "<=", "==", "!=", "<>", "&&", "AND", "||", "OR"}

  /** The operator's code, or -1 for a string that is no operator. */
  function OperatorType(op: string): (t: int)
    ensures t == -1 || Mul <= t <= Or
  {
    if op in Codes then Codes[op] else -1
  }

  /** The binding strength of an operator; -1 for a non-operator. */
  function OperatorPrecedence(op: string): (p: int)
    ensures p == -1 || 300 <= p <= 1200
  {
    if op in Precedences then Precedences[op] else -1
  }

  predicate IsOperator(op: string) {
    OperatorPrecedence(op) > 0
  }

  /** IsOperator holds exactly on the recognised spellings, which are exactly
      the strings OperatorType gives a code to. */
  lemma IsOperatorExactly(op: string)
    ensures IsOperator(op) <==> op in Spellings
    ensures IsOperator(op) <==> OperatorType(op) != -1
    ensures IsOperator(op) ==> |op| > 0
  {
  }

  /** Precedence is a function of the operator's code: two spellings of the
      same operator (`!=` and `<>`, `&&` and `AND`, `||` and `OR`) bind alike. */
  lemma PrecedenceFollowsType(a: string, b: string)
    requires OperatorType(a) == OperatorType(b)
    ensures OperatorPrecedence(a) == OperatorPrecedence(b)
  {
  }

  /** Multiplicative operators bind tighter than additive ones, which bind
      tighter than comparisons, then equality, then AND, then OR. */
  lemma PrecedenceLevels()
    ensures OperatorPrecedence("*") == OperatorPrecedence("/") > OperatorPrecedence("+")
    ensures OperatorPrecedence("+") == OperatorPrecedence("-") > OperatorPrecedence("<")
    ensures OperatorPrecedence("<") == OperatorPrecedence(">=") > OperatorPrecedence("==")
    ensures OperatorPrecedence("==") == OperatorPrecedence("<>") > OperatorPrecedence("AND")
    ensures OperatorPrecedence("AND") == OperatorPrecedence("&&") > OperatorPrecedence("OR")
  {
  }
}
