/** The decimal numbers of a descriptor line: `%d` as gentbl.py writes the
    row count, and the two readers of it, C's `atoll` and C++'s
    `std::stoll`, for a 64-bit `long long`. */
module Numbers {
  import opened Base
  import opened Chars

  const LngMin: int := -0x8000_0000_0000_0000
  const LngMax: int := 0x7FFF_FFFF_FFFF_FFFF

  predicate AllDigits(s: string) {
    forall m | 0 <= m < |s| :: IsDigit(s[m])
  }

  function DigitValue(c: char): nat
    requires IsDigit(c)
  {
    c as int - '0' as int
  }

  function Digit(n: nat): (c: char)
    requires n < 10
    ensures IsDigit(c) && DigitValue(c) == n
  {
    ('0' as int + n) as char
  }

  /** The value of a digit string, most significant digit first. */
  function DecimalValue(ds: string): nat
    requires AllDigits(ds)
  {
    if ds == [] then 0 else DecimalValue(ds[..|ds| - 1]) * 10 + DigitValue(ds[|ds| - 1])
  }

  /** `%d` of a non-negative number: its digits without leading zeros. */
  function DecimalString(n: nat): (s: string)
    ensures |s| >= 1 && AllDigits(s)
  {
    if n < 10 then [Digit(n)] else DecimalString(n / 10) + [Digit(n % 10)]
  }

  /** Reading back the digits `%d` wrote gives the number. */
  lemma {:induction false} DecimalRoundTrip(n: nat)
    ensures DecimalValue(DecimalString(n)) == n
  {
    if n >= 10 {
      DecimalRoundTrip(n / 10);
      var s := DecimalString(n);
      assert s[..|s| - 1] == DecimalString(n / 10);
    }
  }

  /** What strtoll's grammar takes from the front of a string: leading
      whitespace, an optional sign, and the run of digits after it. */
  datatype Leading = Leading(negative: bool, digits: string)

  function LeadingInteger(s: string): (r: Leading)
    ensures AllDigits(r.digits)
  {
    var i := Span(s, 0, Spaces);
    var c := At(s, i);
    var j := if c == '+' || c == '-' then i + 1 else i;
    var e := Span(s, j, Digits);
    SpanRun(s, j, Digits);
    Leading(c == '-', s[j..e])
  }

  function Value(l: Leading): int
    requires AllDigits(l.digits)
  {
    var m: int := DecimalValue(l.digits);
    if l.negative then -m else m
  }

  /** atoll: 0 when no digit follows the blanks and the sign; a value
      outside `long long` is undefined behaviour. */
  function Atoll(s: string): (r: Result<int>)
    ensures r.Ok? ==> LngMin <= r.value <= LngMax
    ensures r.Err? ==> r.failure == Undefined
  {
    var l := LeadingInteger(s);
    if l.digits == [] then Ok(0)
    else if LngMin <= Value(l) <= LngMax then Ok(Value(l))
    else Err(Undefined)
  }

  /** std::stoll: throws std::invalid_argument when there is no digit and
      std::out_of_range when the value does not fit; the reader catches
      neither, so both end the program. */
  function Stoll(s: string): (r: Result<int>)
    ensures r.Ok? ==> LngMin <= r.value <= LngMax
    ensures r.Err? ==> r.failure == Aborted
  {
    var l := LeadingInteger(s);
    if l.digits == [] then Err(Aborted)
    else if LngMin <= Value(l) <= LngMax then Ok(Value(l))
    else Err(Aborted)
  }

  /** The two readers agree wherever stoll succeeds; where it throws, atoll
      answers 0 or has undefined behaviour. */
  lemma AtollStoll(s: string)
    ensures Stoll(s).Ok? ==> Atoll(s) == Stoll(s)
    ensures Stoll(s).Err? ==> Atoll(s) == Ok(0) || Atoll(s) == Err(Undefined)
  {
  }

  /** Both readers read back a `%d`-written count followed by anything that
      is not a digit, such as the line's newline. */
  lemma ReadDecimal(n: nat, tail: string)
    requires n <= LngMax
    requires tail == [] || !IsDigit(tail[0])
    ensures LeadingInteger(DecimalString(n) + tail) == Leading(false, DecimalString(n))
    ensures Atoll(DecimalString(n) + tail) == Ok(n)
    ensures Stoll(DecimalString(n) + tail) == Ok(n)
  {
    var ds := DecimalString(n);
    var s := ds + tail;
    assert s[0] == ds[0];
    assert Span(s, 0, Spaces) == 0;
    SpanWhole(s, 0, |ds|, Digits);
    assert s[0..|ds|] == ds;
    DecimalRoundTrip(n);
  }
}
