/** Decimal numbers as the targets and formats print and read them. */
module Decimal {
  import opened Text

  const U32_BOUND: nat := 0x1_0000_0000
  const U64_BOUND: nat := 0x1_0000_0000_0000_0000

  function Digit(n: nat): char
    requires n < 10
  {
    ['0', '1', '2', '3', '4', '5', '6', '7', '8', '9'][n]
  }

  function Digits(n: nat): (s: string)
    ensures s != ""
  {
    if n < 10 then [Digit(n)] else Digits(n / 10) + [Digit(n % 10)]
  }

  predicate IsDigit(ch: char) {
    '0' <= ch <= '9'
  }

  predicate AllDigits(s: string) {
    forall i :: 0 <= i < |s| ==> IsDigit(s[i])
  }

  function Value(s: string): nat
    requires AllDigits(s)
  {
    if s == "" then 0 else 10 * Value(s[..|s| - 1]) + (s[|s| - 1] as int - '0' as int)
  }

  /** Digits only, and at least one: `parse_id`. */
  function ParseId(s: string): Option<nat> {
    if s != "" && AllDigits(s) && Value(s) < U64_BOUND then Some(Value(s)) else None
  }

  /** `str::parse` of an unsigned integer below `bound`: an optional plus sign, then digits. */
  function ParseUnsigned(s: string, bound: nat): Option<nat> {
    var digits := if s != "" && s[0] == '+' then s[1..] else s;
    if digits != "" && AllDigits(digits) && Value(digits) < bound then Some(Value(digits)) else None
  }

  lemma {:induction false} DigitsRoundTrip(n: nat)
    ensures AllDigits(Digits(n)) && Value(Digits(n)) == n
  {
    var s := Digits(n);
    if n < 10 {
      assert s[..|s| - 1] == "";
    } else {
      DigitsRoundTrip(n / 10);
      assert s[..|s| - 1] == Digits(n / 10);
    }
  }

  /** A printed number reads back as itself. */
  lemma PrintedNumber(n: nat, bound: nat)
    ensures n < U64_BOUND ==> ParseId(Digits(n)) == Some(n)
    ensures n < bound ==> ParseUnsigned(Digits(n), bound) == Some(n)
  {
    DigitsRoundTrip(n);
  }
}
