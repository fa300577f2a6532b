/** Decimal integers as strconv.Atoi reads them. */
module Integers {
  import opened Strings
  import opened Wrappers

  function DigitValue(c: char): (d: nat)
    requires IsDigit(c)
    ensures d < 10
  {
    c as int - '0' as int
  }

  /** The natural number a digit string denotes. */
  function Val(s: string): nat
    requires AllDigits(s)
  {
    if s == "" then 0 else 10 * Val(s[..|s| - 1]) + DigitValue(s[|s| - 1])
  }

  predicate IsSign(s: string) { s == "" || s == "+" || s == "-" }

  predicate FitsInt64(n: int) { -0x8000_0000_0000_0000 <= n < 0x8000_0000_0000_0000 }

  function SignedVal(sign: string, digits: string): int
    requires AllDigits(digits)
  {
    var v: int := Val(digits);
    if sign == "-" then -v else v
  }

  function SignOf(s: string): (t: string)
    ensures IsSign(t) && t <= s
  {
    if s != "" && (s[0] == '-' || s[0] == '+') then s[..1] else ""
  }

  /** strconv.Atoi: an optional sign and digits that fit an int64. */
  function Atoi(s: string): Option<int> {
    var digits := s[|SignOf(s)|..];
    if digits != "" && AllDigits(digits) && FitsInt64(SignedVal(SignOf(s), digits))
    then Some(SignedVal(SignOf(s), digits)) else None
  }
}
