/** ASCII decimal digits, which is what `\d` and `Number(c)` mean throughout the shared package. */
module Digits {

  type Digit = d: int | 0 <= d < 10

  predicate IsDigit(c: char) {
    '0' <= c <= '9'
  }

  function DigitOf(c: char): Digit
    requires IsDigit(c)
  {
    (c - '0') as int
  }

  function CharOf(d: Digit): (c: char)
    ensures IsDigit(c) && DigitOf(c) == d
  {
    '0' + d as char
  }

  predicate AllDigits(s: string) {
    forall i :: 0 <= i < |s| ==> IsDigit(s[i])
  }
}
