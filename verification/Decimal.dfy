/** Decimal digits. */
module Decimal {

  predicate IsDigit(c: char) {
    '0' <= c <= '9'
  }

  function Digits(n: nat): (s: string)
    ensures s != "" && IsDigit(s[0])
  {
    if n < 10 then [('0' as int + n) as char] else Digits(n / 10) + [('0' as int + n % 10) as char]
  }

  lemma DigitsAreDigits(n: nat)
    ensures |Digits(n)| > 1 ==> IsDigit(Digits(n)[1])
    ensures |Digits(n)| > 1 <==> n >= 10
  {
  }

  lemma {:induction false} NoNulInDigits(n: nat)
    ensures '\0' !in Digits(n)
  {
    if n >= 10 {
      NoNulInDigits(n / 10);
    }
  }
}
