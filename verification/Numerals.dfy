/** Numbers as text, in base 10 and 16. */
module Numerals {

  function Digit(n: nat): char
    requires n < 16
  {
    if n < 10 then '0' + n as char else 'a' + (n - 10) as char
  }

  /** A number in base 10 or 16. */
  function Numeral(n: nat, base: nat): string
    requires base == 10 || base == 16
    decreases n
  {
    if n < base then [Digit(n)] else Numeral(n / base, base) + [Digit(n % base)]
  }

  function DigitValue(c: char): int
  {
    if '0' <= c <= '9' then (c - '0') as int
    else if 'a' <= c <= 'f' then (c - 'a') as int + 10
    else if 'A' <= c <= 'F' then (c - 'A') as int + 10
    else -1
  }

  predicate IsDigit(c: char, base: nat) { 0 <= DigitValue(c) < base }

  function Value(t: string, base: nat): int
  {
    if t == "" then 0 else base * Value(t[..|t| - 1], base) + DigitValue(t[|t| - 1])
  }

  predicate AllDigits(t: string, base: nat) { forall i :: 0 <= i < |t| ==> IsDigit(t[i], base) }

  lemma DigitOf(n: nat, base: nat)
    requires (base == 10 || base == 16) && n < base
    ensures DigitValue(Digit(n)) == n && IsDigit(Digit(n), base)
    ensures Digit(n) == '0' <==> n == 0
  {
  }

  lemma {:induction false} NumeralDigits(n: nat, base: nat)
    requires base == 10 || base == 16
    ensures var t := Numeral(n, base);
      && t != "" && AllDigits(t, base) && Value(t, base) == n && (t[0] == '0' <==> n == 0)
    decreases n
  {
    if n < base {
      DigitOf(n, base);
      var t := Numeral(n, base);
      assert t[..0] == "" && Value("", base) == 0;
    } else {
      NumeralDigits(n / base, base);
      DigitOf(n % base, base);
      var t := Numeral(n, base);
      assert t[..|t| - 1] == Numeral(n / base, base) && t[0] == Numeral(n / base, base)[0];
      hide Digit, IsDigit, DigitValue;
      assert base * (n / base) + n % base == n;
    }
  }
}
