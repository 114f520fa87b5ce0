/**
 * Decimal numerals: the text Python's `str` gives a non-negative integer
 * (used for the `"ip:%s"` counter key) and the reading of a decimal
 * component of a dotted-quad address.
 */
module Decimal {

  predicate IsDigit(c: char) {
    '0' <= c <= '9'
  }

  predicate AllDigits(s: string) {
    forall i :: 0 <= i < |s| ==> IsDigit(s[i])
  }

  /** A numeral as `str` writes it: non-empty, digits only, no leading zero unless it is "0". */
  predicate IsCanonical(s: string) {
    && |s| > 0
    && AllDigits(s)
    && (s[0] == '0' ==> |s| == 1)
  }

  function DigitValue(c: char): (d: nat)
    requires IsDigit(c)
    ensures d < 10
  {
    c as int - '0' as int
  }

  function DigitChar(d: nat): (c: char)
    requires d < 10
    ensures IsDigit(c) && DigitValue(c) == d
  {
    ('0' as int + d) as char
  }

  /** The number a string of digits denotes, most significant digit first. */
  function Value(s: string): nat
    requires AllDigits(s)
    decreases |s|
  {
    if |s| == 0 then 0 else Value(s[..|s| - 1]) * 10 + DigitValue(s[|s| - 1])
  }

  /** `str(n)`: the canonical numeral of `n`, which reads back as `n`. */
  function Digits(n: nat): (s: string)
    ensures IsCanonical(s)
    ensures Value(s) == n
    decreases n
  {
    if n < 10 then [DigitChar(n)]
    else
      var p := Digits(n / 10);
      assert (p + [DigitChar(n % 10)])[..|p|] == p;
      p + [DigitChar(n % 10)]
  }

  /** A numeral that starts with a non-zero digit denotes a positive number. */
  lemma {:induction false} ValuePositive(s: string)
    requires AllDigits(s) && |s| > 0 && s[0] != '0'
    ensures Value(s) >= 1
    decreases |s|
  {
    if |s| > 1 {
      ValuePositive(s[..|s| - 1]);
    }
  }

  /** Every canonical numeral is the `str` of the number it denotes. */
  lemma {:induction false} DigitsOfValue(s: string)
    requires IsCanonical(s)
    ensures Digits(Value(s)) == s
    decreases |s|
  {
    if |s| > 1 {
      var p := s[..|s| - 1];
      ValuePositive(p);
      DigitsOfValue(p);
      assert p + [s[|s| - 1]] == s;
    }
  }

  /** Distinct numbers have distinct numerals. */
  lemma DigitsInjective(m: nat, n: nat)
    requires m != n
    ensures Digits(m) != Digits(n)
  {
  }
}
