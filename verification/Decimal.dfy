/** Decimal text of unsigned numbers, as printed by `std::to_string` and read by `std::stoi` and `std::stoull`. */
module Decimal {

  predicate IsDigit(c: char) {
    '0' <= c <= '9'
  }

  predicate IsNumeral(s: string) {
    s != [] && forall i :: 0 <= i < |s| ==> IsDigit(s[i])
  }

  function Digit(n: nat): (c: char)
    requires n < 10
    ensures IsDigit(c)
  {
    n as char + '0'
  }

  function DigitValue(c: char): nat
    requires IsDigit(c)
  {
    (c - '0') as nat
  }

  function ToDecimal(n: nat): (s: string)
    ensures IsNumeral(s)
  {
    if n < 10 then [Digit(n)] else ToDecimal(n / 10) + [Digit(n % 10)]
  }

  function FromDecimal(s: string): nat
    requires forall i :: 0 <= i < |s| ==> IsDigit(s[i])
  {
    if s == [] then 0
    else FromDecimal(s[..|s| - 1]) * 10 + DigitValue(s[|s| - 1])
  }

  lemma {:induction false} DecimalRoundTrip(n: nat)
    ensures FromDecimal(ToDecimal(n)) == n
  {
    var s := ToDecimal(n);
    if n < 10 {
      assert s[..|s| - 1] == [];
    } else {
      DecimalRoundTrip(n / 10);
      assert s[..|s| - 1] == ToDecimal(n / 10);
    }
  }

  function Pow10(n: nat): nat {
    if n == 0 then 1 else 10 * Pow10(n - 1)
  }

  /** The first digit weighs most. */
  lemma {:induction false} LeadingDigit(c: char, rest: string)
    requires IsDigit(c) && forall i :: 0 <= i < |rest| ==> IsDigit(rest[i])
    ensures FromDecimal([c] + rest) == DigitValue(c) * Pow10(|rest|) + FromDecimal(rest)
  {
    var s := [c] + rest;
    if rest == [] {
      assert s[..0] == [];
    } else {
      var n := |rest| - 1;
      LeadingDigit(c, rest[..n]);
      assert s[..|s| - 1] == [c] + rest[..n] && s[|s| - 1] == rest[n];
      Regroup(DigitValue(c), Pow10(n), FromDecimal(rest[..n]), DigitValue(rest[n]));
    }
  }

  lemma Regroup(a: nat, p: nat, b: nat, d: nat)
    ensures (a * p + b) * 10 + d == a * (10 * p) + (b * 10 + d)
  {}

  /** No number is printed with a leading zero but zero itself. */
  lemma {:induction false} NoLeadingZero(n: nat)
    requires n > 0
    ensures ToDecimal(n)[0] != '0'
  {
    if n >= 10 {
      NoLeadingZero(n / 10);
      assert ToDecimal(n)[0] == ToDecimal(n / 10)[0];
    }
  }
}
