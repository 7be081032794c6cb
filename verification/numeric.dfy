/**
  The decimal coercion the integer reader applies to an option's text, in
  the manner of C's `atoi`: the longest run of leading decimal digits is read
  as a number, and text that does not start with a digit reads as 0.
 */
module Numeric {

  predicate IsDigit(c: char) {
    '0' <= c <= '9'
  }

  predicate AllDigits(s: string) {
    forall j :: 0 <= j < |s| ==> IsDigit(s[j])
  }

  /** Length of the run of decimal digits at the front of `s`. */
  function LeadingDigits(s: string): (n: nat)
    ensures n <= |s|
    ensures n < |s| ==> !IsDigit(s[n])
  {
    if s != [] && IsDigit(s[0]) then 1 + LeadingDigits(s[1..]) else 0
  }

  /** The run LeadingDigits measures is all digits. */
  lemma {:induction false} LeadingDigitsAreDigits(s: string)
    ensures AllDigits(s[..LeadingDigits(s)])
  {
    if s != [] && IsDigit(s[0]) {
      var n := LeadingDigits(s);
      LeadingDigitsAreDigits(s[1..]);
      assert s[..n] == [s[0]] + s[1..][..n - 1];
    }
  }

  /** The number a string of decimal digits denotes, most significant first. */
  function DigitsToNat(d: string): nat
    requires AllDigits(d)
  {
    if d == [] then 0
    else 10 * DigitsToNat(d[..|d| - 1]) + (d[|d| - 1] as int - '0' as int)
  }

  /** `atoi` without sign or whitespace: the leading digits' value, or 0. */
  function Atoi(s: string): (n: int)
    ensures n >= 0
    ensures (s == [] || !IsDigit(s[0])) ==> n == 0
  {
    LeadingDigitsAreDigits(s);
    DigitsToNat(s[..LeadingDigits(s)])
  }

  /** The decimal numeral of `n`, without leading zeros. */
  function Decimal(n: nat): (s: string)
    ensures |s| > 0
    ensures |s| > 1 ==> s[0] != '0'
  {
    if n < 10 then ['0' + n as char]
    else Decimal(n / 10) + ['0' + (n % 10) as char]
  }

  /** A numeral is made of digits and denotes the number it was made from. */
  lemma {:induction false} DigitsOfDecimal(n: nat)
    ensures AllDigits(Decimal(n)) && DigitsToNat(Decimal(n)) == n
  {
    if n >= 10 {
      var s := Decimal(n);
      assert s[..|s| - 1] == Decimal(n / 10);
      DigitsOfDecimal(n / 10);
    }
  }

  /** Coercing a numeral, followed by anything that is not a digit, gives
      back the number: `"11"` reads as 11, `"1"` as 1. */
  lemma AtoiDecimal(n: nat, rest: string)
    requires rest == [] || !IsDigit(rest[0])
    ensures Atoi(Decimal(n) + rest) == n
  {
    var d := Decimal(n);
    var s := d + rest;
    var k := LeadingDigits(s);
    DigitsOfDecimal(n);
    LeadingDigitsAreDigits(s);
    assert k == |d| by {
      assert AllDigits(s[..|d|]) by { assert s[..|d|] == d; }
      assert |d| < |s| ==> !IsDigit(s[|d|]);
    }
    assert s[..k] == d;
    DigitsOfDecimal(n);
  }
}
