/**
 `String(n)` for a natural number: the text the register handler uses as a new
 user's id. A parser is given beside it so that the conversion can be shown
 to lose nothing.
 */
module Decimal {

  predicate IsDigit(c: char)
  {
    '0' <= c <= '9'
  }

  /** The character of a decimal digit. */
  function DigitChar(d: nat): (c: char)
    requires d < 10
    ensures IsDigit(c)
  {
    (48 + d) as char
  }

  /** The value of a digit character. */
  function DigitValue(c: char): (d: nat)
    requires IsDigit(c)
    ensures d < 10
  {
    (c as int) - 48
  }

  /** Digits only, at least one, and no leading zero unless the text is "0":
      the form `String(n)` produces for a natural number. */
  predicate IsCanonical(s: string)
  {
    && |s| >= 1
    && (forall i :: 0 <= i < |s| ==> IsDigit(s[i]))
    && (|s| > 1 ==> s[0] != '0')
  }

  /** `String(n)`: the shortest decimal numeral for n. */
  function NatToDecimal(n: nat): (s: string)
    ensures IsCanonical(s)
    ensures |s| == 1 <==> n < 10
    decreases n
  {
    if n < 10 then [DigitChar(n)] else NatToDecimal(n / 10) + [DigitChar(n % 10)]
  }

  /** The number a string of digits denotes. */
  function DecimalToNat(s: string): nat
    requires forall i :: 0 <= i < |s| ==> IsDigit(s[i])
  {
    if s == [] then 0 else DecimalToNat(s[..|s| - 1]) * 10 + DigitValue(s[|s| - 1])
  }

  /** Reading back the numeral gives the number. */
  lemma {:induction false} DecimalRoundTrip(n: nat)
    ensures DecimalToNat(NatToDecimal(n)) == n
    decreases n
  {
    if n >= 10 {
      var s := NatToDecimal(n);
      assert s[..|s| - 1] == NatToDecimal(n / 10);
      DecimalRoundTrip(n / 10);
    }
  }

  /** Distinct numbers get distinct numerals. */
  lemma NatToDecimalInjective(m: nat, n: nat)
    ensures NatToDecimal(m) == NatToDecimal(n) ==> m == n
  {
    DecimalRoundTrip(m);
    DecimalRoundTrip(n);
  }

  /** A numeral with a non-zero first digit denotes a number of at least as many digits. */
  lemma {:induction false} LeadingDigitBound(s: string)
    requires |s| >= 2 && (forall i :: 0 <= i < |s| ==> IsDigit(s[i])) && s[0] != '0'
    ensures DecimalToNat(s) >= 10
    decreases |s|
  {
    var p := s[..|s| - 1];
    if |p| >= 2 {
      LeadingDigitBound(p);
    } else {
      assert DecimalToNat(p) == DigitValue(p[0]) >= 1;
    }
  }

  /** Every canonical numeral is the output of `String(n)` for the number it denotes. */
  lemma {:induction false} CanonicalRoundTrip(s: string)
    requires IsCanonical(s)
    ensures NatToDecimal(DecimalToNat(s)) == s
    decreases |s|
  {
    if |s| == 1 {
      assert DecimalToNat(s) == DigitValue(s[0]);
    } else {
      var p := s[..|s| - 1];
      LeadingDigitBound(s);
      if |p| >= 2 {
        assert p[0] == s[0];
      }
      CanonicalRoundTrip(p);
      var n := DecimalToNat(s);
      assert n / 10 == DecimalToNat(p) && n % 10 == DigitValue(s[|s| - 1]);
      assert s == p + [s[|s| - 1]];
    }
  }
}
