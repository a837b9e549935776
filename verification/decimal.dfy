/** Decimal rendering of natural numbers, as Python's `str` does for a non-negative `int`. */
module Decimal {

  predicate IsDigit(c: char)
  {
    '0' <= c <= '9'
  }

  predicate AllDigits(s: string)
  {
    forall i :: 0 <= i < |s| ==> IsDigit(s[i])
  }

  /** A canonical numeral: at least one digit, and no leading zero unless it is "0". */
  predicate IsNumeral(s: string)
  {
    |s| >= 1 && AllDigits(s) && (s[0] == '0' ==> s == "0")
  }

  function DigitValue(c: char): (d: nat)
    requires IsDigit(c)
    ensures d < 10
  {
    c as int - '0' as int
  }

  function DigitChar(d: nat): (c: char)
    requires d < 10
    ensures IsDigit(c) && DigitValue(c) == d
  {
    ('0' as int + d) as char
  }

  /** The value of a string of digits, most significant first. */
  function ToNat(s: string): nat
    requires AllDigits(s)
  {
    if |s| == 0 then 0
    else ToNat(s[..|s| - 1]) * 10 + DigitValue(s[|s| - 1])
  }

  /** `str(n)` for `n >= 0`: a canonical numeral whose value is `n`. */
  function FromNat(n: nat): (s: string)
    ensures IsNumeral(s)
    ensures ToNat(s) == n
    decreases n
  {
    if n < 10 then [DigitChar(n)]
    else
      var high := FromNat(n / 10);
      var s := high + [DigitChar(n % 10)];
      assert s[..|s| - 1] == high;
      s
  }

  /** A numeral with a non-zero leading digit denotes a positive number. */
  lemma {:induction false} LeadingDigitPositive(s: string)
    requires |s| >= 1 && AllDigits(s) && s[0] != '0'
    ensures ToNat(s) >= 1
    decreases |s|
  {
    if |s| > 1 {
      LeadingDigitPositive(s[..|s| - 1]);
    }
  }

  /** Every canonical numeral is the rendering of its own value. */
  lemma {:induction false} FromNatToNat(s: string)
    requires IsNumeral(s)
    ensures FromNat(ToNat(s)) == s
    decreases |s|
  {
    var n := ToNat(s);
    if |s| == 1 {
      assert s[..0] == [] && ToNat(s[..0]) == 0;
      assert n == DigitValue(s[0]);
      assert DigitChar(n) == s[0];
    } else {
      var high := s[..|s| - 1];
      LeadingDigitPositive(high);
      FromNatToNat(high);
      assert n / 10 == ToNat(high) && n % 10 == DigitValue(s[|s| - 1]);
      assert DigitChar(n % 10) == s[|s| - 1];
      assert s == high + [s[|s| - 1]];
    }
  }
}
