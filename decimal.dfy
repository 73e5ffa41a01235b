/**
 * Decimal numerals: Python's `int(s)` on a string of digits and `str(n)` /
 * f-string formatting of a non-negative integer, and how the two invert
 * each other.
 */
module Decimal {
  import opened Text

  function DigitValue(c: char): (d: nat)
    requires IsDigit(c)
    ensures d < 10
  {
    (c as int) - ('0' as int)
  }

  function DigitChar(d: nat): (c: char)
    requires d < 10
    ensures IsDigit(c) && DigitValue(c) == d
  {
    (('0' as int) + d) as char
  }

  /** The number a digit string denotes, most significant digit first, as `int(ds)`
      computes it for a non-empty `ds`; the empty string is handled by the caller. */
  function Value(ds: string): nat
    requires AllDigits(ds)
  {
    if ds == [] then 0 else Value(ds[..|ds| - 1]) * 10 + DigitValue(ds[|ds| - 1])
  }

  /** `str(n)` for a non-negative integer: digits only and never empty. */
  function ToDecimal(n: nat): (s: string)
    ensures s != [] && AllDigits(s)
  {
    if n < 10 then [DigitChar(n)] else ToDecimal(n / 10) + [DigitChar(n % 10)]
  }

  /** A printed number has no leading zero except in "0" itself, and has one
      digit exactly when it is below ten. */
  lemma {:induction false} ToDecimalShape(n: nat)
    ensures ToDecimal(n)[0] == '0' ==> ToDecimal(n) == "0"
    ensures n < 10 <==> |ToDecimal(n)| == 1
  {
    if n >= 10 {
      ToDecimalShape(n / 10);
      assert ToDecimal(n)[0] == ToDecimal(n / 10)[0];
    }
  }

  /** Reading back a printed number gives the number. */
  lemma {:induction false} ValueOfDecimal(n: nat)
    ensures Value(ToDecimal(n)) == n
  {
    if n >= 10 {
      var s := ToDecimal(n);
      assert s[..|s| - 1] == ToDecimal(n / 10);
      ValueOfDecimal(n / 10);
    }
  }

  /** A numeral whose first digit is not zero denotes a positive number. */
  lemma {:induction false} ValuePositive(ds: string)
    requires ds != [] && AllDigits(ds) && ds[0] != '0'
    ensures Value(ds) > 0
  {
    if |ds| > 1 {
      ValuePositive(ds[..|ds| - 1]);
    }
  }

  /** Printing the value of a numeral without leading zeros gives the numeral back. */
  lemma {:induction false} DecimalOfValue(ds: string)
    requires ds != [] && AllDigits(ds)
    requires ds[0] == '0' ==> |ds| == 1
    ensures ToDecimal(Value(ds)) == ds
  {
    var last := ds[|ds| - 1];
    assert DigitChar(DigitValue(last)) == last;
    if |ds| > 1 {
      var init := ds[..|ds| - 1];
      ValuePositive(init);
      DecimalOfValue(init);
      var v := Value(init);
      assert Value(ds) / 10 == v && Value(ds) % 10 == DigitValue(last);
      assert ds == init + [last];
    }
  }

  /** Leading zeros do not change the number, as `int("007") == 7`. */
  lemma {:induction false} ValueLeadingZero(ds: string)
    requires AllDigits(ds)
    ensures Value("0" + ds) == Value(ds)
    decreases |ds|
  {
    if ds != [] {
      var init := ds[..|ds| - 1];
      assert ("0" + ds)[..|"0" + ds| - 1] == "0" + init;
      ValueLeadingZero(init);
    }
  }

  /** Different numbers print differently. */
  lemma DecimalInjective(a: nat, b: nat)
    ensures ToDecimal(a) == ToDecimal(b) ==> a == b
  {
    ValueOfDecimal(a);
    ValueOfDecimal(b);
  }
}
