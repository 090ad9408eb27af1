// Decimal digits: parseInt on digit-only strings, and String(n) for a
// non-negative integer, which is how `poem-${id}` and the default sort of
// the years facet see a number.

module Decimal {
  import opened Text
  import opened StringOrder

  function DigitValue(c: char): (d: nat)
    requires IsDigit(c)
    ensures d < 10
  {
    c as int - '0' as int
  }

  function DigitChar(d: nat): (c: char)
    requires d < 10
    ensures IsDigit(c) && DigitValue(c) == d
  {
    ('0' as int + d) as char
  }

  function Pow10(n: nat): (p: nat)
    ensures p >= 1
  {
    if n == 0 then 1 else 10 * Pow10(n - 1)
  }

  /** parseInt on a string of decimal digits: less than 10 to the number of digits. */
  function DecimalValue(s: string): (v: nat)
    requires AllDigits(s)
    ensures v < Pow10(|s|)
  {
    if s == [] then 0 else 10 * DecimalValue(s[..|s| - 1]) + DigitValue(s[|s| - 1])
  }

  /** String(n) for a non-negative integer: its digits, no leading zero. */
  function DecimalString(n: nat): (r: string)
    ensures |r| >= 1 && AllDigits(r)
    ensures n >= 10 <==> |r| >= 2
    ensures n >= 10 ==> r == DecimalString(n / 10) + [DigitChar(n % 10)]
  {
    if n < 10 then [DigitChar(n)] else DecimalString(n / 10) + [DigitChar(n % 10)]
  }

  /** Reading back what was written gives the number. */
  lemma {:induction false} DecimalRoundTrip(n: nat)
    ensures DecimalValue(DecimalString(n)) == n
  {
    if n >= 10 {
      var s := DecimalString(n);
      assert s[..|s| - 1] == DecimalString(n / 10);
      DecimalRoundTrip(n / 10);
    }
  }

  /** A number has exactly four digits when it lies in 1000..9999. */
  lemma FourDigitWidth(n: nat)
    ensures |DecimalString(n)| == 4 <==> 1000 <= n <= 9999
  {
    if n >= 10 {
      if n / 10 >= 10 {
        if n / 10 / 10 >= 10 {
          assert n / 10 / 10 / 10 >= 10 <==> n >= 10000;
        }
      }
    }
  }

  /** Among numbers written with the same number of digits the string order
      is the numeric order. */
  lemma {:induction false} SameWidthOrder(a: nat, b: nat)
    requires |DecimalString(a)| == |DecimalString(b)|
    ensures StrLess(DecimalString(a), DecimalString(b)) <==> a < b
  {
    if a < 10 {
      assert b < 10;
    } else {
      assert b >= 10;
      SameWidthOrder(a / 10, b / 10);
      StrLessSnoc(DecimalString(a / 10), DigitChar(a % 10), DecimalString(b / 10), DigitChar(b % 10));
      if a / 10 == b / 10 {
        assert DecimalString(a / 10) == DecimalString(b / 10);
      } else {
        StrLessIrreflexive(DecimalString(a / 10));
        if DecimalString(a / 10) == DecimalString(b / 10) {
          SameWidthOrder(b / 10, a / 10);
        }
      }
    }
  }

  /** Different numbers are written differently. */
  lemma DecimalInjective(a: nat, b: nat)
    requires DecimalString(a) == DecimalString(b)
    ensures a == b
  {
    DecimalRoundTrip(a);
    DecimalRoundTrip(b);
  }

  /** The default sort puts "1000" before "999": string order and numeric
      order part as soon as the widths differ. */
  lemma WidthBreaksNumericOrder()
    ensures StrLess(DecimalString(1000), DecimalString(999)) && 999 < 1000
  {
    assert DecimalString(1000)[0] == '1';
    assert DecimalString(999)[0] == '9';
  }
}
