// parseYear, build.js lines 100-111: the first run of four digits, else a
// trailing short date d{1,2}[-/]dd read with a century pivot at 50, else nothing.

module Years {
  import opened Wrappers
  import opened Text
  import opened Decimal

  /** \d{4} matches at position i. */
  predicate FourDigitsAt(s: string, i: int)
  {
    0 <= i && i + 4 <= |s| && AllDigits(s[i..i + 4])
  }

  /** i is where /(\d{4})/ matches: the leftmost run of four digits. */
  predicate FirstRunAt(s: string, i: int)
  {
    FourDigitsAt(s, i) && forall j :: 0 <= j < i ==> !FourDigitsAt(s, j)
  }

  predicate NoFourDigitRun(s: string)
  {
    forall j :: 0 <= j <= |s| - 4 ==> !FourDigitsAt(s, j)
  }

  /** The leftmost position from `from` on where four digits begin. */
  function FindFourDigits(s: string, from: nat): (r: Option<nat>)
    ensures r.Some? ==> from <= r.value && FourDigitsAt(s, r.value)
    ensures r.Some? ==> forall j :: from <= j < r.value ==> !FourDigitsAt(s, j)
    ensures r.None? ==> forall j :: from <= j ==> !FourDigitsAt(s, j)
    decreases |s| - from
  {
    if from + 4 > |s| then None
    else if FourDigitsAt(s, from) then Some(from)
    else FindFourDigits(s, from + 1)
  }

  /** /(\d{1,2})[-\/](\d{2})$/ matches: the string ends in digit, separator,
      digit, digit (a second leading digit is allowed but never needed). */
  predicate EndsWithShortDate(s: string)
  {
    |s| >= 4 && IsDigit(s[|s| - 4]) && (s[|s| - 3] == '-' || s[|s| - 3] == '/') &&
    IsDigit(s[|s| - 2]) && IsDigit(s[|s| - 1])
  }

  /** The century pivot: 51..99 are read as 19xx, 00..50 as 20xx. */
  function CenturyPivot(yy: nat): (y: nat)
    requires yy < 100
    ensures 1951 <= y <= 2050
    ensures y % 100 == yy
  {
    if yy > 50 then 1900 + yy else 2000 + yy
  }

  /** parseYear.  An absent or empty string gives null; a string with four
      digits in a row gives the value of the leftmost such run; otherwise a
      string ending in a short date gives its two-digit year through the
      century pivot; anything else gives null.  It never fails. */
  function ParseYear(yearStr: Option<string>): (r: Option<nat>)
    ensures yearStr.None? || yearStr.value == [] ==> r == None
    ensures yearStr.Some? ==> forall i :: FirstRunAt(yearStr.value, i) ==>
      r == Some(DecimalValue(yearStr.value[i..i + 4]))
    ensures yearStr.Some? && NoFourDigitRun(yearStr.value) ==>
      r == (if EndsWithShortDate(yearStr.value)
            then Some(CenturyPivot(DecimalValue(yearStr.value[|yearStr.value| - 2..])))
            else None)
    ensures r.Some? ==> r.value <= 9999
    ensures yearStr.Some? && NoFourDigitRun(yearStr.value) && r.Some? ==> 1951 <= r.value <= 2050
  {
    if yearStr.None? || yearStr.value == [] then None
    else
      var s := yearStr.value;
      match FindFourDigits(s, 0)
      case Some(i) =>
        assert Pow10(4) == 10000;
        Some(DecimalValue(s[i..i + 4]))
      case None =>
        if EndsWithShortDate(s) then
          var yy := DecimalValue(s[|s| - 2..]);
          Some(CenturyPivot(yy))
        else None
  }

  /** A four-digit year written out is read back unchanged. */
  lemma ParseYearRoundTrip(y: nat)
    requires 1000 <= y <= 9999
    ensures ParseYear(Some(DecimalString(y))) == Some(y)
  {
    var s := DecimalString(y);
    FourDigitWidth(y);
    assert s[0..4] == s;
    assert FirstRunAt(s, 0);
    DecimalRoundTrip(y);
  }

  /** A plain four-digit year, and the absent or empty year. */
  lemma ParseYearPlainExamples()
    ensures ParseYear(Some("1978")) == Some(1978)
    ensures ParseYear(Some("")) == None
    ensures ParseYear(None) == None
  {
    assert FirstRunAt("1978", 0);
    assert "1978"[0..4] == "1978";
    assert "1978"[..3] == "197" && "197"[..2] == "19" && "19"[..1] == "1";
  }

  /** Short dates on both sides of the century pivot: "3-78" and "5/12". */
  lemma ParseYearShortDateExamples()
    ensures ParseYear(Some("3-78")) == Some(1978)
    ensures ParseYear(Some("5/12")) == Some(2012)
  {
    ShortDateExample("3-78", 7, 8);
    ShortDateExample("5/12", 1, 2);
  }

  /** A four-character short date dS ab is read as year ab through the pivot. */
  lemma ShortDateExample(s: string, a: nat, b: nat)
    requires |s| == 4 && IsDigit(s[0]) && (s[1] == '-' || s[1] == '/')
    requires a < 10 && b < 10 && s[2] == DigitChar(a) && s[3] == DigitChar(b)
    ensures ParseYear(Some(s)) == Some(CenturyPivot(10 * a + b))
  {
    assert !FourDigitsAt(s, 0) by { assert s[0..4][1] == s[1]; }
    assert NoFourDigitRun(s);
    var yy := s[|s| - 2..];
    assert yy[..1] == [DigitChar(a)] && yy[1] == DigitChar(b);
    assert DecimalValue([DigitChar(a)]) == a by { assert [DigitChar(a)][..0] == []; }
    assert DecimalValue(yy) == 10 * a + b;
  }
}
