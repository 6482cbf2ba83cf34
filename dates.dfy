/** `pd.to_datetime` on the `YYYY-MM-DD` strings `get_date` extracts: the
    digits are read as year, month and day, and a day that is not in the
    Gregorian calendar is an error. */
module Dates {
  import opened Common
  import opened FileNames
  import opened Frames

  function DigitValue(c: char): (v: nat)
    requires IsDigit(c)
    ensures v < 10
  {
    (c as int - '0' as int) as nat
  }

  function DigitChar(v: nat): (c: char)
    requires v < 10
    ensures IsDigit(c) && DigitValue(c) == v
  {
    ('0' as int + v) as char
  }

  predicate LeapYear(y: int)
  {
    y % 4 == 0 && (y % 100 != 0 || y % 400 == 0)
  }

  function DaysInMonth(y: int, m: int): nat
    requires 1 <= m <= 12
  {
    if m == 2 then (if LeapYear(y) then 29 else 28)
    else if m == 4 || m == 6 || m == 9 || m == 11 then 30
    else 31
  }

  /** A day of the calendar with a four-digit year from 0001 on. */
  predicate ValidDate(d: Date)
  {
    && 1 <= d.year <= 9999
    && 1 <= d.month <= 12
    && 1 <= d.day <= DaysInMonth(d.year, d.month)
  }

  /** Parses `YYYY-MM-DD`; any other text, or a day not in the calendar,
      raises. */
  function ParseDate(text: string): (r: Result<Date>)
    ensures r.Success? ==> ValidDate(r.value) && DateShape(text)
    ensures r.Failure? ==> r.error == InvalidDate(text)
  {
    if !DateShape(text) then Failure(InvalidDate(text))
    else
      var d := Date(
        1000 * DigitValue(text[0]) + 100 * DigitValue(text[1]) + 10 * DigitValue(text[2]) + DigitValue(text[3]),
        10 * DigitValue(text[5]) + DigitValue(text[6]),
        10 * DigitValue(text[8]) + DigitValue(text[9]));
      if ValidDate(d) then Success(d) else Failure(InvalidDate(text))
  }

  /** The ISO form of a date, zero-padded. */
  function FormatDate(d: Date): (text: string)
    requires ValidDate(d)
    ensures DateShape(text)
  {
    [DigitChar(d.year / 1000), DigitChar(d.year / 100 % 10), DigitChar(d.year / 10 % 10), DigitChar(d.year % 10),
     '-', DigitChar(d.month / 10), DigitChar(d.month % 10),
     '-', DigitChar(d.day / 10), DigitChar(d.day % 10)]
  }

  lemma FourDigits(y: int)
    requires 0 <= y <= 9999
    ensures 1000 * (y / 1000) + 100 * (y / 100 % 10) + 10 * (y / 10 % 10) + y % 10 == y
  {
    var a, b, c, d := y / 1000, y / 100 % 10, y / 10 % 10, y % 10;
    assert y == 10 * (y / 10) + d;
    assert y / 10 == 10 * (y / 100) + c;
    assert y / 100 == 10 * (y / 1000) + b;
  }

  /** Reading a formatted date gives the date back. */
  lemma ParseFormatDate(d: Date)
    requires ValidDate(d)
    ensures ParseDate(FormatDate(d)) == Success(d)
  {
    FourDigits(d.year);
  }

  lemma DigitsOfFour(a: nat, b: nat, c: nat, d: nat)
    requires a < 10 && b < 10 && c < 10 && d < 10
    ensures var y := 1000 * a + 100 * b + 10 * c + d;
      y / 1000 == a && y / 100 % 10 == b && y / 10 % 10 == c && y % 10 == d
  {
    var y := 1000 * a + 100 * b + 10 * c + d;
    assert y == 10 * (100 * a + 10 * b + c) + d;
    assert y / 10 == 100 * a + 10 * b + c;
    assert y / 10 == 10 * (10 * a + b) + c;
    assert y / 100 == (y / 10) / 10;
    assert y / 100 == 10 * a + b;
    assert y / 1000 == (y / 100) / 10;
  }

  lemma DigitsOfTwo(a: nat, b: nat)
    requires a < 10 && b < 10
    ensures (10 * a + b) / 10 == a && (10 * a + b) % 10 == b
  {
  }

  lemma DigitRoundTrip(c: char)
    requires IsDigit(c)
    ensures DigitChar(DigitValue(c)) == c
  {
  }

  /** A date string that parses is the formatted form of its date. */
  lemma FormatParseDate(text: string)
    requires ParseDate(text).Success?
    ensures FormatDate(ParseDate(text).value) == text
  {
    var d := ParseDate(text).value;
    var y0, y1, y2, y3 := DigitValue(text[0]), DigitValue(text[1]), DigitValue(text[2]), DigitValue(text[3]);
    var m0, m1, d0, d1 := DigitValue(text[5]), DigitValue(text[6]), DigitValue(text[8]), DigitValue(text[9]);
    assert d == Date(1000 * y0 + 100 * y1 + 10 * y2 + y3, 10 * m0 + m1, 10 * d0 + d1);
    DigitsOfFour(y0, y1, y2, y3);
    DigitsOfTwo(m0, m1);
    DigitsOfTwo(d0, d1);
    var f := FormatDate(d);
    assert f == [DigitChar(y0), DigitChar(y1), DigitChar(y2), DigitChar(y3), '-',
                 DigitChar(m0), DigitChar(m1), '-', DigitChar(d0), DigitChar(d1)];
    forall k | 0 <= k < 10 && k != 4 && k != 7 ensures DigitChar(DigitValue(text[k])) == text[k] {
      DigitRoundTrip(text[k]);
    }
  }

  /** 29 February exists in leap years only. */
  lemma LeapDay()
    ensures ParseDate("2000-02-29") == Success(Date(2000, 2, 29))
    ensures ParseDate("1900-02-29") == Failure(InvalidDate("1900-02-29"))
  {
  }
}
