/**
 * Calendar dates as the application stores them in the `dob` column, and the
 * `'%Y-%m-%d'` text form through which every date enters the system.
 */
module Dates {
  import opened Wrappers
  import opened Text

  datatype Date = Date(year: int, month: int, day: int)

  /** Leap years of the proleptic Gregorian calendar. */
  predicate IsLeapYear(y: int) {
    y % 4 == 0 && (y % 100 != 0 || y % 400 == 0)
  }

  function DaysInMonth(y: int, m: int): int
    requires 1 <= m <= 12
  {
    if m == 2 then (if IsLeapYear(y) then 29 else 28)
    else if m == 4 || m == 6 || m == 9 || m == 11 then 30
    else 31
  }

  /** A day that Python's `datetime.date` can represent: years 1 to 9999. */
  predicate ValidDate(d: Date) {
    1 <= d.year <= 9999 && 1 <= d.month <= 12 && 1 <= d.day <= DaysInMonth(d.year, d.month)
  }

  /**
   * The date written as `YYYY-MM-DD` (four-digit year, two-digit month and
   * day), or `None` for the ValueError raised on any other text or on a day
   * that does not exist.
   */
  function ParseDate(s: string): (r: Option<Date>)
    ensures r.Some? ==> ValidDate(r.value)
  {
    if |s| == 10 && s[4] == '-' && s[7] == '-'
       && AllDigits(s[..4]) && AllDigits(s[5..7]) && AllDigits(s[8..])
    then
      var d := Date(Value(s[..4]), Value(s[5..7]), Value(s[8..]));
      if ValidDate(d) then Some(d) else None
    else None
  }

  /** The canonical `YYYY-MM-DD` text of a valid date. */
  function FormatDate(d: Date): (s: string)
    requires ValidDate(d)
    ensures |s| == 10
  {
    assert Pow10(2) == 100 && Pow10(4) == 10000;
    Pad(d.year, 4) + "-" + Pad(d.month, 2) + "-" + Pad(d.day, 2)
  }

  /** Every valid date survives being written out and read back. */
  lemma FormatThenParse(d: Date)
    requires ValidDate(d)
    ensures ParseDate(FormatDate(d)) == Some(d)
  {
    assert Pow10(2) == 100 && Pow10(4) == 10000;
    var s := FormatDate(d);
    assert s[..4] == Pad(d.year, 4);
    assert s[5..7] == Pad(d.month, 2);
    assert s[8..] == Pad(d.day, 2);
  }

  /** Text accepted as a date is exactly the canonical form of the date it denotes. */
  lemma ParseThenFormat(s: string, d: Date)
    requires ParseDate(s) == Some(d)
    ensures FormatDate(d) == s
  {
    PadValue(s[..4]);
    PadValue(s[5..7]);
    PadValue(s[8..]);
    assert s == s[..4] + "-" + s[5..7] + "-" + s[8..];
  }
}
