/**
  The Gregorian calendar as both programs use it: days in a month with the
  leap-year rule, stepping one day back or forward across month and year
  ends, the "YYYY-MM-DD" text that keys the history, and the Monday-first
  column of a weekday.
 */
module Calendar {
  import opened Text

  /** A local calendar date; `month` is 1-based (January is 1). */
  datatype CivilDate = CivilDate(year: int, month: int, day: int)

  predicate IsLeapYear(year: int) {
    year % 4 == 0 && (year % 100 != 0 || year % 400 == 0)
  }

  /**
    Days in `month` of `year`: 30 for April, June, September and November,
    28 or 29 for February, and 31 for every other month number.
   */
  function DaysInMonth(year: int, month: int): (n: int)
    ensures 28 <= n <= 31
  {
    if month == 4 || month == 6 || month == 9 || month == 11 then 30
    else if month == 2 then (if IsLeapYear(year) then 29 else 28)
    else 31
  }

  /** The Gregorian month lengths: February has 29 days exactly in leap years, the other months never vary. */
  lemma DaysInMonthLeapRule(year: int, other: int, month: int)
    requires 1 <= month <= 12
    ensures DaysInMonth(year, 2) == 29 <==> IsLeapYear(year)
    ensures month != 2 ==> DaysInMonth(year, month) == DaysInMonth(other, month)
    ensures DaysInMonth(year, month) == 31 <==> month in {1, 3, 5, 7, 8, 10, 12}
    ensures month in {4, 6, 9, 11} ==> DaysInMonth(year, month) == 30
    ensures !IsLeapYear(year) ==> DaysInMonth(year, 2) == 28
  {
  }

  /** Days in the months 1 through `m` of `year`. */
  function DaysBefore(year: int, m: nat): nat
    requires m <= 12
  {
    if m == 0 then 0 else DaysBefore(year, m - 1) + DaysInMonth(year, m)
  }

  /** A Gregorian year has 366 days when it is a leap year and 365 otherwise. */
  lemma YearLength(year: int)
    ensures DaysBefore(year, 12) == if IsLeapYear(year) then 366 else 365
  {
    var feb := DaysInMonth(year, 2);
    assert DaysBefore(year, 1) == 31;
    assert DaysBefore(year, 2) == 31 + feb;
    assert DaysBefore(year, 3) == 62 + feb;
    assert DaysBefore(year, 4) == 92 + feb;
    assert DaysBefore(year, 5) == 123 + feb;
    assert DaysBefore(year, 6) == 153 + feb;
    assert DaysBefore(year, 7) == 184 + feb;
    assert DaysBefore(year, 8) == 215 + feb;
    assert DaysBefore(year, 9) == 245 + feb;
    assert DaysBefore(year, 10) == 276 + feb;
    assert DaysBefore(year, 11) == 306 + feb;
  }

  predicate ValidDate(d: CivilDate) {
    1 <= d.month <= 12 && 1 <= d.day <= DaysInMonth(d.year, d.month)
  }

  /** Strictly earlier in the calendar. */
  predicate Before(a: CivilDate, b: CivilDate) {
    a.year < b.year
    || (a.year == b.year && a.month < b.month)
    || (a.year == b.year && a.month == b.month && a.day < b.day)
  }

  /** The calendar day before `d` (the `setDate(getDate() - 1)` step). */
  function PrevDay(d: CivilDate): (p: CivilDate)
    requires ValidDate(d)
    ensures ValidDate(p)
    ensures Before(p, d)
  {
    if d.day > 1 then CivilDate(d.year, d.month, d.day - 1)
    else if d.month > 1 then CivilDate(d.year, d.month - 1, DaysInMonth(d.year, d.month - 1))
    else CivilDate(d.year - 1, 12, 31)
  }

  /** The calendar day after `d`. */
  function NextDay(d: CivilDate): (n: CivilDate)
    requires ValidDate(d)
    ensures ValidDate(n)
    ensures Before(d, n)
  {
    if d.day < DaysInMonth(d.year, d.month) then CivilDate(d.year, d.month, d.day + 1)
    else if d.month < 12 then CivilDate(d.year, d.month + 1, 1)
    else CivilDate(d.year + 1, 1, 1)
  }

  /** Stepping back and then forward, or forward and then back, is the identity. */
  lemma PrevNextInverse(d: CivilDate)
    requires ValidDate(d)
    ensures NextDay(PrevDay(d)) == d
    ensures PrevDay(NextDay(d)) == d
  {
  }

  /**
    `new Date(year, month + 1, 0)` in script.js: day 0 of the following month
    is the last day of this one, so its day number is the month's length.
   */
  lemma LastDayOfMonth(year: int, month: int)
    requires 1 <= month <= 12
    ensures var first := if month == 12 then CivilDate(year + 1, 1, 1) else CivilDate(year, month + 1, 1);
      PrevDay(first) == CivilDate(year, month, DaysInMonth(year, month))
  {
  }

  /**
    `Date.setDate(day)` on a date of this month: a day number past the end of
    the month rolls over into the next month (by at most three days, since
    `day` is at most 31).
   */
  function SetDayOfMonth(d: CivilDate, day: int): (r: CivilDate)
    requires ValidDate(d) && 1 <= day <= 31
    ensures ValidDate(r)
    ensures day <= DaysInMonth(d.year, d.month) ==> r == d.(day := day)
    ensures day > DaysInMonth(d.year, d.month) ==> Before(d, r) && r.day == day - DaysInMonth(d.year, d.month)
    ensures day > DaysInMonth(d.year, d.month) ==> PrevDay(r.(day := 1)) == d.(day := DaysInMonth(d.year, d.month))
  {
    var n := DaysInMonth(d.year, d.month);
    if day <= n then d.(day := day)
    else if d.month < 12 then CivilDate(d.year, d.month + 1, day - n)
    else CivilDate(d.year + 1, 1, day - n)
  }

  /** Four-digit, zero-filled year, as ISO-8601 writes it. */
  function YearText(y: int): (s: string)
    requires 0 <= y <= 9999
    ensures |s| == 4 && AllDigits(s)
  {
    [DigitChar(y / 1000), DigitChar(y / 100 % 10), DigitChar(y / 10 % 10), DigitChar(y % 10)]
  }

  lemma YearTextValue(y: int)
    requires 0 <= y <= 9999
    ensures var s := YearText(y);
      1000 * DigitValue(s[0]) + 100 * DigitValue(s[1]) + 10 * DigitValue(s[2]) + DigitValue(s[3]) == y
  {
    assert y == 10 * (y / 10) + y % 10;
    assert y / 10 == 10 * (y / 100) + y / 10 % 10;
    assert y / 100 == 10 * (y / 1000) + y / 100 % 10;
  }

  /** The "YYYY-MM-DD" key of a date. */
  function DateText(d: CivilDate): (s: string)
    requires 0 <= d.year <= 9999 && ValidDate(d)
    ensures |s| == 10 && s[4] == '-' && s[7] == '-'
  {
    YearText(d.year) + "-" + Digits2(d.month) + "-" + Digits2(d.day)
  }

  /** The key writes the month and day as `setw(2)` / `padStart(2, '0')` do. */
  lemma DateTextPadded(d: CivilDate)
    requires 0 <= d.year <= 9999 && ValidDate(d)
    ensures DateText(d) == YearText(d.year) + "-" + TwoDigits(d.month) + "-" + TwoDigits(d.day)
  {
    TwoDigitsSmall(d.month);
    TwoDigitsSmall(d.day);
  }

  function DigitAt(s: string, i: nat): nat
    requires i < |s| && IsDigit(s[i])
  {
    DigitValue(s[i])
  }

  /** Reads a "YYYY-MM-DD" key back; anything else is not a date. */
  function ParseDate(s: string): (r: Option<CivilDate>)
    ensures r.Some? ==> ValidDate(r.value) && 0 <= r.value.year <= 9999
  {
    if |s| == 10 && s[4] == '-' && s[7] == '-'
       && IsDigit(s[0]) && IsDigit(s[1]) && IsDigit(s[2]) && IsDigit(s[3])
       && IsDigit(s[5]) && IsDigit(s[6]) && IsDigit(s[8]) && IsDigit(s[9])
    then
      var d := CivilDate(
        1000 * DigitAt(s, 0) + 100 * DigitAt(s, 1) + 10 * DigitAt(s, 2) + DigitAt(s, 3),
        10 * DigitAt(s, 5) + DigitAt(s, 6),
        10 * DigitAt(s, 8) + DigitAt(s, 9));
      if ValidDate(d) then Some(d) else None
    else None
  }

  /** Every date reads back from its key. */
  lemma ParseDateText(d: CivilDate)
    requires 0 <= d.year <= 9999 && ValidDate(d)
    ensures ParseDate(DateText(d)) == Some(d)
  {
    var s := DateText(d);
    var y, m, dd := YearText(d.year), Digits2(d.month), Digits2(d.day);
    assert s[0] == y[0] && s[1] == y[1] && s[2] == y[2] && s[3] == y[3];
    assert s[5] == m[0] && s[6] == m[1] && s[8] == dd[0] && s[9] == dd[1];
    YearTextValue(d.year);
    Digits2Value(d.month);
    Digits2Value(d.day);
  }

  /** A string that reads as a date is exactly that date's key. */
  lemma DateTextOfParse(s: string)
    requires ParseDate(s).Some?
    ensures DateText(ParseDate(s).value) == s
  {
    var d := ParseDate(s).value;
    Digits2Of(DigitAt(s, 5), DigitAt(s, 6));
    Digits2Of(DigitAt(s, 8), DigitAt(s, 9));
    YearTextOf(DigitAt(s, 0), DigitAt(s, 1), DigitAt(s, 2), DigitAt(s, 3));
    DigitCharOf(s[0]); DigitCharOf(s[1]); DigitCharOf(s[2]); DigitCharOf(s[3]);
    DigitCharOf(s[5]); DigitCharOf(s[6]); DigitCharOf(s[8]); DigitCharOf(s[9]);
    assert YearText(d.year) == s[..4];
    assert Digits2(d.month) == s[5..7];
    assert Digits2(d.day) == s[8..];
    assert s == s[..4] + "-" + s[5..7] + "-" + s[8..];
  }

  lemma Digits2Of(a: nat, b: nat)
    requires a < 10 && b < 10
    ensures Digits2(10 * a + b) == [DigitChar(a), DigitChar(b)]
  {
  }

  lemma YearTextOf(a: nat, b: nat, c: nat, d: nat)
    requires a < 10 && b < 10 && c < 10 && d < 10
    ensures YearText(1000 * a + 100 * b + 10 * c + d) == [DigitChar(a), DigitChar(b), DigitChar(c), DigitChar(d)]
  {
    var y := 1000 * a + 100 * b + 10 * c + d;
    assert y / 10 == 100 * a + 10 * b + c;
    assert y / 100 == 10 * a + b;
    assert y / 1000 == a;
  }

  lemma DigitCharOf(c: char)
    requires IsDigit(c)
    ensures DigitChar(DigitValue(c)) == c
  {
  }

  /** Distinct dates have distinct keys, so the key identifies the date. */
  lemma DateTextInjective(a: CivilDate, b: CivilDate)
    requires 0 <= a.year <= 9999 && ValidDate(a)
    requires 0 <= b.year <= 9999 && ValidDate(b)
    ensures DateText(a) == DateText(b) <==> a == b
  {
    ParseDateText(a);
    ParseDateText(b);
  }

  /** `getDay()` / `tm_wday`: 0 is Sunday, 6 is Saturday. */
  type Weekday = w: int | 0 <= w < 7

  /** Column of a weekday in a grid whose weeks start on Monday. */
  function MondayFirstColumn(wday: Weekday): (col: int)
    ensures 0 <= col < 7
    ensures (col + 1) % 7 == wday
  {
    if wday == 0 then 6 else wday - 1
  }

}
