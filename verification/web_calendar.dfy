/**
  The month grid of script.js (`generateCalendar`): 42 cells in weeks that
  start on Monday, made of the closing days of the previous month, every
  day of the viewed month classed against today and the month's history,
  and the first days of the next month.

  Months are 0-based, as `Date.getMonth` counts them. The weekday of the
  first of the month is an input (0 = Sunday), as `Date.getDay` reports
  it. Local time is taken to be UTC, so `toISOString` yields the local
  calendar date.
 */
module WebCalendar {
  import opened Text
  import opened Calendar
  import opened Ledger

  /** The CSS class a cell receives; `Plain` is the empty class of a past day without an entry. */
  datatype CellClass = OtherMonth | Today | Future | FullDay | PartialDay | Plain

  /** One element appended to the grid: the number shown, its class and the entry it displays. */
  datatype WebCell = WebCell(dayNumber: int, cls: CellClass, data: Option<WorkDay>)

  /** The years for which `new Date(year, …)` and `toISOString` behave as modelled. */
  predicate ViewYear(year: int) {
    100 <= year <= 9999
  }

  /**
    `new Date(year, monthIndex, 0)`: the month index is normalised into the
    year (floor division, as the Date constructor does), and day 0 is the
    day before the first of that month.
   */
  function DayZero(year: int, monthIndex: int): (d: CivilDate)
  {
    PrevDay(CivilDate(year + monthIndex / 12, monthIndex % 12 + 1, 1))
  }

  /** Day 0 of a month index is the last day of the month one index earlier. */
  lemma DayZeroIsLastOfPrevious(year: int, monthIndex: int)
    ensures var p := monthIndex - 1;
      var y, m := year + p / 12, p % 12 + 1;
      DayZero(year, monthIndex) == CivilDate(y, m, DaysInMonth(y, m))
  {
    var p := monthIndex - 1;
    if monthIndex % 12 == 0 {
      assert p / 12 == monthIndex / 12 - 1 && p % 12 == 11;
    } else {
      assert p / 12 == monthIndex / 12 && p % 12 == monthIndex % 12 - 1;
    }
  }

  /** `hoursWorked >= 7`, with the hours a real quotient as JavaScript computes it. */
  predicate SevenHoursOrMore(durationMs: int) {
    (durationMs as real) / 3_600_000.0 >= 7.0
  }

  /** The quotient test is the whole-millisecond threshold of seven hours. */
  lemma SevenHoursThreshold(durationMs: int)
    ensures SevenHoursOrMore(durationMs) <==> durationMs >= 25_200_000
  {
  }

  /**
    The class of a day of the viewed month: today, a future day, or a past
    day looked up by its ISO date among the month's entries (the first
    match shows; seven hours or more is a full day).
   */
  function ClassOf(date: CivilDate, today: CivilDate, monthHistory: seq<WorkDay>): (CellClass, Option<WorkDay>)
    requires 0 <= date.year <= 9999 && ValidDate(date)
  {
    if date == today then (Today, None)
    else if Before(today, date) then (Future, None)
    else
      match FindDate(monthHistory, DateText(date))
      case Some(i) => (if SevenHoursOrMore(monthHistory[i].durationMs) then FullDay else PartialDay, Some(monthHistory[i]))
      case None => (Plain, None)
  }

  /** What a class means: the three date cases, and for a past day the first entry with its date. */
  lemma ClassOfMeaning(date: CivilDate, today: CivilDate, monthHistory: seq<WorkDay>)
    requires 0 <= date.year <= 9999 && ValidDate(date)
    ensures var c := ClassOf(date, today, monthHistory);
      && (c.0 == Today <==> date == today)
      && (c.0 == Future <==> Before(today, date))
      && c.0 != OtherMonth
      && (c.1.Some? <==> Before(date, today) && HasDate(monthHistory, DateText(date)))
      && (c.1.Some? ==> c.1.value.date == DateText(date) && c.1.value in monthHistory)
      && (c.0 == FullDay <==> c.1.Some? && c.1.value.durationMs >= 25_200_000)
      && (c.0 == PartialDay <==> c.1.Some? && c.1.value.durationMs < 25_200_000)
      && (c.1.Some? ==> exists i :: (0 <= i < |monthHistory| && monthHistory[i] == c.1.value &&
            forall k :: 0 <= k < i ==> monthHistory[k].date != DateText(date)))
  {
    var c := ClassOf(date, today, monthHistory);
    if c.1.Some? {
      SevenHoursThreshold(c.1.value.durationMs);
      var i := FindDate(monthHistory, DateText(date)).value;
      assert monthHistory[i] == c.1.value;
    }
  }

  /** The leading cells: the last `count` day numbers of a month whose last day is `last`. */
  function Leading(last: int, count: nat): (cells: seq<WebCell>)
  {
    seq(count, k => WebCell(last - (count - 1 - k), OtherMonth, None))
  }

  /** The viewed month's cells, day 1 first. */
  function MonthCells(year: int, month: int, today: CivilDate, monthHistory: seq<WorkDay>): (cells: seq<WebCell>)
    requires ViewYear(year) && 0 <= month < 12
  {
    seq(DaysInMonth(year, month + 1), k requires 0 <= k < DaysInMonth(year, month + 1) =>
      var c := ClassOf(CivilDate(year, month + 1, k + 1), today, monthHistory);
      WebCell(k + 1, c.0, c.1))
  }

  /** The trailing cells, numbered from 1. */
  function Trailing(count: nat): (cells: seq<WebCell>)
  {
    seq(count, k => WebCell(k + 1, OtherMonth, None))
  }

  /**
    The leading cells, then the month's cells, then trailing days from 1
    until 42 cells are reached, but never more than 14.
   */
  function Assemble(lead: seq<WebCell>, body: seq<WebCell>): (cells: seq<WebCell>)
  {
    var remaining := 42 - (|lead| + |body|);
    lead + body + Trailing(if remaining <= 0 then 0 else if remaining < 14 then remaining else 14)
  }

  /** A week's worth of leading cells and a month's worth of days always make six full weeks. */
  lemma AssembleShape(lead: seq<WebCell>, body: seq<WebCell>)
    requires |lead| < 7 && 28 <= |body| <= 31
    ensures var g := Assemble(lead, body);
      && |g| == 42
      && g[..|lead|] == lead
      && g[|lead|..|lead| + |body|] == body
      && forall k :: |lead| + |body| <= k < 42 ==> g[k] == WebCell(k - |lead| - |body| + 1, OtherMonth, None)
  {
    var g := Assemble(lead, body);
    assert g[..|lead|] == lead;
    assert g[|lead|..|lead| + |body|] == body;
  }

  /**
    The grid with the leading days taken from day 0 of `fillerIndex`; the
    month length is the day number of day 0 of the following month.
   */
  function GridFrom(year: int, month: int, firstWeekday: Weekday, today: CivilDate, history: seq<WorkDay>, fillerIndex: int): (cells: seq<WebCell>)
    requires ViewYear(year) && 0 <= month < 12
  {
    DayZeroIsLastOfPrevious(year, month + 1);
    Assemble(
      Leading(DayZero(year, fillerIndex).day, MondayFirstColumn(firstWeekday)),
      MonthCells(year, month, today, MonthHistory(history, year, month + 1)))
  }

  /** `generateCalendar` as written: the filler month is `new Date(year, month - 1, 0)`. */
  function GenerateCalendarAsWritten(year: int, month: int, firstWeekday: Weekday, today: CivilDate, history: seq<WorkDay>): (cells: seq<WebCell>)
    requires ViewYear(year) && 0 <= month < 12
  {
    GridFrom(year, month, firstWeekday, today, history, month - 1)
  }

  /** `generateCalendar` with the filler taken from `new Date(year, month, 0)`, the previous month. */
  function GenerateCalendar(year: int, month: int, firstWeekday: Weekday, today: CivilDate, history: seq<WorkDay>): (cells: seq<WebCell>)
    requires ViewYear(year) && 0 <= month < 12
  {
    GridFrom(year, month, firstWeekday, today, history, month)
  }

  /**
    Whatever the filler, the grid always has exactly 42 cells: as many
    leading cells as the first's Monday-based column, then one cell per day
    of the month, numbered from 1, then the days of the next month from 1;
    the cap of 14 trailing days never applies.
   */
  lemma GridShape(year: int, month: int, firstWeekday: Weekday, today: CivilDate, history: seq<WorkDay>, fillerIndex: int)
    requires ViewYear(year) && 0 <= month < 12
    ensures var g := GridFrom(year, month, firstWeekday, today, history, fillerIndex);
      var start, n := MondayFirstColumn(firstWeekday), DaysInMonth(year, month + 1);
      && |g| == 42
      && (forall k :: 0 <= k < start ==> g[k].cls == OtherMonth)
      && (forall k :: start <= k < start + n ==> g[k].dayNumber == k - start + 1 && g[k].cls != OtherMonth)
      && (forall k :: start + n <= k < 42 ==> g[k] == WebCell(k - start - n + 1, OtherMonth, None))
  {
    var start, n := MondayFirstColumn(firstWeekday), DaysInMonth(year, month + 1);
    var mh := MonthHistory(history, year, month + 1);
    var lead := Leading(DayZero(year, fillerIndex).day, start);
    var body := MonthCells(year, month, today, mh);
    AssembleShape(lead, body);
    var g := Assemble(lead, body);
    forall k | start <= k < start + n
      ensures g[k].dayNumber == k - start + 1 && g[k].cls != OtherMonth
    {
      assert g[k] == g[start..start + n][k - start];
      MonthCellAt(year, month, today, mh, k - start);
    }
  }

  /** The `k`-th cell of the month shows day `k + 1` with its class. */
  lemma MonthCellAt(year: int, month: int, today: CivilDate, monthHistory: seq<WorkDay>, k: nat)
    requires ViewYear(year) && 0 <= month < 12 && k < DaysInMonth(year, month + 1)
    ensures var d := CivilDate(year, month + 1, k + 1);
      && MonthCells(year, month, today, monthHistory)[k] == WebCell(k + 1, ClassOf(d, today, monthHistory).0, ClassOf(d, today, monthHistory).1)
      && MonthCells(year, month, today, monthHistory)[k].cls != OtherMonth
  {
    ClassOfMeaning(CivilDate(year, month + 1, k + 1), today, monthHistory);
  }

  /**
    With the previous month as filler, the leading cells are the days just
    before the first of the month: consecutive, all real days of that
    month, the last one being the day before the first.
   */
  lemma LeadingPrecedesFirst(year: int, month: int, firstWeekday: Weekday, today: CivilDate, history: seq<WorkDay>)
    requires ViewYear(year) && 0 <= month < 12
    ensures var g := GenerateCalendar(year, month, firstWeekday, today, history);
      var start, prev := MondayFirstColumn(firstWeekday), PrevDay(CivilDate(year, month + 1, 1));
      && (forall k :: 0 <= k < start ==> 1 <= g[k].dayNumber <= DaysInMonth(prev.year, prev.month))
      && (forall k :: 0 <= k < start ==> g[k].dayNumber == prev.day - (start - 1 - k))
      && (start > 0 ==> g[start - 1].dayNumber == prev.day)
  {
    var start := MondayFirstColumn(firstWeekday);
    var prev := PrevDay(CivilDate(year, month + 1, 1));
    assert DayZero(year, month) == prev;
    assert prev.day == DaysInMonth(prev.year, prev.month);
    var lead := Leading(prev.day, start);
    var body := MonthCells(year, month, today, MonthHistory(history, year, month + 1));
    AssembleShape(lead, body);
    var g := Assemble(lead, body);
    forall k | 0 <= k < start
      ensures g[k].dayNumber == prev.day - (start - 1 - k)
    {
      assert g[k] == g[..start][k];
    }
  }

  /**
    The filler as written is right exactly when there is no filler or the
    month two back has as many days as the previous month.
   */
  lemma FillerAsWrittenAgrees(year: int, month: int, firstWeekday: Weekday, today: CivilDate, history: seq<WorkDay>)
    requires ViewYear(year) && 0 <= month < 12
    ensures var start := MondayFirstColumn(firstWeekday);
      GenerateCalendarAsWritten(year, month, firstWeekday, today, history)
        == GenerateCalendar(year, month, firstWeekday, today, history)
      <==> start == 0 || DayZero(year, month - 1).day == DayZero(year, month).day
  {
    var start := MondayFirstColumn(firstWeekday);
    var w := GenerateCalendarAsWritten(year, month, firstWeekday, today, history);
    var c := GenerateCalendar(year, month, firstWeekday, today, history);
    if start > 0 && w == c {
      assert w[start - 1].dayNumber == DayZero(year, month - 1).day;
      assert c[start - 1].dayNumber == DayZero(year, month).day;
    }
  }

  /**
    March 2024 begins on a Friday. As written, the four leading cells show
    January's 28 to 31; the days before 1 March 2024 are 26 to 29 February.
   */
  lemma MarchFillerExample(today: CivilDate, history: seq<WorkDay>)
    ensures GenerateCalendarAsWritten(2024, 2, 5, today, history)[..4]
      == [WebCell(28, OtherMonth, None), WebCell(29, OtherMonth, None), WebCell(30, OtherMonth, None), WebCell(31, OtherMonth, None)]
    ensures GenerateCalendar(2024, 2, 5, today, history)[..4]
      == [WebCell(26, OtherMonth, None), WebCell(27, OtherMonth, None), WebCell(28, OtherMonth, None), WebCell(29, OtherMonth, None)]
    ensures PrevDay(CivilDate(2024, 3, 1)) == CivilDate(2024, 2, 29)
  {
    DayZeroIsLastOfPrevious(2024, 1);
    DayZeroIsLastOfPrevious(2024, 2);
    DayZeroIsLastOfPrevious(2024, 3);
    assert IsLeapYear(2024);
  }

  /**
    Filtering by month hides no entry of a day in that month: a date of the
    viewed month is found among the month's entries exactly when it is in
    the whole history.
   */
  lemma MonthFilterKeepsDay(h: seq<WorkDay>, d: CivilDate)
    requires 0 <= d.year <= 9999 && ValidDate(d)
    ensures HasDate(MonthHistory(h, d.year, d.month), DateText(d)) <==> HasDate(h, DateText(d))
  {
    var m := MonthHistory(h, d.year, d.month);
    if HasDate(h, DateText(d)) {
      var k :| 0 <= k < |h| && h[k].date == DateText(d);
      ParseDateText(d);
      assert InMonth(h[k], d.year, d.month);
      var j :| 0 <= j < |m| && m[j] == h[k];
    }
    if HasDate(m, DateText(d)) {
      var j :| 0 <= j < |m| && m[j].date == DateText(d);
      assert m[j] in h;
    }
  }
}
