/**
  `generateCalendar` of main.cpp: a 6 x 7 grid whose weeks start on
  Monday, walked row by row; cells before the first weekday and after the
  last day stay empty, every day of the month gets one cell, and a day is
  a full or partial work day when the history holds an entry for its
  date, today when it is the current date, and normal otherwise.
 */
module DesktopCalendar {
  import opened Text
  import opened Calendar
  import opened Ledger

  /** `DayType` as the grid assigns it (`OtherMonth` exists in the enum but is never assigned). */
  datatype DayType = Normal | Today | FullDay | PartialDay

  /** One emitted cell: its grid row and column, the day number, its type and the matching entry. */
  datatype CalendarDay = CalendarDay(row: int, col: int, dayNumber: int, kind: DayType, data: Option<WorkDay>)

  /** Seven hours, the least a full day records. */
  const FullDayMs: int := 7 * 3600 * 1000

  /** The key the grid looks up: the year as `<<` writes it, month and day '0'-filled to two. */
  function DateKey(year: int, month: int, day: int): (s: string)
  {
    IntText(year) + "-" + TwoDigits(month) + "-" + TwoDigits(day)
  }

  /** For four-digit years the key is the "YYYY-MM-DD" key punching out writes. */
  lemma DateKeyIsDateText(d: CivilDate)
    requires 1000 <= d.year <= 9999 && ValidDate(d)
    ensures DateKey(d.year, d.month, d.day) == DateText(d)
  {
    FourDigitYear(d.year);
    DateTextPadded(d);
  }

  lemma FourDigitYear(y: int)
    requires 1000 <= y <= 9999
    ensures IntText(y) == YearText(y)
  {
    assert NatText(y / 1000) == [DigitChar(y / 1000)];
    assert NatText(y / 100) == NatText(y / 1000) + [DigitChar(y / 100 % 10)];
    assert NatText(y / 10) == NatText(y / 100) + [DigitChar(y / 10 % 10)];
    assert NatText(y) == NatText(y / 10) + [DigitChar(y % 10)];
    assert y / 100 / 10 == y / 1000 && y / 10 / 10 == y / 100;
  }

  /**
    The type of the cell for `day`: the first history entry with its key
    decides full (seven hours or more) or partial; without one, the
    current date is today and every other day is normal.
   */
  function Classify(year: int, month: int, day: int, today: CivilDate, history: seq<WorkDay>): (r: (DayType, Option<WorkDay>))
  {
    match FindDate(history, DateKey(year, month, day))
    case Some(i) => (if history[i].durationMs >= FullDayMs then FullDay else PartialDay, Some(history[i]))
    case None => (if today == CivilDate(year, month, day) then Today else Normal, None)
  }

  /**
    A cell carries an entry exactly when the history holds its date, and
    then it is the first entry with that date (the loop breaks there); the
    entry's duration alone decides full or partial; today is marked only
    on a day without an entry.
   */
  lemma ClassifyMeaning(year: int, month: int, day: int, today: CivilDate, history: seq<WorkDay>)
    ensures var r := Classify(year, month, day, today, history);
      && (r.1.Some? <==> HasDate(history, DateKey(year, month, day)))
      && (r.1.Some? ==> r.1.value in history && r.1.value.date == DateKey(year, month, day))
      && (r.0 == FullDay <==> r.1.Some? && r.1.value.durationMs >= FullDayMs)
      && (r.0 == PartialDay <==> r.1.Some? && r.1.value.durationMs < FullDayMs)
      && (r.0 == Today <==> r.1.None? && today == CivilDate(year, month, day))
      && (r.1.Some? ==> exists i :: (0 <= i < |history| && history[i] == r.1.value &&
            forall k :: 0 <= k < i ==> history[k].date != DateKey(year, month, day)))
  {
    var key := DateKey(year, month, day);
    var f := FindDate(history, key);
    if f.Some? {
      assert history[f.value] == Classify(year, month, day, today, history).1.value;
    }
  }

  /** The cell for the `k`-th day (0-based): placed `k` cells after the month's first weekday. */
  function CellSpec(year: int, month: int, firstWeekday: Weekday, today: CivilDate, history: seq<WorkDay>, k: nat): CalendarDay
  {
    var pos := MondayFirstColumn(firstWeekday) + k;
    var c := Classify(year, month, k + 1, today, history);
    CalendarDay(pos / 7, pos % 7, k + 1, c.0, c.1)
  }

  /** The cells of the first `n` days, in order. */
  function Layout(year: int, month: int, firstWeekday: Weekday, today: CivilDate, history: seq<WorkDay>, n: nat): (cells: seq<CalendarDay>)
    ensures |cells| == n
  {
    if n == 0 then [] else Layout(year, month, firstWeekday, today, history, n - 1) + [CellSpec(year, month, firstWeekday, today, history, n - 1)]
  }

  lemma {:induction false} LayoutCells(year: int, month: int, firstWeekday: Weekday, today: CivilDate, history: seq<WorkDay>, n: nat)
    ensures forall k :: 0 <= k < n ==> Layout(year, month, firstWeekday, today, history, n)[k] == CellSpec(year, month, firstWeekday, today, history, k)
  {
    if n > 0 {
      var prefix := Layout(year, month, firstWeekday, today, history, n - 1);
      LayoutCells(year, month, firstWeekday, today, history, n - 1);
      forall k | 0 <= k < n - 1
        ensures Layout(year, month, firstWeekday, today, history, n)[k] == CellSpec(year, month, firstWeekday, today, history, k)
      {
        assert Layout(year, month, firstWeekday, today, history, n)[k] == prefix[k];
      }
    }
  }

  /** How many days have been placed once the walk reaches grid position `pos`. */
  function Placed(pos: int, start: int, n: int): int {
    if pos <= start then 0 else if pos - start >= n then n else pos - start
  }

  /** A day placed at `row`, `col` is the cell the reference layout puts there. */
  lemma PlaceCell(year: int, month: int, firstWeekday: Weekday, today: CivilDate, history: seq<WorkDay>, row: int, col: int, k: nat)
    requires 0 <= col < 7 && 7 * row + col == MondayFirstColumn(firstWeekday) + k
    ensures var c := Classify(year, month, k + 1, today, history);
      Layout(year, month, firstWeekday, today, history, k + 1)
        == Layout(year, month, firstWeekday, today, history, k) + [CalendarDay(row, col, k + 1, c.0, c.1)]
  {
    DivModSeven(row, col);
    assert CellSpec(year, month, firstWeekday, today, history, k).row == row;
  }

  lemma DivModSeven(row: int, col: int)
    requires 0 <= col < 7
    ensures (7 * row + col) / 7 == row && (7 * row + col) % 7 == col
  {
  }

  /**
    The nested row/column walk of `generateCalendar`. `firstWeekday` is the
    `tm_wday` of the first of the month (0 = Sunday), as `mktime` reports it.
   */
  method GenerateCalendar(year: int, month: int, firstWeekday: Weekday, today: CivilDate, history: seq<WorkDay>)
    returns (cells: seq<CalendarDay>)
    ensures |cells| == DaysInMonth(year, month)
    ensures forall k :: 0 <= k < |cells| ==> cells[k] == CellSpec(year, month, firstWeekday, today, history, k)
  {
    var weekdayStart := MondayFirstColumn(firstWeekday);
    var daysInMonth := DaysInMonth(year, month);
    cells := [];
    var currentDay := 1;
    var row := 0;
    while row < 6
      invariant 0 <= row <= 6
      invariant currentDay == |cells| + 1
      invariant |cells| == Placed(7 * row, weekdayStart, daysInMonth)
      invariant cells == Layout(year, month, firstWeekday, today, history, |cells|)
    {
      var col := 0;
      while col < 7
        invariant 0 <= col <= 7
        invariant currentDay == |cells| + 1
        invariant |cells| == Placed(7 * row + col, weekdayStart, daysInMonth)
        invariant cells == Layout(year, month, firstWeekday, today, history, |cells|)
      {
        if (row == 0 && col < weekdayStart) || currentDay > daysInMonth {
        } else {
          var c := Classify(year, month, currentDay, today, history);
          PlaceCell(year, month, firstWeekday, today, history, row, col, |cells|);
          cells := cells + [CalendarDay(row, col, currentDay, c.0, c.1)];
          currentDay := currentDay + 1;
        }
        col := col + 1;
      }
      row := row + 1;
    }
    LayoutCells(year, month, firstWeekday, today, history, |cells|);
  }

  /**
    The cells fill the grid in reading order without gaps: the first sits
    in the column of the first weekday, each next one in the next position,
    and all fit in the six rows.
   */
  lemma GridLayout(year: int, month: int, firstWeekday: Weekday, today: CivilDate, history: seq<WorkDay>, k: nat)
    requires k < DaysInMonth(year, month)
    ensures var c := CellSpec(year, month, firstWeekday, today, history, k);
      && 0 <= c.row < 6 && 0 <= c.col < 7
      && 7 * c.row + c.col == MondayFirstColumn(firstWeekday) + k
      && (k == 0 ==> c.row == 0 && c.col == MondayFirstColumn(firstWeekday))
  {
  }

  /** A day with an entry shows the entry even when it is today; the first entry wins. */
  lemma EntryBeatsToday(year: int, month: int, day: int, history: seq<WorkDay>, i: nat)
    requires i < |history| && history[i].date == DateKey(year, month, day)
    requires forall j :: 0 <= j < i ==> history[j].date != DateKey(year, month, day)
    ensures Classify(year, month, day, CivilDate(year, month, day), history).1 == Some(history[i])
    ensures Classify(year, month, day, CivilDate(year, month, day), history).0 != Today
  {
    ClassifyMeaning(year, month, day, CivilDate(year, month, day), history);
  }
}
