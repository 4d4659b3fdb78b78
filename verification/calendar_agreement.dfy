/**
  The two month grids side by side: for a past day of a four-digit year,
  the browser's class and the desktop's day type agree on every history,
  including the desktop's, which can hold two entries for one date.
 */
module CalendarAgreement {
  import opened Text
  import opened Calendar
  import opened Ledger
  import Web = WebCalendar
  import Desk = DesktopCalendar

  /** The desktop day type that corresponds to a browser class of a past day. */
  function DeskType(c: Web.CellClass): Desk.DayType {
    match c
    case FullDay => Desk.FullDay
    case PartialDay => Desk.PartialDay
    case Today => Desk.Today
    case _ => Desk.Normal
  }

  /**
    A day before today: the browser looks its ISO date up among the month's
    entries and the desktop looks its `<<`-built key up in the whole
    history; both find the same first entry, or neither does, and both call
    it full from seven hours on.
   */
  lemma PastDayAgrees(d: CivilDate, today: CivilDate, h: seq<WorkDay>)
    requires 1000 <= d.year <= 9999 && ValidDate(d) && Before(d, today)
    ensures var web := Web.ClassOf(d, today, MonthHistory(h, d.year, d.month));
      var desk := Desk.Classify(d.year, d.month, d.day, today, h);
      && web.1 == desk.1
      && desk.0 == DeskType(web.0)
  {
    var mh := MonthHistory(h, d.year, d.month);
    var web := Web.ClassOf(d, today, mh);
    var desk := Desk.Classify(d.year, d.month, d.day, today, h);
    Web.ClassOfMeaning(d, today, mh);
    Desk.ClassifyMeaning(d.year, d.month, d.day, today, h);
    Desk.DateKeyIsDateText(d);
    FindDateInMonth(h, d);
    assert d != today;
  }
}
