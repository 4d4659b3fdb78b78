/**
  The record of one finished work day and the history that stores them:
  the browser's bounded, date-keyed upsert, the lookup by date that both
  calendars use, and the month aggregate shown under the calendar.
 */
module Ledger {
  import opened Text
  import opened Calendar

  /** Most recent days kept by the browser history. */
  const HistoryCapacity: nat := 250

  /**
    One completed session. `date` is the "YYYY-MM-DD" work date, `startTime`
    and `endTime` the local "HH:MM", the two `DateTime` fields the ISO-8601
    instants, `duration` the "Xh MMm" text; money is exact.
   */
  datatype WorkDay = WorkDay(
    date: string,
    startTime: string,
    endTime: string,
    startDateTime: string,
    endDateTime: string,
    duration: string,
    durationMs: int,
    grossEarning: real,
    netEarning: real,
    hourlyGross: real,
    hourlyNet: real)

  /** The hourly rates in force; both programs start from 12.50 gross and 10.00 net. */
  datatype Config = Config(hourlyGross: real, hourlyNet: real)

  const DefaultConfig: Config := Config(12.50, 10.00)

  predicate HasDate(h: seq<WorkDay>, date: string) {
    exists k :: 0 <= k < |h| && h[k].date == date
  }

  /** No two entries share a date. */
  predicate UniqueDates(h: seq<WorkDay>) {
    forall i, j :: 0 <= i < j < |h| ==> h[i].date != h[j].date
  }

  /** `findIndex` / the first-match loop: the first entry with this date. */
  function FindDate(h: seq<WorkDay>, date: string): (r: Option<nat>)
    ensures r.None? <==> !HasDate(h, date)
    ensures r.Some? ==> r.value < |h| && h[r.value].date == date
    ensures r.Some? ==> forall k :: 0 <= k < r.value ==> h[k].date != date
  {
    if |h| == 0 then None
    else if h[0].date == date then Some(0)
    else
      var rest := FindDate(h[1..], date);
      if rest.None? then
        assert forall k :: 1 <= k < |h| ==> h[k].date == h[1..][k - 1].date;
        None
      else Some(rest.value + 1)
  }

  /** The first `n` entries (`slice(0, n)`). */
  function Take(h: seq<WorkDay>, n: nat): (r: seq<WorkDay>)
    ensures |r| == if |h| <= n then |h| else n
    ensures r == h[..|r|]
  {
    if |h| <= n then h else h[..n]
  }

  /**
    `saveToHistory`: a day whose date is new goes to the front; a day whose
    date is already present replaces that entry when the user confirms and
    leaves the history untouched when the user declines. A saved history
    is cut to its first 250 entries.
   */
  function SaveToHistory(h: seq<WorkDay>, day: WorkDay, confirmReplace: bool): (r: seq<WorkDay>)
    ensures !HasDate(h, day.date) ==>
      && |r| == (if |h| < HistoryCapacity then |h| + 1 else HistoryCapacity)
      && r[0] == day
      && r[1..] == h[..|r| - 1]
    ensures HasDate(h, day.date) && confirmReplace ==>
      var i := FindDate(h, day.date).value;
      && |r| == (if |h| <= HistoryCapacity then |h| else HistoryCapacity)
      && (i < |r| ==> r[..i] == h[..i] && r[i] == day && r[i + 1..] == h[i + 1..|r|])
      && (i >= |r| ==> r == h[..|r|])
    ensures HasDate(h, day.date) && !confirmReplace ==> r == h
  {
    match FindDate(h, day.date)
    case None => Take([day] + h, HistoryCapacity)
    case Some(i) => if confirmReplace then Take(h[i := day], HistoryCapacity) else h
  }

  /** A saved history never holds more than 250 days, whatever it held before. */
  lemma SaveToHistoryBounded(h: seq<WorkDay>, day: WorkDay, confirmReplace: bool)
    requires |h| <= HistoryCapacity
    ensures |SaveToHistory(h, day, confirmReplace)| <= HistoryCapacity
  {
  }

  /** Upserting keeps the history free of duplicate dates. */
  lemma SaveToHistoryUnique(h: seq<WorkDay>, day: WorkDay, confirmReplace: bool)
    requires UniqueDates(h)
    ensures UniqueDates(SaveToHistory(h, day, confirmReplace))
  {
    var r := SaveToHistory(h, day, confirmReplace);
    if !HasDate(h, day.date) {
      forall i, j | 0 <= i < j < |r| ensures r[i].date != r[j].date {
        if i == 0 {
          assert r[j] == h[j - 1];
        } else {
          assert r[i] == h[i - 1] && r[j] == h[j - 1];
        }
      }
    } else if confirmReplace {
      var p := FindDate(h, day.date).value;
      forall i, j | 0 <= i < j < |r| ensures r[i].date != r[j].date {
        if i == p {
          assert r[j] == h[j];
        } else if j == p {
          assert r[i] == h[i];
        } else {
          assert r[i] == h[i] && r[j] == h[j];
        }
      }
    }
  }

  /**
    Unless the user declines a replacement, the saved day is afterwards the
    one entry with its date (given a history within capacity).
   */
  lemma SaveToHistoryStores(h: seq<WorkDay>, day: WorkDay, confirmReplace: bool)
    requires UniqueDates(h) && |h| <= HistoryCapacity
    requires !HasDate(h, day.date) || confirmReplace
    ensures var r := SaveToHistory(h, day, confirmReplace);
      FindDate(r, day.date) == Some(if HasDate(h, day.date) then FindDate(h, day.date).value else 0)
      && forall k :: 0 <= k < |r| && r[k].date == day.date ==> r[k] == day
  {
    var r := SaveToHistory(h, day, confirmReplace);
    SaveToHistoryUnique(h, day, confirmReplace);
    var i := if HasDate(h, day.date) then FindDate(h, day.date).value else 0;
    assert r[i] == day;
    forall k | 0 <= k < |r| && r[k].date == day.date ensures r[k] == day {
      assert k == i;
    }
  }

  /** Entries for other dates survive, in order; only the oldest can fall off the end. */
  lemma SaveToHistoryKeepsOthers(h: seq<WorkDay>, day: WorkDay, confirmReplace: bool, k: nat)
    requires |h| <= HistoryCapacity
    requires k < |h| && h[k].date != day.date
    requires k < HistoryCapacity - 1 || HasDate(h, day.date)
    ensures h[k] in SaveToHistory(h, day, confirmReplace)
  {
    var r := SaveToHistory(h, day, confirmReplace);
    if !HasDate(h, day.date) {
      assert r[k + 1] == h[k];
    } else if confirmReplace {
      assert r[k] == h[k];
    }
  }

  /** `getHistoryForMonth`: whether an entry's date key lies in `month` (1-based) of `year`. */
  predicate InMonth(day: WorkDay, year: int, month: int) {
    var d := ParseDate(day.date);
    d.Some? && d.value.year == year && d.value.month == month
  }

  function MonthHistory(h: seq<WorkDay>, year: int, month: int): (r: seq<WorkDay>)
    ensures |r| <= |h|
    ensures forall k :: 0 <= k < |r| ==> r[k] in h && InMonth(r[k], year, month)
    ensures forall k :: 0 <= k < |h| && InMonth(h[k], year, month) ==> h[k] in r
  {
    if |h| == 0 then []
    else
      var rest := MonthHistory(h[1..], year, month);
      assert forall k :: 1 <= k < |h| ==> h[k] == h[1..][k - 1];
      if InMonth(h[0], year, month) then [h[0]] + rest else rest
  }

  /** The month filter distributes over concatenation of histories. */
  lemma {:induction false} MonthHistoryAppend(a: seq<WorkDay>, b: seq<WorkDay>, year: int, month: int)
    ensures MonthHistory(a + b, year, month) == MonthHistory(a, year, month) + MonthHistory(b, year, month)
    decreases |a|
  {
    if |a| > 0 {
      assert (a + b)[1..] == a[1..] + b;
      MonthHistoryAppend(a[1..], b, year, month);
    } else {
      assert a + b == b;
    }
  }

  /**
    A single entry passes the filter exactly when it lies in the month; with
    `MonthHistoryAppend` this pins the filter down completely, so it keeps
    the history's order and repeated entries.
   */
  lemma MonthHistorySingle(x: WorkDay, year: int, month: int)
    ensures MonthHistory([x], year, month) == if InMonth(x, year, month) then [x] else []
  {
    assert [x][1..] == [];
  }

  /** An entry filed under the key of a date lies in that date's month and in no other. */
  lemma InMonthOfDate(day: WorkDay, d: CivilDate, year: int, month: int)
    requires 0 <= d.year <= 9999 && ValidDate(d) && day.date == DateText(d)
    ensures InMonth(day, year, month) <==> d.year == year && d.month == month
  {
    ParseDateText(d);
  }

  /** Only canonical "YYYY-MM-DD" keys lie in any month. */
  lemma InMonthOnlyKeys(day: WorkDay, year: int, month: int)
    requires InMonth(day, year, month)
    ensures var d := ParseDate(day.date).value;
      day.date == DateText(d) && d.year == year && d.month == month
  {
    DateTextOfParse(day.date);
  }

  /**
    Looking a date up among its month's entries finds the same entry as
    looking it up in the whole history: the filter keeps the order, so the
    first entry with the date stays first, duplicates or not.
   */
  lemma {:induction false} FindDateInMonth(h: seq<WorkDay>, d: CivilDate)
    requires 0 <= d.year <= 9999 && ValidDate(d)
    ensures var mh := MonthHistory(h, d.year, d.month);
      var a, b := FindDate(mh, DateText(d)), FindDate(h, DateText(d));
      && (a.None? <==> b.None?)
      && (a.Some? ==> mh[a.value] == h[b.value])
  {
    if |h| > 0 {
      var key := DateText(d);
      var mh := MonthHistory(h, d.year, d.month);
      var rest := MonthHistory(h[1..], d.year, d.month);
      FindDateInMonth(h[1..], d);
      if h[0].date == key {
        InMonthOfDate(h[0], d, d.year, d.month);
        assert mh[0] == h[0];
      } else {
        var a, b := FindDate(rest, key), FindDate(h[1..], key);
        FindDateSkip(h, key);
        if b.Some? {
          assert h[b.value + 1] == h[1..][b.value];
        }
        if InMonth(h[0], d.year, d.month) {
          assert mh[0] == h[0] && mh[1..] == rest;
          FindDateSkip(mh, key);
          if a.Some? {
            assert mh[a.value + 1] == rest[a.value];
          }
        }
      }
    }
  }

  /** An entry with another date in front shifts the first match by one. */
  lemma FindDateSkip(h: seq<WorkDay>, key: string)
    requires |h| > 0 && h[0].date != key
    ensures var b := FindDate(h[1..], key);
      FindDate(h, key) == if b.None? then None else Some(b.value + 1)
  {
  }

  /** The month aggregate: days worked, total milliseconds, total net earnings. */
  datatype MonthTotals = MonthTotals(days: nat, ms: int, earnings: real)

  function SumMs(days: seq<WorkDay>): int
    decreases |days|
  {
    if |days| == 0 then 0 else days[0].durationMs + SumMs(days[1..])
  }

  function SumNet(days: seq<WorkDay>): real
    decreases |days|
  {
    if |days| == 0 then 0.0 else days[0].netEarning + SumNet(days[1..])
  }

  /** The aggregate `updateMonthView` shows for `month` of `year`. */
  function Totals(h: seq<WorkDay>, year: int, month: int): (t: MonthTotals)
    ensures t.days == |MonthHistory(h, year, month)|
    ensures (forall k :: 0 <= k < |h| ==> h[k].durationMs >= 0) ==> t.ms >= 0
  {
    var m := MonthHistory(h, year, month);
    NonNegativeSum(m);
    MonthTotals(|m|, SumMs(m), SumNet(m))
  }

  lemma {:induction false} NonNegativeSum(days: seq<WorkDay>)
    ensures (forall k :: 0 <= k < |days| ==> days[k].durationMs >= 0) ==> SumMs(days) >= 0
    decreases |days|
  {
    if |days| > 0 {
      NonNegativeSum(days[1..]);
      assert forall k :: 1 <= k < |days| ==> days[1..][k - 1] == days[k];
    }
  }

  lemma {:induction false} SumsAppend(a: seq<WorkDay>, b: seq<WorkDay>)
    ensures SumMs(a + b) == SumMs(a) + SumMs(b)
    ensures SumNet(a + b) == SumNet(a) + SumNet(b)
    decreases |a|
  {
    if |a| > 0 {
      assert (a + b)[1..] == a[1..] + b;
      SumsAppend(a[1..], b);
    } else {
      assert a + b == b;
    }
  }

  /**
    The month aggregate is additive: totals over two stretches of history are
    the sums of their totals, so every entry of the month is counted once.
   */
  lemma TotalsAdditive(a: seq<WorkDay>, b: seq<WorkDay>, year: int, month: int)
    ensures var ta, tb, t := Totals(a, year, month), Totals(b, year, month), Totals(a + b, year, month);
      t.days == ta.days + tb.days && t.ms == ta.ms + tb.ms && t.earnings == ta.earnings + tb.earnings
  {
    MonthHistoryAppend(a, b, year, month);
    SumsAppend(MonthHistory(a, year, month), MonthHistory(b, year, month));
  }

  /** One entry counts once when it lies in the month and not at all otherwise. */
  lemma TotalsSingle(day: WorkDay, year: int, month: int)
    ensures Totals([day], year, month) ==
      if InMonth(day, year, month) then MonthTotals(1, day.durationMs, day.netEarning)
      else MonthTotals(0, 0, 0.0)
  {
    assert [day][1..] == [];
    assert MonthHistory([day][1..], year, month) == [];
    assert SumMs([day]) == day.durationMs;
    assert SumNet([day]) == day.netEarning;
  }
}
