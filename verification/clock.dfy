/**
  Time arithmetic shared by both programs: the clock reading a punch is
  made at, the 07:30 work-date shift, the 07:30-18:00 punch window, the
  "Xh MMm" rendering of a duration, and the earnings a duration is worth
  at an hourly rate.
 */
module Clock {
  import opened Text
  import opened Calendar

  /** 07:30 and 18:00 as minutes since midnight. */
  const EarlyLimitMinutes: int := 7 * 60 + 30
  const LateLimitMinutes: int := 18 * 60

  type Hour = h: int | 0 <= h < 24
  type Minute = m: int | 0 <= m < 60

  /**
    What the environment's clock says at one instant: milliseconds since the
    epoch, the local calendar date and local hour and minute, and the
    ISO-8601 text of the instant (`toISOString` / `formatISO`).
   */
  datatype Reading = Reading(ms: int, date: CivilDate, hour: Hour, minute: Minute, iso: string)

  predicate ValidReading(r: Reading) {
    ValidDate(r.date) && 1 <= r.date.year <= 9999
  }

  function MinuteOfDay(h: Hour, m: Minute): (t: int)
    ensures 0 <= t < 24 * 60
  {
    h * 60 + m
  }

  /**
    The work date of a reading: before 07:30 local time the instant still
    belongs to the previous calendar day's work.
   */
  function WorkDate(r: Reading): (d: CivilDate)
    requires ValidReading(r)
    ensures ValidDate(d) && 0 <= d.year <= 9999
    ensures MinuteOfDay(r.hour, r.minute) < EarlyLimitMinutes ==> NextDay(d) == r.date
    ensures MinuteOfDay(r.hour, r.minute) >= EarlyLimitMinutes ==> d == r.date
  {
    if MinuteOfDay(r.hour, r.minute) < EarlyLimitMinutes then
      PrevNextInverse(r.date);
      PrevDay(r.date)
    else r.date
  }

  /** The work date is the reading's own date or the day before, never later. */
  lemma WorkDateNotLater(r: Reading)
    requires ValidReading(r)
    ensures WorkDate(r) == r.date || Before(WorkDate(r), r.date)
    ensures WorkDate(r) == r.date <==> MinuteOfDay(r.hour, r.minute) >= EarlyLimitMinutes
  {
  }

  /** Local "HH:MM", two digits each, as `toLocaleTimeString` and `%H:%M` write it. */
  function TimeText(h: Hour, m: Minute): (s: string)
    ensures |s| == 5 && s[2] == ':'
  {
    Digits2(h) + ":" + Digits2(m)
  }

  /** The same text as `padStart(2, '0')` builds it in `validatePunchTime`. */
  lemma TimeTextPadded(h: Hour, m: Minute)
    ensures TimeText(h, m) == TwoDigits(h) + ":" + TwoDigits(m)
  {
    TwoDigitsSmall(h);
    TwoDigitsSmall(m);
  }

  lemma WindowLimitsText()
    ensures TimeText(7, 30) == "07:30"
    ensures TimeText(18, 0) == "18:00"
  {
  }

  datatype PunchCheck = InWindow | OutOfWindow(shown: string)

  /**
    `validatePunchTime`: the "HH:MM" text is compared as a string against
    "07:30" and "18:00"; outside the closed window the check fails and
    carries the text it shows the user.
   */
  function ValidatePunchTime(h: Hour, m: Minute): (c: PunchCheck)
    ensures c.InWindow? <==> EarlyLimitMinutes <= MinuteOfDay(h, m) <= LateLimitMinutes
    ensures c.OutOfWindow? ==> c.shown == TimeText(h, m)
  {
    var t := TimeText(h, m);
    WindowLimitsText();
    TimeTextOrder(h, m, 7, 30);
    TimeTextOrder(18, 0, h, m);
    if LexLess(t, "07:30") || LexLess("18:00", t) then OutOfWindow(t) else InWindow
  }

  /** The four digits of "HH:MM" without the colon. */
  function ClockDigits(h: Hour, m: Minute): (s: string)
    ensures |s| == 4 && AllDigits(s)
  {
    Digits2(h) + Digits2(m)
  }

  lemma ClockDigitsValue(h: Hour, m: Minute)
    ensures DigitsValue(ClockDigits(h, m)) == 100 * h + m
  {
    Digits2Value(h);
    Digits2Value(m);
    DigitsValueAppend(Digits2(h), Digits2(m));
    assert Pow10(2) == 100;
  }

  /** A shared character at the same position does not affect the comparison. */
  lemma {:induction false} LexLessSkip(p: string, q: string, p': string, q': string, c: char)
    requires |p| == |p'|
    ensures LexLess(p + [c] + q, p' + [c] + q') <==> LexLess(p + q, p' + q')
    decreases |p|
  {
    if |p| == 0 {
      assert (p + [c] + q)[1..] == q && p + q == q;
      assert (p' + [c] + q')[1..] == q' && p' + q' == q';
    } else {
      assert (p + [c] + q)[1..] == p[1..] + [c] + q;
      assert (p' + [c] + q')[1..] == p'[1..] + [c] + q';
      assert (p + q)[1..] == p[1..] + q;
      assert (p' + q')[1..] == p'[1..] + q';
      LexLessSkip(p[1..], q, p'[1..], q', c);
    }
  }

  /** Comparing "HH:MM" texts as strings agrees with comparing the times. */
  lemma TimeTextOrder(h: Hour, m: Minute, h': Hour, m': Minute)
    ensures LexLess(TimeText(h, m), TimeText(h', m')) <==> MinuteOfDay(h, m) < MinuteOfDay(h', m')
  {
    var a, b := TimeText(h, m), TimeText(h', m');
    var x, y := ClockDigits(h, m), ClockDigits(h', m');
    LexLessSkip(Digits2(h), Digits2(m), Digits2(h'), Digits2(m'), ':');
    assert a == Digits2(h) + [':'] + Digits2(m);
    assert b == Digits2(h') + [':'] + Digits2(m');
    assert LexLess(a, b) <==> LexLess(x, y);
    LexLessDigits(x, y);
    ClockDigitsValue(h, m);
    ClockDigitsValue(h', m');
    ClockValueOrder(h, m, h', m');
  }

  /** Reading "HHMM" as a number orders times as minutes since midnight do. */
  lemma ClockValueOrder(h: Hour, m: Minute, h': Hour, m': Minute)
    ensures 100 * h + m < 100 * h' + m' <==> MinuteOfDay(h, m) < MinuteOfDay(h', m')
  {
  }

  /** `x % d` in C++ and JavaScript: the remainder takes the sign of `x`. */
  function TruncMod(x: int, d: int): (r: int)
    requires d > 0
    ensures -d < r < d
    ensures x >= 0 ==> 0 <= r
    ensures x < 0 ==> r <= 0
  {
    if x >= 0 then x % d else -((-x) % d)
  }

  /** `x / d` on C++ integers: the quotient rounds toward zero. */
  function TruncDiv(x: int, d: int): (q: int)
    requires d > 0
    ensures q * d + TruncMod(x, d) == x
  {
    if x >= 0 then x / d else -((-x) / d)
  }

  /** The text "<hours>h <minutes>m" with the minutes at least two characters wide. */
  function DurationText(hours: int, minutes: int): string {
    IntText(hours) + "h " + TwoDigits(minutes) + "m"
  }

  /**
    `formatDuration` in script.js: `Math.floor` of the hours, but the
    remainder `%` keeps the sign of `ms` before its own `Math.floor`.
    (Dafny's `/` by a positive divisor is floor division.)
   */
  function WebFormatDuration(ms: int): string {
    DurationText(ms / 3_600_000, TruncMod(ms, 3_600_000) / 60_000)
  }

  /** `AppState::formatDuration` in main.cpp: `/` and `%` both truncate. */
  function DesktopFormatDuration(ms: int): string {
    DurationText(TruncDiv(ms, 3_600_000), TruncDiv(TruncMod(ms, 3_600_000), 60_000))
  }

  /**
    For a non-negative duration both renderings are the whole hours and the
    whole remaining minutes: two digits, 0..59, and together they account
    for all of `ms` except less than one minute.
   */
  lemma FormatDurationMeaning(ms: int)
    requires ms >= 0
    ensures var h, m := ms / 3_600_000, ms % 3_600_000 / 60_000;
      && 0 <= m < 60
      && h * 3_600_000 + m * 60_000 <= ms < h * 3_600_000 + (m + 1) * 60_000
      && WebFormatDuration(ms) == NatText(h) + "h " + Digits2(m) + "m"
      && DesktopFormatDuration(ms) == WebFormatDuration(ms)
  {
    DurationSplit(ms);
    SameQuotients(ms);
    DurationTextSmall(ms / 3_600_000, ms % 3_600_000 / 60_000);
  }

  /** On non-negative input, floor and truncating division agree. */
  lemma SameQuotients(ms: int)
    requires ms >= 0
    ensures TruncMod(ms, 3_600_000) == ms % 3_600_000
    ensures TruncDiv(ms, 3_600_000) == ms / 3_600_000
    ensures TruncDiv(ms % 3_600_000, 60_000) == ms % 3_600_000 / 60_000
  {
  }

  lemma DurationTextSmall(h: int, m: int)
    requires h >= 0 && 0 <= m < 60
    ensures DurationText(h, m) == NatText(h) + "h " + Digits2(m) + "m"
  {
    TwoDigitsSmall(m);
  }

  /** Whole hours, then whole minutes of the rest, then under a minute. */
  lemma DurationSplit(ms: int)
    requires ms >= 0
    ensures var h, m := ms / 3_600_000, ms % 3_600_000 / 60_000;
      && 0 <= m < 60
      && h * 3_600_000 + m * 60_000 <= ms < h * 3_600_000 + (m + 1) * 60_000
  {
    var h, r := ms / 3_600_000, ms % 3_600_000;
    var m, s := r / 60_000, r % 60_000;
    assert ms == h * 3_600_000 + r;
    assert r == m * 60_000 + s;
    assert 0 <= r < 3_600_000;
    assert m < 60;
  }

  /**
    The desktop truncates toward zero, so a negative duration prints as its
    magnitude would, with both the hours and the minutes negated.
   */
  lemma DesktopFormatDurationSymmetric(ms: int)
    requires ms >= 0
    ensures DesktopFormatDuration(-ms) == DurationText(-(ms / 3_600_000), -(ms % 3_600_000 / 60_000))
  {
    var r := ms % 3_600_000;
    if ms > 0 {
      assert TruncMod(-ms, 3_600_000) == -r;
      assert TruncDiv(-ms, 3_600_000) == -(ms / 3_600_000);
      if r > 0 {
        assert TruncDiv(-r, 60_000) == -(r / 60_000);
      } else {
        assert TruncDiv(-r, 60_000) == 0;
      }
    }
  }

  /**
    The browser floors, so a negative duration rounds both parts away from
    zero: the hours are minus the started hours of its magnitude, and the
    minutes minus the started minutes of the rest.
   */
  lemma WebFormatDurationNegative(ms: int)
    requires ms > 0
    ensures WebFormatDuration(-ms) == DurationText(-((ms - 1) / 3_600_000) - 1, -((ms % 3_600_000 + 59_999) / 60_000))
  {
    var r := ms % 3_600_000;
    FloorOfNegative(ms, 3_600_000);
    assert TruncMod(-ms, 3_600_000) == -r;
    if r > 0 {
      FloorOfNegative(r, 60_000);
      assert (r - 1) / 60_000 + 1 == (r + 59_999) / 60_000;
    }
  }

  /** Floor division of a negative number: minus the rounded-up quotient of its magnitude. */
  lemma FloorOfNegative(x: int, d: int)
    requires x > 0 && d > 0
    ensures (-x) / d == -((x - 1) / d) - 1
  {
    var q, r := (x - 1) / d, (x - 1) % d;
    assert x - 1 == q * d + r;
    assert -x == (-q - 1) * d + (d - 1 - r);
    DivUnique(-x, d, -q - 1, d - 1 - r);
  }

  /** A quotient and remainder in range are the ones `/` and `%` give. */
  lemma DivUnique(n: int, d: int, q: int, r: int)
    requires d > 0 && 0 <= r < d && n == q * d + r
    ensures n / d == q
  {
    var q', r' := n / d, n % d;
    assert n == q' * d + r';
    assert (q' - q) * d == r - r';
    if q' > q {
      MulAtLeast(q' - q, d);
    } else if q' < q {
      MulAtLeast(q - q', d);
    }
  }

  lemma MulAtLeast(k: int, d: int)
    requires k >= 1 && d > 0
    ensures k * d >= d
  {
  }

  /** Below one minute the text is "0h 00m" in both programs. */
  lemma FormatDurationZero(ms: int)
    requires 0 <= ms < 60_000
    ensures WebFormatDuration(ms) == "0h 00m"
    ensures DesktopFormatDuration(ms) == "0h 00m"
  {
    FormatDurationMeaning(ms);
    assert ms / 3_600_000 == 0;
    assert ms % 3_600_000 / 60_000 == 0;
    assert NatText(0) + "h " + Digits2(0) + "m" == "0h 00m";
  }

  /**
    For negative durations the two programs disagree: one millisecond
    before the start reads "-1h -1m" in the browser and "0h 00m" on the
    desktop.
   */
  lemma FormatDurationNegativeDiverges()
    ensures WebFormatDuration(-1) == "-1h -1m"
    ensures DesktopFormatDuration(-1) == "0h 00m"
  {
    assert TruncMod(-1, 3_600_000) == -1;
    assert -1 / 3_600_000 == -1 && -1 / 60_000 == -1;
    assert IntText(-1) == "-1";
    assert PadZero("-1", 2) == "-1";
    assert TruncDiv(-1, 3_600_000) == 0;
    assert TruncDiv(-1, 60_000) == 0;
    assert IntText(0) == "0";
    TwoDigitsSmall(0);
    assert Digits2(0) == "00";
  }

  /** Money earned over `ms` milliseconds at `rate` per hour. */
  function Earning(ms: int, rate: real): (e: real)
    ensures ms >= 0 && rate >= 0.0 ==> e >= 0.0
  {
    (ms as real) / 3_600_000.0 * rate
  }

  /** Earnings are additive over consecutive spans and whole hours pay the rate. */
  lemma EarningAdditive(a: int, b: int, rate: real, hours: int)
    ensures Earning(a + b, rate) == Earning(a, rate) + Earning(b, rate)
    ensures Earning(hours * 3_600_000, rate) == (hours as real) * rate
  {
  }

  /** A zero-length span earns nothing. */
  lemma EarningZero(ms: int, rate: real)
    requires ms == 0
    ensures Earning(ms, rate) == 0.0
  {
  }
}
