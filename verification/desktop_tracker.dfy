/**
  The desktop tracker of main.cpp (`AppState`): punching in has no time
  window, punching out files the day under the calendar date of the
  punch-in instant and puts it in front of the history without looking
  for an existing entry, and the live duration is "0h 00m" while idle.
 */
module DesktopTracker {
  import opened Text
  import opened Calendar
  import opened Clock
  import opened Ledger

  /** `CurrentSession`: the punch-in reading and the rates copied at punch-in. */
  datatype DesktopSession = DesktopSession(start: Reading, rateGross: real, rateNet: real)

  /**
    The fields of `AppState` the logic touches. `session` is `None` only
    before the first punch-in; punching out leaves the last session in
    place, as the C++ struct is never cleared.
   */
  datatype AppState = AppState(isWorking: bool, config: Config, session: Option<DesktopSession>, history: seq<WorkDay>)

  const InitialState: AppState := AppState(false, DefaultConfig, None, [])

  /** Working implies a session whose start reading is a real local date. */
  predicate Inv(a: AppState) {
    a.isWorking ==> a.session.Some? && ValidReading(a.session.value.start)
  }

  /** `punchIn`: start working now at the configured rates, whatever the hour. */
  function PunchIn(a: AppState, now: Reading): (r: AppState)
    ensures r.isWorking && r.session == Some(DesktopSession(now, a.config.hourlyGross, a.config.hourlyNet))
    ensures r.config == a.config && r.history == a.history
  {
    a.(isWorking := true, session := Some(DesktopSession(now, a.config.hourlyGross, a.config.hourlyNet)))
  }

  /** The WorkDay `punchOut` builds from the session and the punch-out reading. */
  function CloseSession(s: DesktopSession, now: Reading): (day: WorkDay)
    requires ValidReading(s.start)
    ensures day.date == DateText(s.start.date)
    ensures day.durationMs == now.ms - s.start.ms
    ensures day.duration == DesktopFormatDuration(now.ms - s.start.ms)
    ensures day.hourlyGross == s.rateGross && day.hourlyNet == s.rateNet
    ensures day.grossEarning == Earning(now.ms - s.start.ms, s.rateGross)
    ensures day.netEarning == Earning(now.ms - s.start.ms, s.rateNet)
    ensures day.startTime == TimeText(s.start.hour, s.start.minute) && day.endTime == TimeText(now.hour, now.minute)
    ensures day.startDateTime == s.start.iso && day.endDateTime == now.iso
  {
    var ms := now.ms - s.start.ms;
    WorkDay(
      DateText(s.start.date),
      TimeText(s.start.hour, s.start.minute),
      TimeText(now.hour, now.minute),
      s.start.iso,
      now.iso,
      DesktopFormatDuration(ms),
      ms,
      Earning(ms, s.rateGross),
      Earning(ms, s.rateNet),
      s.rateGross,
      s.rateNet)
  }

  /**
    `punchOut`: stop working and insert the day at the front of the
    history; an entry with the same date is neither replaced nor removed.
   */
  function PunchOut(a: AppState, now: Reading): (r: AppState)
    requires a.isWorking && Inv(a)
    ensures !r.isWorking && r.config == a.config && r.session == a.session
    ensures |r.history| == |a.history| + 1
    ensures r.history[0] == CloseSession(a.session.value, now)
    ensures r.history[1..] == a.history
  {
    var day := CloseSession(a.session.value, now);
    a.(isWorking := false, history := [day] + a.history)
  }

  /** `togglePunch`: punch out while working, punch in otherwise. */
  function Toggle(a: AppState, now: Reading): (r: AppState)
    requires Inv(a) && ValidReading(now)
    ensures Inv(r)
    ensures r.isWorking == !a.isWorking
    ensures r.config == a.config
    ensures |r.history| == |a.history| + (if a.isWorking then 1 else 0)
  {
    if a.isWorking then PunchOut(a, now) else PunchIn(a, now)
  }

  /** `getWorkedDurationString`: the elapsed time of the running session, "0h 00m" while idle. */
  function WorkedDurationString(a: AppState, nowMs: int): (s: string)
    requires Inv(a)
    ensures !a.isWorking ==> s == "0h 00m"
  {
    if !a.isWorking then "0h 00m" else DesktopFormatDuration(nowMs - a.session.value.start.ms)
  }

  /**
    A punch-in followed by a punch-out records one day in front of the old
    history: the span between the two readings, under the punch-in
    calendar date, at the rates configured at punch-in.
   */
  lemma PunchInThenOut(a: AppState, start: Reading, end: Reading)
    requires ValidReading(start)
    ensures var r := PunchOut(PunchIn(a, start), end);
      && !r.isWorking
      && r.history == [r.history[0]] + a.history
      && r.history[0].date == DateText(start.date)
      && r.history[0].durationMs == end.ms - start.ms
      && r.history[0].hourlyGross == a.config.hourlyGross
      && r.history[0].hourlyNet == a.config.hourlyNet
  {
    var w := PunchIn(a, start);
    var r := PunchOut(w, end);
    assert r.history == [r.history[0]] + r.history[1..];
  }

  /** Two sessions on one day leave two entries with that date, the later one first. */
  lemma SameDayTwice(a: AppState, s1: Reading, e1: Reading, s2: Reading, e2: Reading)
    requires ValidReading(s1) && ValidReading(s2) && s1.date == s2.date
    ensures var r := PunchOut(PunchIn(PunchOut(PunchIn(a, s1), e1), s2), e2);
      && |r.history| == |a.history| + 2
      && r.history[0].date == r.history[1].date == DateText(s1.date)
      && r.history[0].durationMs == e2.ms - s2.ms
      && r.history[1].durationMs == e1.ms - s1.ms
      && !UniqueDates(r.history)
  {
    var r1 := PunchOut(PunchIn(a, s1), e1);
    var r := PunchOut(PunchIn(r1, s2), e2);
    assert r.history[1] == r1.history[0];
  }

  /** The live duration shown at the punch-out instant is the duration the day records. */
  lemma WorkedDurationAtPunchOut(a: AppState, now: Reading)
    requires a.isWorking && Inv(a)
    ensures WorkedDurationString(a, now.ms) == PunchOut(a, now).history[0].duration
  {
  }

  /** Punching out at the punch-in instant records "0h 00m" and nothing earned. */
  lemma PunchOutImmediately(a: AppState, now: Reading)
    requires ValidReading(now)
    ensures var day := PunchOut(PunchIn(a, now), now).history[0];
      && day.durationMs == 0 && day.duration == "0h 00m"
      && day.grossEarning == 0.0 && day.netEarning == 0.0
  {
    var s := DesktopSession(now, a.config.hourlyGross, a.config.hourlyNet);
    assert PunchOut(PunchIn(a, now), now).history[0] == CloseSession(s, now);
    EmptyDay(s, now);
  }

  lemma EmptyDay(s: DesktopSession, now: Reading)
    requires ValidReading(s.start) && now.ms == s.start.ms
    ensures var day := CloseSession(s, now);
      && day.durationMs == 0 && day.duration == "0h 00m"
      && day.grossEarning == 0.0 && day.netEarning == 0.0
  {
    FormatDurationZero(now.ms - s.start.ms);
    EarningZero(now.ms - s.start.ms, s.rateGross);
    EarningZero(now.ms - s.start.ms, s.rateNet);
  }
}
