/**
  The browser tracker of script.js as a state record and pure transitions:
  punching in freezes the hourly rates and the work date, punching out
  turns the session into a WorkDay filed under the punch-in work date,
  the configuration cannot change while working, and the live display and
  end-of-day projection are computed from the session alone. The
  `confirm()` answers are inputs.
 */
module WebTracker {
  import opened Text
  import opened Calendar
  import opened Clock
  import opened Ledger

  /** `currentSession`: the work date and start reading, with the rates frozen at punch-in. */
  datatype Session = Session(workDate: CivilDate, start: Reading, rateGross: real, rateNet: real)

  /** The globals `isWorking`, `currentSession`, `config` and the stored history. */
  datatype Tracker = Tracker(isWorking: bool, session: Option<Session>, config: Config, history: seq<WorkDay>)

  const Initial: Tracker := Tracker(false, None, DefaultConfig, [])

  predicate ValidSession(s: Session) {
    ValidReading(s.start) && s.workDate == WorkDate(s.start)
  }

  /** What the tracker maintains between user actions. */
  predicate Inv(t: Tracker) {
    && (t.isWorking <==> t.session.Some?)
    && (t.session.Some? ==> ValidSession(t.session.value))
    && UniqueDates(t.history)
    && |t.history| <= HistoryCapacity
  }

  /** The user's answers to the dialogs a punch-out may raise. */
  datatype Answers = Answers(continueOutsideHours: bool, keepDifferentDate: bool, replaceExisting: bool)

  const AcceptAll: Answers := Answers(true, true, true)

  datatype Event =
    | PunchedIn
    | Rejected(shown: string)
    | NoSession
    | Cancelled
    | PunchedOut(day: WorkDay, stored: bool)

  datatype Step = Step(tracker: Tracker, event: Event)

  /**
    `punchIn`: outside 07:30-18:00 the punch is refused and nothing changes;
    otherwise a session starts now, on the work date of now, with the
    current configuration's rates.
   */
  function PunchIn(t: Tracker, now: Reading): (r: Step)
    requires ValidReading(now)
    ensures r.event.PunchedIn? || r.event.Rejected?
    ensures r.event.PunchedIn? <==> EarlyLimitMinutes <= MinuteOfDay(now.hour, now.minute) <= LateLimitMinutes
    ensures r.event.Rejected? ==> r.tracker == t
    ensures r.event.PunchedIn? ==>
      && r.tracker.isWorking && r.tracker.session.Some?
      && ValidSession(r.tracker.session.value)
      && r.tracker.session.value.start == now
      && r.tracker.session.value.rateGross == t.config.hourlyGross
      && r.tracker.session.value.rateNet == t.config.hourlyNet
      && r.tracker.config == t.config && r.tracker.history == t.history
  {
    match ValidatePunchTime(now.hour, now.minute)
    case OutOfWindow(shown) => Step(t, Rejected(shown))
    case InWindow =>
      var s := Session(WorkDate(now), now, t.config.hourlyGross, t.config.hourlyNet);
      Step(t.(isWorking := true, session := Some(s)), PunchedIn)
  }

  /**
    The punch window opens at 07:30, the hour the work date turns over, so
    a session started by `punchIn` always carries its own calendar date.
   */
  lemma PunchInOnCalendarDate(t: Tracker, now: Reading)
    requires ValidReading(now)
    ensures var r := PunchIn(t, now);
      r.event.PunchedIn? ==> r.tracker.session.value.workDate == now.date
  {
  }

  /** The WorkDay a session becomes when it ends at `now`. */
  function CloseSession(s: Session, now: Reading): (day: WorkDay)
    requires ValidSession(s)
    ensures day.durationMs == now.ms - s.start.ms
    ensures day.date == DateText(WorkDate(s.start))
    ensures day.hourlyGross == s.rateGross && day.hourlyNet == s.rateNet
    ensures day.grossEarning == Earning(now.ms - s.start.ms, s.rateGross)
    ensures day.netEarning == Earning(now.ms - s.start.ms, s.rateNet)
    ensures day.duration == WebFormatDuration(now.ms - s.start.ms)
    ensures day.startTime == TimeText(s.start.hour, s.start.minute) && day.endTime == TimeText(now.hour, now.minute)
    ensures day.startDateTime == s.start.iso && day.endDateTime == now.iso
  {
    var ms := now.ms - s.start.ms;
    WorkDay(
      DateText(s.workDate),
      TimeText(s.start.hour, s.start.minute),
      TimeText(now.hour, now.minute),
      s.start.iso,
      now.iso,
      WebFormatDuration(ms),
      ms,
      Earning(ms, s.rateGross),
      Earning(ms, s.rateNet),
      s.rateGross,
      s.rateNet)
  }

  /**
    `punchOut`: without a session nothing happens. A punch outside the
    window, or on a different work date than the punch-in, goes ahead only
    if the user agrees. The day is filed under the punch-in work date; the
    session ends even when the user declines to replace an existing day,
    in which case the day is not stored.
   */
  function PunchOut(t: Tracker, now: Reading, answers: Answers): (r: Step)
    requires ValidReading(now)
    requires t.session.Some? ==> ValidSession(t.session.value)
    ensures r.event.NoSession? || r.event.Cancelled? || r.event.PunchedOut?
    ensures r.event.NoSession? <==> t.session.None?
    ensures r.event.NoSession? || r.event.Cancelled? ==> r.tracker == t
    ensures r.event.Cancelled? ==>
      || (ValidatePunchTime(now.hour, now.minute).OutOfWindow? && !answers.continueOutsideHours)
      || (WorkDate(now) != t.session.value.workDate && !answers.keepDifferentDate)
    ensures t.session.Some? && ValidatePunchTime(now.hour, now.minute).OutOfWindow? && !answers.continueOutsideHours ==>
      r.event.Cancelled?
    ensures t.session.Some? && WorkDate(now) != t.session.value.workDate && !answers.keepDifferentDate ==>
      r.event.Cancelled?
    ensures r.event.PunchedOut? ==>
      && !r.tracker.isWorking && r.tracker.session.None?
      && r.tracker.config == t.config
      && r.event.day == CloseSession(t.session.value, now)
      && r.tracker.history == SaveToHistory(t.history, r.event.day, answers.replaceExisting)
      && (r.event.stored <==> !HasDate(t.history, r.event.day.date) || answers.replaceExisting)
  {
    match t.session
    case None => Step(t, NoSession)
    case Some(s) =>
      if ValidatePunchTime(now.hour, now.minute).OutOfWindow? && !answers.continueOutsideHours then
        Step(t, Cancelled)
      else if WorkDate(now) != s.workDate && !answers.keepDifferentDate then
        Step(t, Cancelled)
      else
        var day := CloseSession(s, now);
        var stored := !HasDate(t.history, day.date) || answers.replaceExisting;
        var h := SaveToHistory(t.history, day, answers.replaceExisting);
        Step(t.(isWorking := false, session := None, history := h), PunchedOut(day, stored))
  }

  /** `togglePunch`: punch out while working, punch in otherwise. */
  function Toggle(t: Tracker, now: Reading, answers: Answers): (r: Step)
    requires ValidReading(now) && Inv(t)
    ensures Inv(r.tracker)
    ensures r.tracker.isWorking != t.isWorking <==> r.event.PunchedIn? || r.event.PunchedOut?
    ensures t.isWorking ==> !r.event.PunchedIn?
    ensures !t.isWorking ==> !r.event.PunchedOut?
  {
    if t.isWorking then
      PunchOutKeepsInv(t, now, answers);
      PunchOut(t, now, answers)
    else PunchIn(t, now)
  }

  /** Every punch-out leaves a tracker whose history is unique by date and within capacity. */
  lemma PunchOutKeepsInv(t: Tracker, now: Reading, answers: Answers)
    requires ValidReading(now) && Inv(t)
    ensures Inv(PunchOut(t, now, answers).tracker)
  {
    var r := PunchOut(t, now, answers);
    if r.event.PunchedOut? {
      SaveToHistoryUnique(t.history, r.event.day, answers.replaceExisting);
      SaveToHistoryBounded(t.history, r.event.day, answers.replaceExisting);
    }
  }

  datatype ConfigOutcome = ConfigSaved | RefusedWhileWorking

  /** `parseFloat(x) || fallback`: an unreadable field (NaN) or zero gives the fallback. */
  function OrDefault(x: Option<real>, fallback: real): (v: real)
    ensures x.Some? && x.value != 0.0 ==> v == x.value
    ensures x.None? || x.value == 0.0 ==> v == fallback
  {
    if x.None? || x.value == 0.0 then fallback else x.value
  }

  /**
    `saveConfig`: while working the configuration is left as it is, so the
    session's frozen rates stay the ones in force; otherwise the rates
    become the entered ones (with the defaults for unreadable or zero input).
   */
  function SaveConfig(t: Tracker, gross: Option<real>, net: Option<real>): (r: (Tracker, ConfigOutcome))
    ensures r.1 == RefusedWhileWorking <==> t.isWorking
    ensures t.isWorking ==> r.0 == t
    ensures !t.isWorking ==> r.0 == t.(config := r.0.config)
    ensures !t.isWorking && gross.Some? && gross.value != 0.0 ==> r.0.config.hourlyGross == gross.value
    ensures !t.isWorking && net.Some? && net.value != 0.0 ==> r.0.config.hourlyNet == net.value
    ensures !t.isWorking && (gross.None? || gross.value == 0.0) ==> r.0.config.hourlyGross == DefaultConfig.hourlyGross
    ensures !t.isWorking && (net.None? || net.value == 0.0) ==> r.0.config.hourlyNet == DefaultConfig.hourlyNet
  {
    if t.isWorking then (t, RefusedWhileWorking)
    else
      var c := Config(OrDefault(gross, DefaultConfig.hourlyGross), OrDefault(net, DefaultConfig.hourlyNet));
      (t.(config := c), ConfigSaved)
  }

  /** One attempted configuration edit: the two entered rates. */
  datatype ConfigEdit = ConfigEdit(gross: Option<real>, net: Option<real>)

  function ApplyEdits(t: Tracker, edits: seq<ConfigEdit>): (r: Tracker)
    ensures r.isWorking == t.isWorking && r.session == t.session && r.history == t.history
    decreases |edits|
  {
    if |edits| == 0 then t
    else ApplyEdits(SaveConfig(t, edits[0].gross, edits[0].net).0, edits[1..])
  }

  /** While working, no sequence of configuration edits changes anything. */
  lemma {:induction false} EditsWhileWorking(t: Tracker, edits: seq<ConfigEdit>)
    requires t.isWorking
    ensures ApplyEdits(t, edits) == t
    decreases |edits|
  {
    if |edits| > 0 {
      EditsWhileWorking(SaveConfig(t, edits[0].gross, edits[0].net).0, edits[1..]);
    }
  }

  /**
    Rates stay frozen for the whole session: after punching in, any edits to
    the configuration, and a punch-out, the day records the rates that were
    configured at punch-in and its earnings are computed from them.
   */
  lemma FrozenRates(t: Tracker, start: Reading, edits: seq<ConfigEdit>, end: Reading, answers: Answers)
    requires ValidReading(start) && ValidReading(end)
    requires PunchIn(t, start).event.PunchedIn?
    ensures var out := PunchOut(ApplyEdits(PunchIn(t, start).tracker, edits), end, answers);
      out.event.PunchedOut? ==>
        && out.event.day.hourlyGross == t.config.hourlyGross
        && out.event.day.hourlyNet == t.config.hourlyNet
        && out.event.day.netEarning == Earning(end.ms - start.ms, t.config.hourlyNet)
        && out.event.day.grossEarning == Earning(end.ms - start.ms, t.config.hourlyGross)
  {
    var working := PunchIn(t, start).tracker;
    EditsWhileWorking(working, edits);
    var s := working.session.value;
    assert s.start == start && s.rateGross == t.config.hourlyGross && s.rateNet == t.config.hourlyNet;
    var out := PunchOut(working, end, answers);
    if out.event.PunchedOut? {
      assert out.event.day == CloseSession(s, end);
      assert end.ms - s.start.ms == end.ms - start.ms;
    }
  }

  /**
    A session punched in at `start` and out at `end` records the span
    between them, under the punch-in work date even when the punch-out
    falls on another work date, and leaves the tracker idle.
   */
  lemma PunchInThenOut(t: Tracker, start: Reading, end: Reading, answers: Answers)
    requires ValidReading(start) && ValidReading(end)
    requires PunchIn(t, start).event.PunchedIn?
    requires answers.continueOutsideHours && answers.keepDifferentDate
    ensures var out := PunchOut(PunchIn(t, start).tracker, end, answers);
      && out.event.PunchedOut?
      && out.event.day.durationMs == end.ms - start.ms
      && out.event.day.date == DateText(WorkDate(start))
      && out.event.day.startDateTime == start.iso && out.event.day.endDateTime == end.iso
      && !out.tracker.isWorking && out.tracker.session.None?
  {
    var working := PunchIn(t, start).tracker;
    var out := PunchOut(working, end, answers);
    assert out.event.PunchedOut?;
    assert out.event.day == CloseSession(working.session.value, end);
  }

  /** Punching out at the very instant of punching in records nothing worked and nothing earned. */
  lemma PunchOutImmediately(t: Tracker, now: Reading)
    requires ValidReading(now)
    requires PunchIn(t, now).event.PunchedIn?
    ensures var out := PunchOut(PunchIn(t, now).tracker, now, AcceptAll);
      && out.event.PunchedOut?
      && out.event.day.durationMs == 0
      && out.event.day.duration == "0h 00m"
      && out.event.day.netEarning == 0.0 && out.event.day.grossEarning == 0.0
  {
    var working := PunchIn(t, now).tracker;
    var out := PunchOut(working, now, AcceptAll);
    assert out.event.PunchedOut?;
    assert out.event.day == CloseSession(working.session.value, now);
    EmptyDay(working.session.value, now);
  }

  lemma EmptyDay(s: Session, now: Reading)
    requires ValidSession(s) && now.ms == s.start.ms
    ensures CloseSession(s, now).durationMs == 0
    ensures CloseSession(s, now).duration == "0h 00m"
    ensures CloseSession(s, now).netEarning == 0.0 && CloseSession(s, now).grossEarning == 0.0
  {
    FormatDurationZero(now.ms - s.start.ms);
    EarningZero(now.ms - s.start.ms, s.rateNet);
    EarningZero(now.ms - s.start.ms, s.rateGross);
  }

  /** Punch-out without a session changes nothing, whatever the answers. */
  lemma PunchOutWithoutSession(t: Tracker, now: Reading, answers: Answers)
    requires ValidReading(now) && t.session.None?
    ensures PunchOut(t, now, answers).tracker == t
  {
  }

  /** A day punched from 08:30 to 17:00 at 10.00 net per hour: "8h 30m" worth 85.00. */
  lemma WorkedDayExample()
    ensures var start := Reading(1705307400000, CivilDate(2024, 1, 15), 8, 30, "2024-01-15T08:30:00.000Z");
      var end := Reading(1705338000000, CivilDate(2024, 1, 15), 17, 0, "2024-01-15T17:00:00.000Z");
      var out := PunchOut(PunchIn(Initial, start).tracker, end, AcceptAll);
      && out.event.PunchedOut?
      && out.event.day.date == "2024-01-15"
      && out.event.day.startTime == "08:30" && out.event.day.endTime == "17:00"
      && out.event.day.durationMs == 30_600_000
      && out.event.day.duration == "8h 30m"
      && out.event.day.netEarning == 85.0
      && out.event.day.grossEarning == 106.25
      && out.tracker.history == [out.event.day]
  {
    var start := Reading(1705307400000, CivilDate(2024, 1, 15), 8, 30, "2024-01-15T08:30:00.000Z");
    var end := Reading(1705338000000, CivilDate(2024, 1, 15), 17, 0, "2024-01-15T17:00:00.000Z");
    var r := PunchIn(Initial, start);
    assert r.event.PunchedIn?;
    PunchInThenOut(Initial, start, end, AcceptAll);
    var s := r.tracker.session.value;
    assert s == Session(CivilDate(2024, 1, 15), start, 12.50, 10.00);
    var out := PunchOut(r.tracker, end, AcceptAll);
    var day := out.event.day;
    assert day == CloseSession(s, end);
    ExampleDay(s, end);
    assert out.tracker.history == SaveToHistory([], day, true);
  }

  lemma ExampleDay(s: Session, end: Reading)
    requires ValidSession(s)
    requires s.workDate == CivilDate(2024, 1, 15) && s.start.hour == 8 && s.start.minute == 30
    requires end.hour == 17 && end.minute == 0
    requires end.ms - s.start.ms == 30_600_000 && s.rateGross == 12.50 && s.rateNet == 10.00
    ensures var day := CloseSession(s, end);
      && day.date == "2024-01-15"
      && day.startTime == "08:30" && day.endTime == "17:00"
      && day.durationMs == 30_600_000
      && day.duration == "8h 30m"
      && day.netEarning == 85.0 && day.grossEarning == 106.25
  {
    ExampleTexts();
    DurationExample();
  }

  lemma ExampleTexts()
    ensures DateText(CivilDate(2024, 1, 15)) == "2024-01-15"
    ensures TimeText(8, 30) == "08:30" && TimeText(17, 0) == "17:00"
  {
    assert YearText(2024) == "2024";
    assert Digits2(1) == "01" && Digits2(15) == "15";
  }

  lemma DurationExample()
    ensures WebFormatDuration(30_600_000) == "8h 30m"
    ensures Earning(30_600_000, 10.00) == 85.0 && Earning(30_600_000, 12.50) == 106.25
  {
    FormatDurationMeaning(30_600_000);
    assert 30_600_000 / 3_600_000 == 8 && 30_600_000 % 3_600_000 / 60_000 == 30;
    assert NatText(8) == "8";
    assert Digits2(30) == "30";
  }

  /** What the display shows every second (`updateDisplay`). */
  datatype Snapshot = Snapshot(worked: string, gross: real, net: real)

  /**
    `updateDisplay`: idle shows "0h 00m" and nothing earned; while working,
    the elapsed time since punch-in at the frozen rates.
   */
  function LiveSnapshot(t: Tracker, nowMs: int): (s: Snapshot)
    ensures !(t.isWorking && t.session.Some?) ==> s == Snapshot("0h 00m", 0.0, 0.0)
  {
    if !t.isWorking || t.session.None? then Snapshot("0h 00m", 0.0, 0.0)
    else
      var ses := t.session.value;
      var ms := nowMs - ses.start.ms;
      Snapshot(WebFormatDuration(ms), Earning(ms, ses.rateGross), Earning(ms, ses.rateNet))
  }

  /** The display at the instant of punching out shows exactly what the day records. */
  lemma SnapshotMatchesPunchOut(t: Tracker, now: Reading, answers: Answers)
    requires ValidReading(now) && Inv(t) && t.isWorking
    ensures var out := PunchOut(t, now, answers);
      out.event.PunchedOut? ==>
        LiveSnapshot(t, now.ms) == Snapshot(out.event.day.duration, out.event.day.grossEarning, out.event.day.netEarning)
  {
    var out := PunchOut(t, now, answers);
    if out.event.PunchedOut? {
      assert out.event.day == CloseSession(t.session.value, now);
      SnapshotOfClosedDay(t, now);
    }
  }

  lemma SnapshotOfClosedDay(t: Tracker, now: Reading)
    requires Inv(t) && t.isWorking
    ensures var day := CloseSession(t.session.value, now);
      LiveSnapshot(t, now.ms) == Snapshot(day.duration, day.grossEarning, day.netEarning)
  {
  }


  datatype Projection = Blank | Unchanged | Passed | Projected(net: real)

  /**
    `updateProjection`. The target "HH:MM" is placed on the session's work
    date; when today's day of the month differs from the work date's, the
    day of the month is set to today's (rolling over past the month's end).
    `toEpoch` converts a local date and time to milliseconds. A target not
    after the punch-in shows the "time passed" text; otherwise the net
    earnings from punch-in to the target at the frozen net rate.
   */
  function ProjectEndOfDay(t: Tracker, today: CivilDate, target: Option<(Hour, Minute)>,
                           toEpoch: (CivilDate, Hour, Minute) -> int): (p: Projection)
    requires t.session.Some? ==> ValidSession(t.session.value)
    requires ValidDate(today)
    ensures !(t.isWorking && t.session.Some?) <==> p.Blank?
    ensures p.Unchanged? <==> t.isWorking && t.session.Some? && target.None?
    ensures p.Passed? || p.Projected? ==>
      var s := t.session.value;
      var endMs := toEpoch(TargetDate(s.workDate, today), target.value.0, target.value.1);
      && (p.Passed? <==> endMs <= s.start.ms)
      && (p.Projected? ==> p.net == Earning(endMs - s.start.ms, s.rateNet))
  {
    if !t.isWorking || t.session.None? then Blank
    else if target.None? then Unchanged
    else
      var s := t.session.value;
      var endMs := toEpoch(TargetDate(s.workDate, today), target.value.0, target.value.1);
      if endMs <= s.start.ms then Passed
      else Projected(Earning(endMs - s.start.ms, s.rateNet))
  }

  /**
    The date the target time is placed on: the work date with today's day of
    the month, rolling into the following month when the work date's month
    is shorter. Skipping the assignment when the days agree changes nothing.
   */
  function TargetDate(workDate: CivilDate, today: CivilDate): (d: CivilDate)
    requires ValidDate(workDate) && ValidDate(today)
    ensures ValidDate(d)
    ensures today.day == workDate.day ==> d == workDate
    ensures today.day <= DaysInMonth(workDate.year, workDate.month) ==>
      d == CivilDate(workDate.year, workDate.month, today.day)
    ensures today.day > DaysInMonth(workDate.year, workDate.month) ==>
      && d.day == today.day - DaysInMonth(workDate.year, workDate.month)
      && PrevDay(d.(day := 1)) == workDate.(day := DaysInMonth(workDate.year, workDate.month))
    ensures d == SetDayOfMonth(workDate, today.day)
  {
    if today.day != workDate.day then SetDayOfMonth(workDate, today.day) else workDate
  }

  /**
    The projection depends on today only through its day of the month: the
    clock time and the rest of today's date play no part.
   */
  lemma ProjectionIgnoresNow(t: Tracker, a: CivilDate, b: CivilDate, target: Option<(Hour, Minute)>,
                             toEpoch: (CivilDate, Hour, Minute) -> int)
    requires t.session.Some? ==> ValidSession(t.session.value)
    requires ValidDate(a) && ValidDate(b) && a.day == b.day
    ensures ProjectEndOfDay(t, a, target, toEpoch) == ProjectEndOfDay(t, b, target, toEpoch)
  {
  }

  /**
    With a non-negative net rate, a later target never projects less: when
    the earlier target projects earnings, so does the later one, and at
    least as much; when the later target has already passed, so has the
    earlier one.
   */
  lemma ProjectionMonotone(t: Tracker, today: CivilDate, a: (Hour, Minute), b: (Hour, Minute),
                           toEpoch: (CivilDate, Hour, Minute) -> int)
    requires t.isWorking && t.session.Some? && ValidSession(t.session.value) && ValidDate(today)
    requires t.session.value.rateNet >= 0.0
    requires var d := TargetDate(t.session.value.workDate, today);
      toEpoch(d, a.0, a.1) <= toEpoch(d, b.0, b.1)
    ensures var pa, pb := ProjectEndOfDay(t, today, Some(a), toEpoch), ProjectEndOfDay(t, today, Some(b), toEpoch);
      && (pa.Projected? ==> pb.Projected? && pa.net <= pb.net)
      && (pb.Passed? ==> pa.Passed?)
  {
    var s := t.session.value;
    var d := TargetDate(s.workDate, today);
    var e1, e2 := toEpoch(d, a.0, a.1), toEpoch(d, b.0, b.1);
    if s.start.ms < e1 {
      EarningAdditive(e1 - s.start.ms, e2 - e1, s.rateNet, 0);
      assert e2 - s.start.ms == (e1 - s.start.ms) + (e2 - e1);
      assert Earning(e2 - e1, s.rateNet) >= 0.0;
    }
  }
}
