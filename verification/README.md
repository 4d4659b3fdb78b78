# TimeTracker Pro: the work-session core, modelled in Dafny

TimeTracker Pro is a punch clock with an earnings counter, built twice:
a browser version (`script.js`) and a Win32 desktop version (`main.cpp`).
The user punches in and out. Each finished session becomes a *work day*
with its date, start and end time, duration and gross and net earnings.
The earnings use the hourly rates frozen at punch-in. The days go into a
history, and a month calendar marks each day as full (seven hours or
more), partial, today, or a day of another month.

This project models the logic of both versions as pure Dafny functions
over immutable records and proves what that logic guarantees.

| module | file | what it models |
|---|---|---|
| `Text` | text.dfy | decimal texts, zero padding, `"HH:MM"` string order, splitting on a separator, reading an integer as `>>` does |
| `Calendar` | calendar.dfy | the Gregorian calendar: month lengths, the day before and after a date, `"YYYY-MM-DD"` texts and their parsing, Monday-first columns |
| `Clock` | clock.dfy | a clock reading, the work date (before 07:30 a reading belongs to the previous day), the 07:30-18:00 punch window, both `formatDuration`s, and earnings |
| `Ledger` | ledger.dfy | the `WorkDay` record, the bounded date-keyed history of `saveToHistory`, the month filter and the month totals |
| `WebTracker` | web_tracker.dfy | the browser's punch in/out state machine, configuration edits, the live display and the end-of-day projection |
| `WebCalendar` | web_calendar.dfy | the browser's 42-cell month grid |
| `DesktopTracker` | desktop_tracker.dfy | the desktop's `AppState` punch in/out and live duration |
| `DesktopCalendar` | desktop_calendar.dfy | the desktop's 6 x 7 month grid, walked row by row |
| `DataFile` | data_file.dfy | the desktop's `data.txt` format, written by `saveData` and read by `loadData` |
| `CalendarAgreement` | calendar_agreement.dfy | the two calendars compared on past days |

## Inputs the code takes from its environment

Clocks, dialogs and number formatting are inputs to the model:

- **Clock readings.** A `Clock.Reading` carries an instant in milliseconds, the local calendar date, hour and minute, and the ISO-8601 text of the instant. Local time is taken to be UTC. That makes `toISOString().split('T')[0]` the local date, and `new Date("YYYY-MM-DD")` the local midnight.
- **Dialog answers.** The answers to `confirm()` are `WebTracker.Answers`, plus a `confirmReplace` flag for `saveToHistory`.
- **Weekday of the 1st.** `Date.getDay` / `mktime` give the weekday of the first of the month, passed in as a parameter.
- **Projection epoch.** `updateProjection` turns a local date and time into an epoch; that conversion is the parameter `toEpoch`.
- **Doubles in the data file.** How `<<` writes a double and `>>` reads it back are the parameters `render` and `parse`. Integers are written in decimal and read back digit by digit.

## Model

| member | source | states |
|---|---|---|
| Calendar.DaysInMonthLeapRule | main.cpp:608-614 | `DaysInMonth`, the month length both grids use: February has 29 days exactly in leap years (divisible by 4, and not by 100 unless by 400), every other month's length does not depend on the year, a month has 31 days exactly when it is 1, 3, 5, 7, 8, 10 or 12, April, June, September and November have 30, and February has 28 outside leap years |
| Calendar.LastDayOfMonth | script.js:511-512 | the day before the first of the next month is the last day of the month, so `new Date(year, month + 1, 0).getDate()` is the month length, December included |
| Calendar.PrevNextInverse | script.js:30-33 | stepping one day back, as `setDate(getDate() - 1)` does, and one day forward undo each other, across month and year ends |
| Calendar.SetDayOfMonth | script.js:310-312 | `setDate(n)` keeps the month when day `n` exists in it; otherwise it rolls forward into the next month by the excess |
| Calendar.ParseDateText | script.js:448-453 | reading back the `"YYYY-MM-DD"` text of a date gives the date, so the month filter sees each stored day's true year and month |
| Calendar.DateTextOfParse | script.js:451-452 | every text the date reader accepts is the canonical `"YYYY-MM-DD"` text of the date it yields |
| Calendar.DateTextInjective | script.js:33-35 | two dates have the same key text exactly when they are the same date, so a date key names one day |
| Calendar.MondayFirstColumn | script.js:514-515 | the Monday-first column of the 1st is 0..6, and adding one to it gives back the Sunday-based weekday, modulo 7 |
| Clock.WorkDate | script.js:23-37 | a reading before 07:30 belongs to the previous calendar day (the work date's next day is the reading's date); from 07:30 on it belongs to its own date |
| Clock.WorkDateNotLater | script.js:30-36 | the work date is never after the reading's date, and it equals that date exactly when the time is 07:30 or later |
| Clock.ValidatePunchTime | script.js:39-53 | a punch is accepted exactly when its minute of the day lies in 07:30..18:00, both ends included; a refused punch shows its own `"HH:MM"` |
| Clock.TimeTextOrder | script.js:43-45 | comparing two zero-padded `"HH:MM"` texts as strings orders them as their minutes of the day |
| Clock.WindowLimitsText | script.js:45 | the two limit strings the window compares against are the `"HH:MM"` texts of 07:30 and 18:00 |
| Clock.TruncDiv | main.cpp:95-96 | C++ `/` and `%`: quotient times divisor plus remainder is the dividend, and the remainder is smaller than the divisor and takes the dividend's sign |
| Clock.FormatDurationMeaning | script.js:88-92 | `WebFormatDuration` and `DesktopFormatDuration` on a non-negative duration: both print the whole hours and the zero-padded whole minutes 0..59, which together account for the duration to within one minute, so the two programs agree |
| Clock.WebFormatDurationNegative | script.js:88-92 | `WebFormatDuration` on a negative duration: `Math.floor` rounds both parts away from zero, so the hours are minus the started hours of the magnitude and the minutes minus the started minutes of the rest |
| Clock.DesktopFormatDurationSymmetric | main.cpp:94-100 | `DesktopFormatDuration` on a negative duration: C++ division truncates, so it prints the magnitude's whole hours and minutes, each negated |
| Clock.FormatDurationZero | main.cpp:94-100 | less than one minute prints "0h 00m" in both versions |
| Clock.FormatDurationNegativeDiverges | main.cpp:94-100 | for negative durations the two versions differ: one millisecond before the start prints "-1h -1m" in the browser and "0h 00m" on the desktop |
| Clock.EarningAdditive | script.js:203-207 | earnings are linear in the duration: the earnings of two spans add up, and whole hours earn hours times the rate |
| Ledger.FindDate | script.js:432 | finds the first entry with the date. None exactly when no entry has it. |
| Ledger.SaveToHistory | script.js:429-446 | A new date goes in front. The history is then cut to 250 entries. A known date is replaced in place when the user confirms. When the user declines, the history stays as it was. |
| Ledger.SaveToHistoryBounded | script.js:444 | a history of at most 250 days still has at most 250 after a save |
| Ledger.SaveToHistoryUnique | script.js:432-442 | a history with one entry per date keeps one entry per date after a save |
| Ledger.SaveToHistoryStores | script.js:432-442 | If the user did not decline, the saved day is afterwards the only entry with its date. It sits in front for a new date and at the old position for a replaced one. |
| Ledger.SaveToHistoryKeepsOthers | script.js:429-446 | an entry for another date survives a save; only the oldest entry can fall off the end |
| Ledger.MonthHistory | script.js:448-454 | `getHistoryForMonth`: every entry of the result is a history entry in the month, and every history entry in the month is in the result |
| Ledger.MonthHistorySingle | script.js:450-453 | one entry passes the filter exactly when it lies in the month; with `MonthHistoryAppend` this fixes the filter on every history, in order and with repeats, as `filter` keeps them |
| Ledger.MonthHistoryAppend | script.js:448-454 | filtering a history made of two stretches gives the filtered first stretch followed by the filtered second one |
| Ledger.InMonthOfDate | script.js:450-453 | `InMonth`: an entry filed under the key of a date lies in that date's year and month, and in no other |
| Ledger.InMonthOnlyKeys | script.js:450-453 | `InMonth`: only an entry whose date is a canonical `"YYYY-MM-DD"` key lies in any month, and then in the month that key names |
| Ledger.FindDateInMonth | script.js:450-453 | looking a date up among its month's entries finds the same first entry as looking it up in the whole history, or fails exactly when that does |
| Ledger.Totals | script.js:473-476 | the day count is the number of the month's entries, and the total time is non-negative when every duration is |
| Ledger.TotalsAdditive | script.js:473-477 | the month totals over two stretches of history are the sums of their totals, so each entry of the month counts once |
| Ledger.TotalsSingle | script.js:475-477 | The totals of a one-entry history are one day, that entry's milliseconds and its net earnings when the entry lies in the month, and zero days, 0 ms and 0.0 otherwise. |
| WebTracker.PunchIn | script.js:127-148 | Outside the window the punch is refused and nothing changes. Inside it, a session starts at the reading on its work date, with the rates configured at that moment. |
| WebTracker.PunchInOnCalendarDate | script.js:130-141 | because the window opens at the same 07:30 where the work date turns over, an accepted punch-in always carries its own calendar date as work date |
| WebTracker.CloseSession | script.js:199-221 | the finished day is filed under the punch-in work date and spans the two readings. Its earnings come from the frozen rates. Its times are the `"HH:MM"` texts and its duration the formatted span. |
| WebTracker.PunchOut | script.js:173-227 | Without a session nothing happens. Declining the out-of-hours or different-date question cancels and changes nothing. Otherwise the session ends and the day is saved through `saveToHistory`; it is stored unless the user declines to replace an existing day. |
| WebTracker.Toggle | script.js:119-125 | toggling keeps the tracker invariant (working iff a session, unique dates, at most 250 days). The working flag flips exactly when a punch happened. |
| WebTracker.PunchOutKeepsInv | script.js:223-227 | every punch-out leaves an idle tracker whose history has unique dates and at most 250 days |
| WebTracker.OrDefault | script.js:337-338 | reading a rate with a fallback gives the entered number unless it is unreadable (NaN) or zero, in which case it gives the default |
| WebTracker.SaveConfig | script.js:330-338 | While working, nothing changes and the edit is refused. Otherwise only the rates change: each becomes the entered value, or the default 12.50 / 10.00 for unreadable or zero input. |
| WebTracker.EditsWhileWorking | script.js:331-335 | no sequence of configuration edits changes a working tracker |
| WebTracker.FrozenRates | script.js:140-221 | whatever configuration edits happen during a session, the day records the rates in force at punch-in and its earnings are computed from them |
| WebTracker.PunchInThenOut | script.js:199-216 | a session punched in and out records the span between the two readings under the punch-in work date, even when punch-out falls on another work date |
| WebTracker.PunchOutImmediately | script.js:203-218 | punching out at the punch-in instant records 0 ms, "0h 00m" and nothing earned |
| WebTracker.PunchOutWithoutSession | script.js:174 | punch-out without a session changes nothing, whatever the answers |
| WebTracker.WorkedDayExample | script.js:199-221 | a day from 08:30 to 17:00 at the default rates is "8h 30m", worth 106.25 gross and 85.00 net, filed under its date |
| WebTracker.LiveSnapshot | script.js:266-272 | when idle, the display shows "0h 00m" and nothing earned |
| WebTracker.SnapshotMatchesPunchOut | script.js:274-284 | the live display at the punch-out instant shows exactly the duration and earnings the day records |
| WebTracker.ProjectEndOfDay | script.js:289-324 | The projection is blank when idle and unchanged without a target time. Otherwise it says "time passed" exactly when the target is not after the punch-in. If the target is later, it shows the net earnings from punch-in to the target at the frozen rate. |
| WebTracker.TargetDate | script.js:305-312 | the target date is the work date with today's day of the month. When today's day exceeds the work month's length, it rolls into the next month by the excess, as `setDate` does. When the days already agree it is the work date itself, so the `!==` guard changes nothing |
| WebTracker.ProjectionIgnoresNow | script.js:303-312 | the projection depends on today only through its day of the month |
| WebTracker.ProjectionMonotone | script.js:314-323 | with a non-negative net rate, a target whose instant is no earlier projects at least as much: if the earlier target projects earnings, so does the later one and no less, and if the later target has passed, so has the earlier |
| WebCalendar.DayZeroIsLastOfPrevious | script.js:523 | `new Date(year, i, 0)` is the last day of the month with index `i - 1`, with the index normalised into the year |
| WebCalendar.SevenHoursThreshold | script.js:545-546 | "hours worked >= 7" holds exactly from 25 200 000 ms on |
| WebCalendar.ClassOfMeaning | script.js:531-548 | `ClassOf`, the class of a day of the month: today, future or past. A past day shows the first of the month's entries with its ISO date, if there is one: no earlier entry of the month has that date, as `find` returns. It is full from seven hours on and partial below. A past day without an entry shows plain. |
| WebCalendar.AssembleShape | script.js:554-561 | leading cells (under a week) and a month (28..31 days) always make exactly 42 cells, so the trailing days run from 1 and the cap of 14 never applies |
| WebCalendar.GridShape | script.js:498-561 | the grid has 42 cells: one other-month cell per column before the 1st, then day 1 to the month's end (never other-month), then the next month's days from 1 |
| WebCalendar.MonthCellAt | script.js:531-552 | the cell for the `k`-th day shows day `k + 1` with that date's class and entry |
| WebCalendar.LeadingPrecedesFirst | script.js:522-528 | with the previous month as filler, the leading cells are real days of that month, consecutive, ending on the day before the 1st |
| WebCalendar.FillerAsWrittenAgrees | script.js:523-527 | `GenerateCalendarAsWritten` gives the same grid as the corrected `GenerateCalendar` exactly when there are no leading cells or the month two back has as many days as the previous one |
| WebCalendar.MarchFillerExample | script.js:523-525 | for March 2024, which starts on a Friday, the code as written shows 28..31 before the 1st; the intended filler shows 26..29 February |
| WebCalendar.MonthFilterKeepsDay | script.js:448-454 | filtering the history to the viewed month hides no entry of a day in that month |
| DesktopTracker.PunchIn | main.cpp:102-108 | punch-in at any hour starts working with the configured rates; the rates and history stay unchanged |
| DesktopTracker.CloseSession | main.cpp:113-130 | the day is filed under the calendar date of the punch-in instant, spans the two readings and is paid at the rates copied at punch-in |
| DesktopTracker.PunchOut | main.cpp:110-132 | punch-out puts the day in front of the whole old history, without looking for a day with the same date, and stops working |
| DesktopTracker.Toggle | main.cpp:54-60 | toggling flips the working flag and keeps the invariant; the history grows by one exactly on punch-out |
| DesktopTracker.WorkedDurationString | main.cpp:138-146 | the live duration shows "0h 00m" while idle |
| DesktopTracker.PunchInThenOut | main.cpp:110-132 | a session in and out adds one day in front of the old history, with the span, the punch-in date and the punch-in rates |
| DesktopTracker.SameDayTwice | main.cpp:132 | two sessions on one day leave two entries with that date, the later first, so the desktop history need not have unique dates |
| DesktopTracker.WorkedDurationAtPunchOut | main.cpp:138-146 | the live duration at the punch-out instant is the duration the day records |
| DesktopTracker.PunchOutImmediately | main.cpp:113-130 | punching out at the punch-in instant records "0h 00m" and nothing earned |
| DesktopCalendar.DateKeyIsDateText | main.cpp:639-641 | for four-digit years, the key the grid builds with `<<`, `setw(2)` and `setfill('0')` is the `"YYYY-MM-DD"` text punch-out files days under |
| DesktopCalendar.ClassifyMeaning | main.cpp:633-653 | A cell carries an entry exactly when the history holds its key, and then it is the first such entry: no earlier entry has the key, as the `break` leaves it. Full means seven hours or more, partial means less. Today only applies to a day without an entry. |
| DesktopCalendar.GenerateCalendar | main.cpp:618-658 | the row/column walk emits one cell per day of the month, in order: the day number, its type and entry, at row `pos / 7` and column `pos % 7`, where `pos` is the day's offset after the 1st's Monday-first column |
| DesktopCalendar.GridLayout | main.cpp:618-626 | every day's cell lies inside the six rows and seven columns, consecutive in reading order, and the 1st sits in row 0 at its weekday's column |
| DesktopCalendar.EntryBeatsToday | main.cpp:633-652 | a day that has an entry shows that entry even when it is today; the first matching entry wins |
| CalendarAgreement.PastDayAgrees | main.cpp:633-653 | for a past day of a four-digit year and any history, duplicate dates included, the browser and desktop calendars find the same first entry (or none) and give the same full/partial/normal type |
| DataFile.SaveLoadRoundTrip | main.cpp:166-220 | `LoadData` of the text `SaveData` writes gives back the rates and the whole history, in order, provided no text field holds the field separator or a line break and every double reads back as written |
| DataFile.DayLineRoundTrip | main.cpp:177-216 | one `workday` line splits into its twelve fields and `ParseDay` reads it back as the same day, when every double reads back as written |
| DataFile.DayLineTextFields | main.cpp:177-216 | whatever the doubles print as, as long as the printed text holds no separator, `ParseDay` recovers the date, both times, both ISO instants, the duration text and the millisecond count exactly, and reads each double as the parse of its printed text |
| DataFile.ConfigLineRoundTrip | main.cpp:174-202 | provided both rates read back as written, `LoadLine` of a `config` line sets both rates to the written ones and changes nothing else |
| DataFile.LoadKeepsConfig | main.cpp:195-218 | `LoadLine` changes the rates only on a `config` line: reading lines of any other tag keeps the rates as they were |
| DataFile.LoadMissingOrEmpty | main.cpp:187-193 | a file that does not open changes nothing; an empty file clears the history and keeps the rates |
| DataFile.TruncatedDayLine | main.cpp:203-216 | `ParseDay` on a short `workday` line re-reads the last token for its missing numbers. With eight fields, all four doubles read the duration-ms text. With seven or fewer, they read the tag `workday`, and the duration is 0. |
| DataFile.LoadCountsDayLines | main.cpp:195-217 | loading appends one day per `workday` line and keeps what was loaded before |
| Text.ReadIntText | main.cpp:179-211 | reading back the decimal text `<<` writes for an integer, negative ones included, gives the integer |
| Text.SplitJoin | main.cpp:196-215 | splitting a line joined with the field separator gives back the fields, as long as none of them contains the separator |
| Text.TwoDigitsSmall | main.cpp:640 | `setw(2)` with fill `'0'` writes a number below 100 as exactly its two digits |

## Left out

- DOM, alerts, the coin animation, intervals and timers, `localStorage` and its JSON, the CSV export, day detail pop-ups (`createDayElement`, `showDayDetails`), the Win32 window, painting and the cell rectangles (`day_size`, `rect`): none of these changes the data.
- Clocks and time zones: local time is taken to be UTC. Readings are inputs, and how their date, hour, minute and ISO text agree with the instant is not modelled.
- Weekday computation (`getDay`, `mktime`): the weekday of the 1st is an input.
- Floating point: durations in hours, earnings and rates are exact reals. Rounding of doubles, `toFixed(2)` and the euro texts are not modelled.
- Clock.Earning: states only that earnings are non-negative for non-negative inputs. The exact-real formula stands in for the double product, so the rounding in both versions is left out.
- WebTracker.CloseSession: the browser stores both earnings as `toFixed(2)` strings. The model keeps the exact real, so the rounding to cents is left out.
- Ledger.Totals: the `|| 0` fallbacks and `parseFloat` of the stored earnings text are not modelled. Entries hold numbers, so those fallbacks never apply.
- Ledger.MonthHistory: dates other than `"YYYY-MM-DD"` count as unreadable. `new Date` accepts other formats, but the code never stores any.
- DataFile.SaveLoadRoundTrip: the round trip assumes that every double reads back as written. `<<` prints six significant digits by default, so earnings such as 85.0083333 come back rounded. The text fields must also hold no `|` or line break.
- DataFile.DayLineRoundTrip: reads back the doubles only if each one reads back as written. `DataFile.DayLineTextFields` recovers the text fields and the millisecond count without that assumption.
- DataFile.LoadData: `>>` on an integer that overflows `long long` is not modelled (`ReadInt` is unbounded).
- Integer widths: `long long` milliseconds and `int` years never overflow in the model.
- WebCalendar: views are limited to years 100..9999 (`WebCalendar.ViewYear`). `new Date(y, m, d)` treats years 0..99 as 1900 + y, and `toISOString` changes format outside 0..9999.
- The desktop's stale `currentSession`: punching out leaves the last session in place, and the model keeps it too. Calling `punchOut` without any session is out of scope, since only `togglePunch` calls it, and only while working.
- DesktopTracker.CloseSession: `put_time` with `%Y` is modelled as a four-digit year. Years below 1000 are not modelled separately.
- `DayType::OtherMonth` of the desktop is never assigned by `generateCalendar`, so its cells are not modelled.
- Configuration fields other than the two rates (weekly and daily hours, start and end time, limits) do not affect the logic and are left out. So are `loadConfig` and the saved session (`saveCurrentSession`).
- The pause/resume feature is not in either program's code, so it is not modelled.
- Clock.Reading: one ISO text stands for both programs' instants. The browser's `toISOString` writes milliseconds (`2024-01-15T08:30:00.000Z`) and the desktop's `formatISO` does not (`2024-01-15T08:30:00Z`), so the two `startDateTime` and `endDateTime` formats differ in a way the model does not show.
- The month totals are shown through `formatDuration` and `toFixed`. The model stops at the numbers.

## Findings

| source | as written | input that shows it | evidently intended | confidence | as-written member | corrected member |
|---|---|---|---|---|---|---|
| script.js:523 | `new Date(year, month - 1, 0)` is the last day of the month two before the viewed one, so the leading cells count down from the wrong month length | March 2024 (month index 2), whose 1st is a Friday: the leading cells show 28, 29, 30, 31 (January's last days) instead of 26..29 February | `new Date(year, month, 0)`: the last day of the previous month | not executed | WebCalendar.MarchFillerExample | WebCalendar.LeadingPrecedesFirst |

`WebCalendar.GenerateCalendarAsWritten` builds the grid as the code does and
`WebCalendar.GenerateCalendar` builds it with the previous month as filler.
`WebCalendar.FillerAsWrittenAgrees` proves the two grids are equal exactly when
there are no leading cells or the two months have equally many days.
