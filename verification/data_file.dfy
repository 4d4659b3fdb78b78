/**
  The desktop data file of main.cpp (`saveData` / `loadData`): one
  `config|gross|net` line, then one `workday|` line per history entry with
  the eleven fields of the record separated by '|', every line ending in
  a newline.

  How a double is written (`<<`) and read back (`>>`) is left to the
  caller as `render` and `parse`; integers are written in decimal and
  read back with `ReadInt`.
 */
module DataFile {
  import opened Text
  import opened Ledger

  /** What the file restores: the rates and the history. */
  datatype Stored = Stored(config: Config, history: seq<WorkDay>)

  /** Each line followed by a newline. */
  function Lines(ls: seq<string>): string
    decreases |ls|
  {
    if |ls| == 0 then "" else ls[0] + "\n" + Lines(ls[1..])
  }

  function ConfigLine(c: Config, render: real -> string): string {
    Join(["config", render(c.hourlyGross), render(c.hourlyNet)], '|')
  }

  /** The twelve '|'-separated fields of a `workday` line, in file order. */
  function DayFields(d: WorkDay, render: real -> string): (fields: seq<string>)
  {
    ["workday", d.date, d.startTime, d.endTime, d.startDateTime, d.endDateTime, d.duration,
     IntText(d.durationMs), render(d.grossEarning), render(d.netEarning), render(d.hourlyGross), render(d.hourlyNet)]
  }

  function DayLine(d: WorkDay, render: real -> string): string {
    Join(DayFields(d, render), '|')
  }

  function DayLines(h: seq<WorkDay>, render: real -> string): (ls: seq<string>)
  {
    seq(|h|, k requires 0 <= k < |h| => DayLine(h[k], render))
  }

  /** `saveData`: the text written to the file. */
  function SaveData(s: Stored, render: real -> string): string {
    Lines([ConfigLine(s.config, render)] + DayLines(s.history, render))
  }

  /**
    The text a numeric read sees in a `config` line. Every field is read
    into the same `token`; once the line is exhausted `getline` fails
    without clearing it, so a missing field re-reads the last one present.
   */
  function ConfigToken(pieces: seq<string>, i: nat): string
    requires |pieces| >= 1
  {
    if i < |pieces| then pieces[i] else pieces[|pieces| - 1]
  }

  /**
    The text a numeric read (fields 7 to 11) sees in a `workday` line.
    Fields 1 to 6 are read into the record itself, so when the line is
    exhausted before field 7 the token still holds the tag.
   */
  function DayToken(pieces: seq<string>, i: nat): string
    requires |pieces| >= 1
  {
    if i < |pieces| then pieces[i]
    else if |pieces| > 7 then pieces[|pieces| - 1]
    else pieces[0]
  }

  /** The record a `workday` line yields; a missing text field stays empty. */
  function ParseDay(pieces: seq<string>, parse: string -> real): WorkDay
    requires |pieces| >= 1
  {
    WorkDay(
      Piece(pieces, 1), Piece(pieces, 2), Piece(pieces, 3),
      Piece(pieces, 4), Piece(pieces, 5), Piece(pieces, 6),
      ReadInt(DayToken(pieces, 7)),
      parse(DayToken(pieces, 8)), parse(DayToken(pieces, 9)),
      parse(DayToken(pieces, 10)), parse(DayToken(pieces, 11)))
  }

  /** One line of `loadData`: a `config` line sets both rates, a `workday` line appends, others are skipped. */
  function LoadLine(s: Stored, line: string, parse: string -> real): Stored {
    var pieces := Split(line, '|');
    if pieces[0] == "config" then
      s.(config := Config(parse(ConfigToken(pieces, 1)), parse(ConfigToken(pieces, 2))))
    else if pieces[0] == "workday" then
      s.(history := s.history + [ParseDay(pieces, parse)])
    else s
  }

  /** Reads the lines in order, each one through `step`. */
  function Fold(s: Stored, lines: seq<string>, step: (Stored, string) -> Stored): Stored
    decreases |lines|
  {
    if |lines| == 0 then s else Fold(step(s, lines[0]), lines[1..], step)
  }

  function LoadLines(s: Stored, lines: seq<string>, parse: string -> real): Stored {
    Fold(s, lines, (t, line) => LoadLine(t, line, parse))
  }

  /**
    `loadData`: when the file opens, the history is cleared and rebuilt
    from its lines, and the rates are kept unless a `config` line sets
    them; when it does not open (`None`), nothing changes.
   */
  function LoadData(s: Stored, file: Option<string>, parse: string -> real): Stored {
    match file
    case None => s
    case Some(text) => LoadLines(s.(history := []), Split(text, '\n'), parse)
  }

  /** Text fields of a record that can be stored: no field separator and no line break. */
  predicate Storable(t: string) {
    '|' !in t && '\n' !in t
  }

  /**
    Everything `SaveData` writes survives being read back: every text field
    and every rendered number is storable, and parsing a rendered number
    gives the number back.
   */
  predicate Faithful(s: Stored, render: real -> string, parse: string -> real) {
    && (forall x :: x in [s.config.hourlyGross, s.config.hourlyNet] ==> Storable(render(x)) && parse(render(x)) == x)
    && forall k :: 0 <= k < |s.history| ==> DayFaithful(s.history[k], render, parse)
  }

  predicate DayFaithful(d: WorkDay, render: real -> string, parse: string -> real) {
    && Storable(d.date) && Storable(d.startTime) && Storable(d.endTime)
    && Storable(d.startDateTime) && Storable(d.endDateTime) && Storable(d.duration)
    && (forall x :: x in [d.grossEarning, d.netEarning, d.hourlyGross, d.hourlyNet] ==> Storable(render(x)) && parse(render(x)) == x)
  }

  /** Splitting newline-terminated lines gives the lines back, and a last empty piece. */
  lemma {:induction false} SplitLines(ls: seq<string>)
    requires forall k :: 0 <= k < |ls| ==> '\n' !in ls[k]
    ensures Split(Lines(ls), '\n') == ls + [""]
    decreases |ls|
  {
    if |ls| > 0 {
      SplitLines(ls[1..]);
      SplitPrefix(ls[0], Lines(ls[1..]), '\n');
    }
  }

  lemma NoSepInJoin(parts: seq<string>, sep: char, c: char)
    requires c != sep
    requires forall k :: 0 <= k < |parts| ==> c !in parts[k]
    ensures c !in Join(parts, sep)
    decreases |parts|
  {
    if |parts| > 1 {
      NoSepInJoin(parts[1..], sep, c);
    }
  }

  /** A faithfully stored record reads back as itself. */
  lemma DayLineRoundTrip(d: WorkDay, render: real -> string, parse: string -> real)
    requires DayFaithful(d, render, parse)
    ensures '\n' !in DayLine(d, render)
    ensures Split(DayLine(d, render), '|') == DayFields(d, render)
    ensures ParseDay(DayFields(d, render), parse) == d
  {
    var fields := DayFields(d, render);
    assert d.grossEarning in [d.grossEarning, d.netEarning, d.hourlyGross, d.hourlyNet];
    assert d.netEarning in [d.grossEarning, d.netEarning, d.hourlyGross, d.hourlyNet];
    assert d.hourlyGross in [d.grossEarning, d.netEarning, d.hourlyGross, d.hourlyNet];
    assert d.hourlyNet in [d.grossEarning, d.netEarning, d.hourlyGross, d.hourlyNet];
    IntTextStorable(d.durationMs);
    NoSepInJoin(fields, '|', '\n');
    SplitJoin(fields, '|');
    ReadIntText(d.durationMs);
  }

  /**
    The six text fields and the millisecond count of a record read back
    from its line whatever the doubles print as, as long as no printed
    double holds the separator; each double reads back as `parse` of its
    printed text.
   */
  lemma DayLineTextFields(d: WorkDay, render: real -> string, parse: string -> real)
    requires Storable(d.date) && Storable(d.startTime) && Storable(d.endTime)
    requires Storable(d.startDateTime) && Storable(d.endDateTime) && Storable(d.duration)
    requires forall x :: x in [d.grossEarning, d.netEarning, d.hourlyGross, d.hourlyNet] ==> '|' !in render(x)
    ensures Split(DayLine(d, render), '|') == DayFields(d, render)
    ensures var r := ParseDay(Split(DayLine(d, render), '|'), parse);
      && r.date == d.date && r.startTime == d.startTime && r.endTime == d.endTime
      && r.startDateTime == d.startDateTime && r.endDateTime == d.endDateTime
      && r.duration == d.duration && r.durationMs == d.durationMs
      && r.grossEarning == parse(render(d.grossEarning)) && r.netEarning == parse(render(d.netEarning))
      && r.hourlyGross == parse(render(d.hourlyGross)) && r.hourlyNet == parse(render(d.hourlyNet))
  {
    var fields := DayFields(d, render);
    assert d.grossEarning in [d.grossEarning, d.netEarning, d.hourlyGross, d.hourlyNet];
    assert d.netEarning in [d.grossEarning, d.netEarning, d.hourlyGross, d.hourlyNet];
    assert d.hourlyGross in [d.grossEarning, d.netEarning, d.hourlyGross, d.hourlyNet];
    assert d.hourlyNet in [d.grossEarning, d.netEarning, d.hourlyGross, d.hourlyNet];
    IntTextStorable(d.durationMs);
    SplitJoin(fields, '|');
    ReadIntText(d.durationMs);
  }

  lemma LoadLinesCons(s: Stored, line: string, rest: seq<string>, parse: string -> real)
    ensures LoadLines(s, [line] + rest, parse) == LoadLines(LoadLine(s, line, parse), rest, parse)
  {
    assert ([line] + rest)[1..] == rest;
  }

  /** Decimal digits and a sign never contain a separator. */
  lemma IntTextStorable(n: int)
    ensures Storable(IntText(n))
  {
    var m := if n < 0 then -n else n;
    assert AllDigits(NatText(m));
    assert IntText(n) == (if n < 0 then "-" else "") + NatText(m);
    forall i | 0 <= i < |NatText(m)| ensures NatText(m)[i] != '|' && NatText(m)[i] != '\n' {
      assert IsDigit(NatText(m)[i]);
    }
  }

  lemma ConfigLineNoBreak(c: Config, render: real -> string, parse: string -> real)
    requires forall x :: x in [c.hourlyGross, c.hourlyNet] ==> Storable(render(x)) && parse(render(x)) == x
    ensures '\n' !in ConfigLine(c, render)
  {
    assert c.hourlyGross in [c.hourlyGross, c.hourlyNet];
    assert c.hourlyNet in [c.hourlyGross, c.hourlyNet];
    NoSepInJoin(["config", render(c.hourlyGross), render(c.hourlyNet)], '|', '\n');
  }

  lemma ConfigLineRoundTrip(c: Config, s: Stored, render: real -> string, parse: string -> real)
    requires forall x :: x in [c.hourlyGross, c.hourlyNet] ==> Storable(render(x)) && parse(render(x)) == x
    ensures '\n' !in ConfigLine(c, render)
    ensures LoadLine(s, ConfigLine(c, render), parse) == s.(config := c)
  {
    assert c.hourlyGross in [c.hourlyGross, c.hourlyNet];
    assert c.hourlyNet in [c.hourlyGross, c.hourlyNet];
    var fields := ["config", render(c.hourlyGross), render(c.hourlyNet)];
    NoSepInJoin(fields, '|', '\n');
    SplitJoin(fields, '|');
  }

  /** `line` is a `workday` line that reads as `d`. */
  predicate IsDayLineOf(line: string, d: WorkDay, parse: string -> real) {
    var pieces := Split(line, '|');
    pieces[0] == "workday" && ParseDay(pieces, parse) == d
  }

  /** A faithfully stored record's line reads as that record. */
  lemma DayLineReads(d: WorkDay, render: real -> string, parse: string -> real)
    requires DayFaithful(d, render, parse)
    ensures '\n' !in DayLine(d, render)
    ensures IsDayLineOf(DayLine(d, render), d, parse)
  {
    DayLineRoundTrip(d, render, parse);
  }

  /**
    The rates change only through a `config` line: lines with any other tag
    leave them as they were, and only `workday` lines add to the history.
   */
  lemma {:induction false} LoadKeepsConfig(s: Stored, lines: seq<string>, parse: string -> real)
    requires forall i :: 0 <= i < |lines| ==> Split(lines[i], '|')[0] != "config"
    ensures LoadLines(s, lines, parse).config == s.config
    decreases |lines|
  {
    if |lines| > 0 {
      LoadLinesCons(s, lines[0], lines[1..], parse);
      assert [lines[0]] + lines[1..] == lines;
      LoadKeepsConfig(LoadLine(s, lines[0], parse), lines[1..], parse);
    }
  }

  /** A `workday` line appends its record, whatever was read before. */
  lemma LoadDayLine(t: Stored, line: string, d: WorkDay, parse: string -> real)
    requires IsDayLineOf(line, d, parse)
    ensures LoadLine(t, line, parse) == t.(history := t.history + [d])
  {
  }

  /** Lines that each append one record append them all, in order. */
  lemma {:induction false} FoldAppends(s: Stored, ls: seq<string>, h: seq<WorkDay>, step: (Stored, string) -> Stored)
    requires |ls| == |h|
    requires forall k, t :: 0 <= k < |ls| ==> step(t, ls[k]) == t.(history := t.history + [h[k]])
    ensures Fold(s, ls, step) == s.(history := s.history + h)
    decreases |ls|
  {
    if |ls| > 0 {
      var s' := s.(history := s.history + [h[0]]);
      assert step(s, ls[0]) == s';
      forall k, t | 0 <= k < |ls| - 1
        ensures step(t, ls[1..][k]) == t.(history := t.history + [h[1..][k]])
      {
        assert ls[1..][k] == ls[k + 1] && h[1..][k] == h[k + 1];
      }
      FoldAppends(s', ls[1..], h[1..], step);
      AppendFirst(s.history, h);
    }
  }

  lemma AppendFirst(a: seq<WorkDay>, h: seq<WorkDay>)
    requires |h| > 0
    ensures a + [h[0]] + h[1..] == a + h
  {
    assert [h[0]] + h[1..] == h;
  }

  /** The empty piece after the last newline changes nothing. */
  lemma LoadEmptyLine(t: Stored, parse: string -> real)
    ensures LoadLine(t, "", parse) == t
  {
    assert Split("", '|') == [""];
  }

  lemma {:induction false} FoldSnoc(s: Stored, ls: seq<string>, last: string, step: (Stored, string) -> Stored)
    ensures Fold(s, ls + [last], step) == step(Fold(s, ls, step), last)
    decreases |ls|
  {
    if |ls| == 0 {
      assert ls + [last] == [last];
    } else {
      assert (ls + [last])[1..] == ls[1..] + [last];
      FoldSnoc(step(s, ls[0]), ls[1..], last, step);
    }
  }

  /**
    Loading what `saveData` wrote restores the rates and the history
    exactly, whatever was loaded before.
   */
  lemma SaveLoadRoundTrip(s: Stored, before: Stored, render: real -> string, parse: string -> real)
    requires Faithful(s, render, parse)
    ensures LoadData(before, Some(SaveData(s, render)), parse) == s
  {
    var dayLines := DayLines(s.history, render);
    var cleared := before.(history := []);
    var configured := cleared.(config := s.config);
    SaveDataLines(s, render, parse);
    ConfigLineRoundTrip(s.config, cleared, render, parse);
    LoadLinesCons(cleared, ConfigLine(s.config, render), dayLines + [""], parse);
    assert [ConfigLine(s.config, render)] + dayLines + [""] == [ConfigLine(s.config, render)] + (dayLines + [""]);
    LoadDayLines(configured, s.history, render, parse);
  }

  /** The file splits back into the config line, the day lines and the empty piece after the last newline. */
  lemma SaveDataLines(s: Stored, render: real -> string, parse: string -> real)
    requires Faithful(s, render, parse)
    ensures Split(SaveData(s, render), '\n') == [ConfigLine(s.config, render)] + DayLines(s.history, render) + [""]
  {
    var lines := [ConfigLine(s.config, render)] + DayLines(s.history, render);
    ConfigLineNoBreak(s.config, render, parse);
    forall k | 0 <= k < |lines| ensures '\n' !in lines[k] {
      if k > 0 {
        assert lines[k] == DayLine(s.history[k - 1], render);
        DayLineRoundTrip(s.history[k - 1], render, parse);
      }
    }
    SplitLines(lines);
  }

  /** Reading the day lines and the final empty piece appends the days, in order. */
  lemma LoadDayLines(t: Stored, h: seq<WorkDay>, render: real -> string, parse: string -> real)
    requires forall k :: 0 <= k < |h| ==> DayFaithful(h[k], render, parse)
    ensures LoadLines(t, DayLines(h, render) + [""], parse) == t.(history := t.history + h)
  {
    var dayLines := DayLines(h, render);
    var step := (u, line) => LoadLine(u, line, parse);
    FoldSnoc(t, dayLines, "", step);
    forall k, u | 0 <= k < |dayLines|
      ensures step(u, dayLines[k]) == u.(history := u.history + [h[k]])
    {
      DayLineReads(h[k], render, parse);
      LoadDayLine(u, dayLines[k], h[k], parse);
    }
    FoldAppends(t, dayLines, h, step);
    LoadEmptyLine(t.(history := t.history + h), parse);
  }

  /** A file that cannot be opened changes nothing; an empty one clears the history and keeps the rates. */
  lemma LoadMissingOrEmpty(s: Stored, parse: string -> real)
    ensures LoadData(s, None, parse) == s
    ensures LoadData(s, Some(""), parse) == s.(history := [])
  {
    assert Split("", '\n') == [""];
    LoadEmptyLine(s.(history := []), parse);
    assert [""][1..] == [];
  }

  /**
    A `workday` line cut short after the duration in milliseconds: the four
    money fields all re-read the milliseconds text, and a line cut before
    it reads every number from the tag "workday".
   */
  lemma TruncatedDayLine(pieces: seq<string>, parse: string -> real)
    requires |pieces| >= 1 && pieces[0] == "workday"
    ensures |pieces| == 8 ==> var d := ParseDay(pieces, parse);
      d.grossEarning == d.netEarning == d.hourlyGross == d.hourlyNet == parse(pieces[7])
    ensures |pieces| <= 7 ==> var d := ParseDay(pieces, parse);
      d.durationMs == ReadInt("workday") == 0 && d.grossEarning == parse("workday")
  {
    if |pieces| <= 7 {
      assert "workday"[0] == 'w';
      assert DigitRun("workday") == 0;
    }
  }

  /** Loading appends exactly one record per `workday` line and nothing else. */
  lemma {:induction false} LoadCountsDayLines(s: Stored, lines: seq<string>, parse: string -> real)
    ensures |LoadLines(s, lines, parse).history| == |s.history| + CountDayLines(lines)
    ensures LoadLines(s, lines, parse).history[..|s.history|] == s.history
    decreases |lines|
  {
    if |lines| > 0 {
      var s' := LoadLine(s, lines[0], parse);
      assert LoadLines(s, lines, parse) == LoadLines(s', lines[1..], parse);
      LoadCountsDayLines(s', lines[1..], parse);
      assert s'.history[..|s.history|] == s.history;
    }
  }

  /** How many lines carry the `workday` tag. */
  function CountDayLines(lines: seq<string>): nat
    decreases |lines|
  {
    if |lines| == 0 then 0
    else (if Split(lines[0], '|')[0] == "workday" then 1 else 0) + CountDayLines(lines[1..])
  }
}
