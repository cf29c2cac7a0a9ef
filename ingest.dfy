/**
  The ingestion loop: every incoming serial line is classified; an accepted LOG
  line becomes one row `[date, time, user, card]` appended to the log file and a
  confirmation on the console, an ALARM line becomes a console warning, and every
  other line (including one that failed to decode) changes nothing.

  The unbounded `while True` loop is modelled over a finite sequence of incoming
  lines, each paired with the clock reading taken if that line is recorded. The
  loop's effect is specified on the sequence of events the lines classify to.
 */
module Ingest {
  import opened Wrappers
  import opened Text
  import opened Timestamp
  import opened Router
  import opened LogStore

  /** The record stored for a LOG event read at `now`. */
  function Record(user: string, card: string, now: Instant): (r: Row)
    ensures |r| == 4 && r[2] == user && r[3] == card
    ensures |r[0]| == 10 && r[0][2] == '.' && r[0][5] == '.'
    ensures |r[1]| == 8 && r[1][2] == ':' && r[1][5] == ':'
  {
    [FormatDate(now), FormatTime(now), user, card]
  }

  /** The events the incoming lines classify to, one per line. */
  function Events(lines: seq<Option<string>>): seq<Event> {
    seq(|lines|, k requires 0 <= k < |lines| => Classify(lines[k]))
  }

  /** The rows one event adds to the file: one for a LOG event, none otherwise. */
  function RowsFor(e: Event, now: Instant): seq<Row> {
    match e
    case LogEvent(user, card) => [Record(user, card, now)]
    case _ => []
  }

  /** What one event prints on the console. */
  function NoticesFor(e: Event, now: Instant): seq<Notice> {
    match e
    case LogEvent(user, _) => [Recorded(FormatDate(now), FormatTime(now), user)]
    case Alarm(line) => [Warning(line)]
    case Ignore => []
  }

  /** The file after one event: one loop iteration. */
  function Step(f: FileState, e: Event, now: Instant): FileState {
    match e
    case LogEvent(user, card) => Appended(f, Record(user, card, now))
    case _ => f
  }

  /** The file after the loop has handled `events` in order, the i-th with clock reading `clocks[i]`. */
  function Replay(f: FileState, events: seq<Event>, clocks: seq<Instant>): FileState
    requires |events| == |clocks|
    decreases |events|
  {
    if events == [] then f
    else
      var n := |events| - 1;
      Step(Replay(f, events[..n], clocks[..n]), events[n], clocks[n])
  }

  /** The console output of the loop over `events`, in order. */
  function Console(events: seq<Event>, clocks: seq<Instant>): seq<Notice>
    requires |events| == |clocks|
    decreases |events|
  {
    if events == [] then []
    else
      var n := |events| - 1;
      Console(events[..n], clocks[..n]) + NoticesFor(events[n], clocks[n])
  }

  /** How many of `events` are LOG events. */
  function Accepted(events: seq<Event>): nat
    decreases |events|
  {
    if events == [] then 0
    else (if events[0].LogEvent? then 1 else 0) + Accepted(events[1..])
  }

  /** The rows `events` contribute, read front to back: a reference definition independent of the loop. */
  function NewRows(events: seq<Event>, clocks: seq<Instant>): seq<Row>
    requires |events| == |clocks|
    decreases |events|
  {
    if events == [] then []
    else RowsFor(events[0], clocks[0]) + NewRows(events[1..], clocks[1..])
  }

  /** The script's main loop over the incoming lines. */
  method Run(log: CsvLog, lines: seq<Option<string>>, clocks: seq<Instant>) returns (console: seq<Notice>)
    requires |lines| == |clocks|
    modifies log
    ensures log.contents == Replay(old(log.contents), Events(lines), clocks)
    ensures console == Console(Events(lines), clocks)
  {
    ghost var events := Events(lines);
    console := [];
    for i := 0 to |lines|
      invariant log.contents == Replay(old(log.contents), events[..i], clocks[..i])
      invariant console == Console(events[..i], clocks[..i])
    {
      PrefixOfPrefix(events, i, i + 1);
      PrefixOfPrefix(clocks, i, i + 1);
      var e := Classify(lines[i]);
      assert e == events[i];
      match e
      case LogEvent(user, card) =>
        var now := clocks[i];
        log.Append(Record(user, card, now));
        console := console + [Recorded(FormatDate(now), FormatTime(now), user)];
      case Alarm(line) =>
        console := console + [Warning(line)];
      case Ignore =>
    }
    WholePrefix(events);
    WholePrefix(clocks);
  }

  /** The whole script once connected: prepare the file, then run the loop. */
  method Session(log: CsvLog, lines: seq<Option<string>>, clocks: seq<Instant>) returns (console: seq<Notice>)
    requires |lines| == |clocks|
    modifies log
    ensures log.contents == Replay(Initialized(old(log.contents)), Events(lines), clocks)
    ensures console == Console(Events(lines), clocks)
  {
    log.EnsureHeader();
    console := Run(log, lines, clocks);
  }

  // ---------------------------------------------------------------------------
  // One line at a time

  /**
    A stripped line "LOG...,user,card[,...]" appends exactly the row
    `[date, time, user, card]`, whatever follows the card, and prints a
    confirmation naming the user.
   */
  lemma LogLineAppends(f: FileState, decoded: string, head: string, user: string, card: string, now: Instant)
    requires StartsWith(head, "LOG") && Layout(Strip(decoded), head, user, card)
    ensures Step(f, Classify(Some(decoded)), now) == Some(Rows(f) + [[FormatDate(now), FormatTime(now), user, card]])
    ensures NoticesFor(Classify(Some(decoded)), now) == [Recorded(FormatDate(now), FormatTime(now), user)]
  {
    LogLineAccepted(decoded, head, user, card);
  }

  /** A LOG line with fewer than two commas (fewer than three pieces) is dropped silently. */
  lemma ShortLogLineDropped(f: FileState, decoded: string, now: Instant)
    requires StartsWith(Strip(decoded), "LOG") && multiset(Strip(decoded))[','] < 2
    ensures Step(f, Classify(Some(decoded)), now) == f
    ensures NoticesFor(Classify(Some(decoded)), now) == []
  {
    SplitCount(Strip(decoded), ',');
  }

  /** An ALARM line leaves the file as it is and prints one warning holding the whole stripped line. */
  lemma AlarmLineWarns(f: FileState, decoded: string, now: Instant)
    requires StartsWith(Strip(decoded), "ALARM")
    ensures Step(f, Classify(Some(decoded)), now) == f
    ensures NoticesFor(Classify(Some(decoded)), now) == [Warning(Strip(decoded))]
  {
    PrefixesExclusive(Strip(decoded));
  }

  /** A line that failed to decode, or carries neither tag, changes nothing and prints nothing. */
  lemma OtherLineInert(f: FileState, raw: Option<string>, now: Instant)
    requires raw.None? || (!StartsWith(Strip(raw.value), "LOG") && !StartsWith(Strip(raw.value), "ALARM"))
    ensures Step(f, Classify(raw), now) == f
    ensures NoticesFor(Classify(raw), now) == []
  {
  }

  // ---------------------------------------------------------------------------
  // Whole runs

  lemma {:induction false} NewRowsSnoc(events: seq<Event>, clocks: seq<Instant>, e: Event, now: Instant)
    requires |events| == |clocks|
    ensures NewRows(events + [e], clocks + [now]) == NewRows(events, clocks) + RowsFor(e, now)
    decreases |events|
  {
    TailOfSnoc(events, e);
    TailOfSnoc(clocks, now);
    if events != [] {
      NewRowsSnoc(events[1..], clocks[1..], e, now);
      var x, y, z := RowsFor(events[0], clocks[0]), NewRows(events[1..], clocks[1..]), RowsFor(e, now);
      assert NewRows(events + [e], clocks + [now]) == x + (y + z);
      assert NewRows(events, clocks) == x + y;
      assert x + (y + z) == (x + y) + z;
    }
  }

  /**
    The loop only ever appends: the file after a run holds every row it held
    before, in place, followed by exactly the rows of the LOG events in the
    order they arrived.
   */
  lemma {:induction false} ReplayRows(f: FileState, events: seq<Event>, clocks: seq<Instant>)
    requires |events| == |clocks|
    ensures Rows(Replay(f, events, clocks)) == Rows(f) + NewRows(events, clocks)
    decreases |events|
  {
    if events != [] {
      var n := |events| - 1;
      ReplayRows(f, events[..n], clocks[..n]);
      ReplayLast(f, events, clocks);
      NewRowsLast(events, clocks);
      var a, b, c := Rows(f), NewRows(events[..n], clocks[..n]), RowsFor(events[n], clocks[n]);
      assert (a + b) + c == a + (b + c);
    }
  }

  /** The last iteration of a run appends the rows of the last event. */
  lemma ReplayLast(f: FileState, events: seq<Event>, clocks: seq<Instant>)
    requires |events| == |clocks| && events != []
    ensures var n := |events| - 1;
      Rows(Replay(f, events, clocks)) == Rows(Replay(f, events[..n], clocks[..n])) + RowsFor(events[n], clocks[n])
  {
  }

  /** The reference rows of a run, split off at its last event. */
  lemma NewRowsLast(events: seq<Event>, clocks: seq<Instant>)
    requires |events| == |clocks| && events != []
    ensures var n := |events| - 1;
      NewRows(events, clocks) == NewRows(events[..n], clocks[..n]) + RowsFor(events[n], clocks[n])
  {
    var n := |events| - 1;
    NewRowsSnoc(events[..n], clocks[..n], events[n], clocks[n]);
    ButLastThenLast(events);
    ButLastThenLast(clocks);
  }

  // ---------------------------------------------------------------------------
  // Sequence facts, stated once for any element type

  /** A non-empty sequence is its prefix without the last element, followed by that element. */
  lemma ButLastThenLast<T>(s: seq<T>)
    requires s != []
    ensures s[..|s| - 1] + [s[|s| - 1]] == s
  {
  }

  /** Dropping the first element of `s + [x]`. */
  lemma TailOfSnoc<T>(s: seq<T>, x: T)
    ensures (s + [x])[1..] == if s == [] then [] else s[1..] + [x]
  {
  }

  lemma PrefixOfPrefix<T>(s: seq<T>, i: nat, j: nat)
    requires i <= j <= |s|
    ensures s[..j][..i] == s[..i]
  {
  }

  lemma WholePrefix<T>(s: seq<T>)
    ensures s[..|s|] == s
  {
  }

  /** One row per LOG event. */
  lemma {:induction false} NewRowsCount(events: seq<Event>, clocks: seq<Instant>)
    requires |events| == |clocks|
    ensures |NewRows(events, clocks)| == Accepted(events)
    decreases |events|
  {
    if events != [] {
      NewRowsCount(events[1..], clocks[1..]);
    }
  }

  /** After a run the file holds its earlier rows as a prefix and one more row per LOG event. */
  lemma ReplayCount(f: FileState, events: seq<Event>, clocks: seq<Instant>)
    requires |events| == |clocks|
    ensures var g := Rows(Replay(f, events, clocks));
      |g| == |Rows(f)| + Accepted(events) && g[..|Rows(f)|] == Rows(f)
  {
    ReplayRows(f, events, clocks);
    NewRowsCount(events, clocks);
  }

  /** A run without LOG events leaves the file exactly as it was, even an absent one. */
  lemma {:induction false} ReplayInert(f: FileState, events: seq<Event>, clocks: seq<Instant>)
    requires |events| == |clocks|
    requires forall k :: 0 <= k < |events| ==> !events[k].LogEvent?
    ensures Replay(f, events, clocks) == f
    decreases |events|
  {
    if events != [] {
      var n := |events| - 1;
      ReplayInert(f, events[..n], clocks[..n]);
    }
  }

  /** A run never deletes the file. */
  lemma {:induction false} ReplayExists(f: FileState, events: seq<Event>, clocks: seq<Instant>)
    requires |events| == |clocks| && f.Some?
    ensures Replay(f, events, clocks).Some?
    decreases |events|
  {
    if events != [] {
      var n := |events| - 1;
      ReplayExists(f, events[..n], clocks[..n]);
    }
  }

  /** The rows of LOG events whose fields are comma-free are four comma-free fields: a 10-character date, an 8-character time, the user, the card. */
  lemma {:induction false} NewRowsShape(events: seq<Event>, clocks: seq<Instant>)
    requires |events| == |clocks|
    requires forall k :: 0 <= k < |events| && events[k].LogEvent? ==> ',' !in events[k].user && ',' !in events[k].card
    ensures forall r :: r in NewRows(events, clocks) ==>
      |r| == 4 && |r[0]| == 10 && |r[1]| == 8 && ',' !in r[2] && ',' !in r[3]
    decreases |events|
  {
    if events != [] {
      assert forall k :: 0 <= k < |events| - 1 ==> events[1..][k] == events[k + 1];
      NewRowsShape(events[1..], clocks[1..]);
    }
  }

  /**
    Every row the loop adds has four fields: a `DD.MM.YYYY` date, an
    `HH:MM:SS` time, and a user and card without commas.
   */
  lemma NewRowsWellFormed(lines: seq<Option<string>>, clocks: seq<Instant>)
    requires |lines| == |clocks|
    ensures forall r :: r in NewRows(Events(lines), clocks) ==>
      |r| == 4 && |r[0]| == 10 && |r[1]| == 8 && ',' !in r[2] && ',' !in r[3]
  {
    var events := Events(lines);
    forall k | 0 <= k < |events| && events[k].LogEvent?
      ensures ',' !in events[k].user && ',' !in events[k].card
    {
      LogFieldsCommaFree(lines[k]);
    }
    NewRowsShape(events, clocks);
  }

  /**
    A stored row, written out with commas between its fields, splits back into
    the same four fields, so the user and card read back exactly.
   */
  lemma RecordRoundTrip(raw: Option<string>, now: Instant)
    requires Classify(raw).LogEvent?
    ensures var r := Record(Classify(raw).user, Classify(raw).card, now);
      Split(Join(r, ','), ',') == r
  {
    var e := Classify(raw);
    var r := Record(e.user, e.card, now);
    LogFieldsCommaFree(raw);
    assert forall i :: 0 <= i < |r[0]| ==> r[0][i] != ',';
    assert forall i :: 0 <= i < |r[1]| ==> r[1][i] != ',';
    SplitJoin(r, ',');
  }

  /**
    Started on an absent file, the script leaves the header followed by one row
    per accepted LOG line: N accepted lines give N + 1 rows.
   */
  lemma SessionFromAbsent(lines: seq<Option<string>>, clocks: seq<Instant>)
    requires |lines| == |clocks|
    ensures Replay(Initialized(None), Events(lines), clocks) == Some([Header] + NewRows(Events(lines), clocks))
    ensures |Rows(Replay(Initialized(None), Events(lines), clocks))| == Accepted(Events(lines)) + 1
  {
    var events := Events(lines);
    ReplayRows(Initialized(None), events, clocks);
    NewRowsCount(events, clocks);
    ReplayExists(Initialized(None), events, clocks);
  }

  /** How many confirmations a console output holds. */
  function Confirmations(ns: seq<Notice>): nat
    decreases |ns|
  {
    if ns == [] then 0
    else Confirmations(ns[..|ns| - 1]) + (if ns[|ns| - 1].Recorded? then 1 else 0)
  }

  lemma {:induction false} ConfirmationsAppend(ns: seq<Notice>, ms: seq<Notice>)
    ensures Confirmations(ns + ms) == Confirmations(ns) + Confirmations(ms)
    decreases |ms|
  {
    if ms == [] {
      assert ns + ms == ns;
    } else {
      var k := |ms| - 1;
      ConfirmationsAppend(ns, ms[..k]);
      assert (ns + ms)[..|ns + ms| - 1] == ns + ms[..k];
    }
  }

  lemma {:induction false} AcceptedSnoc(events: seq<Event>, e: Event)
    ensures Accepted(events + [e]) == Accepted(events) + (if e.LogEvent? then 1 else 0)
    decreases |events|
  {
    TailOfSnoc(events, e);
    if events != [] {
      AcceptedSnoc(events[1..], e);
    }
  }

  /** The console shows one confirmation per LOG event: as many as there are new rows. */
  lemma {:induction false} ConsoleConfirmsEachRow(events: seq<Event>, clocks: seq<Instant>)
    requires |events| == |clocks|
    ensures Confirmations(Console(events, clocks)) == Accepted(events)
    decreases |events|
  {
    if events != [] {
      var n := |events| - 1;
      ConsoleConfirmsEachRow(events[..n], clocks[..n]);
      ConfirmationsAppend(Console(events[..n], clocks[..n]), NoticesFor(events[n], clocks[n]));
      var ns := NoticesFor(events[n], clocks[n]);
      assert ns != [] ==> ns[..|ns| - 1] == [];
      AcceptedSnoc(events[..n], events[n]);
      ButLastThenLast(events);
    }
  }

  // ---------------------------------------------------------------------------
  // Worked examples

  /** The device ends its lines with CR LF; stripping removes them. */
  lemma ExampleLineEnding()
    ensures Strip("LOG,Alice,AA BB CC DD\r\n") == "LOG,Alice,AA BB CC DD"
  {
    var line := "LOG,Alice,AA BB CC DD";
    StripOf([], line, "\r\n");
    assert [] + line + "\r\n" == "LOG,Alice,AA BB CC DD\r\n";
  }

  /**
    A line that strips to "LOG,Alice,AA BB CC DD" (as the one of
    ExampleLineEnding does), read at 2024-05-01 10:15:30, appends the row
    01.05.2024,10:15:30,Alice,AA BB CC DD after the header.
   */
  lemma ExampleAccess(decoded: string, now: Instant)
    requires Strip(decoded) == "LOG,Alice,AA BB CC DD"
    requires now == Clock(2024, 5, 1, 10, 15, 30)
    ensures Step(Some([Header]), Classify(Some(decoded)), now) ==
      Some([Header, ["01.05.2024", "10:15:30", "Alice", "AA BB CC DD"]])
  {
    AccessLineAccepted(decoded);
    ExampleDate(now);
    ExampleTime(now);
    var row := ["01.05.2024", "10:15:30", "Alice", "AA BB CC DD"];
    assert Record("Alice", "AA BB CC DD", now) == row;
    assert Rows(Some([Header])) + [row] == [Header, row];
  }

  lemma AccessLineAccepted(decoded: string)
    requires Strip(decoded) == "LOG,Alice,AA BB CC DD"
    ensures Classify(Some(decoded)) == LogEvent("Alice", "AA BB CC DD")
  {
    AccessLayout(Strip(decoded));
    LogLineAccepted(decoded, "LOG", "Alice", "AA BB CC DD");
  }

  lemma AccessLayout(line: string)
    requires line == "LOG,Alice,AA BB CC DD"
    ensures Layout(line, "LOG", "Alice", "AA BB CC DD")
  {
    assert line == "LOG" + [','] + "Alice" + [','] + "AA BB CC DD";
  }

  /**
    2024-05-01 prints as 01.05.2024. The reading is a parameter fixed by the
    requires, not a literal in the ensures, to keep the solver from unfolding
    the padding on a literal argument everywhere the lemma is used.
   */
  lemma ExampleDate(now: Instant)
    requires now == Clock(2024, 5, 1, 10, 15, 30)
    ensures FormatDate(now) == "01.05.2024"
  {
    PadTwoDigits(1);
    PadTwoDigits(5);
    assert Pad(2024, 4) == Pad(20, 2) + "24" by {
      assert Pad(2024, 4) == Pad(202, 3) + "4";
      assert Pad(202, 3) == Pad(20, 2) + "2";
    }
    PadTwoDigits(20);
  }

  /** Any reading at 10:15:30 prints as 10:15:30; the reading is a parameter for the same reason as in ExampleDate. */
  lemma ExampleTime(now: Instant)
    requires now.hour == 10 && now.minute == 15 && now.second == 30
    ensures FormatTime(now) == "10:15:30"
  {
    PadTwoDigits(10);
    PadTwoDigits(15);
    PadTwoDigits(30);
  }

  /** "ALARM,Door forced" only warns on the console, with the whole line. */
  lemma ExampleAlarm(f: FileState, decoded: string, now: Instant)
    requires decoded == "ALARM,Door forced"
    ensures Step(f, Classify(Some(decoded)), now) == f
    ensures NoticesFor(Classify(Some(decoded)), now) == [Warning("ALARM,Door forced")]
  {
    StripTrimmed(decoded);
    AlarmLineWarns(f, decoded, now);
  }

  /** "LOG,onlyone" has too few pieces and is dropped without a trace. */
  lemma ExampleShortLog(f: FileState, decoded: string, now: Instant)
    requires decoded == "LOG,onlyone"
    ensures Step(f, Classify(Some(decoded)), now) == f
    ensures NoticesFor(Classify(Some(decoded)), now) == []
  {
    StripTrimmed(decoded);
    ShortLogSplit(decoded);
  }

  lemma ShortLogSplit(line: string)
    requires line == "LOG,onlyone"
    ensures Split(line, ',') == ["LOG", "onlyone"]
  {
    assert line == "LOG" + [','] + "onlyone";
    SplitTwo("LOG", "onlyone");
  }

  lemma SplitTwo(head: string, tail: string)
    requires ',' !in head && ',' !in tail
    ensures Split(head + [','] + tail, ',') == [head, tail]
  {
    SplitAtFirst(head, ',', tail);
    SplitFree(tail, ',');
  }

  /** A line that failed to decode is skipped and the next accepted line is still recorded. */
  lemma ExampleSkipUndecodable(f: FileState, decoded: string, first: Instant, second: Instant)
    requires Classify(Some(decoded)).LogEvent?
    ensures var e := Classify(Some(decoded));
      Replay(f, Events([None, Some(decoded)]), [first, second]) == Appended(f, Record(e.user, e.card, second))
  {
    var events := Events([None, Some(decoded)]);
    var clocks: seq<Instant> := [first, second];
    assert events == [Ignore, Classify(Some(decoded))];
    assert events[..1] == [Ignore] && events[..1][..0] == [];
    assert clocks[..1] == [first] && clocks[..1][..0] == [];
    assert Replay(f, events[..1], clocks[..1]) == Step(f, Ignore, first) == f;
  }
}
