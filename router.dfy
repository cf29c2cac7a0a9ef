/**
  The event router's parse step: one decoded serial line (or the failure to
  decode it) becomes a LOG event carrying a user and a card, an ALARM carrying
  the whole stripped line, or nothing. Also the two console notices the loop
  prints, with their wording.
 */
module Router {
  import opened Wrappers
  import opened Text

  datatype Event = LogEvent(user: string, card: string) | Alarm(text: string) | Ignore

  /**
    Undecodable lines are skipped. Otherwise the stripped line is tested for the
    prefix "LOG" first, then "ALARM". A LOG line is split on commas and accepted
    only with at least three pieces; piece 1 is the user, piece 2 the card, and
    further pieces are not looked at.
   */
  function Classify(raw: Option<string>): Event {
    match raw
    case None => Ignore
    case Some(decoded) => Route(Strip(decoded))
  }

  /** The classification of a line once it has been stripped. */
  function Route(line: string): Event {
    if StartsWith(line, "LOG") then
      var data := Split(line, ',');
      if |data| >= 3 then LogEvent(data[1], data[2]) else Ignore
    else if StartsWith(line, "ALARM") then
      Alarm(line)
    else
      Ignore
  }

  /** No line starts with both tags, so the order in which they are tested never matters. */
  lemma PrefixesExclusive(s: string)
    ensures StartsWith(s, "ALARM") ==> !StartsWith(s, "LOG")
  {
    if StartsWith(s, "ALARM") {
      assert s[..3] == s[..5][..3] == "ALA";
    }
  }

  /** A decoded line is recorded exactly when, stripped, it starts with "LOG" and holds at least two commas. */
  lemma LogAcceptedIff(decoded: string)
    ensures Classify(Some(decoded)).LogEvent? <==>
      StartsWith(Strip(decoded), "LOG") && multiset(Strip(decoded))[','] >= 2
  {
    SplitCount(Strip(decoded), ',');
  }

  /** A decoded line raises an alarm exactly when, stripped, it starts with "ALARM"; the alarm carries the whole stripped line. */
  lemma AlarmIff(decoded: string)
    ensures Classify(Some(decoded)).Alarm? <==> StartsWith(Strip(decoded), "ALARM")
    ensures Classify(Some(decoded)).Alarm? ==> Classify(Some(decoded)).text == Strip(decoded)
  {
    PrefixesExclusive(Strip(decoded));
  }

  /**
    A line is ignored exactly when it failed to decode, carries neither tag, or
    is a LOG line with fewer than two commas.
   */
  lemma IgnoreIff(raw: Option<string>)
    ensures Classify(raw) == Ignore <==>
      raw.None? ||
      (var line := Strip(raw.value);
       (!StartsWith(line, "LOG") && !StartsWith(line, "ALARM")) ||
       (StartsWith(line, "LOG") && multiset(line)[','] < 2))
  {
    if raw.Some? {
      SplitCount(Strip(raw.value), ',');
      PrefixesExclusive(Strip(raw.value));
    }
  }

  /** The user and card of a LOG event never contain a comma. */
  lemma LogFieldsCommaFree(raw: Option<string>)
    requires Classify(raw).LogEvent?
    ensures ',' !in Classify(raw).user && ',' !in Classify(raw).card
  {
    SplitPiecesFree(Strip(raw.value), ',');
  }

  /**
    `line` begins with `head`, a comma, `user`, a comma and `card`, and ends
    there or goes on with another comma; none of the three pieces holds a comma.
   */
  predicate Layout(line: string, head: string, user: string, card: string) {
    ',' !in head && ',' !in user && ',' !in card &&
    StartsWith(line, head + [','] + user + [','] + card) &&
    var k := |head| + |user| + |card| + 2;
    k == |line| || line[k] == ','
  }

  /**
    The layout of a line `Classify` accepts: a head piece that starts with
    "LOG", the user and the card, each followed by a comma but the last, and
    then either nothing or a comma followed by pieces that are ignored.
   */
  lemma LogLineShape(decoded: string)
    requires Classify(Some(decoded)).LogEvent?
    ensures var e := Classify(Some(decoded));
      var head := Split(Strip(decoded), ',')[0];
      StartsWith(head, "LOG") && Layout(Strip(decoded), head, e.user, e.card)
  {
    var line := Strip(decoded);
    var ts := Split(line, ',');
    assert StartsWith(line, "LOG") && |ts| >= 3;
    assert Classify(Some(decoded)) == LogEvent(ts[1], ts[2]);
    SplitLayout(line);
    HeadKeepsTag(line, ts[0], ts[1], ts[2]);
  }

  /** A line that splits into at least three pieces is laid out as its first three pieces. */
  lemma SplitLayout(line: string)
    requires |Split(line, ',')| >= 3
    ensures var ts := Split(line, ','); Layout(line, ts[0], ts[1], ts[2])
  {
    var ts := Split(line, ',');
    var head, u, c := ts[0], ts[1], ts[2];
    assert ',' !in head && ',' !in u && ',' !in c by {
      SplitPiecesFree(line, ',');
    }
    var tail := if |ts| == 3 then [] else [','] + Join(ts[3..], ',');
    assert line == head + [','] + u + [','] + c + tail by {
      JoinSplit(line, ',');
      JoinThree(ts, ',');
    }
    var k := |head| + |u| + |c| + 2;
    assert line[..k] == head + [','] + u + [','] + c;
  }

  /** Unfolds `Join` over its first three pieces. */
  lemma JoinThree(ts: seq<string>, sep: char)
    requires |ts| >= 3
    ensures Join(ts, sep) ==
      ts[0] + [sep] + ts[1] + [sep] + ts[2] + (if |ts| == 3 then [] else [sep] + Join(ts[3..], sep))
  {
    var a, b, c := ts[0], ts[1], ts[2];
    var tail := if |ts| == 3 then [] else [sep] + Join(ts[3..], sep);
    assert ts[1..][0] == b && ts[1..][1..] == ts[2..] && ts[2..][0] == c;
    assert Join(ts[2..], sep) == c + tail by {
      if |ts| > 3 {
        assert ts[2..][1..] == ts[3..];
      }
    }
    assert Join(ts[1..], sep) == b + [sep] + (c + tail);
    assert Join(ts, sep) == a + [sep] + (b + [sep] + (c + tail));
  }

  /** The comma-free head piece of a line that starts with "LOG" starts with "LOG" itself. */
  lemma HeadKeepsTag(line: string, head: string, user: string, card: string)
    requires Layout(line, head, user, card)
    requires StartsWith(line, "LOG")
    ensures StartsWith(head, "LOG")
  {
    var p := head + [','] + user + [','] + card;
    assert line[..|p|] == p;
    assert line[|head|] == p[|head|] == ',';
    assert line[..3] == "LOG";
    assert |head| >= 3;
    assert head[..3] == p[..3] == line[..3];
  }

  /**
    The converse of LogLineShape: every line with that layout is accepted, with
    exactly that user and card, whatever follows the card.
   */
  lemma LogLineAccepted(decoded: string, head: string, user: string, card: string)
    requires StartsWith(head, "LOG") && Layout(Strip(decoded), head, user, card)
    ensures Classify(Some(decoded)) == LogEvent(user, card)
  {
    var line := Strip(decoded);
    var k := |head| + |user| + |card| + 2;
    assert line == head + [','] + user + [','] + card + line[k..] by {
      assert line[..k] == head + [','] + user + [','] + card;
      assert line == line[..k] + line[k..];
    }
    RouteAccepts(head, user, card, line[k..]);
  }

  lemma {:induction false} RouteAccepts(head: string, user: string, card: string, rest: string)
    requires StartsWith(head, "LOG") && ',' !in head && ',' !in user && ',' !in card
    requires rest == [] || rest[0] == ','
    ensures Route(head + [','] + user + [','] + card + rest) == LogEvent(user, card)
  {
    var line := head + [','] + user + [','] + card + rest;
    var r1 := card + rest;
    var r2 := user + [','] + r1;
    assert line == head + [','] + r2;
    assert line[..3] == head[..3];
    var tail := SplitCardOnwards(card, rest);
    SplitAtFirst(user, ',', r1);
    SplitAtFirst(head, ',', r2);
    var ts := Split(line, ',');
    assert ts == [head] + ([user] + tail);
    assert ts[1] == user && ts[2] == card;
  }

  /** Splitting the card and whatever follows it yields the card first. */
  lemma SplitCardOnwards(card: string, rest: string) returns (tail: seq<string>)
    requires ',' !in card
    requires rest == [] || rest[0] == ','
    ensures Split(card + rest, ',') == tail && |tail| >= 1 && tail[0] == card
  {
    if rest == [] {
      SplitFree(card, ',');
      assert card + rest == card;
      tail := [card];
    } else {
      assert card + rest == card + [','] + rest[1..];
      SplitAtFirst(card, ',', rest[1..]);
      tail := [card] + Split(rest[1..], ',');
    }
  }

  /** What the loop prints to the console: a confirmation for a stored record or a security warning. */
  datatype Notice = Recorded(date: string, time: string, user: string) | Warning(line: string)

  /** The wording of each console notice. */
  function Render(n: Notice): string {
    match n
    case Recorded(date, time, user) => "[KAYIT EDILDI] " + date + " " + time + " -> " + user
    case Warning(line) => "!!! GUVENLIK UYARISI !!! -> " + line
  }

  /** The warning ends with the full line that raised it, and the confirmation ends with the user. */
  lemma RenderEndsWithSubject(n: Notice)
    ensures var r := Render(n);
      var subject := if n.Warning? then n.line else n.user;
      |subject| <= |r| && r[|r| - |subject|..] == subject
  {
  }
}
