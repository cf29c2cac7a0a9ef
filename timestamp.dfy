/**
  The two timestamp strings a record carries: `strftime("%d.%m.%Y")` and
  `strftime("%H:%M:%S")` of the current local time. The clock itself is an input:
  an `Instant` holds the components of one reading, within the ranges a Python
  `datetime` allows.
 */
module Timestamp {

  datatype Clock = Clock(year: int, month: int, day: int, hour: int, minute: int, second: int)
  {
    /** The component ranges of a Python `datetime` (years 1 to 9999, Gregorian calendar). */
    predicate Valid() {
      1 <= year <= 9999 && 1 <= month <= 12 && 1 <= day <= DaysInMonth(year, month) &&
      0 <= hour < 24 && 0 <= minute < 60 && 0 <= second < 60
    }
  }

  /** One reading of the clock, as `datetime.now()` returns it. */
  type Instant = c: Clock | c.Valid() witness Clock(1970, 1, 1, 0, 0, 0)

  predicate IsLeapYear(y: int) {
    y % 4 == 0 && (y % 100 != 0 || y % 400 == 0)
  }

  function DaysInMonth(y: int, m: int): int {
    if m == 2 then (if IsLeapYear(y) then 29 else 28)
    else if m == 4 || m == 6 || m == 9 || m == 11 then 30
    else 31
  }

  predicate IsDigit(c: char) {
    '0' <= c <= '9'
  }

  function Pow10(w: nat): nat {
    if w == 0 then 1 else 10 * Pow10(w - 1)
  }

  /** The numeric value of a string of decimal digits, most significant first. */
  function Value(s: string): int {
    if s == [] then 0 else 10 * Value(s[..|s| - 1]) + (s[|s| - 1] as int - '0' as int)
  }

  /**
    The last `w` decimal digits of `n`, padded on the left with zeros. For
    `n < 10^w`, which every `Instant` component satisfies in its field, this is
    what a strftime field of width `w` prints; strftime itself never truncates.
   */
  function Pad(n: nat, w: nat): (r: string)
    ensures |r| == w
    ensures forall i :: 0 <= i < w ==> IsDigit(r[i])
  {
    if w == 0 then [] else Pad(n / 10, w - 1) + [('0' as int + n % 10) as char]
  }

  /** A field wide enough for its number reads back as that number, so no information is lost by padding. */
  lemma {:induction false} PadValue(n: nat, w: nat)
    requires n < Pow10(w)
    ensures Value(Pad(n, w)) == n
  {
    if w > 0 {
      var r := Pad(n, w);
      assert r[..w - 1] == Pad(n / 10, w - 1);
      assert n / 10 < Pow10(w - 1);
      PadValue(n / 10, w - 1);
    }
  }

  /** A two-digit field is the tens digit followed by the units digit. */
  lemma PadTwoDigits(n: nat)
    requires n < 100
    ensures Pad(n, 2) == [('0' as int + n / 10) as char, ('0' as int + n % 10) as char]
  {
    assert Pad(n / 10, 1) == Pad(n / 100, 0) + [('0' as int + n / 10 % 10) as char];
  }

  /** `%d.%m.%Y` */
  function FormatDate(c: Instant): (r: string)
    ensures |r| == 10 && r[2] == '.' && r[5] == '.'
    ensures forall i :: 0 <= i < 10 && i != 2 && i != 5 ==> IsDigit(r[i])
  {
    Pad(c.day, 2) + "." + Pad(c.month, 2) + "." + Pad(c.year, 4)
  }

  /** `%H:%M:%S` */
  function FormatTime(c: Instant): (r: string)
    ensures |r| == 8 && r[2] == ':' && r[5] == ':'
    ensures forall i :: 0 <= i < 8 && i != 2 && i != 5 ==> IsDigit(r[i])
  {
    Pad(c.hour, 2) + ":" + Pad(c.minute, 2) + ":" + Pad(c.second, 2)
  }

  /** The date string's three fields read back as the day, month and year of the reading. */
  lemma DateRoundTrip(c: Instant)
    ensures var r := FormatDate(c);
      Value(r[..2]) == c.day && Value(r[3..5]) == c.month && Value(r[6..]) == c.year
  {
    var r := FormatDate(c);
    assert r[..2] == Pad(c.day, 2);
    assert r[3..5] == Pad(c.month, 2);
    assert r[6..] == Pad(c.year, 4);
    PadValue(c.day, 2);
    PadValue(c.month, 2);
    PadValue(c.year, 4);
  }

  /** The time string's three fields read back as the hour, minute and second of the reading. */
  lemma TimeRoundTrip(c: Instant)
    ensures var r := FormatTime(c);
      Value(r[..2]) == c.hour && Value(r[3..5]) == c.minute && Value(r[6..]) == c.second
  {
    var r := FormatTime(c);
    assert r[..2] == Pad(c.hour, 2);
    assert r[3..5] == Pad(c.minute, 2);
    assert r[6..] == Pad(c.second, 2);
    PadValue(c.hour, 2);
    PadValue(c.minute, 2);
    PadValue(c.second, 2);
  }

  /** Different readings give different timestamp pairs. */
  lemma FormatInjective(c: Instant, d: Instant)
    requires FormatDate(c) == FormatDate(d) && FormatTime(c) == FormatTime(d)
    ensures c == d
  {
    DateRoundTrip(c);
    DateRoundTrip(d);
    TimeRoundTrip(c);
    TimeRoundTrip(d);
  }
}
