/**
  The three string operations the ingestion loop applies to a decoded serial
  line, with Python's semantics: `str.strip()` without arguments,
  `str.startswith(prefix)` and `str.split(sep)` with an explicit one-character
  separator (empty tokens are kept).
 */
module Text {

  /** Python's `str.isspace` for one character: the characters `str.strip()` removes. */
  predicate IsSpace(c: char) {
    c == ' ' || c == '\t' || c == '\n' || c == '\r' ||
    c == '\U{B}' || c == '\U{C}' ||
    ('\U{1C}' <= c <= '\U{1F}') ||
    c == '\U{85}' || c == '\U{A0}' || c == '\U{1680}' ||
    ('\U{2000}' <= c <= '\U{200A}') ||
    c == '\U{2028}' || c == '\U{2029}' || c == '\U{202F}' ||
    c == '\U{205F}' || c == '\U{3000}'
  }

  predicate AllSpace(s: string) {
    forall i :: 0 <= i < |s| ==> IsSpace(s[i])
  }

  /** True when `core` can be what is left of a string after stripping: it neither starts nor ends with whitespace. */
  predicate Trimmed(core: string) {
    core == [] || (!IsSpace(core[0]) && !IsSpace(core[|core| - 1]))
  }

  /** Drops the leading whitespace. */
  function TrimStart(s: string): string
    decreases |s|
  {
    if |s| > 0 && IsSpace(s[0]) then TrimStart(s[1..]) else s
  }

  /** Drops the trailing whitespace. */
  function TrimEnd(s: string): string
    decreases |s|
  {
    if |s| > 0 && IsSpace(s[|s| - 1]) then TrimEnd(s[..|s| - 1]) else s
  }

  /** `r` is `s` without its leading whitespace: a suffix of `s` after only whitespace, not itself starting with whitespace. */
  predicate LeadingDropped(s: string, r: string) {
    |r| <= |s| && r == s[|s| - |r|..] && AllSpace(s[..|s| - |r|]) &&
    (r == [] || !IsSpace(r[0]))
  }

  /** `r` is `s` without its trailing whitespace: a prefix of `s` before only whitespace, not itself ending with whitespace. */
  predicate TrailingDropped(s: string, r: string) {
    |r| <= |s| && r == s[..|r|] && AllSpace(s[|r|..]) &&
    (r == [] || !IsSpace(r[|r| - 1]))
  }

  /** TrimStart keeps a suffix of `s`, what it drops is all whitespace, and what it keeps does not start with whitespace. */
  lemma {:induction false} TrimStartSpec(s: string)
    ensures LeadingDropped(s, TrimStart(s))
    decreases |s|
  {
    if |s| > 0 && IsSpace(s[0]) {
      TrimStartSpec(s[1..]);
      var r := TrimStart(s[1..]);
      assert s[..|s| - |r|] == [s[0]] + s[1..][..|s| - 1 - |r|];
    }
  }

  /** TrimEnd keeps a prefix of `s`, what it drops is all whitespace, and what it keeps does not end with whitespace. */
  lemma {:induction false} TrimEndSpec(s: string)
    ensures TrailingDropped(s, TrimEnd(s))
    decreases |s|
  {
    if |s| > 0 && IsSpace(s[|s| - 1]) {
      TrimEndSpec(s[..|s| - 1]);
      var r := TrimEnd(s[..|s| - 1]);
      assert s[|r|..] == s[..|s| - 1][|r|..] + [s[|s| - 1]];
    }
  }

  /** Python's `s.strip()`. */
  function Strip(s: string): string {
    TrimEnd(TrimStart(s))
  }

  /**
    What `strip` keeps: a contiguous piece of `s` that neither starts nor ends
    with whitespace, between a prefix and a suffix made only of whitespace.
   */
  lemma StripKeepsCore(s: string)
    ensures var i := |s| - |TrimStart(s)|;
      0 <= i && i + |Strip(s)| <= |s| &&
      Strip(s) == s[i..i + |Strip(s)|] &&
      AllSpace(s[..i]) && AllSpace(s[i + |Strip(s)|..]) &&
      Trimmed(Strip(s))
  {
    TrimStartSpec(s);
    TrimEndSpec(TrimStart(s));
    CoreBetween(s, TrimStart(s), Strip(s));
  }

  /** A suffix `t` of `s` after whitespace, cut down to a prefix `r` before whitespace, sits inside `s` between the two. */
  lemma CoreBetween(s: string, t: string, r: string)
    requires LeadingDropped(s, t) && TrailingDropped(t, r)
    ensures var i := |s| - |t|;
      i + |r| <= |s| && r == s[i..i + |r|] &&
      AllSpace(s[..i]) && AllSpace(s[i + |r|..]) && Trimmed(r)
  {
    var i := |s| - |t|;
    assert t[|r|..] == s[i + |r|..];
    if r != [] {
      assert r[0] == t[0];
    }
  }

  /** Leading whitespace followed by a non-whitespace character is exactly what TrimStart removes. */
  lemma {:induction false} TrimStartOf(pad: string, rest: string)
    requires AllSpace(pad)
    requires rest == [] || !IsSpace(rest[0])
    ensures TrimStart(pad + rest) == rest
    decreases |pad|
  {
    if pad == [] {
      assert pad + rest == rest;
    } else {
      assert (pad + rest)[1..] == pad[1..] + rest;
      TrimStartOf(pad[1..], rest);
    }
  }

  lemma {:induction false} TrimEndOf(rest: string, pad: string)
    requires AllSpace(pad)
    requires rest == [] || !IsSpace(rest[|rest| - 1])
    ensures TrimEnd(rest + pad) == rest
    decreases |pad|
  {
    if pad == [] {
      assert rest + pad == rest;
    } else {
      assert (rest + pad)[..|rest + pad| - 1] == rest + pad[..|pad| - 1];
      TrimEndOf(rest, pad[..|pad| - 1]);
    }
  }

  /**
    The converse of StripKeepsCore: whatever lies between a whitespace prefix and
    a whitespace suffix and is itself trimmed is the result of `strip`. The two
    lemmas together characterise `strip` completely.
   */
  lemma StripOf(pad: string, core: string, tail: string)
    requires AllSpace(pad) && AllSpace(tail) && Trimmed(core)
    ensures Strip(pad + core + tail) == core
  {
    if core == [] {
      assert AllSpace(pad + tail);
      assert pad + core + tail == (pad + tail) + [];
      TrimStartOf(pad + tail, []);
      assert TrimStart(pad + core + tail) == [];
    } else {
      assert pad + core + tail == pad + (core + tail);
      assert (core + tail)[0] == core[0];
      TrimStartOf(pad, core + tail);
      TrimEndOf(core, tail);
    }
  }

  /** A line without whitespace at either end is its own strip. */
  lemma StripTrimmed(s: string)
    requires Trimmed(s)
    ensures Strip(s) == s
  {
    StripOf([], s, []);
    assert [] + s + [] == s;
  }

  /** Stripping twice is stripping once. */
  lemma StripIdempotent(s: string)
    ensures Strip(Strip(s)) == Strip(s)
  {
    StripKeepsCore(s);
    StripOf([], Strip(s), []);
    assert [] + Strip(s) + [] == Strip(s);
  }

  /** Python's `s.startswith(prefix)`. */
  predicate StartsWith(s: string, prefix: string) {
    |prefix| <= |s| && s[..|prefix|] == prefix
  }

  /**
    Python's `s.split(sep)`: the pieces between occurrences of `sep`, empty
    pieces included, so there is always one more piece than there are
    separators.
   */
  function Split(s: string, sep: char): (r: seq<string>)
    ensures |r| >= 1
    decreases |s|
  {
    if s == [] then
      [[]]
    else
      var rest := Split(s[1..], sep);
      if s[0] == sep then [[]] + rest
      else [[s[0]] + rest[0]] + rest[1..]
  }

  /** There is always exactly one more piece than there are separators. */
  lemma {:induction false} SplitCount(s: string, sep: char)
    ensures |Split(s, sep)| == multiset(s)[sep] + 1
    decreases |s|
  {
    if s != [] {
      SplitCount(s[1..], sep);
      assert s == [s[0]] + s[1..];
    }
  }

  /** Python's `sep.join(ts)` for a non-empty list of pieces. */
  function Join(ts: seq<string>, sep: char): string
    requires |ts| >= 1
    decreases |ts|
  {
    if |ts| == 1 then ts[0] else ts[0] + [sep] + Join(ts[1..], sep)
  }

  /** No piece produced by `split` contains the separator. */
  lemma {:induction false} SplitPiecesFree(s: string, sep: char)
    ensures forall k :: 0 <= k < |Split(s, sep)| ==> sep !in Split(s, sep)[k]
    decreases |s|
  {
    if s != [] {
      SplitPiecesFree(s[1..], sep);
    }
  }

  /** Prepending a character to the first piece prepends it to the join. */
  lemma JoinConsFirst(c: char, ts: seq<string>, sep: char)
    requires |ts| >= 1
    ensures Join([[c] + ts[0]] + ts[1..], sep) == [c] + Join(ts, sep)
  {
    var us := [[c] + ts[0]] + ts[1..];
    assert us[1..] == ts[1..];
  }

  /** Splitting loses nothing: joining the pieces with the separator gives the string back. */
  lemma {:induction false} JoinSplit(s: string, sep: char)
    ensures Join(Split(s, sep), sep) == s
    decreases |s|
  {
    if s != [] {
      var rest := Split(s[1..], sep);
      JoinSplit(s[1..], sep);
      if s[0] == sep {
        assert ([[]] + rest)[1..] == rest;
      } else {
        JoinConsFirst(s[0], rest, sep);
      }
      assert [s[0]] + s[1..] == s;
    }
  }

  /** A string without the separator splits into itself alone. */
  lemma {:induction false} SplitFree(t: string, sep: char)
    requires sep !in t
    ensures Split(t, sep) == [t]
    decreases |t|
  {
    if t != [] {
      SplitFree(t[1..], sep);
      assert [t[0]] + t[1..] == t;
    }
  }

  /** `split` cuts at the first separator. */
  lemma {:induction false} SplitAtFirst(t: string, sep: char, rest: string)
    requires sep !in t
    ensures Split(t + [sep] + rest, sep) == [t] + Split(rest, sep)
    decreases |t|
  {
    var s := t + [sep] + rest;
    if t == [] {
      assert s[1..] == rest;
    } else {
      assert s[1..] == t[1..] + [sep] + rest;
      SplitAtFirst(t[1..], sep, rest);
      assert [t[0]] + t[1..] == t;
    }
  }

  /**
    `split` undoes `join` for pieces that do not contain the separator; with
    JoinSplit this makes the two inverse bijections between strings and
    non-empty separator-free piece lists.
   */
  lemma {:induction false} SplitJoin(ts: seq<string>, sep: char)
    requires |ts| >= 1
    requires forall k :: 0 <= k < |ts| ==> sep !in ts[k]
    ensures Split(Join(ts, sep), sep) == ts
    decreases |ts|
  {
    if |ts| == 1 {
      SplitFree(ts[0], sep);
    } else {
      SplitJoin(ts[1..], sep);
      SplitAtFirst(ts[0], sep, Join(ts[1..], sep));
      assert [ts[0]] + ts[1..] == ts;
    }
  }
}
