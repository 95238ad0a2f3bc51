/** Logcat parsing (wa/utils/android.py: LogcatLogLevel, log_level_map and
    LogcatParser). A line is `<date> <time> <pid> <tid> <level> <tag>: <message>`;
    the timestamp parser (`strptime` with the current year filled in) is the
    parameter `stamp`. */
module Logcat {
  import opened Wrappers
  import Text

  /** The logcat priorities, numbered from 2. */
  datatype Level = Verbose | Debug | Info | Warn | Error | Assert

  /** The levels in order of their number. */
  function Levels(): seq<Level> {
    [Verbose, Debug, Info, Warn, Error, Assert]
  }

  function LevelValue(l: Level): int {
    match l
    case Verbose => 2
    case Debug => 3
    case Info => 4
    case Warn => 5
    case Error => 6
    case Assert => 7
  }

  function LevelName(l: Level): (name: string)
    ensures |name| > 0 && 'a' <= name[0] <= 'z'
  {
    match l
    case Verbose => "verbose"
    case Debug => "debug"
    case Info => "info"
    case Warn => "warn"
    case Error => "error"
    case Assert => "assert"
  }

  /** ASCII `upper()` of a lower-case letter. */
  function Upper(c: char): (u: char)
    requires 'a' <= c <= 'z'
    ensures 'A' <= u <= 'Z'
  {
    ((c as int) - 32) as char
  }

  /** `log_level_map`: the upper-cased initial of every level name, in
      order (see `LevelTable`). */
  const LevelMap: string := "VDIWEA"

  /** The one-letter code logcat prints for a level. */
  function Letter(l: Level): (c: char)
    ensures c in LevelMap
  {
    var i := LevelValue(l) - 2;
    assert 0 <= i < |LevelMap|;
    LevelMap[i]
  }

  /** The levels are numbered from 2 in order, and the level map spells
      their initials. */
  lemma LevelTable()
    ensures |LevelMap| == |Levels()|
    ensures forall i :: 0 <= i < |Levels()| ==> LevelMap[i] == Upper(LevelName(Levels()[i])[0])
    ensures forall i :: 0 <= i < |Levels()| ==> LevelValue(Levels()[i]) == i + 2
    ensures forall l: Level :: l in Levels()
  {
    forall l: Level
      ensures l in Levels()
    {
      assert Levels()[LevelValue(l) - 2] == l;
    }
  }

  /** The level of a one-letter code (the evident intent of the lookup). */
  function LevelOf(token: string): (r: Option<Level>)
    ensures r.Some? <==> |token| == 1 && token[0] in LevelMap
    ensures r.Some? ==> token == [Letter(r.value)]
  {
    if |token| != 1 then None
    else match Text.IndexOf(LevelMap, token[0])
      case None => None
      case Some(i) =>
        LevelTable();
        Some(Levels()[i])
  }

  /** The lookup as written: `log_level_map.index(token)`, a substring
      search, so any run of consecutive letters of the map is accepted and
      read as the level of its first letter. */
  function LevelAsWritten(token: string): (r: Option<Level>)
    ensures r.Some? <==> Text.Contains(LevelMap, token)
  {
    match Text.FindSub(LevelMap, token)
    case None => None
    case Some(i) => Some(Levels()[i])
  }

  /** Every level's code reads back as that level. */
  lemma LevelOfLetter(l: Level)
    ensures LevelOf([Letter(l)]) == Some(l)
  {
    LevelTable();
  }

  /** On one-letter codes the lookup as written agrees with the intended
      one. */
  lemma LevelLookupsAgreeOnLetters(c: char)
    ensures LevelAsWritten([c]) == LevelOf([c])
  {
    Text.FindSubChar(LevelMap, c);
  }

  /** The two-letter token `WE` is accepted as written, and read as warn;
      it is no level code. */
  lemma TwoLetterTokenAccepted()
    ensures LevelAsWritten("WE") == Some(Warn)
    ensures LevelOf("WE") == None
  {
    LevelTable();
    var j := 3;
    assert "WE" <= LevelMap[j..];
    forall k | 0 <= k < j
      ensures !("WE" <= LevelMap[k..])
    {
      assert LevelMap[k..][0] == LevelMap[k];
    }
    Text.FindSubAt(LevelMap, "WE", j);
  }

  // ---------------------------------------------------------------------
  // Lines

  /** A parsed logcat line. */
  datatype Event<T> = Event(timestamp: T, pid: int, tid: int, level: Level, tag: string, message: string)

  /** `s` ends with `t`. */
  predicate EndsWith(s: string, t: string) {
    |t| <= |s| && s[|s| - |t|..] == t
  }

  /** The part of `parse_line` after the split at the first `": "`: the
      metadata fields, read in order; any missing or invalid one is the
      caught exception. */
  function ParseMetadata<T>(metadata: string, message: string, stamp: string -> Option<T>,
                            lookup: string -> Option<Level>): (r: Option<Event<T>>)
    ensures r.Some? ==> r.value.message == message && Text.Strip(r.value.tag) == r.value.tag
  {
    ReadParts(Text.SplitWs(metadata, 5), message, stamp, lookup)
  }

  /** The `pop(0)` sequence over the fields of `split(None, 5)`. */
  function ReadParts<T>(parts: seq<string>, message: string, stamp: string -> Option<T>,
                        lookup: string -> Option<Level>): (r: Option<Event<T>>)
    ensures r.Some? ==> r.value.message == message && Text.Strip(r.value.tag) == r.value.tag
  {
    if |parts| < 5 then None
    else
      var ts := parts[0] + " " + parts[1];
      match (stamp(ts), Text.ParseInt(parts[2]), Text.ParseInt(parts[3]), lookup(parts[4]))
      case (Some(t), Some(pid), Some(tid), Some(level)) =>
        var tag := if |parts| > 5 then Text.Strip(parts[5]) else "";
        Text.StripUnchanged(tag);
        Some(Event(t, pid, tid, level, tag, message))
      case _ => None
  }

  /** `parse_line` with the level lookup as a parameter. `None` stands for
      both the skipped lines and the lines with invalid metadata. */
  function ParseLineWith<T>(line: string, stamp: string -> Option<T>, lookup: string -> Option<Level>): (r: Option<Event<T>>)
    ensures r.Some? ==> var l := Text.Strip(line);
      && |l| > 0 && l[0] != '-' && Text.Contains(l, ": ")
      && EndsWith(l, ": " + r.value.message)
    ensures r.Some? ==> var l := Text.Strip(line);
      var i := Text.FindSub(l, ": ");
      i.Some? && r.value.message == l[i.value + 2..]
    ensures r.Some? ==> Text.Strip(r.value.tag) == r.value.tag
  {
    var l := Text.Strip(line);
    if |l| == 0 || l[0] == '-' then None
    else match Text.FindSub(l, ": ")
      case None => None
      case Some(i) =>
        SeparatorEnds(l, i);
        ParseMetadata(l[..i], l[i + 2..], stamp, lookup)
  }

  /** What follows a `": "` ends the line, the separator before it. */
  lemma SeparatorEnds(l: string, i: nat)
    requires i + 2 <= |l| && ": " <= l[i..]
    ensures EndsWith(l, ": " + l[i + 2..])
  {
    assert l[i..] == l[i..i + 2] + l[i + 2..];
    assert l[|l| - |": " + l[i + 2..]|..] == l[i..];
  }

  /** `LogcatParser.parse_line`, with the intended one-letter level lookup.
      It only drops lines: every event it finds, the source finds too. */
  function ParseLine<T>(line: string, stamp: string -> Option<T>): (r: Option<Event<T>>)
    ensures r.Some? ==> ParseLineAsWritten(line, stamp) == r
  {
    CorrectedLineAsWritten(line, stamp);
    ParseLineWith(line, stamp, LevelOf)
  }

  /** A level token the one-letter lookup accepts reads the same as
      written. */
  lemma LetterLookupAgrees(token: string)
    ensures LevelOf(token).Some? ==> LevelAsWritten(token) == LevelOf(token)
  {
    if |token| == 1 {
      assert token == [token[0]];
      LevelLookupsAgreeOnLetters(token[0]);
    }
  }

  lemma CorrectedLineAsWritten<T>(line: string, stamp: string -> Option<T>)
    ensures ParseLineWith(line, stamp, LevelOf).Some? ==>
      ParseLineWith(line, stamp, LevelAsWritten) == ParseLineWith(line, stamp, LevelOf)
  {
    var l := Text.Strip(line);
    if |l| > 0 && l[0] != '-' && Text.FindSub(l, ": ").Some? {
      var i := Text.FindSub(l, ": ").value;
      var parts := Text.SplitWs(l[..i], 5);
      assert ParseLineWith(line, stamp, LevelOf) == ReadParts(parts, l[i + 2..], stamp, LevelOf);
      assert ParseLineWith(line, stamp, LevelAsWritten) == ReadParts(parts, l[i + 2..], stamp, LevelAsWritten);
      CorrectedPartsAsWritten(parts, l[i + 2..], stamp);
    }
  }

  lemma CorrectedPartsAsWritten<T>(parts: seq<string>, message: string, stamp: string -> Option<T>)
    ensures ReadParts(parts, message, stamp, LevelOf).Some? ==>
      ReadParts(parts, message, stamp, LevelAsWritten) == ReadParts(parts, message, stamp, LevelOf)
  {
    if |parts| >= 5 {
      LetterLookupAgrees(parts[4]);
    }
  }

  /** `LogcatParser.parse_line` as written, with the substring lookup. */
  function ParseLineAsWritten<T>(line: string, stamp: string -> Option<T>): (r: Option<Event<T>>)
    ensures r.Some? ==> var l := Text.Strip(line);
      && |l| > 0 && l[0] != '-'
      && (var i := Text.FindSub(l, ": "); i.Some? && r.value.message == l[i.value + 2..])
  {
    ParseLineWith(line, stamp, LevelAsWritten)
  }

  /** The events a line parser finds in a run of lines, in order. */
  function Collect<E>(lines: seq<string>, parse: string -> Option<E>): (events: seq<E>)
    ensures |events| <= |lines|
  {
    if |lines| == 0 then []
    else (if parse(lines[0]).Some? then [parse(lines[0]).value] else []) + Collect(lines[1..], parse)
  }

  /** `LogcatParser.parse` with the level lookup as a parameter: the events
      of the lines that parse, in order (an event object is always true,
      so `if event` only skips `None`). */
  function ParseWith<T>(lines: seq<string>, stamp: string -> Option<T>, lookup: string -> Option<Level>): (events: seq<Event<T>>)
    ensures |events| <= |lines|
  {
    Collect(lines, line => ParseLineWith(line, stamp, lookup))
  }

  /** `LogcatParser.parse` with the intended one-letter level lookup. */
  function Parse<T>(lines: seq<string>, stamp: string -> Option<T>): (events: seq<Event<T>>)
    ensures |events| <= |lines|
  {
    ParseWith(lines, stamp, LevelOf)
  }

  /** `LogcatParser.parse` as written, with the substring lookup. */
  function ParseAsWritten<T>(lines: seq<string>, stamp: string -> Option<T>): (events: seq<Event<T>>)
    ensures |events| <= |lines|
  {
    ParseWith(lines, stamp, LevelAsWritten)
  }

  /** A single line yields its event when it parses and nothing otherwise. */
  lemma ParseOne<T>(line: string, stamp: string -> Option<T>, lookup: string -> Option<Level>)
    ensures ParseLineWith(line, stamp, lookup).Some? ==>
      ParseWith([line], stamp, lookup) == [ParseLineWith(line, stamp, lookup).value]
    ensures ParseLineWith(line, stamp, lookup).None? ==> ParseWith([line], stamp, lookup) == []
  {
    assert [line][1..] == [];
  }

  /** Parsing a file is parsing its parts one after the other. */
  lemma ParseAppend<T>(a: seq<string>, b: seq<string>, stamp: string -> Option<T>, lookup: string -> Option<Level>)
    ensures ParseWith(a + b, stamp, lookup) == ParseWith(a, stamp, lookup) + ParseWith(b, stamp, lookup)
  {
    CollectAppend(a, b, line => ParseLineWith(line, stamp, lookup));
  }

  lemma {:induction false} CollectAppend<E>(a: seq<string>, b: seq<string>, parse: string -> Option<E>)
    ensures Collect(a + b, parse) == Collect(a, parse) + Collect(b, parse)
    decreases |a|
  {
    if |a| == 0 {
      assert a + b == b;
    } else {
      assert (a + b)[0] == a[0] && (a + b)[1..] == a[1..] + b;
      CollectAppend(a[1..], b, parse);
      var head := if parse(a[0]).Some? then [parse(a[0]).value] else [];
      Regroup(head, Collect(a[1..], parse), Collect(b, parse));
    }
  }

  lemma Regroup<E>(head: seq<E>, x: seq<E>, y: seq<E>)
    ensures head + (x + y) == (head + x) + y
  {
  }

  /** The events are exactly those of the lines that parse. */
  lemma ParseEvents<T>(lines: seq<string>, stamp: string -> Option<T>, lookup: string -> Option<Level>, e: Event<T>)
    ensures e in ParseWith(lines, stamp, lookup) <==>
      exists i :: 0 <= i < |lines| && ParseLineWith(lines[i], stamp, lookup) == Some(e)
  {
    var parse := line => ParseLineWith(line, stamp, lookup);
    if e in ParseWith(lines, stamp, lookup) {
      var i := EventSource(lines, parse, e);
      assert ParseLineWith(lines[i], stamp, lookup) == parse(lines[i]);
    }
    if exists i :: 0 <= i < |lines| && ParseLineWith(lines[i], stamp, lookup) == Some(e) {
      var i :| 0 <= i < |lines| && ParseLineWith(lines[i], stamp, lookup) == Some(e);
      assert parse(lines[i]) == Some(e);
      EventOfLine(lines, i, parse);
    }
  }

  /** Every event comes from a line that parses to it. */
  lemma {:induction false} EventSource<E>(lines: seq<string>, parse: string -> Option<E>, e: E) returns (i: nat)
    requires e in Collect(lines, parse)
    ensures i < |lines| && parse(lines[i]) == Some(e)
    decreases |lines|
  {
    if parse(lines[0]) == Some(e) {
      i := 0;
    } else {
      var j := EventSource(lines[1..], parse, e);
      i := j + 1;
      assert lines[i] == lines[1..][j];
    }
  }

  /** Every line that parses contributes its event. */
  lemma {:induction false} EventOfLine<E>(lines: seq<string>, i: nat, parse: string -> Option<E>)
    requires i < |lines| && parse(lines[i]).Some?
    ensures parse(lines[i]).value in Collect(lines, parse)
    decreases i
  {
    if i > 0 {
      assert lines[1..][i - 1] == lines[i];
      EventOfLine(lines[1..], i - 1, parse);
    }
  }

  /** Every event the corrected parser finds in a file, the source finds
      too. */
  lemma CorrectedEventsAsWritten<T>(lines: seq<string>, stamp: string -> Option<T>, e: Event<T>)
    requires e in Parse(lines, stamp)
    ensures e in ParseAsWritten(lines, stamp)
  {
    ParseEvents(lines, stamp, LevelOf, e);
    var i :| 0 <= i < |lines| && ParseLineWith(lines[i], stamp, LevelOf) == Some(e);
    assert ParseLine(lines[i], stamp) == Some(e);
    ParseEvents(lines, stamp, LevelAsWritten, e);
  }

  // ---------------------------------------------------------------------
  // The line format and its round trip

  /** Fields, each followed by a run of whitespace, then a last part that
      may hold whitespace of its own. */
  function Layout(fields: seq<string>, seps: seq<string>, last: string): string
    requires |seps| == |fields|
  {
    if |fields| == 0 then last
    else fields[0] + (seps[0] + Layout(fields[1..], seps[1..], last))
  }

  /** A non-empty run of whitespace. */
  predicate IsRun(sep: string) {
    |sep| > 0 && Text.AllSpace(sep)
  }

  /** `n` spaces (none when `n` is not positive). */
  function Spaces(n: int): (r: string)
    ensures |r| == if n > 0 then n else 0
    ensures Text.AllSpace(r)
  {
    if n <= 0 then "" else Spaces(n - 1) + " "
  }

  /** A logcat line laid out with the given whitespace: the runs `seps`
      after the date, the time, the pid, the tid and the level token, and
      `pad` after the tag. */
  function LaidOut(date: string, time: string, pid: int, tid: int, token: string, seps: seq<string>,
                   tag: string, pad: string, message: string): string
    requires |seps| == 5
  {
    Layout([date, time, Text.RenderInt(pid), Text.RenderInt(tid), token], seps, tag + pad) + ": " + message
  }

  /** The whitespace of logcat's threadtime format `%s %5d %5d %c %-8s: %s`
      after the date, the time, the pid, the tid and the level. */
  function ThreadtimeSeps(pid: int, tid: int): (seps: seq<string>)
    ensures |seps| == 5 && forall i :: 0 <= i < 5 ==> IsRun(seps[i])
  {
    [" ", " " + Spaces(5 - |Text.RenderInt(pid)|), " " + Spaces(5 - |Text.RenderInt(tid)|), " ", " "]
  }

  /** A threadtime line with the given level token: pid and tid
      right-aligned in five columns, the tag left-aligned in eight. */
  function FormatFields(date: string, time: string, pid: int, tid: int, token: string, tag: string, message: string): string {
    LaidOut(date, time, pid, tid, token, ThreadtimeSeps(pid, tid), tag, Spaces(8 - |tag|), message)
  }

  /** The threadtime line logcat prints for an event: the message follows
      the first `": "` of the line whenever the date, time and tag are
      printable. */
  function FormatLine(date: string, time: string, pid: int, tid: int, level: Level, tag: string, message: string): (line: string)
    ensures |line| >= |message| + 2 && line[|line| - |message|..] == message
    ensures IsField(date) && IsField(time) && PrintableTag(tag) ==>
      Text.FindSub(line, ": ") == Some(|line| - |message| - 2)
  {
    var seps := ThreadtimeSeps(pid, tid);
    var line := FormatFields(date, time, pid, tid, [Letter(level)], tag, message);
    if IsField(date) && IsField(time) && PrintableTag(tag) then
      LetterIsField(level);
      LaidOutSeparator(date, time, pid, tid, [Letter(level)], seps, tag, Spaces(8 - |tag|), message);
      line
    else
      line
  }

  /** A metadata field that whitespace may follow: a word that does not end
      in a colon, so that a space after it does not form `": "`. Colons
      inside it, as in a time `12:34:56.789`, are allowed. */
  predicate IsField(s: string) {
    Text.IsWord(s) && s[|s| - 1] != ':'
  }

  /** A tag that logcat can print and the parser read back: non-empty,
      without surrounding whitespace (inner spaces are allowed), without
      `": "`, and not ending in a colon, which the padding would turn into
      a separator. */
  predicate PrintableTag(tag: string) {
    && |tag| > 0
    && !Text.IsSpace(tag[0]) && !Text.IsSpace(tag[|tag| - 1])
    && NoSeparator(tag)
    && tag[|tag| - 1] != ':'
  }

  lemma RenderIntIsField(i: int)
    ensures IsField(Text.RenderInt(i))
  {
    var r := Text.RenderInt(i);
    assert Text.IsDigit(r[|r| - 1]) || r[|r| - 1] == '-';
  }

  /** `": "` starts at position `k` of `s`. */
  predicate SeparatorAt(s: string, k: int) {
    0 <= k && k + 2 <= |s| && s[k] == ':' && s[k + 1] == ' '
  }

  lemma SeparatorAtIff(s: string, k: nat)
    requires k <= |s|
    ensures ": " <= s[k..] <==> SeparatorAt(s, k)
  {
    if SeparatorAt(s, k) {
      assert s[k..][..2] == ": ";
    }
  }

  /** No `": "` occurs in `s`. */
  predicate NoSeparator(s: string) {
    forall k :: 0 <= k < |s| ==> !SeparatorAt(s, k)
  }

  /** Two texts without `": "` joined together have none either, unless
      the first ends in the colon of a new one. */
  lemma NoSeparatorAppend(a: string, b: string)
    requires NoSeparator(a) && NoSeparator(b)
    requires |a| == 0 || a[|a| - 1] != ':'
    ensures NoSeparator(a + b)
  {
    var s := a + b;
    forall k | 0 <= k < |s|
      ensures !SeparatorAt(s, k)
    {
      if k + 1 < |a| {
        assert !SeparatorAt(a, k);
        assert s[k] == a[k] && s[k + 1] == a[k + 1];
      } else if k + 1 == |a| {
        assert s[k] == a[|a| - 1];
      } else {
        assert !SeparatorAt(b, k - |a|);
        assert s[k] == b[k - |a|];
        if k + 1 < |s| {
          assert s[k + 1] == b[k + 1 - |a|];
        }
      }
    }
  }

  /** Text without whitespace holds no `": "`. */
  lemma NoSpaceHasNoSeparator(w: string)
    requires Text.NoSpace(w)
    ensures NoSeparator(w)
  {
    forall k | 0 <= k < |w|
      ensures !SeparatorAt(w, k)
    {
      if k + 1 < |w| {
        assert !Text.IsSpace(w[k + 1]);
      }
    }
  }

  /** Whitespace holds no colon, so no `": "`. */
  lemma SpaceHasNoSeparator(w: string)
    requires Text.AllSpace(w)
    ensures NoSeparator(w)
  {
    forall k | 0 <= k < |w|
      ensures !SeparatorAt(w, k)
    {
      assert Text.IsSpace(w[k]);
    }
  }

  /** A laid-out text starts with its first field, or with the last part
      when there are no fields. */
  lemma LayoutStart(fields: seq<string>, seps: seq<string>, last: string)
    requires |seps| == |fields|
    requires |fields| > 0 ==> Text.IsWord(fields[0])
    requires |last| > 0 && !Text.IsSpace(last[0])
    ensures |Layout(fields, seps, last)| > 0 && !Text.IsSpace(Layout(fields, seps, last)[0])
  {
    if |fields| > 0 {
      assert Layout(fields, seps, last)[0] == fields[0][0];
    }
  }

  /** Fields separated by whitespace runs and followed by a last part that
      starts with no whitespace split back into the fields and that part,
      whatever the lengths of the runs. */
  lemma {:induction false} LayoutSplits(fields: seq<string>, seps: seq<string>, last: string)
    requires |seps| == |fields|
    requires forall i :: 0 <= i < |fields| ==> Text.IsWord(fields[i])
    requires forall i :: 0 <= i < |seps| ==> IsRun(seps[i])
    requires |last| > 0 && !Text.IsSpace(last[0])
    ensures Text.SplitWs(Layout(fields, seps, last), |fields|) == fields + [last]
  {
    if |fields| == 0 {
      Text.SplitWsRest(last);
    } else {
      var rest := Layout(fields[1..], seps[1..], last);
      LayoutSplits(fields[1..], seps[1..], last);
      LayoutStart(fields[1..], seps[1..], last);
      assert Text.IsWord(fields[0]) && IsRun(seps[0]);
      Text.SplitWsRun(fields[0], seps[0], rest, |fields|);
      Regroup([fields[0]], fields[1..], [last]);
      assert [fields[0]] + fields[1..] == fields;
    }
  }

  /** The metadata of a laid-out line holds no `": "` when no field ends
      in a colon and the last part holds none. */
  lemma {:induction false} LayoutHasNoSeparator(fields: seq<string>, seps: seq<string>, last: string)
    requires |seps| == |fields|
    requires forall i :: 0 <= i < |fields| ==> IsField(fields[i])
    requires forall i :: 0 <= i < |seps| ==> IsRun(seps[i])
    requires NoSeparator(last)
    ensures NoSeparator(Layout(fields, seps, last))
  {
    if |fields| > 0 {
      var rest := Layout(fields[1..], seps[1..], last);
      LayoutHasNoSeparator(fields[1..], seps[1..], last);
      var sep := seps[0];
      assert IsRun(sep) && IsField(fields[0]);
      SpaceHasNoSeparator(sep);
      assert Text.IsSpace(sep[|sep| - 1]);
      NoSeparatorAppend(sep, rest);
      NoSpaceHasNoSeparator(fields[0]);
      NoSeparatorAppend(fields[0], sep + rest);
    }
  }

  /** In a line `meta + ": " + message` where `meta` holds no `": "`, the
      first `": "` is the one after `meta` (even when `meta` ends in a
      colon). */
  lemma FirstSeparator(meta: string, message: string)
    requires NoSeparator(meta)
    ensures Text.FindSub(meta + ": " + message, ": ") == Some(|meta|)
  {
    var line := meta + ": " + message;
    assert SeparatorAt(line, |meta|);
    SeparatorAtIff(line, |meta|);
    forall k | 0 <= k < |meta|
      ensures !(": " <= line[k..])
    {
      SeparatorAtIff(line, k);
      if k + 1 < |meta| {
        assert !SeparatorAt(meta, k);
        assert line[k] == meta[k] && line[k + 1] == meta[k + 1];
      } else {
        assert line[k + 1] == ':';
      }
    }
    Text.FindSubAt(line, ": ", |meta|);
  }

  /** In a laid-out line the first `": "` is the one after the tag and its
      padding, whatever the whitespace between the fields. */
  lemma LaidOutSeparator(date: string, time: string, pid: int, tid: int, token: string, seps: seq<string>,
                         tag: string, pad: string, message: string)
    requires IsField(date) && IsField(time) && IsField(token)
    requires |seps| == 5 && forall i :: 0 <= i < 5 ==> IsRun(seps[i])
    requires PrintableTag(tag) && Text.AllSpace(pad)
    ensures var line := LaidOut(date, time, pid, tid, token, seps, tag, pad, message);
      Text.FindSub(line, ": ") == Some(|line| - |message| - 2)
  {
    var fields := [date, time, Text.RenderInt(pid), Text.RenderInt(tid), token];
    RenderIntIsField(pid);
    RenderIntIsField(tid);
    assert forall i :: 0 <= i < 5 ==> IsField(fields[i]);
    SpaceHasNoSeparator(pad);
    NoSeparatorAppend(tag, pad);
    LayoutHasNoSeparator(fields, seps, tag + pad);
    FirstSeparator(Layout(fields, seps, tag + pad), message);
  }

  /** A line made of metadata without `": "`, then `": "` and a message,
      is split at that separator. */
  lemma SplitAtSeparator<T>(meta: string, message: string, stamp: string -> Option<T>, lookup: string -> Option<Level>)
    requires |meta| > 0 && NoSeparator(meta) && meta[0] != '-' && !Text.IsSpace(meta[0])
    requires |message| > 0 && !Text.IsSpace(message[|message| - 1])
    ensures ParseLineWith(meta + ": " + message, stamp, lookup) == ParseMetadata(meta, message, stamp, lookup)
  {
    var line := meta + ": " + message;
    assert line[0] == meta[0];
    assert line[|line| - 1] == message[|message| - 1];
    Text.StripUnchanged(line);
    FirstSeparator(meta, message);
    assert line[..|meta|] == meta;
    assert line[|meta| + 2..] == message;
  }

  /** The metadata of a laid-out line reads back as its fields, whatever
      the whitespace between them. */
  lemma ReadFields<T>(date: string, time: string, pid: int, tid: int, token: string, seps: seq<string>,
                      tag: string, pad: string, message: string, stamp: string -> Option<T>,
                      lookup: string -> Option<Level>, t: T)
    requires IsField(date) && IsField(time) && IsField(token)
    requires |seps| == 5 && forall i :: 0 <= i < 5 ==> IsRun(seps[i])
    requires |tag| > 0 && !Text.IsSpace(tag[0]) && !Text.IsSpace(tag[|tag| - 1]) && Text.AllSpace(pad)
    requires stamp(date + " " + time) == Some(t)
    ensures ParseMetadata(Layout([date, time, Text.RenderInt(pid), Text.RenderInt(tid), token], seps, tag + pad),
                          message, stamp, lookup) ==
      if lookup(token).Some? then Some(Event(t, pid, tid, lookup(token).value, tag, message)) else None
  {
    var fields := [date, time, Text.RenderInt(pid), Text.RenderInt(tid), token];
    RenderIntIsField(pid);
    RenderIntIsField(tid);
    assert forall i :: 0 <= i < 5 ==> IsField(fields[i]);
    assert (tag + pad)[0] == tag[0];
    LayoutSplits(fields, seps, tag + pad);
    assert fields + [tag + pad] == [date, time, Text.RenderInt(pid), Text.RenderInt(tid), token, tag + pad];
    ReadSixParts(date, time, pid, tid, token, tag + pad, message, stamp, lookup, t);
    Text.StripPadded("", tag, pad);
    assert "" + tag + pad == tag + pad;
  }

  /** Six fields in the order `parse_line` pops them read as an event with
      the stripped last field as its tag. */
  lemma ReadSixParts<T>(date: string, time: string, pid: int, tid: int, token: string, last: string,
                        message: string, stamp: string -> Option<T>, lookup: string -> Option<Level>, t: T)
    requires stamp(date + " " + time) == Some(t)
    ensures ReadParts([date, time, Text.RenderInt(pid), Text.RenderInt(tid), token, last], message, stamp, lookup) ==
      if lookup(token).Some? then Some(Event(t, pid, tid, lookup(token).value, Text.Strip(last), message)) else None
  {
    Text.ParseRenderInt(pid);
    Text.ParseRenderInt(tid);
  }

  /** Parsing a laid-out line recovers its fields, whatever the runs of
      whitespace between them and the padding after the tag, and whatever
      the level lookup makes of the level token. */
  lemma ParseLaidOut<T>(date: string, time: string, pid: int, tid: int, token: string, seps: seq<string>,
                        tag: string, pad: string, message: string, stamp: string -> Option<T>,
                        lookup: string -> Option<Level>, t: T)
    requires IsField(date) && IsField(time) && IsField(token)
    requires date[0] != '-'
    requires |seps| == 5 && forall i :: 0 <= i < 5 ==> IsRun(seps[i])
    requires PrintableTag(tag) && Text.AllSpace(pad)
    requires |message| > 0 && !Text.IsSpace(message[|message| - 1])
    requires stamp(date + " " + time) == Some(t)
    ensures ParseLineWith(LaidOut(date, time, pid, tid, token, seps, tag, pad, message), stamp, lookup) ==
      if lookup(token).Some? then Some(Event(t, pid, tid, lookup(token).value, tag, message)) else None
  {
    var fields := [date, time, Text.RenderInt(pid), Text.RenderInt(tid), token];
    RenderIntIsField(pid);
    RenderIntIsField(tid);
    assert forall i :: 0 <= i < 5 ==> IsField(fields[i]);
    SpaceHasNoSeparator(pad);
    NoSeparatorAppend(tag, pad);
    LayoutHasNoSeparator(fields, seps, tag + pad);
    var meta := Layout(fields, seps, tag + pad);
    assert meta[0] == date[0];
    LayoutStart(fields, seps, tag + pad);
    SplitAtSeparator(meta, message, stamp, lookup);
    ReadFields(date, time, pid, tid, token, seps, tag, pad, message, stamp, lookup, t);
  }

  /** Parsing a threadtime line recovers its fields, whatever the level
      lookup makes of the level token. */
  lemma ParseFormatted<T>(date: string, time: string, pid: int, tid: int, token: string,
                          tag: string, message: string, stamp: string -> Option<T>,
                          lookup: string -> Option<Level>, t: T)
    requires IsField(date) && IsField(time) && IsField(token) && PrintableTag(tag)
    requires date[0] != '-'
    requires |message| > 0 && !Text.IsSpace(message[|message| - 1])
    requires stamp(date + " " + time) == Some(t)
    ensures ParseLineWith(FormatFields(date, time, pid, tid, token, tag, message), stamp, lookup) ==
      if lookup(token).Some? then Some(Event(t, pid, tid, lookup(token).value, tag, message)) else None
  {
    ParseLaidOut(date, time, pid, tid, token, ThreadtimeSeps(pid, tid), tag, Spaces(8 - |tag|), message, stamp, lookup, t);
  }

  /** `parse_line` inverts logcat's threadtime line format. */
  lemma ParseFormatLine<T>(date: string, time: string, pid: int, tid: int, level: Level,
                           tag: string, message: string, stamp: string -> Option<T>, t: T)
    requires IsField(date) && IsField(time) && PrintableTag(tag)
    requires date[0] != '-'
    requires |message| > 0 && !Text.IsSpace(message[|message| - 1])
    requires stamp(date + " " + time) == Some(t)
    ensures ParseLine(FormatLine(date, time, pid, tid, level, tag, message), stamp) ==
      Some(Event(t, pid, tid, level, tag, message))
  {
    LevelOfLetter(level);
    LetterIsField(level);
    ParseFormatted(date, time, pid, tid, [Letter(level)], tag, message, stamp, LevelOf, t);
  }

  /** A word that does not end in a colon is a printable tag. */
  lemma FieldIsPrintableTag(tag: string)
    requires IsField(tag)
    ensures PrintableTag(tag)
  {
    NoSpaceHasNoSeparator(tag);
  }

  /** A threadtime line with a time full of colons, a padded pid and tid
      and a padded tag reads back as its event. */
  lemma ParseRealLine<T>(stamp: string -> Option<T>, t: T)
    requires stamp("03-15 12:34:56.789") == Some(t)
    ensures ParseLine(FormatLine("03-15", "12:34:56.789", 123, 4567, Info, "Zygote", "Start proc"), stamp) ==
      Some(Event(t, 123, 4567, Info, "Zygote", "Start proc"))
  {
    RealLineFields();
    FieldIsPrintableTag("Zygote");
    assert "03-15" + " " + "12:34:56.789" == "03-15 12:34:56.789";
    ParseFormatLine("03-15", "12:34:56.789", 123, 4567, Info, "Zygote", "Start proc", stamp, t);
  }

  /** The example line's whitespace: the pid `123` takes three spaces
      before it, the tid `4567` two, and `Zygote` two spaces of padding, as
      in `03-15 12:34:56.789   123  4567 I Zygote  : Start proc`. */
  lemma RealLineLayout()
    ensures ThreadtimeSeps(123, 4567) == [" ", "   ", "  ", " ", " "]
    ensures Spaces(8 - |"Zygote"|) == "  "
  {
    RealLineWidths();
    SmallPads();
    assert " " + Spaces(2) == "   ";
    assert " " + Spaces(1) == "  ";
  }

  lemma RealLineWidths()
    ensures |Text.RenderInt(123)| == 3 && |Text.RenderInt(4567)| == 4
  {
    assert Text.RenderNat(123) == Text.RenderNat(12) + [Text.DigitChar(3)];
    assert Text.RenderNat(12) == Text.RenderNat(1) + [Text.DigitChar(2)];
    assert Text.RenderNat(4567) == Text.RenderNat(456) + [Text.DigitChar(7)];
    assert Text.RenderNat(456) == Text.RenderNat(45) + [Text.DigitChar(6)];
    assert Text.RenderNat(45) == Text.RenderNat(4) + [Text.DigitChar(5)];
  }

  lemma SmallPads()
    ensures Spaces(1) == " " && Spaces(2) == "  "
  {
    assert Spaces(0) == "";
  }

  lemma RealLineFields()
    ensures IsField("03-15") && IsField("12:34:56.789") && IsField("Zygote")
  {
    assert Text.NoSpace("03-15") && Text.NoSpace("12:34:56.789") && Text.NoSpace("Zygote");
  }

  /** A level letter is a metadata field. */
  lemma LetterIsField(l: Level)
    ensures IsField([Letter(l)])
  {
    var c := Letter(l);
    assert c in LevelMap;
    assert !Text.IsSpace(c) && c != ':';
  }

  /** As written, a line whose level field is `WE` parses, as a warning;
      with the one-letter lookup it is rejected as invalid metadata. */
  lemma AsWrittenAcceptsTwoLetterLevel<T>(date: string, time: string, pid: int, tid: int,
                                          tag: string, message: string, stamp: string -> Option<T>, t: T)
    requires IsField(date) && IsField(time) && PrintableTag(tag)
    requires date[0] != '-'
    requires |message| > 0 && !Text.IsSpace(message[|message| - 1])
    requires stamp(date + " " + time) == Some(t)
    ensures ParseLineAsWritten(FormatFields(date, time, pid, tid, "WE", tag, message), stamp) ==
      Some(Event(t, pid, tid, Warn, tag, message))
    ensures ParseLine(FormatFields(date, time, pid, tid, "WE", tag, message), stamp).None?
  {
    assert IsField("WE");
    assert ParseLineAsWritten(FormatFields(date, time, pid, tid, "WE", tag, message), stamp) ==
      Some(Event(t, pid, tid, Warn, tag, message)) by {
      TwoLetterTokenAccepted();
      ParseFormatted(date, time, pid, tid, "WE", tag, message, stamp, LevelAsWritten, t);
    }
    assert LevelOf("WE").None?;
    ParseFormatted(date, time, pid, tid, "WE", tag, message, stamp, LevelOf, t);
  }

  /** As written, `parse` yields a warning for a line with level field
      `WE`; the corrected parser yields nothing for it. */
  lemma AsWrittenParseKeepsTwoLetterLevel<T>(date: string, time: string, pid: int, tid: int,
                                             tag: string, message: string, stamp: string -> Option<T>, t: T)
    requires IsField(date) && IsField(time) && PrintableTag(tag)
    requires date[0] != '-'
    requires |message| > 0 && !Text.IsSpace(message[|message| - 1])
    requires stamp(date + " " + time) == Some(t)
    ensures ParseAsWritten([FormatFields(date, time, pid, tid, "WE", tag, message)], stamp) ==
      [Event(t, pid, tid, Warn, tag, message)]
    ensures Parse([FormatFields(date, time, pid, tid, "WE", tag, message)], stamp) == []
  {
    var line := FormatFields(date, time, pid, tid, "WE", tag, message);
    AsWrittenAcceptsTwoLetterLevel(date, time, pid, tid, tag, message, stamp, t);
    ParseOne(line, stamp, LevelAsWritten);
    ParseOne(line, stamp, LevelOf);
  }
}
