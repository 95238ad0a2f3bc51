/** String helpers with the semantics of the Python built-ins the source
    relies on: `os.path.basename`, `str.split(sep)`, `in` on strings,
    `str.strip()`, `str.split(None, n)`, `int(text)` and `str(int)`. */
module Text {
  import opened Wrappers

  // ---------------------------------------------------------------------
  // Character search

  /** Position of the first `c` in `s` (Python `str.find` for one char). */
  function IndexOf(s: string, c: char): (r: Option<nat>)
    ensures r.Some? ==> r.value < |s| && s[r.value] == c && c !in s[..r.value]
    ensures r.None? ==> c !in s
  {
    if |s| == 0 then None
    else if s[0] == c then Some(0)
    else
      match IndexOf(s[1..], c)
      case None => None
      case Some(i) =>
        assert s[..i + 1] == [s[0]] + s[1..][..i];
        Some(i + 1)
  }

  /** Position of the last `c` in `s` (Python `str.rfind` for one char). */
  function LastIndexOf(s: string, c: char): (r: Option<nat>)
    ensures r.Some? ==> r.value < |s| && s[r.value] == c && c !in s[r.value + 1..]
    ensures r.None? ==> c !in s
  {
    if |s| == 0 then None
    else if s[|s| - 1] == c then Some(|s| - 1)
    else
      var r := LastIndexOf(s[..|s| - 1], c);
      if r.Some? then
        assert s[r.value + 1..] == s[..|s| - 1][r.value + 1..] + [s[|s| - 1]];
        r
      else
        assert s == s[..|s| - 1] + [s[|s| - 1]];
        r
  }

  /** A `c` with no `c` after it is the last one. */
  lemma LastIndexOfAt(s: string, c: char, i: nat)
    requires i < |s| && s[i] == c
    requires forall j :: i < j < |s| ==> s[j] != c
    ensures LastIndexOf(s, c) == Some(i)
  {
    var r := LastIndexOf(s, c);
    assert r.Some?;
    forall j | r.value < j < |s|
      ensures s[j] != c
    {
      assert s[r.value + 1..][j - r.value - 1] == s[j];
    }
  }

  /** `os.path.basename`: the text after the last `/`. */
  function Basename(path: string): (r: string)
    ensures '/' !in r
    ensures |r| <= |path| && path == path[..|path| - |r|] + r
    ensures |r| < |path| ==> path[|path| - |r| - 1] == '/'
    ensures '/' !in path ==> r == path
  {
    match LastIndexOf(path, '/')
    case None => path
    case Some(i) => path[i + 1..]
  }

  /** The base name of a file in a directory is the file's name. */
  lemma BasenameAfterDir(dir: string, name: string)
    requires |dir| == 0 || dir[|dir| - 1] == '/'
    requires '/' !in name
    ensures Basename(dir + name) == name
  {
    var p := dir + name;
    if |dir| > 0 {
      forall j | |dir| - 1 < j < |p|
        ensures p[j] != '/'
      {
        assert p[j] == name[j - |dir|];
      }
      LastIndexOfAt(p, '/', |dir| - 1);
      assert p[|dir|..] == name;
    }
  }

  // ---------------------------------------------------------------------
  // str.split(sep) and its inverse

  /** Python `s.split(sep)` for a one-character separator: never empty,
      and empty fields are kept. */
  function Split(s: string, sep: char): (parts: seq<string>)
    ensures |parts| >= 1
    ensures forall i :: 0 <= i < |parts| ==> sep !in parts[i]
    decreases |s|
  {
    match IndexOf(s, sep)
    case None => [s]
    case Some(i) => [s[..i]] + Split(s[i + 1..], sep)
  }

  /** Python `sep.join(parts)`. */
  function Join(parts: seq<string>, sep: char): string
  {
    if |parts| == 0 then ""
    else if |parts| == 1 then parts[0]
    else parts[0] + [sep] + Join(parts[1..], sep)
  }

  lemma {:induction false} JoinSplit(s: string, sep: char)
    ensures Join(Split(s, sep), sep) == s
    decreases |s|
  {
    match IndexOf(s, sep)
    case None =>
    case Some(i) =>
      var tail := Split(s[i + 1..], sep);
      var parts := Split(s, sep);
      assert parts == [s[..i]] + tail;
      assert parts[1..] == tail;
      JoinSplit(s[i + 1..], sep);
      assert Join(parts, sep) == s[..i] + [sep] + Join(tail, sep);
      assert s == s[..i] + [sep] + s[i + 1..];
  }

  lemma {:induction false} IndexOfAfter(x: string, sep: char, rest: string)
    requires sep !in x
    ensures IndexOf(x + [sep] + rest, sep) == Some(|x|)
  {
    if |x| > 0 {
      assert (x + [sep] + rest)[1..] == x[1..] + [sep] + rest;
      IndexOfAfter(x[1..], sep, rest);
    }
  }

  /** A joined string starts with its first part. */
  lemma JoinStartsWith(parts: seq<string>, sep: char)
    requires |parts| >= 1
    ensures parts[0] <= Join(parts, sep)
  {}

  /** A joined string holds a character other than the separator only if
      one of its parts does. */
  lemma {:induction false} JoinWithout(parts: seq<string>, sep: char, c: char)
    requires c != sep
    requires forall i :: 0 <= i < |parts| ==> c !in parts[i]
    ensures c !in Join(parts, sep)
  {
    if |parts| > 1 {
      JoinWithout(parts[1..], sep, c);
      assert c !in parts[0];
    }
  }

  lemma {:induction false} SplitJoin(parts: seq<string>, sep: char)
    requires |parts| >= 1
    requires forall i :: 0 <= i < |parts| ==> sep !in parts[i]
    ensures Split(Join(parts, sep), sep) == parts
  {
    if |parts| > 1 {
      SplitCons(parts[0], sep, Join(parts[1..], sep));
      SplitJoin(parts[1..], sep);
      assert parts == [parts[0]] + parts[1..];
    }
  }

  /** A separator-free part followed by the separator splits off first. */
  lemma SplitCons(a: string, sep: char, rest: string)
    requires sep !in a
    ensures Split(a + [sep] + rest, sep) == [a] + Split(rest, sep)
  {
    var s := a + [sep] + rest;
    IndexOfAfter(a, sep, rest);
    assert s[..|a|] == a;
    assert s[|a| + 1..] == rest;
  }

  // ---------------------------------------------------------------------
  // Substring search (`t in s`, `s.find(t)`)

  /** Position of the first occurrence of `t` in `s`. */
  function FindSub(s: string, t: string): (r: Option<nat>)
    ensures r.Some? ==> r.value + |t| <= |s| && t <= s[r.value..]
    ensures r.Some? ==> forall j :: 0 <= j < r.value ==> !(t <= s[j..])
    ensures r.None? ==> forall j :: 0 <= j <= |s| ==> !(t <= s[j..])
    decreases |s|
  {
    if t <= s then Some(0)
    else if |s| == 0 then None
    else
      var r := FindSub(s[1..], t);
      assert forall j :: 1 <= j <= |s| ==> s[j..] == s[1..][j - 1..];
      match r
      case None => None
      case Some(i) => Some(i + 1)
  }

  /** Python `t in s` for strings. */
  predicate Contains(s: string, t: string) {
    FindSub(s, t).Some?
  }

  /** An occurrence with none before it is the first one. */
  lemma FindSubAt(s: string, t: string, j: nat)
    requires j <= |s| && t <= s[j..]
    requires forall k :: 0 <= k < j ==> !(t <= s[k..])
    ensures FindSub(s, t) == Some(j)
  {
    var r := FindSub(s, t);
    assert r.Some?;
  }

  /** Searching for a one-character string is searching for the character. */
  lemma FindSubChar(s: string, c: char)
    ensures FindSub(s, [c]) == IndexOf(s, c)
  {
    match IndexOf(s, c)
    case None =>
      forall j | 0 <= j <= |s|
        ensures !([c] <= s[j..])
      {
        if j < |s| {
          assert s[j..][0] == s[j];
        }
      }
    case Some(i) =>
      forall k | 0 <= k < i
        ensures !([c] <= s[k..])
      {
        assert s[k..][0] == s[..i][k];
      }
      FindSubAt(s, [c], i);
  }

  lemma ContainsAt(s: string, t: string, j: nat)
    requires j <= |s| && t <= s[j..]
    ensures Contains(s, t)
  {}

  // ---------------------------------------------------------------------
  // Whitespace, as Python's `str.isspace` defines it

  predicate IsSpace(c: char) {
    || ('\t' <= c <= '\r')
    || ('\U{1c}' <= c <= '\U{1f}')
    || c == ' ' || c == '\U{85}' || c == '\U{a0}' || c == '\U{1680}'
    || ('\U{2000}' <= c <= '\U{200a}')
    || c == '\U{2028}' || c == '\U{2029}' || c == '\U{202f}'
    || c == '\U{205f}' || c == '\U{3000}'
  }

  predicate NoSpace(s: string) {
    forall i :: 0 <= i < |s| ==> !IsSpace(s[i])
  }

  predicate AllSpace(s: string) {
    forall i :: 0 <= i < |s| ==> IsSpace(s[i])
  }

  /** `s.lstrip()`. */
  function TrimStart(s: string): (r: string)
    ensures |r| <= |s| && r == s[|s| - |r|..]
    ensures forall i :: 0 <= i < |s| - |r| ==> IsSpace(s[i])
    ensures |r| == 0 || !IsSpace(r[0])
  {
    if |s| > 0 && IsSpace(s[0]) then TrimStart(s[1..]) else s
  }

  /** `s.rstrip()`. */
  function TrimEnd(s: string): (r: string)
    ensures |r| <= |s| && r == s[..|r|]
    ensures forall i :: |r| <= i < |s| ==> IsSpace(s[i])
    ensures |r| == 0 || !IsSpace(r[|r| - 1])
  {
    if |s| > 0 && IsSpace(s[|s| - 1]) then TrimEnd(s[..|s| - 1]) else s
  }

  /** `s.strip()`: drops leading and trailing whitespace, nothing else. */
  function Strip(s: string): (r: string)
    ensures |r| == 0 || (!IsSpace(r[0]) && !IsSpace(r[|r| - 1]))
  {
    TrimEnd(TrimStart(s))
  }

  lemma {:induction false} TrimStartOfSpaces(w: string, x: string)
    requires AllSpace(w)
    requires |x| == 0 || !IsSpace(x[0])
    ensures TrimStart(w + x) == x
  {
    if |w| > 0 {
      assert (w + x)[1..] == w[1..] + x;
      TrimStartOfSpaces(w[1..], x);
    }
  }

  lemma {:induction false} TrimEndOfSpaces(x: string, w: string)
    requires AllSpace(w)
    requires |x| == 0 || !IsSpace(x[|x| - 1])
    ensures TrimEnd(x + w) == x
  {
    if |w| > 0 {
      assert (x + w)[..|x + w| - 1] == x + w[..|w| - 1];
      TrimEndOfSpaces(x, w[..|w| - 1]);
    }
  }

  /** Stripping a string padded with whitespace recovers the inner text. */
  lemma StripPadded(w1: string, x: string, w2: string)
    requires AllSpace(w1) && AllSpace(w2)
    requires |x| == 0 || (!IsSpace(x[0]) && !IsSpace(x[|x| - 1]))
    ensures Strip(w1 + x + w2) == x
  {
    assert w1 + x + w2 == w1 + (x + w2);
    if |x| == 0 {
      assert AllSpace(w1 + w2);
      TrimStartOfSpaces(w1 + w2, "");
      assert w1 + x + w2 == (w1 + w2) + "";
    } else {
      TrimStartOfSpaces(w1, x + w2);
    }
    TrimEndOfSpaces(x, w2);
  }

  // ---------------------------------------------------------------------
  // str.split(None, maxsplit)

  /** The longest prefix of `s` free of whitespace. */
  function Token(s: string): (r: string)
    ensures r <= s && NoSpace(r)
    ensures |r| < |s| ==> IsSpace(s[|r|])
    ensures |s| > 0 && !IsSpace(s[0]) ==> |r| > 0
  {
    if |s| == 0 || IsSpace(s[0]) then ""
    else [s[0]] + Token(s[1..])
  }

  /** Python `s.split(None, maxsplit)`: runs of whitespace separate fields;
      after `maxsplit` fields the rest, with its leading whitespace
      dropped, is one last field. */
  function SplitWs(s: string, maxsplit: nat): (parts: seq<string>)
    ensures |parts| <= maxsplit + 1
    ensures forall i :: 0 <= i < |parts| ==> |parts[i]| > 0
    decreases |s|
  {
    var t := TrimStart(s);
    if |t| == 0 then []
    else if maxsplit == 0 then [t]
    else
      var tok := Token(t);
      assert |tok| > 0 && |t[|tok|..]| < |s|;
      var more := SplitWs(t[|tok|..], maxsplit - 1);
      NonEmptyCons(tok, more);
      [tok] + more
  }

  /** Fields that are all non-empty stay so with one more in front. */
  lemma NonEmptyCons(tok: string, more: seq<string>)
    requires |tok| > 0
    requires forall i :: 0 <= i < |more| ==> |more[i]| > 0
    ensures forall i :: 0 <= i < |[tok] + more| ==> |([tok] + more)[i]| > 0
  {
  }

  /** A string already free of surrounding whitespace is its own strip. */
  lemma StripUnchanged(s: string)
    requires |s| == 0 || (!IsSpace(s[0]) && !IsSpace(s[|s| - 1]))
    ensures Strip(s) == s
  {
    StripPadded("", s, "");
    assert "" + s + "" == s;
  }

  /** The token at the start of `tok + rest`, where whitespace or the end
      follows `tok`, is `tok`. */
  lemma {:induction false} TokenOf(tok: string, rest: string)
    requires NoSpace(tok)
    requires |rest| == 0 || IsSpace(rest[0])
    ensures Token(tok + rest) == tok
  {
    if |tok| > 0 {
      assert (tok + rest)[1..] == tok[1..] + rest;
      TokenOf(tok[1..], rest);
      assert tok == [tok[0]] + tok[1..];
    } else {
      assert tok + rest == rest;
    }
  }

  /** A non-empty string without whitespace. */
  predicate IsWord(s: string) {
    |s| > 0 && NoSpace(s)
  }

  /** A single word splits into itself. */
  lemma SplitWsWord(tok: string, n: nat)
    requires |tok| > 0 && NoSpace(tok)
    ensures SplitWs(tok, n) == [tok]
  {
    TrimStartOfSpaces("", tok);
    assert "" + tok == tok;
    if n > 0 {
      TokenOf(tok, "");
      assert tok + "" == tok;
      assert tok[|tok|..] == "";
    }
  }

  /** A word followed by one space and more text splits off as the first
      field. */
  lemma SplitWsCons(tok: string, rest: string, n: nat)
    requires |tok| > 0 && NoSpace(tok)
    requires |rest| == 0 || !IsSpace(rest[0])
    requires n > 0
    ensures SplitWs(tok + ([' '] + rest), n) == [tok] + SplitWs(rest, n - 1)
  {
    var s := tok + ([' '] + rest);
    assert s[0] == tok[0];
    SplitWsHead(s, n);
    TokenOf(tok, [' '] + rest);
    assert s[|tok|..] == [' '] + rest;
    SplitWsSkipsSpace(rest, n - 1);
  }

  /** A word followed by a run of whitespace and more text splits off as
      the first field, however long the run. */
  lemma SplitWsRun(tok: string, sep: string, rest: string, n: nat)
    requires IsWord(tok) && |sep| > 0 && AllSpace(sep)
    requires |rest| == 0 || !IsSpace(rest[0])
    requires n > 0
    ensures SplitWs(tok + (sep + rest), n) == [tok] + SplitWs(rest, n - 1)
  {
    var s := tok + (sep + rest);
    assert s[0] == tok[0];
    SplitWsHead(s, n);
    TokenOf(tok, sep + rest);
    assert s[|tok|..] == sep + rest;
    TrimStartOfSpaces(sep, rest);
    TrimStartOfSpaces("", rest);
    assert "" + rest == rest;
    SplitWsSameTrim(sep + rest, rest, n - 1);
  }

  /** With no splits left, a string that does not start with whitespace is
      one field, whitespace inside and after it included. */
  lemma SplitWsRest(s: string)
    requires |s| > 0 && !IsSpace(s[0])
    ensures SplitWs(s, 0) == [s]
  {
    TrimStartOfSpaces("", s);
    assert "" + s == s;
  }

  /** A string starting with a word splits that word off first. */
  lemma SplitWsHead(s: string, n: nat)
    requires |s| > 0 && !IsSpace(s[0]) && n > 0
    ensures SplitWs(s, n) == [Token(s)] + SplitWs(s[|Token(s)|..], n - 1)
  {
    TrimStartOfSpaces("", s);
    assert "" + s == s;
  }

  /** One leading space does not change how a string splits. */
  lemma SplitWsSkipsSpace(rest: string, n: nat)
    requires |rest| == 0 || !IsSpace(rest[0])
    ensures SplitWs([' '] + rest, n) == SplitWs(rest, n)
  {
    assert TrimStart([' '] + rest) == rest by {
      TrimStartOfSpaces([' '], rest);
    }
    assert TrimStart(rest) == rest by {
      TrimStartOfSpaces("", rest);
      assert "" + rest == rest;
    }
    SplitWsSameTrim([' '] + rest, rest, n);
  }

  /** How a string splits depends only on what follows its leading
      whitespace. */
  lemma SplitWsSameTrim(a: string, b: string, n: nat)
    requires TrimStart(a) == TrimStart(b)
    ensures SplitWs(a, n) == SplitWs(b, n)
  {
  }

  /** Splitting words joined by single spaces recovers the words, as long
      as `maxsplit` allows a field per word. */
  lemma {:induction false} SplitWsJoin(toks: seq<string>, n: nat)
    requires 1 <= |toks| <= n + 1
    requires forall i :: 0 <= i < |toks| ==> IsWord(toks[i])
    ensures SplitWs(Join(toks, ' '), n) == toks
  {
    var tok := toks[0];
    assert IsWord(tok);
    if |toks| == 1 {
      SplitWsWord(tok, n);
    } else {
      var tail := toks[1..];
      var rest := Join(tail, ' ');
      assert Join(toks, ' ') == tok + ([' '] + rest);
      assert |rest| > 0 && !IsSpace(rest[0]) by {
        JoinStartsWith(tail, ' ');
        assert IsWord(tail[0]);
        assert rest[0] == tail[0][0];
      }
      calc {
        SplitWs(Join(toks, ' '), n);
        SplitWs(tok + ([' '] + rest), n);
        { SplitWsCons(tok, rest, n); }
        [tok] + SplitWs(rest, n - 1);
        { SplitWsJoin(tail, n - 1); }
        [tok] + tail;
        toks;
      }
    }
  }

  // ---------------------------------------------------------------------
  // Decimal integers: `str(n)` and `int(text)`

  predicate IsDigit(c: char) {
    '0' <= c <= '9'
  }

  predicate AllDigits(s: string) {
    forall i :: 0 <= i < |s| ==> IsDigit(s[i])
  }

  function DigitValue(c: char): nat
    requires IsDigit(c)
  {
    (c as int) - ('0' as int)
  }

  function DigitChar(d: nat): (c: char)
    requires d < 10
    ensures IsDigit(c) && DigitValue(c) == d
  {
    (('0' as int) + d) as char
  }

  /** The number a string of decimal digits denotes. */
  function DigitsValue(s: string): nat
    requires AllDigits(s)
  {
    if |s| == 0 then 0
    else DigitsValue(s[..|s| - 1]) * 10 + DigitValue(s[|s| - 1])
  }

  /** `str(n)` for a natural number. */
  function RenderNat(n: nat): (r: string)
    ensures |r| > 0 && AllDigits(r)
  {
    if n < 10 then [DigitChar(n)]
    else RenderNat(n / 10) + [DigitChar(n % 10)]
  }

  /** `str(i)` for an integer. */
  function RenderInt(i: int): (r: string)
    ensures |r| > 0 && NoSpace(r)
    ensures forall k :: 0 <= k < |r| ==> IsDigit(r[k]) || r[k] == '-'
  {
    if i < 0 then "-" + RenderNat(-i) else RenderNat(i)
  }

  /** Body of a base-10 literal as `int()` accepts it: digits, with single
      underscores allowed between two digits. */
  predicate DigitGroups(s: string) {
    && |s| > 0
    && IsDigit(s[0]) && IsDigit(s[|s| - 1])
    && (forall i :: 0 <= i < |s| ==> IsDigit(s[i]) || s[i] == '_')
    && (forall i :: 0 <= i < |s| - 1 ==> !(s[i] == '_' && s[i + 1] == '_'))
  }

  function RemoveUnderscores(s: string): (r: string)
    requires forall i :: 0 <= i < |s| ==> IsDigit(s[i]) || s[i] == '_'
    ensures AllDigits(r)
  {
    if |s| == 0 then ""
    else if s[0] == '_' then RemoveUnderscores(s[1..])
    else [s[0]] + RemoveUnderscores(s[1..])
  }

  /** `int(token)` in base 10 for a token without surrounding whitespace:
      `None` where Python raises `ValueError`. */
  function ParseInt(s: string): Option<int>
  {
    if |s| > 0 && (s[0] == '+' || s[0] == '-') then
      var body := s[1..];
      if DigitGroups(body) then
        var n: int := DigitsValue(RemoveUnderscores(body));
        Some(if s[0] == '-' then -n else n)
      else None
    else if DigitGroups(s) then Some(DigitsValue(RemoveUnderscores(s)))
    else None
  }

  lemma {:induction false} RenderNatValue(n: nat)
    ensures DigitsValue(RenderNat(n)) == n
  {
    if n >= 10 {
      RenderNatValue(n / 10);
      var r := RenderNat(n);
      assert r[..|r| - 1] == RenderNat(n / 10);
    }
  }

  lemma {:induction false} RemoveUnderscoresOfDigits(s: string)
    requires AllDigits(s)
    ensures RemoveUnderscores(s) == s
  {
    if |s| > 0 {
      RemoveUnderscoresOfDigits(s[1..]);
      assert s == [s[0]] + s[1..];
    }
  }

  /** `int(str(i)) == i`. */
  lemma ParseRenderInt(i: int)
    ensures ParseInt(RenderInt(i)) == Some(i)
  {
    var n: nat := if i < 0 then -i else i;
    var digits := RenderNat(n);
    RenderNatValue(n);
    RemoveUnderscoresOfDigits(digits);
    assert DigitGroups(digits);
    if i < 0 {
      assert RenderInt(i)[1..] == digits;
    }
  }
}
