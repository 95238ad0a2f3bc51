/** The `am start` command line for an APK (wa/utils/android.py:
    build_apk_launch_command) and the shell quoting it relies on
    (`shlex.quote`). */
module Launch {
  import opened Wrappers
  import Text
  import opened Values

  // ---------------------------------------------------------------------
  // shlex.quote

  /** The characters `shlex.quote` leaves unquoted: ASCII letters, digits,
      `_` and `@%+=:,./-`. */
  predicate SafeChar(c: char) {
    || ('a' <= c <= 'z') || ('A' <= c <= 'Z') || ('0' <= c <= '9')
    || c == '_' || c == '@' || c == '%' || c == '+' || c == '='
    || c == ':' || c == ',' || c == '.' || c == '/' || c == '-'
  }

  predicate AllSafe(s: string) {
    forall i :: 0 <= i < |s| ==> SafeChar(s[i])
  }

  /** Every `'` of `s` replaced by `'"'"'`: close the single quotes, write
      the quote inside double quotes, reopen. */
  function EscapeSingle(s: string): (r: string)
    ensures '\'' !in s ==> r == s
    ensures |r| >= |s|
  {
    if |s| == 0 then ""
    else if s[0] == '\'' then "'\"'\"'" + EscapeSingle(s[1..])
    else [s[0]] + EscapeSingle(s[1..])
  }

  /** `shlex.quote(s)`. */
  function Quote(s: string): (q: string)
    ensures |q| > 0
    ensures q == s <==> |s| > 0 && AllSafe(s)
  {
    if |s| == 0 then "''"
    else if AllSafe(s) then s
    else "'" + EscapeSingle(s) + "'"
  }

  // ---------------------------------------------------------------------
  // Reading a word back, as a POSIX shell does

  /** Where a shell is while reading a word. */
  datatype QuoteState = Plain | InSingle | InDouble

  function Prepend(c: char, o: Option<string>): (r: Option<string>)
    ensures r.Some? <==> o.Some?
  {
    match o
    case None => None
    case Some(s) => Some([c] + s)
  }

  function PrependAll(s: string, o: Option<string>): (r: Option<string>)
    ensures r.Some? <==> o.Some?
    ensures o.Some? ==> r == Some(s + o.value)
  {
    match o
    case None => None
    case Some(t) => Some(s + t)
  }

  /** The word a POSIX shell reads from `q` as one argument, starting in
      state `st`: single quotes keep everything literally, double quotes
      keep everything but `\`, `$` and backquote (rejected here), and
      outside quotes only the characters `shlex.quote` considers safe are
      accepted. `None` when `q` is not one complete word of that form. */
  function ReadWord(q: string, st: QuoteState): Option<string> {
    if |q| == 0 then (if st == Plain then Some("") else None)
    else
      var c := q[0];
      match st
      case Plain =>
        if c == '\'' then ReadWord(q[1..], InSingle)
        else if c == '"' then ReadWord(q[1..], InDouble)
        else if SafeChar(c) then Prepend(c, ReadWord(q[1..], Plain))
        else None
      case InSingle =>
        if c == '\'' then ReadWord(q[1..], Plain)
        else Prepend(c, ReadWord(q[1..], InSingle))
      case InDouble =>
        if c == '"' then ReadWord(q[1..], Plain)
        else if c == '\\' || c == '$' || c == '`' then None
        else Prepend(c, ReadWord(q[1..], InDouble))
  }

  lemma {:induction false} ReadSafe(s: string)
    requires AllSafe(s)
    ensures ReadWord(s, Plain) == Some(s)
  {
    if |s| > 0 {
      ReadSafe(s[1..]);
      assert s == [s[0]] + s[1..];
    }
  }

  /** Inside single quotes, an escaped string reads back as itself. */
  lemma {:induction false} ReadEscaped(s: string, rest: string)
    ensures ReadWord(EscapeSingle(s) + rest, InSingle) == PrependAll(s, ReadWord(rest, InSingle))
  {
    if |s| == 0 {
      assert EscapeSingle(s) + rest == rest;
      var r := ReadWord(rest, InSingle);
      if r.Some? {
        assert s + r.value == r.value;
      }
    } else {
      assert s == [s[0]] + s[1..];
      ReadEscapedStep(s[0], s[1..], rest);
      ReadEscaped(s[1..], rest);
      PrependOfAll(s[0], s[1..], ReadWord(rest, InSingle));
    }
  }

  lemma PrependOfAll(c: char, t: string, o: Option<string>)
    ensures Prepend(c, PrependAll(t, o)) == PrependAll([c] + t, o)
  {
    if o.Some? {
      assert [c] + (t + o.value) == ([c] + t) + o.value;
    }
  }

  /** One character of the escaped text, inside single quotes. */
  lemma ReadEscapedStep(c: char, t: string, rest: string)
    ensures ReadWord(EscapeSingle([c] + t) + rest, InSingle) == Prepend(c, ReadWord(EscapeSingle(t) + rest, InSingle))
  {
    assert ([c] + t)[0] == c && ([c] + t)[1..] == t;
    if c == '\'' {
      EscapedQuote(t, rest);
    } else {
      EscapedOther(c, t, rest);
    }
  }

  lemma EscapedQuote(t: string, rest: string)
    ensures ReadWord(EscapeSingle("'" + t) + rest, InSingle) == Prepend('\'', ReadWord(EscapeSingle(t) + rest, InSingle))
  {
    var tail := EscapeSingle(t) + rest;
    assert ("'" + t)[0] == '\'' && ("'" + t)[1..] == t;
    assert EscapeSingle("'" + t) + rest == "'\"'\"'" + tail;
    ReadQuotedQuote(tail);
  }

  lemma EscapedOther(c: char, t: string, rest: string)
    requires c != '\''
    ensures ReadWord(EscapeSingle([c] + t) + rest, InSingle) == Prepend(c, ReadWord(EscapeSingle(t) + rest, InSingle))
  {
    var tail := EscapeSingle(t) + rest;
    assert ([c] + t)[0] == c && ([c] + t)[1..] == t;
    assert EscapeSingle([c] + t) + rest == [c] + tail;
    assert ([c] + tail)[1..] == tail;
  }

  /** `'"'"'` inside single quotes reads as one `'`. */
  lemma ReadQuotedQuote(tail: string)
    ensures ReadWord("'\"'\"'" + tail, InSingle) == Prepend('\'', ReadWord(tail, InSingle))
  {
    var q0 := "'\"'\"'" + tail;
    var q1 := "\"'\"'" + tail;
    var q2 := "'\"'" + tail;
    var q3 := "\"'" + tail;
    var q4 := "'" + tail;
    assert q0[0] == '\'' && q0[1..] == q1;
    assert q1[0] == '"' && q1[1..] == q2;
    assert q2[0] == '\'' && q2[1..] == q3;
    assert q3[0] == '"' && q3[1..] == q4;
    assert q4[0] == '\'' && q4[1..] == tail;
    calc {
      ReadWord(q0, InSingle);
      ReadWord(q1, Plain);
      ReadWord(q2, InDouble);
      Prepend('\'', ReadWord(q3, InDouble));
      Prepend('\'', ReadWord(q4, Plain));
      Prepend('\'', ReadWord(tail, InSingle));
    }
  }

  /** A shell reads `shlex.quote(s)` back as exactly `s`, as one word. */
  lemma ReadQuote(s: string)
    ensures ReadWord(Quote(s), Plain) == Some(s)
  {
    if |s| == 0 {
      assert "''"[1..] == "'";
      assert "''"[1..][1..] == "";
    } else if AllSafe(s) {
      ReadSafe(s);
    } else {
      var q := "'" + EscapeSingle(s) + "'";
      assert q[0] == '\'' && q[1..] == EscapeSingle(s) + "'";
      assert "'"[1..] == "";
      calc {
        ReadWord(q, Plain);
        ReadWord(EscapeSingle(s) + "'", InSingle);
        { ReadEscaped(s, "'"); }
        PrependAll(s, ReadWord("'", InSingle));
        PrependAll(s, ReadWord("", Plain));
        Some(s + "");
        { assert s + "" == s; }
        Some(s);
      }
    }
  }

  // ---------------------------------------------------------------------
  // build_apk_launch_command

  /** The `ValueError` for a value of no encodable type. */
  datatype EncodeError = Unencodable(value: Value)

  /** The `am` extra flag and the text of a value. */
  function EncodeValue(v: Value): (r: Result<(string, string), EncodeError>)
    ensures r.Err? <==> !(v.Str? || v.Float? || v.Bool? || v.Int?)
    ensures r.Err? ==> r.error == Unencodable(v)
  {
    match v
    case Str(s) => Ok(("--es", Quote(s)))
    case Float(repr) => Ok(("--ef", repr))
    case Bool(b) => Ok(("--ez", if b then "True" else "False"))
    case Int(i) => Ok(("--ei", Text.RenderInt(i)))
    case _ => Err(Unencodable(v))
  }

  /** How `am` reads an extra back from its flag and text. */
  function DecodeExtra(flag: string, text: string): Option<Value> {
    if flag == "--es" then
      match ReadWord(text, Plain)
      case None => None
      case Some(s) => Some(Str(s))
    else if flag == "--ef" then Some(Float(text))
    else if flag == "--ez" then
      if text == "True" then Some(Bool(true))
      else if text == "False" then Some(Bool(false))
      else None
    else if flag == "--ei" then
      match Text.ParseInt(text)
      case None => None
      case Some(i) => Some(Int(i))
    else None
  }

  /** Every encodable value is decoded back as itself. */
  lemma DecodeEncode(v: Value)
    requires EncodeValue(v).Ok?
    ensures DecodeExtra(EncodeValue(v).value.0, EncodeValue(v).value.1) == Some(v)
  {
    match v
    case Str(s) => ReadQuote(s);
    case Int(i) => Text.ParseRenderInt(i);
    case _ =>
  }

  /** The text one argument adds: `" <flag> <key> <value>"`. */
  function Fragment(key: string, v: Value): (r: Result<string, EncodeError>)
    ensures r.Err? <==> EncodeValue(v).Err?
    ensures r.Err? ==> r.error == EncodeValue(v).error
  {
    var (flag, text) :- EncodeValue(v);
    Ok(" " + flag + " " + key + " " + text)
  }

  /** The argument string built from the arguments in order; the first
      value that cannot be encoded raises. */
  function ArgsString(args: seq<(string, Value)>): (r: Result<string, EncodeError>)
    ensures r.Err? <==> exists i :: 0 <= i < |args| && EncodeValue(args[i].1).Err?
    decreases |args|
  {
    if |args| == 0 then Ok("")
    else
      var last := |args| - 1;
      var prefix := ArgsString(args[..last]);
      assert forall i :: 0 <= i < last ==> args[..last][i] == args[i];
      match prefix
      case Err(e) => Err(e)
      case Ok(s) =>
        match Fragment(args[last].0, args[last].1)
        case Err(e) => Err(e)
        case Ok(f) => Ok(s + f)
  }

  /** The error raised is that of the first argument that cannot be
      encoded. */
  lemma {:induction false} ArgsStringFirstError(args: seq<(string, Value)>, k: nat)
    requires k < |args| && EncodeValue(args[k].1).Err?
    requires forall i :: 0 <= i < k ==> EncodeValue(args[i].1).Ok?
    ensures ArgsString(args) == Err(Unencodable(args[k].1))
    decreases |args|
  {
    var last := |args| - 1;
    assert forall i :: 0 <= i < last ==> args[..last][i] == args[i];
    if k < last {
      ArgsStringFirstError(args[..last], k);
    } else {
      assert ArgsString(args[..last]).Ok?;
    }
  }

  /** The loop of `build_apk_launch_command` over the arguments. */
  method BuildArgsString(args: seq<(string, Value)>) returns (r: Result<string, EncodeError>)
    ensures r == ArgsString(args)
  {
    var acc := "";
    var i := 0;
    while i < |args|
      invariant 0 <= i <= |args|
      invariant ArgsString(args[..i]) == Ok(acc)
    {
      assert args[..i + 1][..i] == args[..i];
      assert args[..i + 1][i] == args[i];
      var (key, value) := args[i];
      match EncodeValue(value)
      case Err(e) =>
        ArgsStringPrefixError(args, i + 1);
        return Err(e);
      case Ok((flag, text)) =>
        var fragment := " " + flag + " " + key + " " + text;
        assert Fragment(key, value) == Ok(fragment);
        acc := acc + fragment;
      i := i + 1;
    }
    assert args[..i] == args;
    return Ok(acc);
  }

  /** An argument that cannot be encoded makes the whole string fail. */
  lemma ArgsStringPrefixError(args: seq<(string, Value)>, n: nat)
    requires 0 < n <= |args| && ArgsString(args[..n]).Err?
    ensures ArgsString(args) == ArgsString(args[..n])
  {
    var i :| 0 <= i < n && EncodeValue(args[..n][i].1).Err?;
    var k := FirstUnencodable(args[..n]);
    assert args[..n][k] == args[k];
    assert forall j :: 0 <= j < k ==> args[..n][j] == args[j];
    ArgsStringFirstError(args[..n], k);
    ArgsStringFirstError(args, k);
  }

  /** The position of the first argument that cannot be encoded. */
  function FirstUnencodable(args: seq<(string, Value)>): (k: nat)
    requires exists i :: 0 <= i < |args| && EncodeValue(args[i].1).Err?
    ensures k < |args| && EncodeValue(args[k].1).Err?
    ensures forall i :: 0 <= i < k ==> EncodeValue(args[i].1).Ok?
  {
    if EncodeValue(args[0].1).Err? then 0
    else
      assert forall i :: 1 <= i < |args| ==> args[i] == args[1..][i - 1];
      1 + FirstUnencodable(args[1..])
  }

  /** `str(package)` for an optional package name. */
  function PackageText(package: Option<string>): string {
    match package
    case None => "None"
    case Some(p) => p
  }

  /** `build_apk_launch_command(package, activity, apk_args)`. Absent and
      empty argument lists are the same. */
  function BuildApkLaunchCommand(package: Option<string>, activity: Option<string>,
                                 args: Option<seq<(string, Value)>>): (r: Result<string, EncodeError>)
    ensures r.Ok? ==> Text.FindSub(r.value, "am start -W ") == Some(0)
    ensures args.None? ==> r.Ok?
    ensures r.Ok? && args.Some? && ArgsString(args.value).Ok? ==>
      EndsWith(r.value, " " + ArgsString(args.value).value)
    ensures args.Some? ==> (r.Err? <==> ArgsString(args.value).Err?)
    ensures r.Ok? ==>
      var tail := " " + (if args.Some? && ArgsString(args.value).Ok? then ArgsString(args.value).value else "");
      && 12 + |tail| <= |r.value|
      && var middle := r.value[12..|r.value| - |tail|];
        if Given(activity) then middle == "-n " + PackageText(package) + "/" + activity.value
        else middle == PackageText(package)
  {
    var argsString :- if args.Some? then ArgsString(args.value) else Ok("");
    var target := if Given(activity) then "-n " + PackageText(package) + "/" + activity.value
                  else PackageText(package);
    CommandShape(target, argsString);
    Ok("am start -W " + target + " " + argsString)
  }

  /** Where the parts of an `am start -W` command sit. */
  lemma CommandShape(target: string, argsString: string)
    ensures var cmd := "am start -W " + target + " " + argsString;
      && Text.FindSub(cmd, "am start -W ") == Some(0)
      && EndsWith(cmd, " " + argsString)
      && 12 + |" " + argsString| <= |cmd|
      && cmd[12..|cmd| - |" " + argsString|] == target
  {
    var cmd := "am start -W " + target + " " + argsString;
    assert "am start -W " <= cmd;
    Text.FindSubAt(cmd, "am start -W ", 0);
    assert cmd[|cmd| - |" " + argsString|..] == " " + argsString;
    assert |"am start -W "| == 12;
    MiddleOf("am start -W ", target, " " + argsString);
  }

  /** With an activity, the command names the component
      `<package>/<activity>`; for a package without `/`, the first `/` of
      the component separates the two back out. */
  lemma LaunchComponent(package: string, activity: string, args: Option<seq<(string, Value)>>)
    requires '/' !in package && |activity| > 0
    requires BuildApkLaunchCommand(Some(package), Some(activity), args).Ok?
    ensures var cmd := BuildApkLaunchCommand(Some(package), Some(activity), args).value;
      && "am start -W -n " <= cmd
      && var component := cmd[15..];
        && Text.IndexOf(component, '/') == Some(|package|)
        && component[..|package|] == package
        && activity <= component[|package| + 1..]
  {
    var cmd := BuildApkLaunchCommand(Some(package), Some(activity), args).value;
    var argsString := if args.Some? then ArgsString(args.value).value else "";
    assert cmd == "am start -W " + ("-n " + package + "/" + activity) + (" " + argsString);
    ComponentSplit(cmd, package, activity, " " + argsString);
  }

  lemma ComponentSplit(cmd: string, package: string, activity: string, tail: string)
    requires '/' !in package
    requires cmd == "am start -W " + ("-n " + package + "/" + activity) + tail
    ensures "am start -W -n " <= cmd
    ensures var component := cmd[15..];
      && Text.IndexOf(component, '/') == Some(|package|)
      && component[..|package|] == package
      && activity <= component[|package| + 1..]
  {
    assert cmd == "am start -W -n " + (package + ['/'] + (activity + tail));
    assert cmd[15..] == package + ['/'] + (activity + tail);
    Text.IndexOfAfter(package, '/', activity + tail);
  }

  lemma MiddleOf(a: string, b: string, c: string)
    ensures (a + b + c)[|a|..|a + b + c| - |c|] == b
  {
    assert (a + b + c)[|a|..|a + b + c| - |c|] == (a + b + c)[|a|..|a| + |b|];
  }

  predicate EndsWith(s: string, t: string) {
    |t| <= |s| && s[|s| - |t|..] == t
  }

  /** An empty activity is no activity, and an empty argument list is no
      argument list (both are falsy). */
  lemma FalsyOptionalsIgnored(package: Option<string>, activity: Option<string>, args: Option<seq<(string, Value)>>)
    ensures BuildApkLaunchCommand(package, Some(""), args) == BuildApkLaunchCommand(package, None, args)
    ensures BuildApkLaunchCommand(package, activity, Some([])) == BuildApkLaunchCommand(package, activity, None)
  {}

  /** A launch with an activity and one integer argument; the argument
      string starts with its own space, so two spaces precede it. */
  lemma LaunchExample()
    ensures BuildApkLaunchCommand(Some("com.a"), Some("Main"), Some([("n", Int(3))])) ==
      Ok("am start -W -n com.a/Main  --ei n 3")
  {
    var args := [("n", Int(3))];
    assert args[..0] == [];
    assert Text.RenderInt(3) == "3";
    assert EncodeValue(Int(3)) == Ok(("--ei", "3"));
    assert " " + "--ei" + " " + "n" + " " + "3" == " --ei n 3";
    assert Fragment("n", Int(3)) == Ok(" --ei n 3");
    assert ArgsString(args[..0]) == Ok("");
    assert args[0] == ("n", Int(3));
    assert "" + " --ei n 3" == " --ei n 3";
    assert ArgsString(args) == Ok(" --ei n 3");
    assert "am start -W " + ("-n " + "com.a" + "/" + "Main") + " " + " --ei n 3" == "am start -W -n com.a/Main  --ei n 3";
  }

  /** Each argument's value, read back by `am` from its flag and text,
      is the value passed in. */
  lemma ArgumentsDecode(key: string, v: Value)
    requires EncodeValue(v).Ok?
    ensures Fragment(key, v) == Ok(" " + EncodeValue(v).value.0 + " " + key + " " + EncodeValue(v).value.1)
    ensures DecodeExtra(EncodeValue(v).value.0, EncodeValue(v).value.1) == Some(v)
  {
    DecodeEncode(v);
  }
}
