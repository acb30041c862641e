/** `Config::parseArgs`: the command line is read left to right, each
    argument split at `=` into an option name and its value; `--version`
    and `--help` stop the parse with their own result codes, and at the end
    a com port and a non-zero tcp port must have been given. The logger
    categories are global state, so the parse also yields the logger. */
module Config {
  import opened Ints
  import opened StringUtils
  import opened Results
  import opened Logger

  const VERSION := "1.0.0"
  const ARGUMENT_ERROR := "argument_error"
  const VERSION_REQUESTED := "version_requested"
  const HELP_REQUESTED := "help_requested"
  const TRY_HELP := " Try `litevnaserver --help`"
  /** The Linux default port the help text names. */
  const DEFAULT_COM_PORT := "/dev/ttyS0"

  /** The fields of class `Config`. */
  datatype Settings = Settings(version: string, tcpPort: int, comPort: string, loggerFile: string)

  /** A default-constructed `Config`. */
  function InitialSettings(): (c: Settings)
    ensures c.version == VERSION && c.tcpPort == 0 && c.comPort == "" && c.loggerFile == ""
  {
    Settings(VERSION, 0, "", "")
  }

  // ---------------------------------------------------------------------
  // atoi

  /** The characters C's `isspace` accepts in the "C" locale. */
  predicate IsSpace(c: char) {
    c == ' ' || '\t' <= c <= '\r'
  }

  /** What is left after the leading white space. */
  function SkipSpace(s: string): (r: string)
    ensures |r| <= |s| && r == s[|s| - |r|..]
    ensures forall i | 0 <= i < |s| - |r| :: IsSpace(s[i])
    ensures |r| > 0 ==> !IsSpace(r[0])
  {
    if |s| > 0 && IsSpace(s[0]) then
      var r := SkipSpace(s[1..]);
      assert forall i | 1 <= i < |s| - |r| :: s[i] == s[1..][i - 1];
      r
    else s
  }

  /** The longest run of decimal digits at the front of s. */
  function DigitRun(s: string): (r: string)
    ensures r <= s && AllDigits(r)
    ensures |r| < |s| ==> !IsDigit(s[|r|])
  {
    if |s| > 0 && IsDigit(s[0]) then [s[0]] + DigitRun(s[1..]) else []
  }

  const LONG_MAX: int := 0x7FFF_FFFF_FFFF_FFFF

  /** `strtol(s, nullptr, 10)` on a 64-bit `long`: white space, an
      optional sign and the digits after it; a magnitude beyond the range
      saturates at `LONG_MIN` or `LONG_MAX`, and no digits give 0. */
  function Strtol(s: string): (v: int)
    ensures -LONG_MAX - 1 <= v <= LONG_MAX
  {
    var t := SkipSpace(s);
    var negative := |t| > 0 && t[0] == '-';
    var u := if |t| > 0 && (t[0] == '-' || t[0] == '+') then t[1..] else t;
    var m: int := DigitsValue(DigitRun(u), 10);
    if negative then (if m > LONG_MAX + 1 then -LONG_MAX - 1 else -m)
    else (if m > LONG_MAX then LONG_MAX else m)
  }

  /** `atoi` as the GNU C library implements it, `(int) strtol(s, NULL,
      10)`. */
  function Atoi(s: string): (v: int)
    ensures -0x8000_0000 <= v < 0x8000_0000
  {
    Int32Of(Strtol(s))
  }

  /** The cast of a `long` to a 32-bit `int`: the low 32 bits, read as a
      two's complement value, so the result differs from the `long` by a
      multiple of 2^32. */
  function Int32Of(l: int): (v: int)
    ensures -0x8000_0000 <= v < 0x8000_0000
    ensures (v - l) % TWO_32 == 0
  {
    Int32Congruent(l);
    ToInt32(l % TWO_32)
  }

  /** The proof behind `Int32Of`: the low 32 bits read as two's
      complement differ from l by a multiple of 2^32. */
  lemma Int32Congruent(l: int)
    ensures (ToInt32(l % TWO_32) - l) % TWO_32 == 0
  {
    var q := l / TWO_32;
    DivModDef(l, TWO_32);
    var v := ToInt32(l % TWO_32);
    var k := if l % TWO_32 >= 0x8000_0000 then -q - 1 else -q;
    assert v - l == TWO_32 * k;
    DivModUnique(v - l, TWO_32, k, 0);
  }

  /** A decimal numeral within the range of `long` parses back as its
      value. */
  lemma StrtolDec(m: nat)
    requires m <= LONG_MAX
    ensures Strtol(Dec(m)) == m
  {
    var r := Dec(m);
    UtoaValue(m, 0, 10);
    assert DigitsValue(r, 10) == m;
    assert SkipSpace(r) == r by {
      assert IsDigit(r[0]);
    }
    DigitRunAll(r);
  }

  /** A port written in decimal reads back as itself. */
  lemma AtoiDec(n: nat)
    requires n < 0x8000_0000
    ensures Atoi(Dec(n)) == n
  {
    StrtolDec(n);
    assert n % TWO_32 == n by {
      DivModUnique(n, TWO_32, 0, n);
    }
  }

  /** A text of digits is one run. */
  lemma {:induction false} DigitRunAll(s: string)
    requires AllDigits(s)
    ensures DigitRun(s) == s
  {
    if |s| > 0 {
      assert AllDigits(s[1..]) by {
        assert forall i | 0 <= i < |s| - 1 :: s[1..][i] == s[i + 1];
      }
      DigitRunAll(s[1..]);
      assert s == [s[0]] + s[1..];
    }
  }

  /** A text whose first non-blank character is neither a sign nor a digit
      reads as 0, so such a tcp port is rejected. */
  lemma AtoiNoDigits(s: string)
    requires var t := SkipSpace(s); |t| == 0 || (!IsDigit(t[0]) && t[0] != '-' && t[0] != '+')
    ensures Atoi(s) == 0
  {
    DivModUnique(0, TWO_32, 0, 0);
  }

  /** Only the low 32 bits survive the cast: 2^32 + n reads as n. */
  lemma AtoiWraps(n: nat)
    requires 0 < n < 0x8000_0000
    ensures Atoi(Dec(TWO_32 + n)) == n
  {
    StrtolDec(TWO_32 + n);
    assert (TWO_32 + n) % TWO_32 == n by {
      DivModUnique(TWO_32 + n, TWO_32, 1, n);
    }
  }

  // ---------------------------------------------------------------------
  // options

  /** The pieces of an argument split at `=` without trimming: the first is
      the text before the first `=`, and a second exists exactly when there
      is an `=` and is the text up to the next one. */
  lemma OptionPieces(arg: string)
    ensures var ov := Split(arg, '=', false); var i := FindChar(arg, '=', 0);
      && ov[0] == arg[..i]
      && (|ov| >= 2 <==> i < |arg|)
      && (i < |arg| ==> ov[1] == arg[i + 1..][..FindChar(arg[i + 1..], '=', 0)])
  {
    var i := FindChar(arg, '=', 0);
    if i < |arg| {
      var rest := arg[i + 1..];
      assert Pieces(arg, '=') == [arg[..i]] + Pieces(rest, '=');
      var j := FindChar(rest, '=', 0);
      assert Pieces(rest, '=')[0] == rest[..j];
    }
  }

  /** An option and a value without `=` split into exactly those two. */
  lemma NameValue(name: string, value: string)
    requires '=' !in name && '=' !in value
    ensures Split(name + "=" + value, '=', false) == [name, value]
  {
    var s := name + "=" + value;
    var parts := [name, value];
    assert Join(parts, '=') == s by {
      assert parts[1..] == [value];
    }
    SplitsAtUnique(s, '=', parts);
  }

  /** `Option `<name>` requires a value.`: each option's literal message. */
  function RequiresValue(option: string): (r: Result)
    ensures r.code == ARGUMENT_ERROR
  {
    Result(ARGUMENT_ERROR, "Option `" + option + "` requires a value." + TRY_HELP)
  }

  function InvalidComPort(port: string): (r: Result)
    ensures r == Result(ARGUMENT_ERROR, "Invalid com port `" + port + "`")
  {
    NoCloseNoHole("Invalid com port `");
    NoCloseNoHole("`");
    ErrorWithOne(ARGUMENT_ERROR, "Invalid com port `", port, "`");
    Error(ARGUMENT_ERROR, "Invalid com port `" + "{}" + "`", [port])
  }

  function InvalidTcpPort(port: string): (r: Result)
    ensures r == Result(ARGUMENT_ERROR, "Invalid tcp port `" + port + "`")
  {
    NoCloseNoHole("Invalid tcp port `");
    NoCloseNoHole("`");
    ErrorWithOne(ARGUMENT_ERROR, "Invalid tcp port `", port, "`");
    Error(ARGUMENT_ERROR, "Invalid tcp port `" + "{}" + "`", [port])
  }

  const INVALID_TAIL := "` is invalid." + TRY_HELP

  function InvalidCategory(category: string): (r: Result)
    ensures r == Result(ARGUMENT_ERROR, "Category `" + category + INVALID_TAIL)
  {
    NoCloseNoHole("Category `");
    TailPlain();
    ErrorWithOne(ARGUMENT_ERROR, "Category `", category, INVALID_TAIL);
    Error(ARGUMENT_ERROR, "Category `" + "{}" + INVALID_TAIL, [category])
  }

  function InvalidOption(option: string): (r: Result)
    ensures r == Result(ARGUMENT_ERROR, "Option `" + option + INVALID_TAIL)
  {
    NoCloseNoHole("Option `");
    TailPlain();
    ErrorWithOne(ARGUMENT_ERROR, "Option `", option, INVALID_TAIL);
    Error(ARGUMENT_ERROR, "Option `" + "{}" + INVALID_TAIL, [option])
  }

  lemma TailPlain()
    ensures NoHole(INVALID_TAIL)
  {
    NoCloseNoHole("` is invalid.");
    NoCloseNoHole(TRY_HELP);
    NoHoleConcat("` is invalid.", TRY_HELP);
  }

  /** `--version`: the version and the licence. */
  function VersionResult(version: string): (r: Result)
    ensures r == Result(VERSION_REQUESTED, "litevnaserver " + version + "\nLicense: GPL 2.0 only")
  {
    NoCloseNoHole("litevnaserver ");
    NoCloseNoHole("\nLicense: GPL 2.0 only");
    ErrorWithOne(VERSION_REQUESTED, "litevnaserver ", version, "\nLicense: GPL 2.0 only");
    Error(VERSION_REQUESTED, "litevnaserver " + "{}" + "\nLicense: GPL 2.0 only", [version])
  }

  /** `--help`: the usage text, whose one placeholder (in the example
      command line) is filled with the default com port, so the text is
      the part before it, the port, and the part after it; the text is an
      error as far as `operator bool` is concerned. */
  function HelpResult(): (r: Result)
    ensures r.code == HELP_REQUESTED && IsError(r)
    ensures |r.description| == |HELP_HEAD| + |DEFAULT_COM_PORT| + |HELP_TAIL|
    ensures r.description[..|HELP_HEAD|] == HELP_HEAD
  {
    Result(HELP_REQUESTED, HELP_HEAD + DEFAULT_COM_PORT + HELP_TAIL)
  }

  /** The bits a `-logger-categories` name stands for. */
  function CategoryOf(name: string): (m: Option<Mask>)
    ensures m.Some? ==> m.value != {}
  {
    if name == "info" then Some(CATEGORY_INFO)
    else if name == "error" then Some(CATEGORY_ERROR)
    else if name == "debug" then Some(CATEGORY_DEBUG)
    else if name == "lite_vna" then Some(CATEGORY_LITE_VNA)
    else if name == "http_server" then Some(CATEGORY_HTTP_SERVER)
    else if name == "all" then
      assert 0 in CATEGORY_ALL;
      Some(CATEGORY_ALL)
    else None
  }

  datatype Option<T> = None | Some(value: T)

  /** The loop over the comma-separated names: the union of their bits,
      or the error naming the first unknown one. */
  function ParseCategories(names: seq<string>): (r: Outcome<Mask>)
    ensures r.Success? <==> forall i | 0 <= i < |names| :: CategoryOf(names[i]).Some?
    ensures r.Failure? ==> exists i :: FirstUnknownAt(names, i, r.error)
    ensures r.Success? ==> forall i | 0 <= i < |names| :: CategoryOf(names[i]).value <= r.value
    ensures r.Success? ==> forall k | k in r.value :: exists i | 0 <= i < |names| :: k in CategoryOf(names[i]).value
  {
    if |names| == 0 then Success({})
    else
      var first := CategoryOf(names[0]);
      var rest := ParseCategories(names[1..]);
      CategoriesConsAccepts(names, first, rest);
      CategoriesConsFirstUnknown(names, first, rest);
      CategoriesConsCovers(names, first, rest);
      CategoriesConsExact(names, first, rest);
      ConsOutcome(names[0], first, rest)
  }

  /** The value one step of `ParseCategories` builds from the first
      name's bits and the outcome for the rest. */
  function ConsOutcome(name: string, first: Option<Mask>, rest: Outcome<Mask>): Outcome<Mask> {
    if first.None? then Failure(InvalidCategory(name))
    else if rest.Failure? then rest
    else Success(first.value + rest.value)
  }

  /** The step of `ParseCategories`: the whole list is accepted exactly
      when its first name and the rest are. */
  lemma CategoriesConsAccepts(names: seq<string>, first: Option<Mask>, rest: Outcome<Mask>)
    requires |names| > 0 && first == CategoryOf(names[0])
    requires rest.Success? <==> forall i | 0 <= i < |names[1..]| :: CategoryOf(names[1..][i]).Some?
    ensures ConsOutcome(names[0], first, rest).Success? <==> forall i | 0 <= i < |names| :: CategoryOf(names[i]).Some?
  {
    assert forall i | 1 <= i < |names| :: names[i] == names[1..][i - 1];
  }

  /** names[i] is the first unknown name, and e the error reporting it. */
  predicate FirstUnknownAt(names: seq<string>, i: int, e: Result) {
    && 0 <= i < |names|
    && CategoryOf(names[i]).None?
    && (forall j | 0 <= j < i :: CategoryOf(names[j]).Some?)
    && e == InvalidCategory(names[i])
  }

  /** The step of `ParseCategories`: a failure names the first unknown
      name of the whole list. */
  lemma CategoriesConsFirstUnknown(names: seq<string>, first: Option<Mask>, rest: Outcome<Mask>)
    requires |names| > 0 && first == CategoryOf(names[0])
    requires rest.Failure? ==> exists i :: FirstUnknownAt(names[1..], i, rest.error)
    ensures var r := ConsOutcome(names[0], first, rest);
      r.Failure? ==> exists i :: FirstUnknownAt(names, i, r.error)
  {
    if first.None? {
      assert FirstUnknownAt(names, 0, InvalidCategory(names[0]));
    } else if rest.Failure? {
      var i :| FirstUnknownAt(names[1..], i, rest.error);
      FirstUnknownShift(names, i, rest.error);
    }
  }

  /** The first unknown name of the tail is the first of the whole list
      when the head is known. */
  lemma FirstUnknownShift(names: seq<string>, i: int, e: Result)
    requires |names| > 0 && CategoryOf(names[0]).Some?
    requires FirstUnknownAt(names[1..], i, e)
    ensures FirstUnknownAt(names, i + 1, e)
  {
    assert forall j | 1 <= j < i + 1 :: names[j] == names[1..][j - 1];
  }

  /** The step of `ParseCategories`: on success every name's bits are set. */
  lemma CategoriesConsCovers(names: seq<string>, first: Option<Mask>, rest: Outcome<Mask>)
    requires |names| > 0 && first == CategoryOf(names[0])
    requires rest.Success? ==> forall i | 0 <= i < |names[1..]| :: CategoryOf(names[1..][i]).Some?
    requires rest.Success? ==> forall i | 0 <= i < |names[1..]| :: CategoryOf(names[1..][i]).value <= rest.value
    ensures var r := ConsOutcome(names[0], first, rest);
      r.Success? ==> forall i | 0 <= i < |names| :: CategoryOf(names[i]).Some? && CategoryOf(names[i]).value <= r.value
  {
    assert forall i | 1 <= i < |names| :: names[i] == names[1..][i - 1];
  }

  /** The step of `ParseCategories`: on success no bit is set that no name
      asks for. */
  lemma CategoriesConsExact(names: seq<string>, first: Option<Mask>, rest: Outcome<Mask>)
    requires |names| > 0 && first == CategoryOf(names[0])
    requires rest.Success? ==> forall i | 0 <= i < |names[1..]| :: CategoryOf(names[1..][i]).Some?
    requires rest.Success? ==> forall k | k in rest.value :: exists i | 0 <= i < |names[1..]| :: k in CategoryOf(names[1..][i]).value
    ensures var r := ConsOutcome(names[0], first, rest);
      r.Success? ==> forall k | k in r.value :: exists i | 0 <= i < |names| :: CategoryOf(names[i]).Some? && k in CategoryOf(names[i]).value
  {
    if first.Some? && rest.Success? {
      forall k | k in first.value + rest.value
        ensures exists i | 0 <= i < |names| :: CategoryOf(names[i]).Some? && k in CategoryOf(names[i]).value
      {
        if k !in first.value {
          var i :| 0 <= i < |names[1..]| && k in CategoryOf(names[1..][i]).value;
          assert names[i + 1] == names[1..][i];
        }
      }
    }
  }

  /** Unknown names are reported, and no bits are set, even after valid
      ones: "info,verbose" fails on "verbose". */
  lemma CategoriesNameFirstUnknown()
    ensures ParseCategories(["info", "verbose"]) == Failure(InvalidCategory("verbose"))
  {
    assert ["info", "verbose"][1..] == ["verbose"];
    assert ["verbose"][1..] == [];
  }

  // ---------------------------------------------------------------------
  // parseArgs

  /** Where the parse stands after some arguments: still going, stopped
      with a result, or stopped by `--help`, whose usage text `ParseArgs`
      supplies as the result. */
  datatype Step =
    | Next(settings: Settings, logger: LoggerState)
    | Stop(settings: Settings, logger: LoggerState, result: Result)
    | Help(settings: Settings, logger: LoggerState)

  /** One pass of the `while` loop: the argument's option and value, the
      field it sets, and the error or early result that ends the loop. */
  function ApplyOption(arg: string, c: Settings, log: LoggerState): (st: Step)
    ensures st.settings.version == c.version
    ensures st.logger == log || (st.Next? && st.logger == SetCategories(log, st.logger.categories))
    ensures st.Stop? ==> KnownCode(st.result)
  {
    var ov := Split(arg, '=', false);
    var name := ov[0];
    if name == "-com-port" then
      if |ov| < 2 then Stop(c, log, RequiresValue(name))
      else
        var c' := c.(comPort := ov[1]);
        if |ov[1]| == 0 then Stop(c', log, InvalidComPort(ov[1])) else Next(c', log)
    else if name == "-tcp-port" then
      if |ov| < 2 then Stop(c, log, RequiresValue(name))
      else
        var c' := c.(tcpPort := Atoi(ov[1]));
        if c'.tcpPort == 0 then Stop(c', log, InvalidTcpPort(ov[1])) else Next(c', log)
    else if name == "-logger-categories" then
      if |ov| < 2 then Stop(c, log, RequiresValue(name))
      else
        match ParseCategories(Split(ov[1], ',', true))
        case Failure(e) => Stop(c, log, e)
        case Success(m) => Next(c, SetCategories(log, m))
    else if name == "-logger-file" then
      if |ov| < 2 then Stop(c, log, RequiresValue(name))
      else Next(c.(loggerFile := ov[1]), log)
    else if name == "--version" then Stop(c, log, VersionResult(c.version))
    else if name == "--help" then Help(c, log)
    else Stop(c, log, InvalidOption(name))
  }

  /** The three codes a parse can stop with; each marks an error for
      `operator bool`, so `initialize` hands them all back. */
  predicate KnownCode(r: Result) {
    r.code == ARGUMENT_ERROR || r.code == VERSION_REQUESTED || r.code == HELP_REQUESTED
  }

  /** The loop over the arguments, left to right, until one stops it. */
  function RunArgs(args: seq<string>, c: Settings, log: LoggerState): (st: Step)
    ensures st.settings.version == c.version
    ensures st.Stop? ==> KnownCode(st.result) && IsError(st.result)
    decreases |args|
  {
    if |args| == 0 then Next(c, log)
    else
      match ApplyOption(args[0], c, log)
      case Next(c', log') => RunArgs(args[1..], c', log')
      case st => st
  }

  /** The rest of the arguments after a step: nothing once it has stopped. */
  function Continue(st: Step, args: seq<string>): Step {
    if st.Next? then RunArgs(args, st.settings, st.logger) else st
  }

  /** Arguments are taken strictly left to right: running a + b is running
      a and then, unless it stopped, b. */
  lemma {:induction false} RunAppend(a: seq<string>, b: seq<string>, c: Settings, log: LoggerState)
    ensures RunArgs(a + b, c, log) == Continue(RunArgs(a, c, log), b)
    decreases |a|
  {
    if |a| == 0 {
      assert a + b == b;
    } else {
      assert (a + b)[0] == a[0] && (a + b)[1..] == a[1..] + b;
      match ApplyOption(a[0], c, log)
      case Next(c', log') => RunAppend(a[1..], b, c', log');
      case _ =>
    }
  }

  /** `Missing `<option>` option.`: each of the two literal messages. */
  function Missing(option: string): (r: Result)
    ensures r.code == ARGUMENT_ERROR
  {
    Result(ARGUMENT_ERROR, "Missing `" + option + "` option." + TRY_HELP)
  }

  /** The first argument is applied, and the rest follow unless it
      stopped. */
  lemma RunCons(arg: string, rest: seq<string>, c: Settings, log: LoggerState)
    ensures RunArgs([arg] + rest, c, log) == Continue(ApplyOption(arg, c, log), rest)
  {
    var a := [arg] + rest;
    assert a[0] == arg && a[1..] == rest;
  }

  /** What `parseArgs` leaves behind: the fields, the logger, the result. */
  datatype Parse = Parse(settings: Settings, logger: LoggerState, result: Result)

  /** `parseArgs(argc, argv)`, with `args` the arguments after the program
      name: the com port and tcp port are cleared, the loop runs, and a
      missing com port is reported before a missing tcp port. */
  function ParseArgs(args: seq<string>, c: Settings, log: LoggerState): (p: Parse)
    ensures !IsError(p.result) ==> p.result == Ok() && |p.settings.comPort| > 0 && p.settings.tcpPort != 0
    ensures p.settings.version == c.version
    ensures p.result == Ok() || KnownCode(p.result)
    ensures var run := RunArgs(args, c.(comPort := "", tcpPort := 0), log);
      p.settings == run.settings && p.logger == run.logger
    ensures var run := RunArgs(args, c.(comPort := "", tcpPort := 0), log);
      run.Stop? ==> p.result == run.result
    ensures var run := RunArgs(args, c.(comPort := "", tcpPort := 0), log);
      run.Help? ==> p.result == HelpResult()
    ensures var run := RunArgs(args, c.(comPort := "", tcpPort := 0), log);
      run.Next? ==>
        p.result == if |p.settings.comPort| == 0 then Missing("-com-port")
                    else if p.settings.tcpPort == 0 then Missing("-tcp-port")
                    else Ok()
  {
    var start := c.(comPort := "", tcpPort := 0);
    match RunArgs(args, start, log)
    case Stop(c', log', r) => Parse(c', log', r)
    case Help(c', log') => Parse(c', log', HelpResult())
    case Next(c', log') =>
      if |c'.comPort| == 0 then
        Parse(c', log', Missing("-com-port"))
      else if c'.tcpPort == 0 then
        Parse(c', log', Missing("-tcp-port"))
      else Parse(c', log', Ok())
  }

  /** The usual command line is accepted and sets both ports. */
  lemma TypicalCommandLine(port: string, tcp: nat, c: Settings, log: LoggerState)
    requires |port| > 0 && '=' !in port && 0 < tcp < 0x8000_0000
    ensures ParseArgs(["-com-port=" + port, "-tcp-port=" + Dec(tcp)], c, log)
      == Parse(c.(comPort := port, tcpPort := tcp), log, Ok())
  {
    TypicalRun(port, tcp, c.(comPort := "", tcpPort := 0), log);
  }

  /** The loop over the usual command line sets both ports and goes on. */
  lemma TypicalRun(port: string, tcp: nat, start: Settings, log: LoggerState)
    requires |port| > 0 && '=' !in port && 0 < tcp < 0x8000_0000
    ensures RunArgs(["-com-port=" + port, "-tcp-port=" + Dec(tcp)], start, log)
      == Next(start.(comPort := port, tcpPort := tcp), log)
  {
    var c1 := start.(comPort := port);
    var a0 := "-com-port=" + port;
    var a1 := "-tcp-port=" + Dec(tcp);
    assert RunArgs([a0, a1], start, log) == RunArgs([a1], c1, log) by {
      ComPortOption(port, start, log);
      assert [a0, a1] == [a0] + [a1];
      RunCons(a0, [a1], start, log);
    }
    assert RunArgs([a1], c1, log) == Next(c1.(tcpPort := tcp), log) by {
      TcpPortDec(tcp, c1, log);
      assert [a1] == [a1] + [];
      RunCons(a1, [], c1, log);
    }
  }

  /** `-com-port=<port>` sets the com port, or stops on an empty one. */
  lemma ComPortOption(port: string, c: Settings, log: LoggerState)
    requires '=' !in port
    ensures ApplyOption("-com-port=" + port, c, log) ==
      if |port| == 0 then Stop(c.(comPort := port), log, InvalidComPort(port)) else Next(c.(comPort := port), log)
  {
    assert "-com-port=" + port == "-com-port" + "=" + port;
    NameValue("-com-port", port);
  }

  /** `-tcp-port=<port>` sets the tcp port to `atoi` of the value, and stops
      when that is 0. */
  lemma TcpPortOption(port: string, c: Settings, log: LoggerState)
    requires '=' !in port
    ensures ApplyOption("-tcp-port=" + port, c, log) ==
      if Atoi(port) == 0 then Stop(c.(tcpPort := 0), log, InvalidTcpPort(port)) else Next(c.(tcpPort := Atoi(port)), log)
  {
    assert "-tcp-port=" + port == "-tcp-port" + "=" + port;
    NameValue("-tcp-port", port);
  }

  /** `-logger-categories=<list>` replaces the mask by the union of the
      listed names, or stops at the first unknown one with the mask
      untouched. */
  lemma CategoriesOption(list: string, c: Settings, log: LoggerState)
    requires '=' !in list
    ensures ApplyOption("-logger-categories=" + list, c, log) ==
      match ParseCategories(Split(list, ',', true))
      case Failure(e) => Stop(c, log, e)
      case Success(m) => Next(c, SetCategories(log, m))
  {
    assert "-logger-categories=" + list == "-logger-categories" + "=" + list;
    NameValue("-logger-categories", list);
  }

  /** `-tcp-port=<n>` with n written in decimal sets the tcp port to n. */
  lemma TcpPortDec(tcp: nat, c: Settings, log: LoggerState)
    requires 0 < tcp < 0x8000_0000
    ensures ApplyOption("-tcp-port=" + Dec(tcp), c, log) == Next(c.(tcpPort := tcp), log)
  {
    assert '=' !in Dec(tcp) by {
      assert forall i | 0 <= i < |Dec(tcp)| :: IsDigit(Dec(tcp)[i]);
    }
    TcpPortOption(Dec(tcp), c, log);
    AtoiDec(tcp);
  }

  /** A repeated option overwrites: after any arguments that did not stop
      the parse, a final `-com-port=<port>` decides the com port. */
  lemma LastComPortWins(args: seq<string>, port: string, c: Settings, log: LoggerState)
    requires '=' !in port && |port| > 0
    requires RunArgs(args, c, log).Next?
    ensures RunArgs(args + ["-com-port=" + port], c, log).Next?
    ensures RunArgs(args + ["-com-port=" + port], c, log).settings.comPort == port
  {
    var st := RunArgs(args, c, log);
    var arg := "-com-port=" + port;
    RunAppend(args, [arg], c, log);
    assert RunArgs(args + [arg], c, log) == RunArgs([arg], st.settings, st.logger);
    ComPortOption(port, st.settings, st.logger);
    assert [arg] == [arg] + [];
    RunCons(arg, [], st.settings, st.logger);
  }

  /** An argument without `=` is an option name alone. */
  lemma NameOnly(name: string)
    requires '=' !in name && |name| > 0
    ensures Split(name, '=', false) == [name]
  {
    assert Join([name], '=') == name;
    SplitsAtUnique(name, '=', [name]);
  }

  /** `--version` ends the parse whatever follows it. */
  lemma VersionStops(rest: seq<string>, c: Settings, log: LoggerState)
    ensures RunArgs(["--version"] + rest, c, log) == Stop(c, log, VersionResult(c.version))
  {
    var a := ["--version"] + rest;
    assert a[0] == "--version";
    NameOnly("--version");
  }

  /** `parseArgs` hands back the version result. */
  lemma VersionParse(rest: seq<string>, c: Settings, log: LoggerState)
    ensures ParseArgs(["--version"] + rest, c, log).result == VersionResult(c.version)
  {
    VersionStops(rest, c.(comPort := "", tcpPort := 0), log);
  }

  /** `--help` ends the parse whatever follows it. */
  lemma HelpStops(rest: seq<string>, c: Settings, log: LoggerState)
    ensures RunArgs(["--help"] + rest, c, log) == Help(c, log)
  {
    var a := ["--help"] + rest;
    assert a[0] == "--help";
    NameOnly("--help");
  }

  /** `parseArgs` hands back the usage text after `--help`. */
  lemma HelpParse(rest: seq<string>, c: Settings, log: LoggerState)
    ensures ParseArgs(["--help"] + rest, c, log).result == HelpResult()
  {
    HelpStops(rest, c.(comPort := "", tcpPort := 0), log);
  }

  /** No arguments: the com port is reported missing first. */
  lemma NoArguments(c: Settings, log: LoggerState)
    ensures ParseArgs([], c, log).result == Missing("-com-port")
  {
  }

  /** The com port is reported missing even when a valid tcp port was
      given, since it is checked first. */
  lemma ComPortReportedFirst(tcp: nat, c: Settings, log: LoggerState)
    requires 0 < tcp < 0x8000_0000
    ensures ParseArgs(["-tcp-port=" + Dec(tcp)], c, log).result == Missing("-com-port")
  {
    var a := "-tcp-port=" + Dec(tcp);
    var start := c.(comPort := "", tcpPort := 0);
    TcpPortDec(tcp, start, log);
    assert [a] == [a] + [];
    RunCons(a, [], start, log);
  }

  /** A com port alone is not enough: the tcp port is then reported
      missing. */
  lemma TcpPortReported(port: string, c: Settings, log: LoggerState)
    requires |port| > 0 && '=' !in port
    ensures ParseArgs(["-com-port=" + port], c, log).result == Missing("-tcp-port")
  {
    var a := "-com-port=" + port;
    var start := c.(comPort := "", tcpPort := 0);
    ComPortOption(port, start, log);
    assert [a] == [a] + [];
    RunCons(a, [], start, log);
  }

  /** The ports are cleared before the loop, so whatever the settings held
      before plays no part in the parse. */
  lemma PortsReset(args: seq<string>, c: Settings, port: string, tcp: int, log: LoggerState)
    ensures ParseArgs(args, c.(comPort := port, tcpPort := tcp), log) == ParseArgs(args, c, log)
  {
    assert c.(comPort := port, tcpPort := tcp).(comPort := "", tcpPort := 0) == c.(comPort := "", tcpPort := 0);
  }

  /** `-logger-categories=<name>` with a single known name replaces the
      mask by that name's bits, whatever was enabled before. */
  lemma CategoriesReplace(name: string, c: Settings, log: LoggerState)
    requires CategoryOf(name).Some? && '=' !in name && ',' !in name && Trim(name, true) == name
    ensures ApplyOption("-logger-categories=" + name, c, log) == Next(c, SetCategories(log, CategoryOf(name).value))
  {
    CategoriesOption(name, c, log);
    assert Split(name, ',', true) == [name] by {
      SplitSingle(name, ',');
    }
    assert ParseCategories([name]) == Success(CategoryOf(name).value) by {
      CategoriesSingle(name);
    }
  }

  /** A single known name gives exactly its own bits. */
  lemma CategoriesSingle(name: string)
    requires CategoryOf(name).Some?
    ensures ParseCategories([name]) == Success(CategoryOf(name).value)
  {
    assert [name][1..] == [];
    var none: Mask := {};
    assert ParseCategories([]) == Success(none);
    assert CategoryOf(name).value + {} == CategoryOf(name).value;
  }

  /** A text without the delimiter is one trimmed piece. */
  lemma SplitSingle(s: string, d: char)
    requires d !in s && |s| > 0
    ensures Split(s, d, true) == [Trim(s, true)]
  {
    assert Join([s], d) == s;
    SplitsAtUnique(s, d, [s]);
  }

  // ---------------------------------------------------------------------
  // the help text

  /** The usage text before its placeholder. */
  const HELP_HEAD: string :=
    "\n"
    + "DESCRIPTION\n"
    + "\n"
    + "    LiteVNAServer is an HTTP server for querying data (in JSON format) from a LiteVNA 64 device.\n"
    + "    It uses device calibration data.\n"
    + "\n"
    + "USAGE\n"
    + "\n"
    + "    litevnaserver [options]\n"
    + "\n"
    + "    Options:\n"
    + "        --version                    Show version information.\n"
    + "        --help                       Display this information.\n"
    + "        -com-port=<name>             (required) serial port where LiteVNA device is connected.\n"
    + "        -tcp-port=<number>           (required) tcp port where LiteVNAServer will listen for requests.\n"
    + "        -logger-categories=<options> Comma separated options: http_server,lite_vna,info,error,all (default info,error).\n"
    + "        -logger-file=<file-name>     Logger output file (do not write to file by default).\n"
    + "\n"
    + "    Example:\n"
    + "        litevnaserver -com-port="

  /** The usage text after its placeholder. */
  const HELP_TAIL: string :=
    " -tcp-port=8888 -logger-categories=lite_vna,info,error\n"
    + "\n"
    + "REQUEST\n"
    + "\n"
    + "    Clients must send an HTML GET request with url containing all the following parameters:\n"
    + "        start     sweep start frequency in Hz.\n"
    + "        step      sweep step frequency in Hz.\n"
    + "        points    number of sweep frequency points.\n"
    + "\n"
    + "    Example:\n"
    + "        http://localhost:8888/litevna?start=4300000000&step=10000000&points=2\n"
    + "\n"
    + "\n"
    + "RETURN VALUE\n"
    + "\n"
    + "    For a successful call, returns a JSON with a \"result\" field containing the scanned data.\n"
    + "\n"
    + "    Example:\n"
    + "\n"
    + "    {\n"
    + "      \"result\": [\n"
    + "        {\n"
    + "          \"freq\": 4300000000,\n"
    + "          \"s11\": {\n"
    + "            \"log_mag\": -11.0299,\n"
    + "            \"phase\": -159.707,\n"
    + "            \"swr\": 1.78113\n"
    + "          },\n"
    + "          \"s21\": {\n"
    + "            \"log_mag\": -73.0412,\n"
    + "            \"phase\": -121.084\n"
    + "          }\n"
    + "        },\n"
    + "        {\n"
    + "          \"freq\": 4310000000,\n"
    + "          \"s11\": {\n"
    + "            \"log_mag\": -11.2397,\n"
    + "            \"phase\": -161.013,\n"
    + "            \"swr\": 1.75546\n"
    + "          },\n"
    + "          \"s21\": {\n"
    + "            \"log_mag\": -67.4901,\n"
    + "            \"phase\": -88.1427\n"
    + "          }\n"
    + "        }\n"
    + "      ]\n"
    + "    }\n"
    + "\n"
    + "    If an error occurs, returns a JSON with an \"error\" field with a description.\n"
    + "\n"
    + "    Example:\n"
    + "\n"
    + "    {\n"
    + "        \"error\": \"missing 'start' parameter\"\n"
    + "    }\n"
}
