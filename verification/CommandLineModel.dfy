/** Switches on a POSIX command line: base/command_line.cc. The vector argv and the map of
    switches are kept side by side; parsing argv again must give the map. */
module CommandLineModel {
  import opened Basics

  type Switches = map<string, string>

  const TERMINATOR := "--"

  // -------------------------------------------------------------- parsing

  /** find: the first position of c at or after start, or -1. */
  function IndexOf(s: string, c: char, start: nat): (r: int)
    requires start <= |s|
    ensures r == -1 || start <= r < |s|
    ensures r >= 0 ==> s[r] == c && forall q :: start <= q < r ==> s[q] != c
    ensures r == -1 ==> forall q :: start <= q < |s| ==> s[q] != c
    decreases |s| - start
  {
    if start == |s| then -1 else if s[start] == c then start else IndexOf(s, c, start + 1)
  }

  function SplitSwitch(s: string, start: nat): (string, string)
    requires start <= |s|
  {
    var eq := IndexOf(s, '=', start);
    if eq == -1 then (s[start..], "") else (s[start..eq], s[eq+1..])
  }

  /** IsSwitch: the longer prefix "--" is tried before "-". */
  function IsSwitch(s: string): Option<(string, string)> {
    if "--" <= s then Some(SplitSwitch(s, 2))
    else if "-" <= s then Some(SplitSwitch(s, 1))
    else None
  }

  datatype Parsed = Parsed(switches: Switches, args: seq<string>, parsing: bool)

  function ParseOne(p: Parsed, arg: string): Parsed {
    if !p.parsing then p.(args := p.args + [arg])
    else if arg == TERMINATOR then p.(parsing := false)
    else match IsSwitch(arg)
         case Some((name, value)) => p.(switches := p.switches[name := value])
         case None => p.(args := p.args + [arg])
  }

  /** The loop of InitFromArgv over the arguments after the program. */
  function ParseFrom(p: Parsed, arguments: seq<string>): Parsed {
    if arguments == [] then p
    else ParseOne(ParseFrom(p, arguments[..|arguments|-1]), arguments[|arguments|-1])
  }

  const NOTHING := Parsed(map[], [], true)

  function Tail(argv: seq<string>): seq<string> { if argv == [] then [] else argv[1..] }

  function Parse(argv: seq<string>): Parsed { ParseFrom(NOTHING, Tail(argv)) }

  // ------------------------------------------------------------ operations

  datatype State = State(argv: seq<string>, switches: Switches, args: seq<string>)

  function SwitchArgument(name: string, value: string): string {
    "--" + name + if value == "" then "" else "=" + value
  }

  function AppendSwitch(s: State, name: string, value: string): State {
    s.(argv := s.argv + [SwitchArgument(name, value)], switches := s.switches[name := value])
  }

  function AppendArg(s: State, value: string): State { s.(argv := s.argv + [value]) }

  function AppendArgs(s: State, values: seq<string>): State { s.(argv := s.argv + values) }

  function AppendEach(s: State, pairs: seq<(string, string)>): State {
    if pairs == [] then s
    else
      var (name, value) := pairs[|pairs|-1];
      AppendSwitch(AppendEach(s, pairs[..|pairs|-1]), name, value)
  }

  lemma {:induction false} AppendEachSnoc(s: State, pairs: seq<(string, string)>, name: string, value: string)
    ensures AppendEach(s, pairs + [(name, value)]) == AppendSwitch(AppendEach(s, pairs), name, value)
  {
    assert (pairs + [(name, value)])[..|pairs|] == pairs;
  }

  /** What a list of switches adds to argv. */
  lemma {:induction false} EachText(s: State, pairs: seq<(string, string)>)
    ensures AppendEach(s, pairs).argv ==
            s.argv + seq(|pairs|, i requires 0 <= i < |pairs| =>
                                  "--" + pairs[i].0 + if pairs[i].1 == "" then "" else "=" + pairs[i].1)
  {
    if pairs != [] {
      var init, last := pairs[..|pairs|-1], pairs[|pairs|-1];
      EachText(s, init);
      assert pairs == init + [last];
    }
  }

  /** The switches of source that are named in names, in that order. */
  function Selected(source: Switches, names: seq<string>): seq<(string, string)> {
    if names == [] then []
    else
      var name := names[|names|-1];
      Selected(source, names[..|names|-1]) + if name in source then [(name, source[name])] else []
  }

  lemma {:induction false} SelectedNext(source: Switches, names: seq<string>, i: nat)
    requires i < |names|
    ensures Selected(source, names[..i+1]) ==
            if names[i] in source then Selected(source, names[..i]) + [(names[i], source[names[i]])]
            else Selected(source, names[..i])
  {
    assert names[..i+1][..i] == names[..i];
  }

  /** Selecting follows the names one by one. */
  lemma {:induction false} SelectedMeans(source: Switches, xs: seq<string>, ys: seq<string>)
    ensures Selected(source, xs + ys) == Selected(source, xs) + Selected(source, ys)
    ensures |xs| == 1 ==> Selected(source, xs) == if xs[0] in source then [(xs[0], source[xs[0]])] else []
    decreases |ys|
  {
    if |xs| == 1 { assert xs[..0] == []; }
    if ys == [] {
      assert xs + ys == xs;
    } else {
      var init := ys[..|ys|-1];
      SelectedMeans(source, xs, init);
      assert (xs + ys)[..|xs + ys|-1] == xs + init;
    }
  }

  function AppendArguments(s: State, other: State, includeProgram: bool): State
    requires other.argv != [] && (includeProgram ==> s.argv != [])
  {
    State((if includeProgram then s.argv[0 := other.argv[0]] else s.argv) + other.argv[1..],
          s.switches + other.switches, s.args)
  }

  /** One call; AppendSwitches and CopySwitchesFrom come down to a list of switches. */
  datatype Op =
    | Switch(name: string, value: string)
    | SwitchList(pairs: seq<(string, string)>)
    | Arg(value: string)
    | ArgList(values: seq<string>)
    | Arguments(other: State, includeProgram: bool)

  predicate Callable(s: State, op: Op) {
    op.Arguments? ==> s.argv != [] && op.other.argv != []
  }

  function Apply(s: State, op: Op): State
    requires Callable(s, op)
  {
    match op
    case Switch(name, value) => AppendSwitch(s, name, value)
    case SwitchList(pairs) => AppendEach(s, pairs)
    case Arg(value) => AppendArg(s, value)
    case ArgList(values) => AppendArgs(s, values)
    case Arguments(other, includeProgram) => AppendArguments(s, other, includeProgram)
  }

  // --------------------------------------------------------- consistency

  /** Parsing argv gives the switches, and no "--" cuts the switches off. */
  predicate Consistent(s: State) {
    Parse(s.argv).switches == s.switches && Parse(s.argv).parsing
  }

  predicate GoodSwitch(name: string, value: string) {
    '=' !in name && (name != "" || value != "")
  }

  predicate GoodArg(switches: Switches, value: string) {
    && value != TERMINATOR
    && match IsSwitch(value)
       case Some((n, v)) => n in switches && switches[n] == v
       case None => true
  }

  /** No "--", and what else starts with a dash only says again what is there. */
  predicate GoodArgs(switches: Switches, values: seq<string>) {
    var read := ParseFrom(NOTHING, values).switches;
    TERMINATOR !in values && forall k | k in read.Keys :: Lookup(switches, k) == Some(read[k])
  }

  /** other's own reading of its argv and its switches agree once s's switches are there. */
  predicate GoodArguments(s: State, other: State) {
    var p := Parse(other.argv);
    && p.parsing
    && forall k | k in p.switches.Keys + other.switches.Keys ::
         Lookup(s.switches + p.switches, k) == Lookup(s.switches + other.switches, k)
  }

  function Lookup(switches: Switches, k: string): Option<string> {
    if k in switches then Some(switches[k]) else None
  }

  predicate Good(s: State, op: Op) {
    match op
    case Switch(name, value) => GoodSwitch(name, value)
    case SwitchList(pairs) => forall p | p in pairs :: GoodSwitch(p.0, p.1)
    case Arg(value) => GoodArg(s.switches, value)
    case ArgList(values) => GoodArgs(s.switches, values)
    case Arguments(other, _) => GoodArguments(s, other)
  }

  // ------------------------------------------------------ parsing one switch

  lemma {:induction false} IndexOfIs(s: string, c: char, start: nat, r: int)
    requires start <= |s|
    requires if r == -1 then forall q :: start <= q < |s| ==> s[q] != c
             else start <= r < |s| && s[r] == c && forall q :: start <= q < r ==> s[q] != c
    ensures IndexOf(s, c, start) == r
  {}

  /** A switch that is written out is read back as it was, or not as a switch at all. */
  lemma {:induction false} WrittenSwitch(name: string, value: string)
    requires '=' !in name
    ensures IsSwitch(SwitchArgument(name, value)) == Some((name, value))
    ensures SwitchArgument(name, value) == TERMINATOR <==> name == "" && value == ""
    ensures "--" <= SwitchArgument(name, value) && ('=' in SwitchArgument(name, value) <==> value != "")
  {
    var s := SwitchArgument(name, value);
    var n := |name|;
    assert s[..2] == "--" && s[2..2+n] == name;
    forall q | 2 <= q < 2 + n ensures s[q] != '=' {
      assert s[q] == name[q-2] && name[q-2] in name;
    }
    if value == "" {
      IndexOfIs(s, '=', 2, -1);
      assert s[2..] == name;
    } else {
      assert s[2+n] == '=';
      IndexOfIs(s, '=', 2, 2 + n);
      assert s[2+n+1..] == value;
    }
  }

  /** No shorter argument with two dashes stands for the same switch. */
  lemma {:induction false} WrittenShortest(name: string, value: string, other: string)
    requires '=' !in name && "--" <= other && IsSwitch(other) == Some((name, value))
    ensures |SwitchArgument(name, value)| <= |other|
  {
    SwitchReading(other, name, value);
    assert |other[2..]| == |other| - 2;
  }

  /** rest is the name alone, or name and value around the first '='. */
  predicate Spells(rest: string, name: string, value: string) {
    '=' !in name && (rest == name + "=" + value || (value == "" && rest == name))
  }

  lemma {:induction false} SplitExact(s: string, start: nat, name: string, value: string)
    requires start <= |s|
    ensures SplitSwitch(s, start) == (name, value) <==> Spells(s[start..], name, value)
  {
    hide IndexOf;
    var eq, rest := IndexOf(s, '=', start), s[start..];
    SplitHasNoEquals(s, start);
    if eq != -1 {
      assert rest == s[start..eq] + "=" + s[eq+1..];
    }
    if Spells(rest, name, value) {
      if rest == name + "=" + value {
        SplitAtEquals(s, start, name, value);
      } else {
        SplitBareName(s, start, name);
      }
    }
  }

  lemma {:induction false} SplitAtEquals(s: string, start: nat, name: string, value: string)
    requires start <= |s| && s[start..] == name + "=" + value && '=' !in name
    ensures SplitSwitch(s, start) == (name, value)
  {
    hide IndexOf;
    var rest, n := s[start..], start + |name|;
    assert rest[|name|] == '=' && rest[..|name|] == name && rest[|name|+1..] == value;
    forall q | start <= q < n ensures s[q] != '=' {
      assert s[q] == rest[q-start] == name[q-start] && name[q-start] in name;
    }
    IndexOfIs(s, '=', start, n);
    assert s[start..n] == rest[..|name|] && s[n+1..] == rest[|name|+1..];
  }

  lemma {:induction false} SplitBareName(s: string, start: nat, name: string)
    requires start <= |s| && s[start..] == name && '=' !in name
    ensures SplitSwitch(s, start) == (name, "")
  {
    hide IndexOf;
    forall q | start <= q < |s| ensures s[q] != '=' {
      assert s[q] == name[q-start] && name[q-start] in name;
    }
    IndexOfIs(s, '=', start, -1);
  }

  /** An argument is a switch exactly if it starts with a dash, and it stands for the name
      and value that it spells after two dashes or, if there are not two, after one. */
  lemma {:induction false} SwitchReading(s: string, name: string, value: string)
    ensures IsSwitch(s) == None <==> !("-" <= s)
    ensures IsSwitch(s) == Some((name, value)) <==>
            ("--" <= s && Spells(s[2..], name, value)) || ("-" <= s && !("--" <= s) && Spells(s[1..], name, value))
  {
    if "--" <= s {
      assert s[..1] == "-";
      SplitExact(s, 2, name, value);
    } else if "-" <= s {
      SplitExact(s, 1, name, value);
    }
  }

  /** No parsed switch has '=' in its name. */
  lemma {:induction false} SplitHasNoEquals(s: string, start: nat)
    requires start <= |s|
    ensures '=' !in SplitSwitch(s, start).0
  {
    var eq := IndexOf(s, '=', start);
    var end := if eq == -1 then |s| else eq;
    forall i | 0 <= i < end - start ensures s[start..end][i] != '=' {}
  }

  predicate KeysPlain(switches: Switches) {
    forall k | k in switches.Keys :: '=' !in k
  }

  lemma {:induction false} ParseKeysPlain(p: Parsed, arguments: seq<string>)
    requires KeysPlain(p.switches)
    ensures KeysPlain(ParseFrom(p, arguments).switches)
  {
    if arguments != [] {
      var last := arguments[|arguments|-1];
      ParseKeysPlain(p, arguments[..|arguments|-1]);
      if "--" <= last { SplitHasNoEquals(last, 2); }
      else if "-" <= last { SplitHasNoEquals(last, 1); }
    }
  }

  lemma {:induction false} ParseSnoc(p: Parsed, arguments: seq<string>, arg: string)
    ensures ParseFrom(p, arguments + [arg]) == ParseOne(ParseFrom(p, arguments), arg)
  {
    assert (arguments + [arg])[..|arguments|] == arguments;
  }

  lemma {:induction false} ParseAppended(argv: seq<string>, arg: string)
    requires argv != []
    ensures Parse(argv + [arg]) == ParseOne(Parse(argv), arg)
  {
    ParseSnoc(NOTHING, argv[1..], arg);
    assert (argv + [arg])[1..] == argv[1..] + [arg];
  }

  // ------------------------------------------------ every call, exactly

  lemma {:induction false} SwitchExact(s: State, name: string, value: string)
    requires Consistent(s) && s.argv != []
    ensures Consistent(AppendSwitch(s, name, value)) <==> GoodSwitch(name, value)
  {
    ParseAppended(s.argv, SwitchArgument(name, value));
    if '=' !in name {
      WrittenSwitch(name, value);
    } else {
      ParseKeysPlain(NOTHING, Tail(AppendSwitch(s, name, value).argv));
      assert name in AppendSwitch(s, name, value).switches.Keys;
    }
  }

  lemma {:induction false} ArgExact(s: State, value: string)
    requires Consistent(s) && s.argv != []
    ensures Consistent(AppendArg(s, value)) <==> GoodArg(s.switches, value)
  {
    ParseAppended(s.argv, value);
  }

  /** A state that no later switch can repair: the switches are cut off, or one of them
      has a name that parsing never gives. */
  predicate Hopeless(s: State) {
    s.argv != [] && (!Parse(s.argv).parsing || !KeysPlain(s.switches))
  }

  lemma {:induction false} HopelessIsInconsistent(s: State)
    requires Hopeless(s)
    ensures !Consistent(s)
  {
    ParseKeysPlain(NOTHING, Tail(s.argv));
  }

  lemma {:induction false} SwitchKeepsHopeless(s: State, name: string, value: string)
    requires Hopeless(s)
    ensures Hopeless(AppendSwitch(s, name, value))
  {
    ParseAppended(s.argv, SwitchArgument(name, value));
    if !KeysPlain(s.switches) {
      var k :| k in s.switches.Keys && '=' in k;
      assert k in AppendSwitch(s, name, value).switches.Keys;
    }
  }

  lemma {:induction false} BadSwitchIsHopeless(s: State, name: string, value: string)
    requires s.argv != [] && Consistent(s) && !GoodSwitch(name, value)
    ensures Hopeless(AppendSwitch(s, name, value))
  {
    ParseAppended(s.argv, SwitchArgument(name, value));
    if '=' in name {
      assert name in AppendSwitch(s, name, value).switches.Keys;
    } else {
      WrittenSwitch(name, value);
    }
  }

  predicate AllGood(pairs: seq<(string, string)>) {
    forall p | p in pairs :: GoodSwitch(p.0, p.1)
  }

  lemma {:induction false} AppendEachExact(s: State, pairs: seq<(string, string)>)
    requires s.argv != [] && Consistent(s)
    ensures var r := AppendEach(s, pairs);
            && r.argv != []
            && (if AllGood(pairs) then Consistent(r) else Hopeless(r))
  {
    hide Consistent, Hopeless, GoodSwitch;
    if pairs != [] {
      var init, last := pairs[..|pairs|-1], pairs[|pairs|-1];
      assert pairs == init + [last];
      var r := AppendEach(s, init);
      AppendEachExact(s, init);
      assert AllGood(pairs) <==> AllGood(init) && GoodSwitch(last.0, last.1);
      if AllGood(init) {
        SwitchExact(r, last.0, last.1);
        if !GoodSwitch(last.0, last.1) { BadSwitchIsHopeless(r, last.0, last.1); }
      } else {
        SwitchKeepsHopeless(r, last.0, last.1);
      }
    }
  }

  // ------------------------------------------------ appending arguments

  lemma {:induction false} ParseConcat(p: Parsed, xs: seq<string>, ys: seq<string>)
    ensures ParseFrom(p, xs + ys) == ParseFrom(ParseFrom(p, xs), ys)
    decreases |ys|
  {
    if ys == [] {
      assert xs + ys == xs;
    } else {
      assert (xs + ys)[..|xs + ys|-1] == xs + ys[..|ys|-1];
      ParseConcat(p, xs, ys[..|ys|-1]);
    }
  }

  /** What a parse adds does not depend on what was there, as long as it still parses. */
  lemma {:induction false} ParseOnTop(p: Parsed, ys: seq<string>)
    requires p.parsing
    ensures var q, r := ParseFrom(NOTHING, ys), ParseFrom(p, ys);
            && r.parsing == q.parsing && r.switches == p.switches + q.switches && r.args == p.args + q.args
  {
    if ys == [] {
      assert p.switches + map[] == p.switches;
    } else {
      ParseOnTop(p, ys[..|ys|-1]);
      var q := ParseFrom(NOTHING, ys[..|ys|-1]);
      var last := ys[|ys|-1];
      assert p.args + (q.args + [last]) == p.args + q.args + [last];
      match IsSwitch(last)
      case Some((n, v)) => assert p.switches + q.switches[n := v] == (p.switches + q.switches)[n := v];
      case None =>
    }
  }

  lemma {:induction false} ArgsExact(s: State, values: seq<string>)
    requires s.argv != [] && Consistent(s)
    ensures Consistent(AppendArgs(s, values)) <==> GoodArgs(s.switches, values)
    ensures Parse(AppendArgs(s, values).argv).args == Parse(s.argv).args + ParseFrom(NOTHING, values).args
  {
    var p := ParseFrom(NOTHING, values);
    assert (s.argv + values)[1..] == s.argv[1..] + values;
    ParseConcat(NOTHING, s.argv[1..], values);
    ParseOnTop(Parse(s.argv), values);
    ParsingUntilTerminator(values);
    OverlayIsIdle(s.switches, p.switches);
  }

  lemma {:induction false} OverlayIsIdle(base: Switches, over: Switches)
    ensures base + over == base <==> forall k | k in over.Keys :: Lookup(base, k) == Some(over[k])
  {
    if forall k | k in over.Keys :: Lookup(base, k) == Some(over[k]) {
      assert (base + over).Keys == base.Keys;
    } else {
      var k :| k in over.Keys && Lookup(base, k) != Some(over[k]);
      assert Lookup(base + over, k) == Some(over[k]);
    }
  }

  lemma {:induction false} ArgumentsExact(s: State, other: State, includeProgram: bool)
    requires s.argv != [] && other.argv != [] && Consistent(s)
    ensures Consistent(AppendArguments(s, other, includeProgram)) <==> GoodArguments(s, other)
    ensures var r := Parse(AppendArguments(s, other, includeProgram).argv);
            r.parsing == Parse(other.argv).parsing && r.args == Parse(s.argv).args + Parse(other.argv).args
  {
    var r := AppendArguments(s, other, includeProgram);
    var p := Parse(other.argv);
    assert r.argv[1..] == s.argv[1..] + other.argv[1..];
    ParseConcat(NOTHING, s.argv[1..], other.argv[1..]);
    ParseOnTop(Parse(s.argv), other.argv[1..]);
    assert Parse(r.argv).switches == s.switches + p.switches;
    LookupsAgree(s.switches, p.switches, other.switches);
  }

  lemma {:induction false} LookupsAgree(base: Switches, xs: Switches, ys: Switches)
    ensures base + xs == base + ys <==>
            forall k | k in xs.Keys + ys.Keys :: Lookup(base + xs, k) == Lookup(base + ys, k)
  {
    if forall k | k in xs.Keys + ys.Keys :: Lookup(base + xs, k) == Lookup(base + ys, k) {
      forall k ensures Lookup(base + xs, k) == Lookup(base + ys, k) {
        if k !in xs.Keys + ys.Keys { assert Lookup(base + xs, k) == Lookup(base, k) == Lookup(base + ys, k); }
      }
      forall k ensures k in base + xs <==> k in base + ys {
        assert Lookup(base + xs, k) == Lookup(base + ys, k);
      }
      assert (base + xs).Keys == (base + ys).Keys;
    }
  }

  /** The command lines whose arguments may be appended to any consistent one are just
      the consistent ones. */
  lemma {:induction false} SafeSources(other: State, includeProgram: bool)
    requires other.argv != []
    ensures (forall s: State :: s.argv != [] && Consistent(s) ==> Consistent(AppendArguments(s, other, includeProgram)))
            <==> Consistent(other)
  {
    var none := State([""], map[], []);
    assert Consistent(none);
    ArgumentsExact(none, other, includeProgram);
    EmptyBase(other);
    forall s: State | s.argv != [] && Consistent(s) && Consistent(other)
      ensures Consistent(AppendArguments(s, other, includeProgram))
    {
      ArgumentsExact(s, other, includeProgram);
    }
  }

  lemma {:induction false} EmptyBase(other: State)
    ensures GoodArguments(State([""], map[], []), other) <==> Consistent(other)
  {
    var none: Switches := map[];
    var p := Parse(other.argv);
    LookupsAgree(none, p.switches, other.switches);
    assert none + p.switches == p.switches && none + other.switches == other.switches;
  }

  lemma {:induction false} NothingParsedAfter(p: Parsed, ys: seq<string>)
    requires !p.parsing
    ensures ParseFrom(p, ys) == p.(args := p.args + ys)
  {
    if ys == [] {
      assert p.args + ys == p.args;
    } else {
      var init := ys[..|ys|-1];
      NothingParsedAfter(p, init);
      assert ys == init + [ys[|ys|-1]];
      assert p.args + init + [ys[|ys|-1]] == p.args + ys;
    }
  }

  /** The plain arguments among xs. */
  function PlainArgs(xs: seq<string>): seq<string> {
    if xs == [] then [] else (if "-" <= xs[0] then [] else [xs[0]]) + PlainArgs(xs[1..])
  }

  lemma {:induction false} PlainArgsSnoc(xs: seq<string>, x: string)
    ensures PlainArgs(xs + [x]) == PlainArgs(xs) + if "-" <= x then [] else [x]
  {
    if xs == [] {
      assert ([x])[1..] == [] && xs + [x] == [x];
    } else {
      PlainArgsSnoc(xs[1..], x);
      assert (xs + [x])[1..] == xs[1..] + [x];
    }
  }

  lemma {:induction false} ParseBeforeTerminator(xs: seq<string>)
    requires TERMINATOR !in xs
    ensures var p := ParseFrom(NOTHING, xs); p.parsing && p.args == PlainArgs(xs)
  {
    if xs != [] {
      var init, last := xs[..|xs|-1], xs[|xs|-1];
      assert xs == init + [last] && last in xs && forall x :: x in init ==> x in xs;
      ParseBeforeTerminator(init);
      PlainArgsSnoc(init, last);
      SwitchReading(last, "", "");
    }
  }

  /** The first "--" ends the switches: in front of it everything with a dash is a switch
      and the rest is arguments, behind it everything is an argument. */
  lemma {:induction false} TerminatorSplits(program: string, xs: seq<string>, ys: seq<string>)
    requires TERMINATOR !in xs
    ensures var front, whole := Parse([program] + xs), Parse([program] + xs + [TERMINATOR] + ys);
            && front.parsing && front.args == PlainArgs(xs)
            && !whole.parsing && whole.switches == front.switches && whole.args == PlainArgs(xs) + ys
  {
    assert ([program] + xs)[1..] == xs;
    assert ([program] + xs + [TERMINATOR] + ys)[1..] == xs + [TERMINATOR] + ys;
    ParseBeforeTerminator(xs);
    ParseConcat(NOTHING, xs + [TERMINATOR], ys);
    ParseSnoc(NOTHING, xs, TERMINATOR);
    NothingParsedAfter(ParseFrom(NOTHING, xs + [TERMINATOR]), ys);
  }

  // ------------------------------------------------------------- runs

  lemma {:induction false} OpExact(s: State, op: Op)
    requires s.argv != [] && Consistent(s) && Callable(s, op)
    ensures Consistent(Apply(s, op)) <==> Good(s, op)
    ensures Apply(s, op).argv != []
  {
    hide Consistent, GoodSwitch, GoodArg, GoodArgs, GoodArguments;
    match op
    case Switch(name, value) => SwitchExact(s, name, value);
    case SwitchList(pairs) =>
      AppendEachExact(s, pairs);
      if !AllGood(pairs) { HopelessIsInconsistent(AppendEach(s, pairs)); }
    case Arg(value) => ArgExact(s, value);
    case ArgList(values) => ArgsExact(s, values);
    case Arguments(other, includeProgram) => ArgumentsExact(s, other, includeProgram);
  }

  predicate CallableRun(ops: seq<Op>) {
    forall op | op in ops :: op.Arguments? ==> op.other.argv != []
  }

  /** The states of a run, the first one included. */
  predicate AlwaysConsistent(s: State, ops: seq<Op>)
    requires s.argv != [] && CallableRun(ops)
    decreases |ops|
  {
    Consistent(s) &&
    (ops == [] || (ArgvStays(s, ops[0]); AlwaysConsistent(Apply(s, ops[0]), ops[1..])))
  }

  /** Every call in the run is good at the moment it is made. */
  predicate GoodRun(s: State, ops: seq<Op>)
    requires s.argv != [] && CallableRun(ops)
    decreases |ops|
  {
    ops == [] || (ArgvStays(s, ops[0]); Good(s, ops[0]) && GoodRun(Apply(s, ops[0]), ops[1..]))
  }

  lemma {:induction false} ArgvStays(s: State, op: Op)
    requires s.argv != [] && Callable(s, op)
    ensures Apply(s, op).argv != []
  {
    if op.SwitchList? { EachKeepsArgv(s, op.pairs); }
  }

  lemma {:induction false} EachKeepsArgv(s: State, pairs: seq<(string, string)>)
    ensures s.argv <= AppendEach(s, pairs).argv && AppendEach(s, pairs).args == s.args
  {
    if pairs != [] { EachKeepsArgv(s, pairs[..|pairs|-1]); }
  }

  /** Over every run from a consistent command line: argv and the switches agree all
      along exactly if every call is good when it is made. */
  lemma {:induction false} RunExact(s: State, ops: seq<Op>)
    requires s.argv != [] && CallableRun(ops) && Consistent(s)
    ensures AlwaysConsistent(s, ops) <==> GoodRun(s, ops)
    decreases |ops|
  {
    if ops != [] {
      OpExact(s, ops[0]);
      if Good(s, ops[0]) {
        RunExact(Apply(s, ops[0]), ops[1..]);
      }
    }
  }

  lemma {:induction false} ParsingUntilTerminator(xs: seq<string>)
    ensures ParseFrom(NOTHING, xs).parsing <==> TERMINATOR !in xs
  {
    if xs != [] {
      ParsingUntilTerminator(xs[..|xs|-1]);
      assert xs == xs[..|xs|-1] + [xs[|xs|-1]];
    }
  }

  /** A new command line is consistent, exactly unless it starts from an argv with "--". */
  lemma {:induction false} NewIsConsistent(program: string, argv: seq<string>)
    ensures Consistent(State([program], map[], []))
    ensures var p := Parse(argv); Consistent(State(argv, p.switches, p.args)) <==> TERMINATOR !in Tail(argv)
  {
    ParsingUntilTerminator(Tail(argv));
  }

  /** An argv without even a program swallows the first switch as its program. */
  lemma {:induction false} EmptyArgvSwallowsSwitch(s: State, name: string, value: string)
    requires s.argv == [] && Consistent(s)
    ensures !Consistent(AppendSwitch(s, name, value)) && Consistent(AppendArg(s, value))
  {
    assert name !in Parse(AppendSwitch(s, name, value).argv).switches;
  }

  // -------------------------------------------- where the arguments go

  /** AppendArg extends argv only: no call ever changes the list of arguments, ... */
  lemma {:induction false} ArgsNeverGrow(s: State, op: Op)
    requires Callable(s, op)
    ensures Apply(s, op).args == s.args
  {
    if op.SwitchList? { EachKeepsArgv(s, op.pairs); }
  }

  /** The list is what parsing argv again gives. */
  predicate ListsAgree(s: State) { s.args == Parse(s.argv).args }

  /** ... so that the list stays what parsing argv gives exactly if the argument that is
      appended looks like a switch. */
  lemma {:induction false} ArgListExact(s: State, value: string)
    requires s.argv != [] && Consistent(s) && ListsAgree(s)
    ensures ListsAgree(AppendArg(s, value)) <==> IsSwitch(value).Some?
  {
    ParseAppended(s.argv, value);
  }

  /** The calls that bring no plain argument along. */
  predicate BringsNoArgs(op: Op) {
    match op
    case Switch(_, _) => true
    case SwitchList(_) => true
    case Arg(value) => IsSwitch(value).Some?
    case ArgList(values) => PlainArgs(values) == []
    case Arguments(other, _) => Parse(other.argv).args == []
  }

  /** The same of every call that keeps argv and the switches in step. */
  lemma {:induction false} ListsExact(s: State, op: Op)
    requires s.argv != [] && Consistent(s) && ListsAgree(s) && Callable(s, op) && Good(s, op)
    ensures ListsAgree(Apply(s, op)) <==> BringsNoArgs(op)
  {
    hide Consistent, GoodSwitch, GoodArguments, Parse, IsSwitch;
    match op
    case Switch(name, value) => EachBringsNoArgs(s, [(name, value)]); AppendEachSnoc(s, [], name, value);
    case SwitchList(pairs) => EachBringsNoArgs(s, pairs);
    case Arg(value) => ArgListExact(s, value);
    case ArgList(values) =>
      ArgsExact(s, values);
      ParseBeforeTerminator(values);
    case Arguments(other, includeProgram) => ArgumentsExact(s, other, includeProgram);
  }

  lemma {:induction false} SwitchBringsNoArgs(s: State, name: string, value: string)
    requires s.argv != [] && Consistent(s) && ListsAgree(s) && GoodSwitch(name, value)
    ensures ListsAgree(AppendSwitch(s, name, value)) && Consistent(AppendSwitch(s, name, value))
  {
    hide IsSwitch, Parse, SwitchArgument;
    WrittenSwitch(name, value);
    ParseAppended(s.argv, SwitchArgument(name, value));
    SwitchExact(s, name, value);
  }

  lemma {:induction false} EachBringsNoArgs(s: State, pairs: seq<(string, string)>)
    requires s.argv != [] && Consistent(s) && ListsAgree(s) && AllGood(pairs)
    ensures ListsAgree(AppendEach(s, pairs)) && Consistent(AppendEach(s, pairs)) && AppendEach(s, pairs).argv != []
  {
    hide Consistent, ListsAgree, GoodSwitch;
    if pairs != [] {
      var init, last := pairs[..|pairs|-1], pairs[|pairs|-1];
      assert last in pairs && forall p :: p in init ==> p in pairs;
      EachBringsNoArgs(s, init);
      SwitchBringsNoArgs(AppendEach(s, init), last.0, last.1);
    }
  }

  /** The states of a run, the first one included, also as to the list of arguments. */
  predicate AlwaysInStep(s: State, ops: seq<Op>)
    requires s.argv != [] && CallableRun(ops)
    decreases |ops|
  {
    Consistent(s) && ListsAgree(s) &&
    (ops == [] || (ArgvStays(s, ops[0]); AlwaysInStep(Apply(s, ops[0]), ops[1..])))
  }

  /** Over every run from a command line that is in step: argv, the switches and the
      arguments agree all along exactly if every call is good when it is made and none
      brings a plain argument along. */
  lemma {:induction false} RunListsExact(s: State, ops: seq<Op>)
    requires s.argv != [] && CallableRun(ops) && Consistent(s) && ListsAgree(s)
    ensures AlwaysInStep(s, ops) <==> GoodRun(s, ops) && forall op | op in ops :: BringsNoArgs(op)
    decreases |ops|
  {
    hide Consistent, ListsAgree, Good, BringsNoArgs;
    if ops != [] {
      assert ops == [ops[0]] + ops[1..];
      OpExact(s, ops[0]);
      if Good(s, ops[0]) {
        ListsExact(s, ops[0]);
        if BringsNoArgs(ops[0]) { RunListsExact(Apply(s, ops[0]), ops[1..]); }
      }
    }
  }
}
