/** The class CommandLine with its fields: base/command_line.cc, lines 130-420. */
module CommandLine {
  import opened CommandLineModel
  import Sets

  class CommandLine {
    var argv: seq<string>
    var switches: Switches
    var args: seq<string>

    ghost function View(): State
      reads this
    {
      State(argv, switches, args)
    }

    constructor NoProgram()
      ensures View() == State([""], map[], [])
    {
      argv, switches, args := [""], map[], [];
    }

    constructor Program(program: string)
      ensures View() == State([program], map[], [])
    {
      argv, switches, args := [program], map[], [];
    }

    constructor Argv(argv: seq<string>)
      ensures View() == State(argv, Parse(argv).switches, Parse(argv).args)
    {
      this.argv, this.switches, this.args := [], map[], [];
      new;
      InitFromArgv(argv);
    }

    /** Parses argv on top of the switches and arguments that are there already. */
    method InitFromArgv(argv: seq<string>)
      modifies this
      ensures this.argv == argv
      ensures var p := ParseFrom(Parsed(old(switches), old(args), true), Tail(argv));
              switches == p.switches && args == p.args
    {
      this.argv := argv;
      var parseSwitches := true;
      ghost var start := Parsed(old(switches), old(args), true);
      if argv == [] { return; }
      var i := 1;
      while i < |argv|
        invariant 1 <= i <= |argv| && this.argv == argv
        invariant Parsed(switches, args, parseSwitches) == ParseFrom(start, argv[1..i])
      {
        var arg := argv[i];
        assert argv[1..i+1] == argv[1..i] + [arg];
        ParseSnoc(start, argv[1..i], arg);
        if !parseSwitches {
          args := args + [arg];
        } else if arg == TERMINATOR {
          parseSwitches := false;
        } else {
          match IsSwitch(arg)
          case Some((name, value)) => switches := switches[name := value];
          case None => args := args + [arg];
        }
        i := i + 1;
      }
      assert argv[1..i] == argv[1..];
    }

    method AppendSwitchNative(name: string, value: string)
      modifies this
      ensures View() == CommandLineModel.AppendSwitch(old(View()), name, value)
      ensures argv == old(argv) + [if value == "" then "--" + name else "--" + name + "=" + value]
      ensures switches == old(switches)[name := value] && args == old(args)
    {
      var combined := "--" + name;
      if value != "" {
        combined := combined + "=" + value;
        assert combined == SwitchArgument(name, value);
      } else {
        assert combined + "" == combined;
      }
      argv := argv + [combined];
      switches := switches[name := value];
    }

    method AppendSwitch(name: string)
      modifies this
      ensures View() == CommandLineModel.AppendSwitch(old(View()), name, "")
      ensures argv == old(argv) + ["--" + name] && switches == old(switches)[name := ""] && args == old(args)
    {
      assert "--" + name + "" == "--" + name;
      argv := argv + ["--" + name];
      switches := switches[name := ""];
    }

    /** Copies other's switches in the order of its map. */
    method AppendSwitches(other: CommandLine) returns (ghost order: seq<(string, string)>)
      modifies this
      ensures View() == AppendEach(old(View()), order)
      ensures forall k, v :: (k, v) in order <==> k in old(other.switches) && v == old(other.switches)[k]
      ensures forall i, j :: 0 <= i < j < |order| ==> Before(order[i].0, order[j].0)
      ensures switches == old(switches) + old(other.switches)
    {
      hide AppendEach, Before;
      order := [];
      AppendNothing(View());
      var source := other.switches;
      var left := source.Keys;
      while left != {}
        invariant left <= source.Keys && View() == AppendEach(old(View()), order)
        invariant forall i, j :: 0 <= i < j < |order| ==> Before(order[i].0, order[j].0)
        invariant forall i, k :: 0 <= i < |order| && k in left ==> Before(order[i].0, k)
        invariant forall k, v :: (k, v) in order <==> k in source && k !in left && v == source[k]
        invariant forall k :: k in switches <==> k in old(switches) || (k in source && k !in left)
        invariant forall k :: k in switches ==>
                    switches[k] == if k in source && k !in left then source[k] else old(switches)[k]
        decreases left
      {
        var name := First(left);
        AppendEachSnoc(old(View()), order, name, source[name]);
        AppendSwitchNative(name, source[name]);
        left := left - {name};
        order := order + [(name, source[name])];
      }
    }

    method CopySwitchesFrom(source: CommandLine, names: seq<string>)
      modifies this
      ensures View() == AppendEach(old(View()), Selected(old(source.switches), names))
    {
      hide AppendEach;
      ghost var given := source.switches;
      AppendNothing(View());
      var i := 0;
      while i < |names|
        invariant i <= |names| && source.switches == given
        invariant View() == AppendEach(old(View()), Selected(given, names[..i]))
      {
        SelectedNext(given, names, i);
        if names[i] in source.switches {
          AppendEachSnoc(old(View()), Selected(given, names[..i]), names[i], given[names[i]]);
          AppendSwitchNative(names[i], source.switches[names[i]]);
          assert source == this ==> switches == given;
        }
        i := i + 1;
      }
      assert names[..i] == names;
    }

    method AppendArgNative(value: string)
      modifies this
      ensures View() == AppendArg(old(View()), value)
      ensures argv == old(argv) + [value] && switches == old(switches) && args == old(args)
    {
      argv := argv + [value];
    }

    /** Appends other's plain arguments to argv, and to argv only. */
    method AppendArgs(other: CommandLine)
      modifies this
      ensures View() == CommandLineModel.AppendArgs(old(View()), old(other.args))
      ensures argv == old(argv) + old(other.args) && switches == old(switches) && args == old(args)
    {
      var i := 0;
      while i < |other.args|
        invariant i <= |other.args| && other.args == old(other.args)
        invariant View() == old(View()).(argv := old(argv) + old(other.args)[..i])
      {
        AppendArgNative(other.args[i]);
        i := i + 1;
      }
    }

    method AppendArguments(other: CommandLine, includeProgram: bool)
      requires other.argv != [] && (includeProgram ==> argv != []) && (other == this ==> |argv| == 1)
      requires includeProgram == (other.argv[0] != "")
      modifies this
      ensures View() == CommandLineModel.AppendArguments(old(View()), old(other.View()), includeProgram)
      ensures argv == (if includeProgram then [old(other.argv[0])] + old(argv[1..]) else old(argv))
                      + old(other.argv[1..])
      ensures switches == old(switches) + old(other.switches) && args == old(args)
    {
      if includeProgram {
        argv := argv[0 := other.argv[0]];
      }
      ghost var front := argv;
      var i := 1;
      while i < |other.argv|
        invariant 1 <= i <= |other.argv| && (other == this ==> |argv| == 1)
        invariant other.argv[1..] == old(other.argv)[1..] && other.switches == old(other.switches)
        invariant argv == front + other.argv[1..i] && switches == old(switches) && args == old(args)
      {
        argv := argv + [other.argv[i]];
        i := i + 1;
      }
      assert other.argv[1..i] == other.argv[1..];
      switches := switches + other.switches;
    }
  }

  /** The order of std::map<std::string, ...>. */
  predicate Before(a: string, b: string) {
    b != "" && (a == "" || a[0] < b[0] || (a[0] == b[0] && Before(a[1..], b[1..])))
  }

  lemma {:induction false} BeforeIsStrictOrder(a: string, b: string, c: string)
    ensures !Before(a, a)
    ensures Before(a, b) && Before(b, c) ==> Before(a, c)
    ensures a == b || Before(a, b) || Before(b, a)
    decreases |a| + |b| + |c|
  {
    if a != "" && b != "" {
      assert a == [a[0]] + a[1..] && b == [b[0]] + b[1..];
      BeforeIsStrictOrder(a[1..], b[1..], if c == "" then "" else c[1..]);
    } else if a != "" {
      BeforeIsStrictOrder(a[1..], "", "");
    }
  }

  /** It is the one of dictionaries: decided by the first character that differs, and a
      beginning comes before the whole. */
  lemma {:induction false} BeforeExactly(a: string, b: string)
    ensures Before(a, b) <==> a < b || exists k :: 0 <= k < |a| && k < |b| && a[..k] == b[..k] && a[k] < b[k]
    decreases |a|
  {
    if a != "" && b != "" && a[0] == b[0] {
      var x, y := a[1..], b[1..];
      assert a == [a[0]] + x && b == [a[0]] + y;
      BeforeExactly(x, y);
      if k :| 0 <= k < |x| && k < |y| && x[..k] == y[..k] && x[k] < y[k] {
        assert a[..k+1] == [a[0]] + x[..k] == b[..k+1] && a[k+1] < b[k+1];
      }
      if k :| 0 <= k < |a| && k < |b| && a[..k] == b[..k] && a[k] < b[k] {
        assert k > 0 && a[1..k] == a[..k][1..] == b[..k][1..] == b[1..k];
        assert x[..k-1] == a[1..k] && y[..k-1] == b[1..k] && x[k-1] < y[k-1];
      }
    } else if a != "" && b != "" {
      assert a[..0] == b[..0];
      if k :| 0 <= k < |a| && k < |b| && a[..k] == b[..k] && a[k] < b[k] {
        assert k > 0 ==> a[..k][0] == b[..k][0];
      }
    }
  }

  method First(names: set<string>) returns (first: string)
    requires names != {}
    ensures first in names && forall n :: n in names && n != first ==> Before(first, n)
  {
    hide Before;
    Sets.NonEmpty(names);
    first :| first in names;
    var left := names - {first};
    while left != {}
      invariant left <= names && first in names
      invariant forall n :: n in names && n !in left && n != first ==> Before(first, n)
      decreases left
    {
      Sets.NonEmpty(left);
      var n :| n in left;
      BeforeIsStrictOrder(first, n, n);
      if Before(n, first) {
        forall m ensures Before(first, m) ==> Before(n, m) { BeforeIsStrictOrder(n, first, m); }
        first := n;
      }
      left := left - {n};
    }
  }

  lemma {:induction false} AppendNothing(s: State)
    ensures AppendEach(s, []) == s && forall m :: Selected(m, []) == []
  {}
}
