/** WindowsStyleQuote against the splitting rules of CommandLineToArgvW:
    base/command_line.cc, lines 46-88. */
module Quoting {

  const BACKSLASH := '\\'
  const QUOTE := '\"'
  const SPACE := ' '
  const TAB := '\t'

  // ------------------------------------------------------------- quoting

  predicate NeedsQuotes(arg: string) {
    exists i :: 0 <= i < |arg| && (arg[i] == SPACE || arg[i] == BACKSLASH || arg[i] == QUOTE)
  }

  function Backslashes(n: nat): (r: string)
    ensures |r| == n && forall i :: 0 <= i < n ==> r[i] == BACKSLASH
  {
    if n == 0 then "" else Backslashes(n - 1) + [BACKSLASH]
  }

  lemma {:induction false} BackslashesOnly(r: string)
    requires forall i :: 0 <= i < |r| ==> r[i] == BACKSLASH
    ensures r == Backslashes(|r|)
  {}

  /** The length of the run of backslashes at the start of s. */
  function Run(s: string): (n: nat)
    ensures n <= |s| && (forall i :: 0 <= i < n ==> s[i] == BACKSLASH) && (n < |s| ==> s[n] != BACKSLASH)
  {
    if s == "" || s[0] != BACKSLASH then 0 else 1 + Run(s[1..])
  }

  /** The argument between the quotes: a run of backslashes is doubled in front of a
      quote and at the end, and a quote gets a backslash. */
  function Escape(s: string): string
    decreases |s|
  {
    if s == "" then ""
    else
      var n := Run(s);
      if n == |s| then Backslashes(2 * n)
      else EscapedRun(n, s[n]) + Escape(s[n+1..])
  }

  /** A run of n backslashes and the character c after it. */
  function EscapedRun(n: nat, c: char): string {
    if c == QUOTE then Backslashes(2 * n + 1) + [QUOTE] else Backslashes(n) + [c]
  }

  function Quote(arg: string): string {
    if NeedsQuotes(arg) then [QUOTE] + Escape(arg) + [QUOTE] else arg
  }

  // ------------------------------------------------------------ splitting

  datatype Scan = Outside | Inside(quoted: bool, arg: string)

  predicate IsBlank(c: char) { c == SPACE || c == TAB }

  /** Splits a command line by the rules of CommandLineToArgvW. An even run of
      backslashes in front of a quote gives half as many and the quote opens or closes a
      quoted part; an odd run gives half as many and a plain quote; other backslashes are
      plain. With doubling, two quotes in a row inside a quoted part give a plain quote
      and end the part, which later versions of the rules add. */
  function Split(doubling: bool, s: string, scan: Scan): seq<string>
    decreases |s|
  {
    if s == "" then (if scan.Outside? then [] else [scan.arg])
    else if IsBlank(s[0]) && (scan.Outside? || !scan.quoted) then
      (if scan.Outside? then [] else [scan.arg]) + Split(doubling, s[1..], Outside)
    else
      var quoted := scan.Inside? && scan.quoted;
      var arg := if scan.Outside? then "" else scan.arg;
      var n := Run(s);
      if n < |s| && s[n] == QUOTE then
        var halved := arg + Backslashes(n / 2);
        if n % 2 == 1 then Split(doubling, s[n+1..], Inside(quoted, halved + [QUOTE]))
        else if doubling && quoted && n + 1 < |s| && s[n+1] == QUOTE then
          Split(doubling, s[n+2..], Inside(false, halved + [QUOTE]))
        else Split(doubling, s[n+1..], Inside(!quoted, halved))
      else if n > 0 then Split(doubling, s[n..], Inside(quoted, arg + Backslashes(n)))
      else Split(doubling, s[1..], Inside(quoted, arg + [s[0]]))
  }

  function Join(args: seq<string>): string {
    if args == [] then ""
    else if |args| == 1 then Quote(args[0])
    else Quote(args[0]) + [SPACE] + Join(args[1..])
  }

  // ------------------------------------------------- quoted arguments

  predicate EndsArg(rest: string) { rest == "" || rest[0] == SPACE }

  lemma {:induction false} RunOfBackslashes(n: nat, rest: string)
    requires rest == "" || rest[0] != BACKSLASH
    ensures Run(Backslashes(n) + rest) == n
  {
    RunIs(Backslashes(n) + rest, n);
  }

  /** A nonempty string starts with a run of backslashes and the character after it. */
  lemma {:induction false} SplitAtRun(s: string, n: nat)
    requires n == Run(s)
    ensures s[..n] == Backslashes(n)
    ensures n == |s| ==> s == Backslashes(n)
    ensures n < |s| ==> s == Backslashes(n) + [s[n]] + s[n+1..]
  {
    BackslashesOnly(s[..n]);
    assert s == s[..n] + s[n..];
  }

  lemma {:induction false} EscapeAtRun(s: string, n: nat)
    requires s != "" && n == Run(s)
    ensures Escape(s) == if n == |s| then Backslashes(2 * n) else EscapedRun(n, s[n]) + Escape(s[n+1..])
  {}

  lemma {:induction false} Regroup(x: string, y: string, z: string, rest: string)
    ensures x + y + z + [QUOTE] + rest == x + y + (z + [QUOTE] + rest)
  {}

  /** Inside a quoted part the splitter takes back exactly what Escape put in. */
  lemma {:induction false} SplitEscaped(doubling: bool, s: string, rest: string, arg: string)
    requires EndsArg(rest)
    ensures Split(doubling, Escape(s) + [QUOTE] + rest, Inside(true, arg)) ==
            Split(doubling, rest, Inside(false, arg + s))
    decreases |s|
  {
    hide Split, Escape, Backslashes;
    if s == "" {
      SplitEmpty(doubling, rest, arg);
    } else {
      var n := Run(s);
      EscapeAtRun(s, n);
      SplitAtRun(s, n);
      if n == |s| {
        SplitClosing(doubling, n, rest, arg);
      } else {
        var more := Escape(s[n+1..]);
        var tail := more + [QUOTE] + rest;
        SplitEscaped(doubling, s[n+1..], rest, arg + Backslashes(n) + [s[n]]);
        assert arg + Backslashes(n) + [s[n]] + s[n+1..] == arg + s;
        if s[n] == QUOTE {
          SplitPlainQuote(doubling, n, tail, arg);
          Regroup(Backslashes(2 * n + 1), [QUOTE], more, rest);
        } else {
          SplitPlain(doubling, n, s[n], tail, arg);
          Regroup(Backslashes(n), [s[n]], more, rest);
        }
      }
    }
  }

  lemma {:induction false} SplitEmpty(doubling: bool, rest: string, arg: string)
    requires EndsArg(rest)
    ensures Split(doubling, Escape("") + [QUOTE] + rest, Inside(true, arg)) ==
            Split(doubling, rest, Inside(false, arg + ""))
  {
    hide Split;
    SplitClosing(doubling, 0, rest, arg);
    assert Escape("") + [QUOTE] + rest == Backslashes(2 * 0) + [QUOTE] + rest;
    assert arg + Backslashes(0) == arg + "";
  }

  lemma {:induction false} SplitClosing(doubling: bool, n: nat, rest: string, arg: string)
    requires EndsArg(rest)
    ensures Split(doubling, Backslashes(2 * n) + [QUOTE] + rest, Inside(true, arg)) ==
            Split(doubling, rest, Inside(false, arg + Backslashes(n)))
  {
    var s := Backslashes(2 * n) + [QUOTE] + rest;
    assert s == Backslashes(2 * n) + ([QUOTE] + rest);
    RunOfBackslashes(2 * n, [QUOTE] + rest);
    assert s[2*n+1..] == rest && s[2*n] == QUOTE;
    assert 2 * n + 1 < |s| ==> s[2*n+1] == rest[0];
    assert 2 * n / 2 == n && 2 * n % 2 == 0;
  }

  lemma {:induction false} SplitPlainQuote(doubling: bool, n: nat, tail: string, arg: string)
    ensures Split(doubling, Backslashes(2 * n + 1) + [QUOTE] + tail, Inside(true, arg)) ==
            Split(doubling, tail, Inside(true, arg + Backslashes(n) + [QUOTE]))
  {
    var m := 2 * n + 1;
    var s := Backslashes(m) + [QUOTE] + tail;
    assert s == Backslashes(m) + ([QUOTE] + tail);
    RunOfBackslashes(m, [QUOTE] + tail);
    assert s[m+1..] == tail && s[m] == QUOTE;
    assert m / 2 == n && m % 2 == 1;
  }

  lemma {:induction false} SplitPlain(doubling: bool, n: nat, c: char, tail: string, arg: string)
    requires c != QUOTE && c != BACKSLASH
    ensures Split(doubling, Backslashes(n) + [c] + tail, Inside(true, arg)) ==
            Split(doubling, tail, Inside(true, arg + Backslashes(n) + [c]))
  {
    var s := Backslashes(n) + [c] + tail;
    assert s == Backslashes(n) + ([c] + tail);
    RunOfBackslashes(n, [c] + tail);
    assert s[n..] == [c] + tail;
    RunOfBackslashes(0, [c] + tail);
    assert Backslashes(0) + ([c] + tail) == [c] + tail;
    assert ([c] + tail)[1..] == tail;
    if n == 0 { assert s == [c] + tail && arg + Backslashes(0) == arg; }
  }

  // ------------------------------------------------ all arguments

  function Close(scan: Scan): seq<string> { if scan.Outside? then [] else [scan.arg] }

  lemma {:induction false} SplitAtEnd(doubling: bool, rest: string, scan: Scan)
    requires EndsArg(rest) && (scan.Inside? ==> !scan.quoted)
    ensures Split(doubling, rest, scan) == Close(scan) + Split(doubling, rest, Outside)
  {}

  lemma {:induction false} SplitOpens(doubling: bool, inner: string)
    ensures Split(doubling, [QUOTE] + inner, Outside) == Split(doubling, inner, Inside(true, ""))
  {
    var s := [QUOTE] + inner;
    RunOfBackslashes(0, s);
    assert Backslashes(0) + s == s;
    assert s[1..] == inner && "" + Backslashes(0) == "";
  }

  lemma {:induction false} SplitQuotedArg(doubling: bool, a: string, rest: string)
    requires NeedsQuotes(a) && EndsArg(rest)
    ensures Split(doubling, Quote(a) + rest, Outside) == [a] + Split(doubling, rest, Outside)
  {
    hide Split, Escape;
    var inner := Escape(a) + [QUOTE] + rest;
    assert Quote(a) + rest == [QUOTE] + inner;
    SplitOpens(doubling, inner);
    SplitEscaped(doubling, a, rest, "");
    assert "" + a == a;
    SplitAtEnd(doubling, rest, Inside(false, a));
  }

  /** What an unquoted argument comes to: tabs split it. */
  function Words(a: string, scan: Scan): (seq<string>, Scan)
    decreases |a|
  {
    if a == "" then ([], scan)
    else if a[0] == TAB then
      var r := Words(a[1..], Outside);
      (Close(scan) + r.0, r.1)
    else Words(a[1..], Inside(false, (if scan.Outside? then "" else scan.arg) + [a[0]]))
  }

  /** One character that is no space, quote or backslash, outside of quotes. */
  lemma {:induction false} SplitBareChar(doubling: bool, s: string, scan: Scan)
    requires s != "" && s[0] !in {SPACE, QUOTE, BACKSLASH} && (scan.Inside? ==> !scan.quoted)
    ensures Split(doubling, s, scan) ==
            if s[0] == TAB then Close(scan) + Split(doubling, s[1..], Outside)
            else Split(doubling, s[1..], Inside(false, (if scan.Outside? then "" else scan.arg) + [s[0]]))
  {
    assert Run(s) == 0;
  }

  lemma {:induction false} SplitBareArg(doubling: bool, a: string, rest: string, scan: Scan)
    requires !NeedsQuotes(a) && EndsArg(rest) && (scan.Inside? ==> !scan.quoted)
    ensures Split(doubling, a + rest, scan) ==
            Words(a, scan).0 + Close(Words(a, scan).1) + Split(doubling, rest, Outside)
    decreases |a|
  {
    hide Split;
    if a == "" {
      assert a + rest == rest;
      SplitAtEnd(doubling, rest, scan);
    } else {
      assert (a + rest)[1..] == a[1..] + rest;
      TailIsBare(a);
      SplitBareChar(doubling, a + rest, scan);
      var next := if a[0] == TAB then Outside else Inside(false, (if scan.Outside? then "" else scan.arg) + [a[0]]);
      SplitBareArg(doubling, a[1..], rest, next);
    }
  }

  lemma {:induction false} TailIsBare(a: string)
    requires a != "" && !NeedsQuotes(a)
    ensures !NeedsQuotes(a[1..])
  {
    assert forall i :: 0 <= i < |a| - 1 ==> a[1..][i] == a[i+1];
  }

  predicate TabFree(a: string) { forall i :: 0 <= i < |a| ==> a[i] != TAB }

  /** What argument a comes to on the other side. */
  function Arrives(a: string): seq<string> {
    if NeedsQuotes(a) then [a] else Words(a, Outside).0 + Close(Words(a, Outside).1)
  }

  lemma {:induction false} WordsOfTabFree(a: string, arg: string)
    requires TabFree(a)
    ensures Words(a, Inside(false, arg)) == ([], Inside(false, arg + a))
    decreases |a|
  {
    if a != "" {
      WordsOfTabFree(a[1..], arg + [a[0]]);
      assert arg + [a[0]] + a[1..] == arg + a;
    } else {
      assert arg + a == arg;
    }
  }

  predicate AllWords(ws: seq<string>) {
    forall w :: w in ws ==> w != "" && TabFree(w)
  }

  lemma {:induction false} AllWordsConcat(xs: seq<string>, ys: seq<string>)
    requires AllWords(xs) && AllWords(ys)
    ensures AllWords(xs + ys)
  {}

  lemma {:induction false} WordsAreWords(a: string, scan: Scan)
    requires scan.Inside? ==> scan.arg != "" && TabFree(scan.arg)
    ensures AllWords(Words(a, scan).0 + Close(Words(a, scan).1))
    decreases |a|
  {
    if a == "" {
    } else if a[0] == TAB {
      WordsAreWords(a[1..], Outside);
      var r := Words(a[1..], Outside);
      AllWordsConcat(Close(scan), r.0 + Close(r.1));
      assert Close(scan) + r.0 + Close(r.1) == Close(scan) + (r.0 + Close(r.1));
    } else {
      WordsAreWords(a[1..], Inside(false, (if scan.Outside? then "" else scan.arg) + [a[0]]));
    }
  }

  /** An argument survives if it is not empty and has no tab, or is quoted anyway. */
  predicate Survives(a: string) { a != "" && (NeedsQuotes(a) || TabFree(a)) }

  lemma {:induction false} SurvivorArrives(a: string)
    requires Survives(a)
    ensures Arrives(a) == [a]
  {
    if !NeedsQuotes(a) {
      assert TabFree(a[1..]);
      WordsOfTabFree(a[1..], "" + [a[0]]);
      assert "" + [a[0]] + a[1..] == a;
    }
  }

  lemma {:induction false} ArrivalsSurvive(a: string)
    ensures forall w :: w in Arrives(a) ==> Survives(w)
  {
    if !NeedsQuotes(a) { WordsAreWords(a, Outside); }
  }

  function ArriveAll(args: seq<string>): seq<string> {
    if args == [] then [] else Arrives(args[0]) + ArriveAll(args[1..])
  }

  lemma {:induction false} SplitArg(doubling: bool, a: string, rest: string)
    requires EndsArg(rest)
    ensures Split(doubling, Quote(a) + rest, Outside) == Arrives(a) + Split(doubling, rest, Outside)
  {
    if NeedsQuotes(a) { SplitQuotedArg(doubling, a, rest); } else { SplitBareArg(doubling, a, rest, Outside); }
  }

  lemma {:induction false} SplitNothing(doubling: bool)
    ensures Split(doubling, "", Outside) == []
  {}

  lemma {:induction false} SplitSpace(doubling: bool, rest: string)
    requires rest != "" && rest[0] == SPACE
    ensures Split(doubling, rest, Outside) == Split(doubling, rest[1..], Outside)
  {}

  lemma {:induction false} SplitJoined(doubling: bool, args: seq<string>)
    ensures Split(doubling, Join(args), Outside) == ArriveAll(args)
  {
    hide Arrives, Quote, Split;
    SplitNothing(doubling);
    if args == [] {
    } else if |args| == 1 {
      SplitArg(doubling, args[0], "");
      assert Quote(args[0]) + "" == Quote(args[0]);
    } else {
      var rest := [SPACE] + Join(args[1..]);
      assert rest[1..] == Join(args[1..]);
      assert Quote(args[0]) + [SPACE] + Join(args[1..]) == Quote(args[0]) + rest;
      SplitArg(doubling, args[0], rest);
      SplitSpace(doubling, rest);
      SplitJoined(doubling, args[1..]);
    }
  }

  lemma {:induction false} AllArrive(args: seq<string>)
    requires forall a :: a in args ==> Survives(a)
    ensures ArriveAll(args) == args
  {
    if args != [] {
      assert args == [args[0]] + args[1..];
      SurvivorArrives(args[0]);
      AllArrive(args[1..]);
    }
  }

  lemma {:induction false} AllArrivalsSurvive(args: seq<string>)
    ensures forall w :: w in ArriveAll(args) ==> Survives(w)
  {
    hide Arrives, Survives;
    if args != [] {
      ArrivalsSurvive(args[0]);
      AllArrivalsSurvive(args[1..]);
    }
  }

  /** Joining the quoted arguments and splitting the line again gives the arguments
      back exactly when every one of them survives. */
  lemma {:induction false} RoundTrip(doubling: bool, args: seq<string>)
    ensures Split(doubling, Join(args), Outside) == args <==> forall a :: a in args ==> Survives(a)
  {
    hide Survives, Split, Join;
    SplitJoined(doubling, args);
    AllArrivalsSurvive(args);
    if forall a :: a in args ==> Survives(a) {
      AllArrive(args);
    }
  }

  // ------------------------------------------------------------ the code

  /** find_first_of, as far as it matters here. */
  method HasSpecial(arg: string) returns (found: bool)
    ensures found == NeedsQuotes(arg)
  {
    var k := 0;
    while k < |arg|
      invariant k <= |arg|
      invariant forall i :: 0 <= i < k ==> arg[i] != SPACE && arg[i] != BACKSLASH && arg[i] != QUOTE
    {
      if arg[k] == SPACE || arg[k] == BACKSLASH || arg[k] == QUOTE { return true; }
      k := k + 1;
    }
    return false;
  }

  /** Copies the run of backslashes at i, doubled where needed, and goes to its end. */
  method QuoteRun(arg: string, i: nat) returns (out: string, end: nat)
    requires i < |arg| && arg[i] == BACKSLASH
    ensures i < end <= |arg| && out + Escape(arg[end..]) == Escape(arg[i..])
  {
    hide Escape;
    ghost var s := arg[i..];
    end := i + 1;
    while end < |arg| && arg[end] == BACKSLASH
      invariant i < end <= |arg| && forall q :: i <= q < end ==> arg[q] == BACKSLASH
    {
      end := end + 1;
    }
    var backslashCount := end - i;
    assert forall q :: 0 <= q < backslashCount ==> s[q] == arg[i+q];
    assert s[backslashCount..] == arg[end..];
    RunIs(s, backslashCount);
    EscapeRun(s, backslashCount);
    if end == |arg| || arg[end] == QUOTE {
      backslashCount := 2 * backslashCount;
    }
    out := "";
    var j := 0;
    while j < backslashCount
      invariant j <= backslashCount && out == Backslashes(j)
    {
      out := out + [BACKSLASH];
      j := j + 1;
    }
  }

  method WindowsStyleQuote(arg: string) returns (out: string)
    ensures out == Quote(arg)
    ensures out == arg <==> ' ' !in arg && '\\' !in arg && '"' !in arg
    ensures out != arg ==> |out| >= |arg| + 2 && out[0] == '"' && out[|out|-1] == '"'
  {
    QuoteShape(arg);
    hide Escape;
    var special := HasSpecial(arg);
    if !special { return arg; }
    out := [QUOTE];
    var i := 0;
    assert arg[0..] == arg;
    while i < |arg|
      invariant i <= |arg| && out + Escape(arg[i..]) == [QUOTE] + Escape(arg)
    {
      ghost var before, s := out, arg[i..];
      assert s[1..] == arg[i+1..];
      if arg[i] == BACKSLASH {
        var run, end := QuoteRun(arg, i);
        out := out + run;
        assert before + (run + Escape(arg[end..])) == out + Escape(arg[end..]);
        i := end - 1;
      } else if arg[i] == QUOTE {
        EscapeQuote(s);
        out := out + [BACKSLASH];
        out := out + [QUOTE];
        assert before + ([BACKSLASH, QUOTE] + Escape(s[1..])) == out + Escape(s[1..]);
      } else {
        EscapePlain(s);
        out := out + [arg[i]];
        assert before + ([arg[i]] + Escape(s[1..])) == out + Escape(s[1..]);
      }
      i := i + 1;
    }
    assert arg[i..] == "";
    EscapeNothing(out);
    out := out + [QUOTE];
  }

  /** Only a space, a backslash or a double quote calls for quotes, which then enclose the
      whole argument. */
  lemma {:induction false} QuoteShape(arg: string)
    ensures Quote(arg) == arg <==> ' ' !in arg && '\\' !in arg && '"' !in arg
    ensures Quote(arg) != arg ==> |Quote(arg)| >= |arg| + 2 && Quote(arg)[0] == '"' && Quote(arg)[|Quote(arg)|-1] == '"'
  {
    hide Escape;
    EscapeNotShorter(arg);
    assert NeedsQuotes(arg) <==> ' ' in arg || '\\' in arg || '"' in arg;
  }

  lemma {:induction false} EscapeNotShorter(s: string)
    ensures |Escape(s)| >= |s|
    decreases |s|
  {
    if s != "" {
      var n := Run(s);
      EscapeAtRun(s, n);
      if n < |s| { EscapeNotShorter(s[n+1..]); }
    }
  }

  lemma {:induction false} EscapeNothing(out: string)
    ensures out + Escape("") == out
  {}

  lemma {:induction false} RunIs(s: string, n: nat)
    requires n <= |s| && (forall i :: 0 <= i < n ==> s[i] == BACKSLASH) && (n < |s| ==> s[n] != BACKSLASH)
    ensures Run(s) == n
  {}

  lemma {:induction false} EscapeQuote(s: string)
    requires s != "" && s[0] == QUOTE
    ensures Escape(s) == [BACKSLASH, QUOTE] + Escape(s[1..])
  {
    RunIs(s, 0);
    assert EscapedRun(0, QUOTE) == [BACKSLASH, QUOTE];
  }

  lemma {:induction false} EscapePlain(s: string)
    requires s != "" && s[0] != QUOTE && s[0] != BACKSLASH
    ensures Escape(s) == [s[0]] + Escape(s[1..])
  {
    RunIs(s, 0);
    assert EscapedRun(0, s[0]) == [s[0]];
  }

  /** A run is doubled in front of a quote or the end, and what follows stays as it is. */
  lemma {:induction false} EscapeRun(s: string, n: nat)
    requires 0 < n <= |s| && Run(s) == n
    ensures Escape(s) == Backslashes(if n == |s| || s[n] == QUOTE then 2 * n else n) + Escape(s[n..])
  {
    hide Escape, Backslashes;
    EscapeAtRun(s, n);
    if n == |s| {
      EscapeNothing(Backslashes(2 * n));
      assert s[n..] == "";
    } else {
      var tail := Escape(s[n+1..]);
      assert s[n..][1..] == s[n+1..];
      if s[n] == QUOTE {
        EscapeQuote(s[n..]);
        ShiftBackslash(2 * n, tail);
      } else {
        EscapePlain(s[n..]);
        assert Backslashes(n) + [s[n]] + tail == Backslashes(n) + ([s[n]] + tail);
      }
    }
  }

  lemma {:induction false} ShiftBackslash(n: nat, tail: string)
    ensures Backslashes(n + 1) + [QUOTE] + tail == Backslashes(n) + ([BACKSLASH, QUOTE] + tail)
  {}
}
