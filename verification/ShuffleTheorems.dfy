/** What the shuffle leaves behind, for every set of arcs and every delegate. */
module ShuffleTheorems {
  import opened Shuffle
  import opened ShuffleProof

  // ------------------------------------------ the specification

  /** Every destination gets the file its source had at the start; closing
      sources that are nobody's destination go away; nothing else changes. */
  ghost function Simultaneous(a: Arcs, t0: Table): Table
    requires SourcesOpen(a, t0)
  {
    map x | x in t0.Keys + Dests(a) && (IsDest(a, x) || !IsClosingSource(a, x)) ::
      if IsDest(a, x) then t0[a[DestIndex(a, x)].source] else t0[x]
  }

  ghost function Dests(a: Arcs): set<int> { set k | 0 <= k < |a| :: a[k].dest }

  ghost function DestIndex(a: Arcs, x: int): (k: nat)
    requires IsDest(a, x)
    ensures k < |a| && a[k].dest == x
  {
    var k :| 0 <= k < |a| && a[k].dest == x; k
  }

  /** The same in terms of the arcs alone. */
  lemma {:induction false} SimultaneousMeans(a: Arcs, t0: Table, x: int)
    requires SourcesOpen(a, t0) && DistinctDests(a)
    ensures forall k :: 0 <= k < |a| && a[k].dest == x ==>
              x in Simultaneous(a, t0) && Simultaneous(a, t0)[x] == t0[a[k].source]
    ensures (forall k :: 0 <= k < |a| ==> a[k].dest != x) ==>
              && (x in Simultaneous(a, t0) <==>
                    x in t0 && forall k :: 0 <= k < |a| && a[k].source == x ==> !a[k].close)
              && (x in Simultaneous(a, t0) ==> Simultaneous(a, t0)[x] == t0[x])
  {
    forall k | 0 <= k < |a| && a[k].dest == x ensures x in Simultaneous(a, t0) && DestIndex(a, x) == k {
      assert IsDest(a, x) && a[k].dest in Dests(a);
    }
  }

  /** An identity arc is followed by another arc from the same source, and one of
      the two asks for that source to be closed. */
  predicate Clash(a: Arcs, x: int) {
    exists k, m :: 0 <= k < m < |a| && a[k].IsIdentity() && a[k].source == x && a[m].source == x &&
                   (a[k].close || a[m].close)
  }

  ghost predicate HasClash(a: Arcs) { exists x :: Clash(a, x) }

  // -------------------------------- the turn-by-turn table in closed form

  predicate ClosedBefore(a: Arcs, i: nat, x: int) {
    exists c :: 0 <= c < i && c < |a| && ClosesAt(a, c) && a[c].source == x
  }

  predicate DestBefore(a: Arcs, i: nat, x: int) {
    exists k :: 0 <= k < i && k < |a| && a[k].dest == x
  }

  lemma {:induction false} ExpectedAt(a: Arcs, t0: Table, i: nat, x: int)
    requires SourcesOpen(a, t0) && DistinctDests(a) && i <= |a|
    ensures x in Expected(a, t0, i) <==> !ClosedBefore(a, i, x) && (x in t0 || DestBefore(a, i, x))
    ensures x in Expected(a, t0, i) && !DestBefore(a, i, x) ==> Expected(a, t0, i)[x] == t0[x]
    ensures forall k :: 0 <= k < i && a[k].dest == x && x in Expected(a, t0, i) ==>
              Expected(a, t0, i)[x] == t0[a[k].source]
  {
    if i > 0 {
      ExpectedAt(a, t0, i - 1, x);
      assert ClosedBefore(a, i, x) <==>
             ClosedBefore(a, i - 1, x) || (ClosesAt(a, i - 1) && a[i-1].source == x);
      assert DestBefore(a, i, x) <==> DestBefore(a, i - 1, x) || a[i-1].dest == x;
    }
  }

  lemma {:induction false} LastWithSource(a: Arcs, m: nat) returns (c: nat)
    requires m < |a|
    ensures m <= c < |a| && a[c].source == a[m].source
    ensures forall j :: c < j < |a| ==> a[j].source != a[c].source
  {
    c := m;
    for n := m + 1 to |a|
      invariant m <= c < n && a[c].source == a[m].source
      invariant forall j :: c < j < n ==> a[j].source != a[c].source
    {
      if a[n].source == a[m].source { c := n; }
    }
  }

  lemma {:induction false} ClosedPlain(a: Arcs, x: int)
    requires !IsDest(a, x)
    ensures ClosedBefore(a, |a|, x) <==> IsClosingSource(a, x)
  {
    if IsClosingSource(a, x) {
      var m :| 0 <= m < |a| && a[m].source == x && a[m].close;
      var c := LastWithSource(a, m);
      assert NoDestBetween(a, m, c, x);
      assert a[c].close || Carried(a, c, c);
      assert ClosesAt(a, c);
    }
  }

  lemma {:induction false} ClosedDest(a: Arcs, x: int)
    requires DistinctDests(a) && IsDest(a, x)
    ensures ClosedBefore(a, |a|, x) <==> Clash(a, x)
  {
    if Clash(a, x) {
      var k, m :| 0 <= k < m < |a| && a[k].IsIdentity() && a[k].source == x && a[m].source == x &&
                  (a[k].close || a[m].close);
      var c := LastWithSource(a, m);
      assert NoDestBetween(a, k, c, x) && NoDestBetween(a, m, c, x);
      assert a[c].close || Carried(a, c, c);
      assert ClosesAt(a, c);
    }
    if ClosedBefore(a, |a|, x) {
      var c :| 0 <= c < |a| && ClosesAt(a, c) && a[c].source == x;
      var k := DestIndex(a, x);
      assert k < c && a[k].IsIdentity();
      if !a[c].close {
        var m :| 0 <= m < c && a[m].source == x && a[m].close && NoDestBetween(a, m, c, x);
        assert k <= m;
      }
    }
  }

  /** The simultaneous assignment without the sources that clash. */
  ghost function Achieved(a: Arcs, t0: Table): Table
    requires SourcesOpen(a, t0)
  {
    map x | x in Simultaneous(a, t0) && !Clash(a, x) :: Simultaneous(a, t0)[x]
  }

  lemma {:induction false} ExpectedIsAchieved(a: Arcs, t0: Table)
    requires SourcesOpen(a, t0) && DistinctDests(a)
    ensures Expected(a, t0, |a|) == Achieved(a, t0)
  {
    var e, g := Expected(a, t0, |a|), Achieved(a, t0);
    forall x
      ensures x in e <==> x in g
      ensures x in e ==> e[x] == g[x]
    {
      ExpectedAt(a, t0, |a|, x);
      if IsDest(a, x) {
        ClosedDest(a, x);
        assert a[DestIndex(a, x)].dest in Dests(a);
      } else {
        ClosedPlain(a, x);
      }
    }
    assert e.Keys == g.Keys;
  }

  /** Nothing is missing exactly when no source clashes. */
  lemma {:induction false} AchievedIffNoClash(a: Arcs, t0: Table)
    requires SourcesOpen(a, t0)
    ensures Achieved(a, t0) == Simultaneous(a, t0) <==> !HasClash(a)
  {
    if HasClash(a) {
      var x :| Clash(a, x);
      assert IsDest(a, x);
      assert a[DestIndex(a, x)].dest in Dests(a);
      assert x in Simultaneous(a, t0) && x !in Achieved(a, t0);
    } else {
      assert Achieved(a, t0).Keys == Simultaneous(a, t0).Keys;
    }
  }

  // ------------------------------------------------ counting temporaries

  lemma {:induction false} StartInv(a: Arcs, t0: Table)
    requires SourcesOpen(a, t0)
    ensures Inv(a, t0, Start(a, t0), 0)
  {
    assert Start(a, t0).table - TempSet([]) == t0;
  }

  function Closes(fds: seq<int>): History { seq(|fds|, k requires 0 <= k < |fds| => Closed(fds[k])) }

  lemma {:induction false} CloseExtrasResult(s: State, k: nat)
    requires k <= |s.extra|
    ensures CloseExtras(s, k) == s.(table := s.table - (set t | t in s.extra[k..]),
                                    log := s.log + Closes(s.extra[k..]))
    decreases |s.extra| - k
  {
    if k < |s.extra| {
      CloseExtrasResult(CloseFd(s, s.extra[k]), k + 1);
      assert s.extra[k..] == [s.extra[k]] + s.extra[k+1..];
      assert Closes(s.extra[k..]) == [Closed(s.extra[k])] + Closes(s.extra[k+1..]);
    } else {
      assert s.table - (set t | t in s.extra[k..]) == s.table;
    }
  }

  lemma {:induction false} TempsOfCloses(log: History, fds: seq<int>)
    ensures Temps(log + Closes(fds)) == Temps(log)
  {
    if fds == [] {
      assert log + Closes(fds) == log;
    } else {
      var init, last := fds[..|fds|-1], fds[|fds|-1];
      TempsOfCloses(log, init);
      assert log + Closes(fds) == log + Closes(init) + [Closed(last)];
      TempsSnoc(log + Closes(init), Closed(last));
    }
  }

  /** A turn takes at most one temporary, and the last turn none. */
  lemma {:induction false} TurnTakesAtMostOne(d: Delegate, s: State, i: nat)
    requires i < |s.arcs|
    ensures |Temps(Turn(d, s, i).state.log)| <= |Temps(s.log)| + (if i + 1 < |s.arcs| then 1 else 0)
  {
    var m := Scan(d, s, i, i + 1, -1).state;
    if m.log != s.log {
      TempsSnoc(s.log, Duplicated(d.duplicate(s.log).value, s.arcs[i].dest));
    }
    CommitTemps(d, m, i);
  }

  lemma {:induction false} CommitTemps(d: Delegate, m: State, i: nat)
    requires i < |m.arcs|
    ensures Temps(Commit(d, m, i).state.log) == Temps(m.log)
  {
    var x := Moved(m.arcs[i].source, m.arcs[i].dest);
    TempsSnoc(m.log, x);
    TempsSnoc(m.log + [x], Closed(m.arcs[i].source));
  }

  lemma {:induction false} TurnsTakeFewTemps(d: Delegate, s: State, i: nat)
    requires i <= |s.arcs|
    ensures |Temps(Turns(d, s, i).state.log)|
            <= |Temps(s.log)| + (if i < |s.arcs| then |s.arcs| - 1 - i else 0)
    decreases |s.arcs| - i
  {
    hide Turn, Temps;
    if i < |s.arcs| {
      TurnTakesAtMostOne(d, s, i);
      if Turn(d, s, i).ok { TurnsTakeFewTemps(d, Turn(d, s, i).state, i + 1); }
    }
  }

  // ------------------------------------------------------ main results

  /** The temporaries beyond the first 16; the final loop does not know them. */
  ghost function Leaked(log: History): set<int> {
    set t | t in Temps(log) && t !in Kept(Temps(log))
  }

  /** What leaks is exactly what was taken beyond the first 16. */
  lemma {:induction false} LeaksExcess(log: History)
    requires NoRepeats(Temps(log))
    ensures forall t :: t in Leaked(log) <==> exists i :: 16 <= i < |Temps(log)| && Temps(log)[i] == t
  {
    var temps := Temps(log);
    assert forall j :: 0 <= j < |Kept(temps)| ==> Kept(temps)[j] == temps[j];
    assert forall i :: 0 <= i < 16 && i < |temps| ==> temps[i] == Kept(temps)[i];
  }

  lemma {:induction false} AfterTurns(d: Delegate, a: Arcs, t0: Table)
    requires SourcesOpen(a, t0) && DistinctDests(a) && Fresh(d, t0)
    requires Turns(d, Start(a, t0), 0).ok && TempsAvoidDests(a, Turns(d, Start(a, t0), 0).state.log)
    ensures var s := Turns(d, Start(a, t0), 0).state;
            && TempsOk(a, t0, s) && s.table - TempSet(s.log) == Achieved(a, t0)
            && |Temps(s.log)| <= if |a| == 0 then 0 else |a| - 1
  {
    StartInv(a, t0);
    TurnsKeepInv(d, a, t0, Start(a, t0), 0);
    TurnsTakeFewTemps(d, Start(a, t0), 0);
    ExpectedIsAchieved(a, t0);
  }

  lemma {:induction false} AfterCloses(a: Arcs, t0: Table, s: State)
    requires TempsOk(a, t0, s)
    ensures var f := CloseExtras(s, 0);
            && f.log == s.log + Closes(Kept(Temps(s.log))) && Temps(f.log) == Temps(s.log)
            && f.table - Leaked(f.log) == s.table - TempSet(s.log)
            && Leaked(f.log) <= f.table.Keys
  {
    CloseExtrasResult(s, 0);
    assert s.extra[0..] == s.extra;
    TempsOfCloses(s.log, s.extra);
    var kept := set t | t in s.extra;
    assert Leaked(s.log) == TempSet(s.log) - kept && kept <= TempSet(s.log);
    assert s.table - kept - Leaked(s.log) == s.table - TempSet(s.log);
  }

  /** On success the table is the simultaneous assignment, short of the clashing
      sources, plus the leaked temporaries; the final loop closes every other
      temporary once, and with at most 17 arcs there is nothing to leak. */
  lemma {:induction false} ShuffleResult(d: Delegate, a: Arcs, t0: Table)
    requires SourcesOpen(a, t0) && DistinctDests(a) && Fresh(d, t0)
    requires TempsAvoidDests(a, Perform(d, a, t0).state.log)
    ensures var r := Perform(d, a, t0);
            r.ok ==> && r.state.table - Leaked(r.state.log) == Achieved(a, t0)
                     && Leaked(r.state.log) <= r.state.table.Keys
                     && (|a| <= 17 ==> Leaked(r.state.log) == {})
  {
    var r := Turns(d, Start(a, t0), 0);
    if r.ok {
      CloseExtrasResult(r.state, 0);
      AvoidsEarlier(a, r.state.log, Perform(d, a, t0).state.log);
      AfterTurns(d, a, t0);
      AfterCloses(a, t0, r.state);
    }
  }

  /** No duplicate ever gets the number of a destination. */
  ghost predicate Avoids(d: Delegate, a: Arcs) {
    forall h :: d.duplicate(h).Some? ==> !IsDest(a, d.duplicate(h).value)
  }

  lemma {:induction false} TurnsAvoidDests(d: Delegate, a: Arcs, s: State, i: nat)
    requires Avoids(d, a) && i <= |s.arcs| && TempsAvoidDests(a, s.log)
    ensures TempsAvoidDests(a, Turns(d, s, i).state.log)
    decreases |s.arcs| - i
  {
    hide TempsAvoidDests, Avoids, Turn;
    if i < |s.arcs| {
      TurnAvoidsDests(d, a, s, i);
      var one := Turn(d, s, i);
      if one.ok { TurnsAvoidDests(d, a, one.state, i + 1); }
    }
  }

  lemma {:induction false} TurnAvoidsDests(d: Delegate, a: Arcs, s: State, i: nat)
    requires Avoids(d, a) && i < |s.arcs| && TempsAvoidDests(a, s.log)
    ensures TempsAvoidDests(a, Turn(d, s, i).state.log)
  {
    hide Scan, Commit;
    var m := Scan(d, s, i, i + 1, -1).state;
    if m.log != s.log {
      var t := d.duplicate(s.log).value;
      TempsSnoc(s.log, Duplicated(t, s.arcs[i].dest));
      assert !IsDest(a, t);
    }
    CommitTemps(d, m, i);
  }

  lemma {:induction false} PerformAvoidsDests(d: Delegate, a: Arcs, t0: Table)
    requires Avoids(d, a)
    ensures TempsAvoidDests(a, Perform(d, a, t0).state.log)
  {
    TurnsAvoidDests(d, a, Start(a, t0), 0);
    var r := Turns(d, Start(a, t0), 0);
    if r.ok {
      CloseExtrasResult(r.state, 0);
      TempsOfCloses(r.state.log, r.state.extra[0..]);
    }
  }

  /** For at most 17 arcs and duplicates that avoid the destinations: a successful
      shuffle is the simultaneous assignment exactly when no identity arc clashes
      with a later arc. */
  lemma {:induction false} ShuffleIsSimultaneous(d: Delegate, a: Arcs, t0: Table)
    requires SourcesOpen(a, t0) && DistinctDests(a) && Fresh(d, t0) && Avoids(d, a)
    requires |a| <= 17 && Perform(d, a, t0).ok
    ensures Perform(d, a, t0).state.table == Simultaneous(a, t0) <==> !HasClash(a)
  {
    PerformAvoidsDests(d, a, t0);
    ShuffleResult(d, a, t0);
    AchievedIffNoClash(a, t0);
    var t := Perform(d, a, t0).state.table;
    assert t - {} == t;
  }

  /** The rest of a run that got through its first n turns. */
  lemma {:induction false} RestOfTurns(d: Delegate, s: State, n: nat)
    requires n <= |s.arcs| && FirstTurns(d, s, n).ok
    ensures Turns(d, s, 0) == Turns(d, FirstTurns(d, s, n).state, n)
  {
    if n > 0 { RestOfTurns(d, s, n - 1); }
  }

  lemma {:induction false} TurnsInPerform(d: Delegate, a: Arcs, t0: Table)
    ensures Turns(d, Start(a, t0), 0).state.log <= Perform(d, a, t0).state.log
  {
    var r := Turns(d, Start(a, t0), 0);
    if r.ok { CloseExtrasResult(r.state, 0); }
  }

  lemma {:induction false} FirstTurnsKeepInv(d: Delegate, a: Arcs, t0: Table, n: nat)
    requires SourcesOpen(a, t0) && DistinctDests(a) && Fresh(d, t0) && n <= |a|
    requires TempsAvoidDests(a, Perform(d, a, t0).state.log) && FirstTurns(d, Start(a, t0), n).ok
    ensures Inv(a, t0, FirstTurns(d, Start(a, t0), n).state, n)
  {
    hide Inv, Turn, Perform;
    if n == 0 {
      StartInv(a, t0);
    } else {
      FirstTurnsKeepInv(d, a, t0, n - 1);
      RestOfTurns(d, Start(a, t0), n);
      TurnsInPerform(d, a, t0);
      AvoidsEarlier(a, FirstTurns(d, Start(a, t0), n).state.log, Perform(d, a, t0).state.log);
      TurnKeepsInv(d, a, t0, FirstTurns(d, Start(a, t0), n - 1).state, n - 1);
    }
  }

  /** After any number of turns every finished arc's destination holds the file its
      source had at the start, and every pending arc's source, rewritten or not,
      still leads to the file it had at the start. */
  lemma {:induction false} EveryTurnKeepsFiles(d: Delegate, a: Arcs, t0: Table, n: nat, k: nat)
    requires SourcesOpen(a, t0) && DistinctDests(a) && Fresh(d, t0) && n <= |a| && k < |a|
    requires TempsAvoidDests(a, Perform(d, a, t0).state.log) && FirstTurns(d, Start(a, t0), n).ok
    ensures var s := FirstTurns(d, Start(a, t0), n).state;
            && (k >= n ==> s.arcs[k].source in s.table && s.table[s.arcs[k].source] == t0[a[k].source])
            && (k < n && !Clash(a, a[k].dest) ==> a[k].dest in s.table && s.table[a[k].dest] == t0[a[k].source])
  {
    var s := FirstTurns(d, Start(a, t0), n).state;
    FirstTurnsKeepInv(d, a, t0, n);
    if k >= n {
      assert Pending(a, t0, s, n, k);
    } else {
      ExpectedAt(a, t0, n, a[k].dest);
      assert ClosedBefore(a, n, a[k].dest) ==> ClosedBefore(a, |a|, a[k].dest);
      ClosedDest(a, a[k].dest);
      assert s.table - TempSet(s.log) == Expected(a, t0, n);
    }
  }

  // ------------------------------------------------ what gets closed, and when

  /** Every Close so far hit an open descriptor that was no temporary, and a
      destination only where arcs clash. */
  ghost predicate CleanCloses(a: Arcs, t0: Table, log: History) {
    forall p :: 0 <= p < |log| && log[p].Closed? ==>
      && log[p].fd in Replay(t0, log[..p])
      && log[p].fd !in Temps(log[..p])
      && (IsDest(a, log[p].fd) ==> Clash(a, log[p].fd))
  }

  lemma {:induction false} CleanSnoc(a: Arcs, t0: Table, log: History, x: Action)
    requires CleanCloses(a, t0, log)
    requires x.Closed? ==> && x.fd in Replay(t0, log) && x.fd !in Temps(log)
                           && (IsDest(a, x.fd) ==> Clash(a, x.fd))
    ensures CleanCloses(a, t0, log + [x])
  {
    forall p | 0 <= p <= |log| ensures (log + [x])[..p] == log[..p] {}
    assert log[..|log|] == log;
  }

  lemma {:induction false} TurnKeepsClean(d: Delegate, a: Arcs, t0: Table, s: State, i: nat)
    requires SourcesOpen(a, t0) && DistinctDests(a) && Fresh(d, t0) && i < |a|
    requires Inv(a, t0, s, i) && TempsAvoidDests(a, Turn(d, s, i).state.log)
    requires CleanCloses(a, t0, s.log) && Turn(d, s, i).ok
    ensures CleanCloses(a, t0, Turn(d, s, i).state.log)
  {
    var m := Scan(d, s, i, i + 1, -1).state;
    AvoidsEarlier(a, s.log, Turn(d, s, i).state.log);
    AvoidsEarlier(a, m.log, Turn(d, s, i).state.log);
    ScanReachesMidTurn(d, a, t0, s, i);
    if m.log != s.log {
      CleanSnoc(a, t0, s.log, Duplicated(d.duplicate(s.log).value, s.arcs[i].dest));
    }
    if !a[i].IsIdentity() {
      MoveTable(a, t0, m, i);
      CleanSnoc(a, t0, m.log, Moved(m.arcs[i].source, m.arcs[i].dest));
      if m.arcs[i].close {
        if IsDest(a, a[i].source) {
          assert ClosedBefore(a, |a|, a[i].source);
          ClosedDest(a, a[i].source);
        }
        CleanSnoc(a, t0, AfterMove(m, i).log, Closed(m.arcs[i].source));
      }
    }
  }

  lemma {:induction false} TurnsKeepClean(d: Delegate, a: Arcs, t0: Table, s: State, i: nat)
    requires SourcesOpen(a, t0) && DistinctDests(a) && Fresh(d, t0) && i <= |a|
    requires Inv(a, t0, s, i) && TempsAvoidDests(a, Turns(d, s, i).state.log)
    requires CleanCloses(a, t0, s.log) && Turns(d, s, i).ok
    ensures CleanCloses(a, t0, Turns(d, s, i).state.log)
    decreases |a| - i
  {
    hide Turn, CleanCloses, Expected, AllPending, Fresh, DistinctDests;
    if i < |a| {
      var one := Turn(d, s, i);
      assert one.ok && Turns(d, s, i) == Turns(d, one.state, i + 1);
      AvoidsEarlier(a, one.state.log, Turns(d, s, i).state.log);
      TurnKeepsInv(d, a, t0, s, i);
      TurnKeepsClean(d, a, t0, s, i);
      TurnsKeepClean(d, a, t0, one.state, i + 1);
    }
  }

  /** A successful run is the turns, in which no Close hits a temporary or (clashes
      aside) a destination, followed by one Close for each of the first 16
      temporaries, which are all different. */
  lemma {:induction false} ShuffleCloses(d: Delegate, a: Arcs, t0: Table)
    requires SourcesOpen(a, t0) && DistinctDests(a) && Fresh(d, t0)
    requires TempsAvoidDests(a, Perform(d, a, t0).state.log) && Perform(d, a, t0).ok
    ensures var turns := Turns(d, Start(a, t0), 0).state.log;
            && CleanCloses(a, t0, turns) && NoRepeats(Temps(turns))
            && Perform(d, a, t0).state.log == turns + Closes(Kept(Temps(turns)))
  {
    var r := Turns(d, Start(a, t0), 0);
    CloseExtrasResult(r.state, 0);
    AvoidsEarlier(a, r.state.log, Perform(d, a, t0).state.log);
    StartInv(a, t0);
    TurnsKeepClean(d, a, t0, Start(a, t0), 0);
    AfterTurns(d, a, t0);
    AfterCloses(a, t0, r.state);
  }
}
