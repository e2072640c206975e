/** When exactly a delegate that merely returns closed descriptors gets the shuffle right,
    and in particular the kernel's dup, which returns the lowest one. */
module ShuffleDup {
  import opened Basics
  import opened Shuffle
  import opened ShuffleProof
  import opened ShuffleTheorems
  import opened ShuffleHazard

  // ------------------------------------------------- any delegate, exactly

  lemma {:induction false} WillingTurns(d: Delegate, a: Arcs, t0: Table, s: State, i: nat)
    requires SourcesOpen(a, t0) && DistinctDests(a) && Fresh(d, t0) && Willing(d) && i <= |a|
    requires Inv(a, t0, s, i) && TempsAvoidDests(a, Turns(d, s, i).state.log)
    ensures Turns(d, s, i).ok
    decreases |a| - i
  {
    hide Turn, Inv, TempsAvoidDests, Fresh, Willing, DistinctDests, SourcesOpen;
    InvLength(a, t0, s, i);
    if i < |a| {
      var one := Turn(d, s, i);
      AvoidsEarlier(a, s.log, Turns(d, s, i).state.log);
      WillingTurn(d, a, t0, s, i);
      AvoidsEarlier(a, one.state.log, Turns(d, s, i).state.log);
      TurnKeepsInv(d, a, t0, s, i);
      WillingTurns(d, a, t0, one.state, i + 1);
    }
  }

  /** A temporary that is a destination ends up closed, or leaked. */
  lemma {:induction false} TempIsLost(d: Delegate, a: Arcs, t0: Table, k: nat)
    requires SourcesOpen(a, t0) && k < |a| && a[k].dest in Temps(Perform(d, a, t0).state.log)
    ensures !Correct(d, a, t0)
  {
    var x, r, s := a[k].dest, Perform(d, a, t0), Turns(d, Start(a, t0), 0).state;
    assert IsDest(a, x) && x in Dests(a);
    assert x in Simultaneous(a, t0);
    if r.ok {
      ExtraIsKept(d, Start(a, t0), 0);
      CloseExtrasResult(s, 0);
      assert s.extra[0..] == s.extra;
      TempsOfCloses(s.log, s.extra);
      assert x in Leaked(r.state.log) || x in Kept(Temps(s.log));
      assert x !in r.state.table - Leaked(r.state.log);
    }
  }

  /** Whatever a willing delegate returns: it gets the assignment right exactly if no
      temporary of the run is a destination. */
  lemma {:induction false} CorrectIffTempsAvoidDests(d: Delegate, a: Arcs, t0: Table)
    requires SourcesOpen(a, t0) && DistinctDests(a) && Fresh(d, t0) && Willing(d) && !HasClash(a)
    ensures Correct(d, a, t0) <==> TempsAvoidDests(a, Perform(d, a, t0).state.log)
  {
    hide Perform, Inv, Correct, Fresh, Willing, HasClash, DistinctDests, Turns, Simultaneous;
    if TempsAvoidDests(a, Perform(d, a, t0).state.log) {
      AvoidingIsCorrect(d, a, t0);
    } else {
      var k :| 0 <= k < |a| && a[k].dest in Temps(Perform(d, a, t0).state.log);
      TempIsLost(d, a, t0, k);
    }
  }

  lemma {:induction false} AvoidingIsCorrect(d: Delegate, a: Arcs, t0: Table)
    requires SourcesOpen(a, t0) && DistinctDests(a) && Fresh(d, t0) && Willing(d) && !HasClash(a)
    requires TempsAvoidDests(a, Perform(d, a, t0).state.log)
    ensures Correct(d, a, t0)
  {
    hide Inv, Fresh, Willing, HasClash, DistinctDests, Turns, Simultaneous, Achieved, Leaked, TempsAvoidDests;
    StartInv(a, t0);
    TurnsInPerform(d, a, t0);
    AvoidsEarlier(a, Turns(d, Start(a, t0), 0).state.log, Perform(d, a, t0).state.log);
    WillingTurns(d, a, t0, Start(a, t0), 0);
    ShuffleResult(d, a, t0);
    AchievedIffNoClash(a, t0);
  }

  // --------------------------------------------------------- the lowest one

  function Lowest(xs: set<int>): (r: nat)
    ensures r !in xs && forall fd :: 0 <= fd < r ==> fd in xs
  {
    LowestFrom(xs, 0)
  }

  function LowestFrom(xs: set<int>, n: nat): (r: nat)
    ensures n <= r && r !in xs && forall fd :: n <= fd < r ==> fd in xs
    decreases |xs|
  {
    if n !in xs then n
    else
      var r := LowestFrom(xs - {n}, n + 1);
      forall fd | n <= fd < r ensures fd in xs {
        if fd != n { assert fd in xs - {n}; }
      }
      r
  }

  /** Arc i overwrites a source that is still needed. */
  predicate TakesTemp(a: Arcs, i: nat)
    requires i < |a|
  {
    !a[i].IsIdentity() && exists j :: i < j < |a| && a[j].source == a[i].dest
  }

  /** The temporaries before arc i's turn, if each is the lowest closed descriptor. */
  ghost function LowTemps(a: Arcs, t0: Table, i: nat): set<int>
    requires SourcesOpen(a, t0) && i <= |a|
    decreases i, 0
  {
    if i == 0 then {}
    else
      var before := LowTemps(a, t0, i - 1);
      if TakesTemp(a, i - 1) then before + {Lowest(OpenAt(a, t0, i - 1))} else before
  }

  /** What is open before arc i's turn: what the turns so far make of the table, and the
      temporaries. */
  ghost function OpenAt(a: Arcs, t0: Table, i: nat): set<int>
    requires SourcesOpen(a, t0) && i <= |a|
    decreases i, 1
  {
    Expected(a, t0, i).Keys + LowTemps(a, t0, i)
  }

  /** Arc i's temporary is the destination of a later arc k. */
  ghost predicate HitsAt(a: Arcs, t0: Table, i: nat, k: nat)
    requires SourcesOpen(a, t0) && i < |a| && k < |a|
  {
    i < k && TakesTemp(a, i) && a[k].dest == Lowest(OpenAt(a, t0, i))
  }

  ghost predicate HitsFrom(a: Arcs, t0: Table, i: nat)
    requires SourcesOpen(a, t0)
  {
    exists m, k :: i <= m < |a| && 0 <= k < |a| && HitsAt(a, t0, m, k)
  }

  /** The table of the run so far in terms of the arcs. */
  lemma {:induction false} OpenInRun(a: Arcs, t0: Table, s: State, i: nat)
    requires SourcesOpen(a, t0) && i <= |a| && Inv(a, t0, s, i) && TempSet(s.log) == LowTemps(a, t0, i)
    ensures s.table.Keys == OpenAt(a, t0, i) && s.table == Replay(t0, s.log)
  {
    hide Expected, LowTemps, AllPending, Temps;
    var kept := s.table - TempSet(s.log);
    assert s.table.Keys == kept.Keys + TempSet(s.log);
  }

  lemma {:induction false} LowestIsGiven(d: Delegate, t0: Table, h: History)
    requires LowestFree(d, t0)
    ensures d.duplicate(h) == Some(Lowest(Replay(t0, h).Keys))
  {
    var r, n := d.duplicate(h).value, Lowest(Replay(t0, h).Keys);
    assert r < n ==> r in Replay(t0, h).Keys;
    assert n < r ==> n in Replay(t0, h);
  }

  /** Arc i's turn takes the lowest closed descriptor as its temporary, or none. */
  lemma {:induction false} LowTurn(d: Delegate, a: Arcs, t0: Table, s: State, i: nat)
    requires SourcesOpen(a, t0) && DistinctDests(a) && LowestFree(d, t0) && Fresh(d, t0) && i < |a|
    requires Inv(a, t0, s, i) && TempsAvoidDests(a, s.log) && TempSet(s.log) == LowTemps(a, t0, i)
    requires Turn(d, s, i).ok
    ensures Temps(Turn(d, s, i).state.log) ==
            if TakesTemp(a, i) then Temps(s.log) + [Lowest(OpenAt(a, t0, i))] else Temps(s.log)
  {
    OpenInRun(a, t0, s, i);
    LowestIsGiven(d, t0, s.log);
    TempNeededExactly(a, t0, s, i);
    SourceReadable(a, t0, s, i);
    hide Scan, Commit, Inv, Replay, Fresh, LowestFree, SourcesOpen, DistinctDests, TempsAvoidDests, OpenAt, LowTemps,
         TakesTemp;
    var r := Scan(d, s, i, i + 1, -1);
    StartScan(s, i);
    var temp := ScanResult(d, t0, s, s, i, i + 1, -1);
    if TempNeeded(s.arcs, i, |a|) {
      TempsSnoc(s.log, Duplicated(temp, s.arcs[i].dest));
    }
    CommitTemps(d, r.state, i);
  }

  lemma {:induction false} SourceReadable(a: Arcs, t0: Table, s: State, i: nat)
    requires SourcesOpen(a, t0) && i < |a| && Inv(a, t0, s, i)
    ensures |s.arcs| == |a| && s.arcs[i].source in s.table
  {
    assert Pending(a, t0, s, i, i);
  }

  lemma {:induction false} TempNeededExactly(a: Arcs, t0: Table, s: State, i: nat)
    requires SourcesOpen(a, t0) && DistinctDests(a) && i < |a| && Inv(a, t0, s, i) && TempsAvoidDests(a, s.log)
    ensures |s.arcs| == |a| && (TempNeeded(s.arcs, i, |a|) <==> TakesTemp(a, i))
  {
    InvLength(a, t0, s, i);
    hide Inv, SourcesOpen, DistinctDests, TempsAvoidDests;
    forall j | i < j < |a|
      ensures NeedsTemp(s.arcs, i, j) <==> !a[i].IsIdentity() && a[j].source == a[i].dest
    {
      SameShape(a, t0, s, i, j);
    }
    if TakesTemp(a, i) {
      var j :| i < j < |a| && a[j].source == a[i].dest;
      assert NeedsTemp(s.arcs, i, j);
    }
  }

  /** The temporary is no destination unless it hits one that is still to come. */
  lemma {:induction false} LowTempHits(a: Arcs, t0: Table, s: State, i: nat)
    requires SourcesOpen(a, t0) && DistinctDests(a) && !HasClash(a) && i < |a| && TakesTemp(a, i)
    requires Inv(a, t0, s, i) && TempsAvoidDests(a, s.log) && TempSet(s.log) == LowTemps(a, t0, i)
    ensures forall k :: 0 <= k < |a| ==> (a[k].dest == Lowest(OpenAt(a, t0, i)) <==> HitsAt(a, t0, i, k))
  {
    OpenInRun(a, t0, s, i);
    var j :| i < j < |a| && a[j].source == a[i].dest;
    hide Inv, SourcesOpen, DistinctDests, TempsAvoidDests, OpenAt, HasClash, Replay;
    forall k | 0 <= k <= i ensures a[k].dest != Lowest(OpenAt(a, t0, i)) {
      DestsOpen(a, t0, s, i, j, k);
    }
  }

  lemma {:induction false} NextTurn(d: Delegate, s: State, i: nat)
    requires i < |s.arcs| && Turn(d, s, i).ok
    ensures Turns(d, s, i) == Turns(d, Turn(d, s, i).state, i + 1)
  {}

  lemma {:induction false} NothingLeft(d: Delegate, a: Arcs, t0: Table, s: State)
    requires SourcesOpen(a, t0)
    ensures Turns(d, s, |s.arcs|).state == s && !HitsFrom(a, t0, |a|)
  {}

  /** From arc i on the temporaries avoid the destinations exactly if none hits one. */
  lemma {:induction false} LowTurns(d: Delegate, a: Arcs, t0: Table, s: State, i: nat)
    requires SourcesOpen(a, t0) && DistinctDests(a) && !HasClash(a) && LowestFree(d, t0) && Fresh(d, t0) && Willing(d)
    requires i <= |a| && Inv(a, t0, s, i) && TempsAvoidDests(a, s.log) && TempSet(s.log) == LowTemps(a, t0, i)
    ensures TempsAvoidDests(a, Turns(d, s, i).state.log) <==> !HitsFrom(a, t0, i)
    decreases |a| - i
  {
    hide Turn, Turns, Inv, TempsAvoidDests, HitsFrom, LowTemps, OpenAt, HasClash, Fresh, Willing, LowestFree,
         DistinctDests, SourcesOpen, TakesTemp, Temps;
    InvLength(a, t0, s, i);
    NothingLeft(d, a, t0, s);
    if i < |a| {
      var one := Turn(d, s, i);
      WillingTurn(d, a, t0, s, i);
      LowTurn(d, a, t0, s, i);
      NextTurn(d, s, i);
      TempSetOf(a, t0, s, one.state, i);
      LowTurnHits(d, a, t0, s, i);
      HitsSplit(a, t0, i);
      if TempsAvoidDests(a, one.state.log) {
        TurnKeepsInv(d, a, t0, s, i);
        LowTurns(d, a, t0, one.state, i + 1);
      } else if TempsAvoidDests(a, Turns(d, s, i).state.log) {
        AvoidsEarlier(a, one.state.log, Turns(d, one.state, i + 1).state.log);
      }
    }
  }

  lemma {:induction false} TempSetOf(a: Arcs, t0: Table, s: State, s': State, i: nat)
    requires SourcesOpen(a, t0) && i < |a| && TempSet(s.log) == LowTemps(a, t0, i)
    requires Temps(s'.log) == if TakesTemp(a, i) then Temps(s.log) + [Lowest(OpenAt(a, t0, i))] else Temps(s.log)
    ensures TempSet(s'.log) == LowTemps(a, t0, i + 1)
  {
    hide Temps, OpenAt, TakesTemp;
  }

  ghost predicate HitsNow(a: Arcs, t0: Table, i: nat)
    requires SourcesOpen(a, t0) && i < |a|
  {
    exists k :: 0 <= k < |a| && HitsAt(a, t0, i, k)
  }

  lemma {:induction false} HitsSplit(a: Arcs, t0: Table, i: nat)
    requires SourcesOpen(a, t0) && i < |a|
    ensures HitsFrom(a, t0, i) <==> HitsNow(a, t0, i) || HitsFrom(a, t0, i + 1)
  {
    hide HitsAt;
    if HitsFrom(a, t0, i) {
      var m, k :| i <= m < |a| && 0 <= k < |a| && HitsAt(a, t0, m, k);
      assert m == i || i + 1 <= m;
    }
  }

  lemma {:induction false} LowTurnHits(d: Delegate, a: Arcs, t0: Table, s: State, i: nat)
    requires SourcesOpen(a, t0) && DistinctDests(a) && !HasClash(a) && LowestFree(d, t0) && Fresh(d, t0) && i < |a|
    requires Inv(a, t0, s, i) && TempsAvoidDests(a, s.log) && TempSet(s.log) == LowTemps(a, t0, i)
    requires Turn(d, s, i).ok
    ensures TempsAvoidDests(a, Turn(d, s, i).state.log) <==> !HitsNow(a, t0, i)
  {
    LowTurn(d, a, t0, s, i);
    if TakesTemp(a, i) { LowTempHits(a, t0, s, i); }
    hide Turn, Inv, Temps, OpenAt, LowTemps, HasClash, Fresh, LowestFree, DistinctDests;
    assert !TakesTemp(a, i) ==> !HitsNow(a, t0, i);
  }

  /** With dup as POSIX defines it the shuffle comes out right exactly if no temporary, as
      computed from the arcs and the table, is the destination of a later arc. */
  lemma {:induction false} LowestFreeExactly(d: Delegate, a: Arcs, t0: Table)
    requires SourcesOpen(a, t0) && DistinctDests(a) && !HasClash(a) && LowestFree(d, t0)
    requires forall h :: d.move(h)
    ensures Correct(d, a, t0) <==> !HitsFrom(a, t0, 0)
  {
    var s := Start(a, t0);
    assert Fresh(d, t0) && Willing(d);
    assert Temps(s.log) == [] && TempSet(s.log) == LowTemps(a, t0, 0);
    StartInv(a, t0);
    LowTurns(d, a, t0, s, 0);
    CorrectIffTempsAvoidDests(d, a, t0);
    TempsOfPerform(d, a, t0);
  }

  lemma {:induction false} TempsOfPerform(d: Delegate, a: Arcs, t0: Table)
    ensures Temps(Perform(d, a, t0).state.log) == Temps(Turns(d, Start(a, t0), 0).state.log)
  {
    var r := Turns(d, Start(a, t0), 0);
    if r.ok {
      CloseExtrasResult(r.state, 0);
      TempsOfCloses(r.state.log, r.state.extra[0..]);
    }
  }
}
