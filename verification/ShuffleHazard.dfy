/** Which promise about Duplicate the shuffle needs. The interface promises a fresh
    descriptor, and the kernel's dup returns one that is merely not open; a later
    destination may be just that. */
module ShuffleHazard {
  import opened Basics
  import opened Shuffle
  import opened ShuffleProof
  import opened ShuffleTheorems
  import Sets

  /** The delegate never refuses. */
  ghost predicate Willing(d: Delegate) {
    forall h :: d.duplicate(h).Some? && d.move(h)
  }

  /** The run succeeds and, leaked temporaries aside, is the simultaneous assignment. */
  ghost predicate Correct(d: Delegate, a: Arcs, t0: Table)
    requires SourcesOpen(a, t0)
  {
    var r := Perform(d, a, t0);
    r.ok && r.state.table - Leaked(r.state.log) == Simultaneous(a, t0)
  }

  /** Arc i overwrites a source that is still needed, so a temporary is taken, while
      the destination of a later arc k is not open yet. */
  predicate Risky(a: Arcs, t0: Table) {
    exists i, j, k :: 0 <= i < j < |a| && i < k < |a| && RiskyAt(a, t0, i, j, k)
  }

  predicate RiskyAt(a: Arcs, t0: Table, i: nat, j: nat, k: nat)
    requires i < |a| && j < |a| && k < |a|
  {
    !a[i].IsIdentity() && a[i].dest == a[j].source && a[k].dest !in t0 && a[k].dest >= 0
  }

  // ---------------------------------------------- a willing delegate is enough

  lemma {:induction false} WillingScan(d: Delegate, s: State, i: nat, j: nat, temp: int)
    requires Willing(d) && i < j <= |s.arcs|
    requires forall q :: j <= q < |s.arcs| ==> s.arcs[q].source in s.table
    ensures Scan(d, s, i, j, temp).ok
    decreases |s.arcs| - j
  {
    if j < |s.arcs| {
      if !s.arcs[i].IsIdentity() && s.arcs[i].dest == s.arcs[j].source {
        var (got, t) := TakeTemp(d, s, s.arcs[i].dest, temp);
        var s1 := RewriteSource(got.state, j, t);
        WillingScan(d, s1.(arcs := PassClose(s1.arcs, i, j)), i, j + 1, t);
      } else {
        WillingScan(d, s.(arcs := PassClose(s.arcs, i, j)), i, j + 1, temp);
      }
    }
  }

  lemma {:induction false} SourcesReadable(a: Arcs, t0: Table, s: State, i: nat)
    requires SourcesOpen(a, t0) && i < |a| && Inv(a, t0, s, i)
    ensures forall q :: i <= q < |s.arcs| ==> s.arcs[q].source in s.table
  {
    hide Expected, Overwritten, Carried, TempsOk;
    forall q | i <= q < |s.arcs| ensures s.arcs[q].source in s.table {
      assert Pending(a, t0, s, i, q);
    }
  }

  lemma {:induction false} WillingCommit(d: Delegate, a: Arcs, t0: Table, m: State, i: nat)
    requires SourcesOpen(a, t0) && i < |a| && Willing(d) && MidTurn(a, t0, m, i)
    ensures Commit(d, m, i).ok
  {
    hide Expected, AllPending, TempsOk, Overwritten, ClosesAt;
  }

  lemma {:induction false} WillingTurn(d: Delegate, a: Arcs, t0: Table, s: State, i: nat)
    requires SourcesOpen(a, t0) && DistinctDests(a) && Fresh(d, t0) && Willing(d) && i < |a|
    requires Inv(a, t0, s, i) && TempsAvoidDests(a, s.log)
    ensures Turn(d, s, i).ok
  {
    var m := Scan(d, s, i, i + 1, -1).state;
    assert Scan(d, s, i, i + 1, -1).ok && MidTurn(a, t0, m, i) by {
      hide Scan, MidTurn, Willing, Expected, AllPending;
      SourcesReadable(a, t0, s, i);
      WillingScan(d, s, i, i + 1, -1);
      ScanReachesMidTurn(d, a, t0, s, i);
    }
    hide Scan, MidTurn, Willing, Inv, Commit;
    WillingCommit(d, a, t0, m, i);
  }

  // ------------------------------------------ without the risk all is well

  lemma {:induction false} DestsOpen(a: Arcs, t0: Table, s: State, i: nat, j: nat, k: nat)
    requires SourcesOpen(a, t0) && DistinctDests(a) && !HasClash(a) && i < j < |a| && k < |a|
    requires Inv(a, t0, s, i) && TempsAvoidDests(a, s.log)
    requires !a[i].IsIdentity() && a[j].source == a[i].dest
    requires i < k ==> !RiskyAt(a, t0, i, j, k)
    ensures a[k].dest in s.table || a[k].dest < 0
  {
    var x := a[k].dest;
    ExpectedAt(a, t0, i, x);
    assert ClosedBefore(a, i, x) ==> ClosedBefore(a, |a|, x);
    ClosedDest(a, x);
    assert s.table - TempSet(s.log) == Expected(a, t0, i);
  }

  lemma {:induction false} SafeScan(d: Delegate, a: Arcs, t0: Table, s: State, i: nat)
    requires SourcesOpen(a, t0) && DistinctDests(a) && Fresh(d, t0) && i < |a|
    requires !HasClash(a) && !Risky(a, t0)
    requires Inv(a, t0, s, i) && TempsAvoidDests(a, s.log)
    ensures var r := Scan(d, s, i, i + 1, -1);
            r.ok ==> TempsAvoidDests(a, r.state.log)
  {
    hide Scan, Expected, Overwritten, Carried, ClosesAt, Replay;
    var r := Scan(d, s, i, i + 1, -1);
    assert Pending(a, t0, s, i, i);
    if r.ok {
      var temp := ScanResult(d, t0, s, s, i, i + 1, -1);
      TempsAfterScan(a, t0, s, r.state, i, temp);
      if TempNeeded(s.arcs, i, |a|) {
        var q :| i < q < |a| && NeedsTemp(s.arcs, i, q);
        SameShape(a, t0, s, i, q);
        forall k | 0 <= k < |a| ensures a[k].dest != temp {
          DestsOpen(a, t0, s, i, q, k);
        }
      }
      assert forall k :: 0 <= k < |a| ==> a[k].dest !in TempSet(r.state.log);
    }
  }

  lemma {:induction false} SafeTurn(d: Delegate, a: Arcs, t0: Table, s: State, i: nat)
    requires SourcesOpen(a, t0) && DistinctDests(a) && Fresh(d, t0) && i < |a|
    requires !HasClash(a) && !Risky(a, t0)
    requires Inv(a, t0, s, i) && TempsAvoidDests(a, s.log)
    ensures Turn(d, s, i).ok ==> TempsAvoidDests(a, Turn(d, s, i).state.log)
  {
    hide Scan, Expected, MidTurn, Risky, HasClash, Fresh, AllPending, TempsOk;
    var r := Scan(d, s, i, i + 1, -1);
    SafeScan(d, a, t0, s, i);
    if r.ok {
      ScanReachesMidTurn(d, a, t0, s, i);
      CommitTemps(d, r.state, i);
    }
  }

  lemma {:induction false} SafeTurns(d: Delegate, a: Arcs, t0: Table, s: State, i: nat)
    requires SourcesOpen(a, t0) && DistinctDests(a) && Fresh(d, t0) && Willing(d) && i <= |a|
    requires !HasClash(a) && !Risky(a, t0)
    requires Inv(a, t0, s, i) && TempsAvoidDests(a, s.log)
    ensures Turns(d, s, i).ok && TempsAvoidDests(a, Turns(d, s, i).state.log)
    decreases |a| - i
  {
    if i < |a| {
      var one := Turn(d, s, i);
      WillingTurn(d, a, t0, s, i);
      SafeTurn(d, a, t0, s, i);
      TurnKeepsInv(d, a, t0, s, i);
      assert Turns(d, s, i) == Turns(d, one.state, i + 1);
      SafeTurns(d, a, t0, one.state, i + 1);
    }
  }

  lemma {:induction false} SafeIsCorrect(d: Delegate, a: Arcs, t0: Table)
    requires SourcesOpen(a, t0) && DistinctDests(a) && Fresh(d, t0) && Willing(d)
    requires !HasClash(a) && !Risky(a, t0)
    ensures Correct(d, a, t0)
  {
    StartInv(a, t0);
    SafeTurns(d, a, t0, Start(a, t0), 0);
    var s := Turns(d, Start(a, t0), 0).state;
    AfterTurns(d, a, t0);
    AfterCloses(a, t0, s);
    AchievedIffNoClash(a, t0);
  }

  // --------------------------------------------------- with the risk, not

  ghost function Unused(t: Table): (fd: nat)
    ensures fd !in t
  {
    var fd := Above(t.Keys);
    fd
  }

  ghost function Above(xs: set<int>): (b: nat)
    ensures forall x :: x in xs ==> x < b
  {
    if xs == {} then 0
    else
      var x := Sets.Pick(xs);
      var rest := Above(xs - {x});
      assert forall y :: y in xs ==> y == x || y in xs - {x};
      if x < rest then rest else x + 1
  }

  /** Hands out descriptor x first if it is free, and some free one otherwise. */
  ghost function Spiteful(t0: Table, x: nat): (d: Delegate)
    ensures Fresh(d, t0) && Willing(d)
    ensures forall h :: Temps(h) == [] && x !in Replay(t0, h) ==> d.duplicate(h) == Some(x)
  {
    Delegate((h: History) => if Temps(h) == [] && x !in Replay(t0, h) then Some(x)
                             else Some(Unused(Replay(t0, h))),
             (h: History) => true)
  }

  lemma {:induction false} SpiteHits(d: Delegate, a: Arcs, t0: Table, s: State, n: nat, i: nat, j: nat, k: nat)
    requires SourcesOpen(a, t0) && DistinctDests(a) && Fresh(d, t0)
    requires n <= i < j < |a| && i < k < |a| && RiskyAt(a, t0, i, j, k)
    requires forall h :: Temps(h) == [] && a[k].dest !in Replay(t0, h) ==> d.duplicate(h) == Some(a[k].dest)
    requires Inv(a, t0, s, n) && Temps(s.log) == [] && Turns(d, s, n).ok
    ensures [a[k].dest] <= Temps(Turns(d, s, n).state.log)
    decreases i - n
  {
    hide Turn, Inv, Replay, Fresh, SourcesOpen, DistinctDests, RiskyAt;
    InvLength(a, t0, s, n);
    var one := Turn(d, s, n);
    assert one.ok && Turns(d, s, n) == Turns(d, one.state, n + 1);
    SpiteTurn(d, a, t0, s, n, i, j, k);
    if Temps(one.state.log) == [] {
      TurnKeepsInv(d, a, t0, s, n);
      SpiteHits(d, a, t0, one.state, n + 1, i, j, k);
    } else {
      TempsPrefix(one.state.log, Turns(d, s, n).state.log);
    }
  }

  lemma {:induction false} InvLength(a: Arcs, t0: Table, s: State, n: nat)
    requires SourcesOpen(a, t0) && n <= |a| && Inv(a, t0, s, n)
    ensures |s.arcs| == |a|
  {}

  lemma {:induction false} StartScan(s: State, n: nat)
    requires n < |s.arcs|
    ensures ArcsScanned(s.arcs, s.arcs, n, n + 1, -1) && TempTaken(s, s, n, n + 1, -1)
  {}

  lemma {:induction false} DestStillFree(a: Arcs, t0: Table, s: State, n: nat, k: nat)
    requires SourcesOpen(a, t0) && DistinctDests(a) && n < |a| && n < k < |a| && a[k].dest !in t0
    requires Inv(a, t0, s, n) && Temps(s.log) == []
    ensures a[k].dest !in Replay(t0, s.log) && s.table == Replay(t0, s.log) && s.arcs[n].source in s.table
    ensures |s.arcs| == |a|
  {
    assert Pending(a, t0, s, n, n);
    ExpectedAt(a, t0, n, a[k].dest);
    assert s.table - TempSet(s.log) == s.table;
  }

  lemma {:induction false} SpiteTurn(d: Delegate, a: Arcs, t0: Table, s: State, n: nat, i: nat, j: nat, k: nat)
    requires SourcesOpen(a, t0) && DistinctDests(a) && Fresh(d, t0)
    requires n <= i < j < |a| && i < k < |a| && RiskyAt(a, t0, i, j, k)
    requires forall h :: Temps(h) == [] && a[k].dest !in Replay(t0, h) ==> d.duplicate(h) == Some(a[k].dest)
    requires Inv(a, t0, s, n) && Temps(s.log) == [] && Turn(d, s, n).ok
    ensures Temps(Turn(d, s, n).state.log) == [a[k].dest] || (n < i && Temps(Turn(d, s, n).state.log) == [])
  {
    DestStillFree(a, t0, s, n, k);
    if n == i { SameShape(a, t0, s, i, j); }
    hide Scan, PassClose, Commit, Untouched, Inv, Replay, Fresh, SourcesOpen, DistinctDests;
    var r := Scan(d, s, n, n + 1, -1);
    StartScan(s, n);
    var temp := ScanResult(d, t0, s, s, n, n + 1, -1);
    if n == i { assert NeedsTemp(s.arcs, i, j); }
    if TempNeeded(s.arcs, n, |a|) {
      TempsSnoc(s.log, Duplicated(temp, s.arcs[n].dest));
    }
    CommitTemps(d, r.state, n);
  }

  lemma {:induction false} TurnKeepsExtra(d: Delegate, s: State, i: nat)
    requires i < |s.arcs| && s.extra == Kept(Temps(s.log)) && Turn(d, s, i).ok
    ensures Turn(d, s, i).state.extra == Kept(Temps(Turn(d, s, i).state.log))
  {
    var r := Scan(d, s, i, i + 1, -1).state;
    if r.log != s.log {
      TempsSnoc(s.log, Duplicated(d.duplicate(s.log).value, s.arcs[i].dest));
    }
    CommitTemps(d, r, i);
  }

  /** The final loop knows the first 16 temporaries whatever the delegate does. */
  lemma {:induction false} ExtraIsKept(d: Delegate, s: State, i: nat)
    requires i <= |s.arcs| && s.extra == Kept(Temps(s.log))
    ensures Turns(d, s, i).ok ==> Turns(d, s, i).state.extra == Kept(Temps(Turns(d, s, i).state.log))
    decreases |s.arcs| - i
  {
    hide Turn, Temps, Kept;
    if i < |s.arcs| {
      var one := Turn(d, s, i);
      if one.ok {
        TurnKeepsExtra(d, s, i);
        ExtraIsKept(d, one.state, i + 1);
      }
    }
  }

  lemma {:induction false} FirstTempIsLost(s: State, x: int)
    requires s.extra == Kept(Temps(s.log)) && [x] <= Temps(s.log)
    ensures x !in CloseExtras(s, 0).table
  {
    CloseExtrasResult(s, 0);
    assert s.extra[0..] == s.extra;
    assert s.extra[0] == x;
  }

  lemma {:induction false} DestLost(d: Delegate, a: Arcs, t0: Table, k: nat)
    requires SourcesOpen(a, t0) && k < |a|
    requires Perform(d, a, t0).ok ==> a[k].dest !in Perform(d, a, t0).state.table
    ensures !Correct(d, a, t0)
  {
    assert IsDest(a, a[k].dest) && a[k].dest in Dests(a);
    assert a[k].dest in Simultaneous(a, t0);
  }

  lemma {:induction false} RiskyGoesWrong(a: Arcs, t0: Table) returns (d: Delegate)
    requires SourcesOpen(a, t0) && DistinctDests(a) && Risky(a, t0)
    ensures Fresh(d, t0) && Willing(d) && !Correct(d, a, t0)
  {
    var i, j, k :| 0 <= i < j < |a| && i < k < |a| && RiskyAt(a, t0, i, j, k);
    var s := Start(a, t0);
    d := Spiteful(t0, a[k].dest);
    if Turns(d, s, 0).ok {
      StartInv(a, t0);
      assert Temps(s.log) == [];
      SpiteHits(d, a, t0, s, 0, i, j, k);
      ExtraIsKept(d, s, 0);
      FirstTempIsLost(Turns(d, s, 0).state, a[k].dest);
    }
    DestLost(d, a, t0, k);
  }

  /** Hands out descriptors that are neither open nor destinations. */
  ghost function Careful(a: Arcs, t0: Table): (d: Delegate)
    ensures Fresh(d, t0) && Willing(d) && Avoids(d, a)
  {
    var d := Delegate((h: History) => Some(Above(Replay(t0, h).Keys + Dests(a))), (h: History) => true);
    assert forall k :: 0 <= k < |a| ==> a[k].dest in Dests(a);
    d
  }

  lemma {:induction false} ClashGoesWrong(a: Arcs, t0: Table) returns (d: Delegate)
    requires SourcesOpen(a, t0) && DistinctDests(a) && HasClash(a)
    ensures Fresh(d, t0) && Willing(d) && Avoids(d, a) && !Correct(d, a, t0)
  {
    d := Careful(a, t0);
    PerformAvoidsDests(d, a, t0);
    ShuffleResult(d, a, t0);
    AchievedIffNoClash(a, t0);
  }

  /** With nothing but "not open" promised for duplicates, every delegate gets the
      assignment right exactly when the arcs neither clash nor are risky. */
  lemma {:induction false} FreshSufficesIffSafe(a: Arcs, t0: Table)
    requires SourcesOpen(a, t0) && DistinctDests(a)
    ensures (forall d :: Fresh(d, t0) && Willing(d) ==> Correct(d, a, t0)) <==> !Risky(a, t0) && !HasClash(a)
  {
    if Risky(a, t0) {
      var d := RiskyGoesWrong(a, t0);
    } else if HasClash(a) {
      var d := ClashGoesWrong(a, t0);
    } else {
      forall d | Fresh(d, t0) && Willing(d) ensures Correct(d, a, t0) {
        SafeIsCorrect(d, a, t0);
      }
    }
  }

  // ------------------------------------------------------------ two examples

  /** Descriptor 5 stays in place and is also moved to 6 and closed: the close hits
      the destination of the first arc. */
  lemma {:induction false} IdentityThenCloseLosesDescriptor(d: Delegate, t0: Table)
    requires 5 in t0 && Fresh(d, t0) && Willing(d)
    ensures var a := [Arc(5, 5, false), Arc(5, 6, true)];
            && Perform(d, a, t0).ok && 5 !in Perform(d, a, t0).state.table
            && 5 in Simultaneous(a, t0) && Simultaneous(a, t0)[5] == t0[5]
  {
    var a := [Arc(5, 5, false), Arc(5, 6, true)];
    var s := Start(a, t0);
    assert PassClose(a, 0, 1) == a;
    assert Scan(d, s, 0, 1, -1) == Scan(d, s, 0, 2, -1) == Outcome(true, s);
    assert Turn(d, s, 0) == Outcome(true, s);
    var one := Turn(d, s, 1);
    assert one.ok && 5 !in one.state.table;
    assert Turns(d, s, 0) == Turns(d, s, 1) == Turns(d, one.state, 2) == one;
    CloseExtrasResult(one.state, 0);
    assert IsDest(a, 5) && a[0].dest in Dests(a);
    assert DestIndex(a, 5) == 0;
  }

  /** dup(2) as POSIX defines it: the lowest descriptor that is not open. */
  ghost predicate LowestFree(d: Delegate, t0: Table) {
    forall h :: d.duplicate(h).Some? && d.duplicate(h).value !in Replay(t0, h) &&
                forall fd :: 0 <= fd < d.duplicate(h).value ==> fd in Replay(t0, h)
  }

  const SHIFT: Arcs := [Arc(0, 1, false), Arc(1, 2, false)]

  lemma {:induction false} ShiftFirstTurn(d: Delegate, f: File, g: File)
    requires LowestFree(d, map[0 := f, 1 := g]) && forall h :: d.move(h)
    ensures var one := Turn(d, Start(SHIFT, map[0 := f, 1 := g]), 0);
            one.ok && one.state.extra == [2] && one.state.arcs == [Arc(0, 1, false), Arc(2, 2, false)]
  {
    var t0 := map[0 := f, 1 := g];
    var s := Start(SHIFT, t0);
    assert d.duplicate([]) == Some(2) by {
      assert Replay(t0, []) == t0 && 2 !in Replay(t0, []);
    }
    hide LowestFree, Replay;
    var (got, t) := TakeTemp(d, s, 1, -1);
    var s1 := RewriteSource(got.state, 1, 2);
    assert PassClose(s1.arcs, 0, 1) == s1.arcs == [Arc(0, 1, false), Arc(2, 2, false)];
    assert Scan(d, s, 0, 1, -1) == Scan(d, s1, 0, 2, 2) == Outcome(true, s1);
  }

  lemma {:induction false} ShiftTurns(d: Delegate, f: File, g: File)
    requires LowestFree(d, map[0 := f, 1 := g]) && forall h :: d.move(h)
    ensures var r := Turns(d, Start(SHIFT, map[0 := f, 1 := g]), 0); r.ok && r.state.extra == [2]
  {
    var s := Start(SHIFT, map[0 := f, 1 := g]);
    var one := Turn(d, s, 0);
    ShiftFirstTurn(d, f, g);
    assert Turn(d, one.state, 1) == one;
    assert Turns(d, s, 0) == Turns(d, one.state, 1) == Turns(d, one.state, 2) == one;
  }

  /** Shifting 0 to 1 and 1 to 2 when only 0 and 1 are open: dup gives 2, the second
      arc becomes an identity, and the final loop closes it. */
  lemma {:induction false} LowestFreeLosesDescriptor(d: Delegate, f: File, g: File)
    requires LowestFree(d, map[0 := f, 1 := g]) && forall h :: d.move(h)
    ensures var r := Perform(d, SHIFT, map[0 := f, 1 := g]);
            && r.ok && 2 !in r.state.table && Simultaneous(SHIFT, map[0 := f, 1 := g])[2] == g
  {
    ShiftTurns(d, f, g);
    hide Turns, LowestFree;
    var s := Turns(d, Start(SHIFT, map[0 := f, 1 := g]), 0).state;
    CloseExtrasResult(s, 0);
    assert 2 in s.extra[0..];
    assert IsDest(SHIFT, 2) && SHIFT[1].dest in Dests(SHIFT);
    assert DestIndex(SHIFT, 2) == 1;
  }
}
