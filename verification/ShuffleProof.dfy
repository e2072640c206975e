/** The shuffle loop is a simultaneous assignment. */
module ShuffleProof {
  import opened Shuffle

  // ------------------------------------------------------ what is asked for

  predicate DistinctDests(a: Arcs) {
    forall i, j :: 0 <= i < j < |a| ==> a[i].dest != a[j].dest
  }

  predicate SourcesOpen(a: Arcs, t0: Table) {
    forall i :: 0 <= i < |a| ==> a[i].source in t0
  }

  predicate IsDest(a: Arcs, x: int) {
    exists k :: 0 <= k < |a| && a[k].dest == x
  }

  predicate IsClosingSource(a: Arcs, x: int) {
    exists k :: 0 <= k < |a| && a[k].source == x && a[k].close
  }

  // ------------------------------- the loop's bookkeeping, read off the arcs

  /** An arc before i overwrites arc j's source. */
  predicate Overwritten(a: Arcs, i: int, j: nat)
    requires j < |a|
  {
    exists k :: 0 <= k < i && k < |a| && !a[k].IsIdentity() && a[k].dest == a[j].source
  }

  predicate NoDestBetween(a: Arcs, m: int, j: int, x: int) {
    forall q :: m < q <= j && 0 <= q < |a| ==> a[q].dest != x
  }

  /** A duty to close arc j's source has reached it from an arc before i. */
  predicate Carried(a: Arcs, i: int, j: nat)
    requires j < |a|
  {
    exists m :: 0 <= m < i && m < |a| && a[m].source == a[j].source && a[m].close &&
                NoDestBetween(a, m, j, a[j].source)
  }

  predicate NoSourceBetween(a: Arcs, i: int, j: int, x: int) {
    forall q :: i <= q < j && 0 <= q < |a| ==> a[q].source != x
  }

  predicate LastUse(a: Arcs, i: nat)
    requires i < |a|
  {
    forall j :: i < j < |a| ==> a[j].dest != a[i].source && a[j].source != a[i].source
  }

  /** Arc i's turn ends with a Close of its source. */
  predicate ClosesAt(a: Arcs, i: nat)
    requires i < |a|
  {
    !a[i].IsIdentity() && !Overwritten(a, i, i) && (a[i].close || Carried(a, i, i)) && LastUse(a, i)
  }

  /** The table after i turns, temporaries aside. */
  ghost function Expected(a: Arcs, t0: Table, i: nat): Table
    requires SourcesOpen(a, t0) && i <= |a|
  {
    if i == 0 then t0
    else
      var e := Expected(a, t0, i - 1);
      var moved := if a[i-1].IsIdentity() then e else e[a[i-1].dest := t0[a[i-1].source]];
      if ClosesAt(a, i - 1) then moved - {a[i-1].source} else moved
  }

  // ----------------------------------------------------------- temporaries

  function Temps(log: History): seq<int> {
    if log == [] then []
    else
      var rest := Temps(log[..|log|-1]);
      match log[|log|-1]
      case Duplicated(t, _) => rest + [t]
      case _ => rest
  }

  function TempSet(log: History): set<int> { set t | t in Temps(log) }

  function Kept(temps: seq<int>): seq<int> {
    if |temps| <= MAX_EXTRA_FDS then temps else temps[..MAX_EXTRA_FDS]
  }

  predicate NoRepeats(xs: seq<int>) {
    forall i, j :: 0 <= i < j < |xs| ==> xs[i] != xs[j]
  }

  /** The delegate's promise: a duplicate gets a descriptor that is not open. */
  ghost predicate Fresh(d: Delegate, t0: Table) {
    forall h :: d.duplicate(h).Some? ==> d.duplicate(h).value !in Replay(t0, h)
  }

  ghost function Effect(t: Table, x: Action): Table {
    match x
    case Duplicated(r, fd) => if fd in t then t[r := t[fd]] else t
    case Moved(src, dst) => if src in t then t[dst := t[src]] else t
    case Closed(fd) => t - {fd}
  }

  /** The table that a history leaves. */
  ghost function Replay(t0: Table, log: History): Table {
    if log == [] then t0 else Effect(Replay(t0, log[..|log|-1]), log[|log|-1])
  }

  ghost predicate TempsAvoidDests(a: Arcs, log: History) {
    forall k :: 0 <= k < |a| ==> a[k].dest !in Temps(log)
  }

  // -------------------------------------------------------------- invariant

  /** Arc j, still pending after i turns, can read its original file and knows
      whether it has to close its source. */
  ghost predicate Pending(a: Arcs, t0: Table, s: State, i: nat, j: nat)
    requires SourcesOpen(a, t0) && i <= j < |a| && |s.arcs| == |a|
  {
    && s.arcs[j].source in s.table && s.table[s.arcs[j].source] == t0[a[j].source]
    && s.arcs[j].dest == a[j].dest
    && (if Overwritten(a, i, j)
        then s.arcs[j].source in TempSet(s.log) && !s.arcs[j].close
        else && s.arcs[j].source == a[j].source && s.arcs[j].source !in TempSet(s.log)
             && (s.arcs[j].close <==>
                 a[j].close || (NoSourceBetween(a, i, j, a[j].source) && Carried(a, i, j))))
  }

  ghost predicate AllPending(a: Arcs, t0: Table, s: State, i: nat)
    requires SourcesOpen(a, t0) && i <= |a| && |s.arcs| == |a|
  {
    forall j :: i <= j < |a| ==> Pending(a, t0, s, i, j)
  }

  ghost predicate TempsOk(a: Arcs, t0: Table, s: State) {
    && s.table == Replay(t0, s.log)
    && s.extra == Kept(Temps(s.log))
    && NoRepeats(Temps(s.log))
    && TempSet(s.log) <= s.table.Keys
  }

  ghost predicate Inv(a: Arcs, t0: Table, s: State, i: nat)
    requires SourcesOpen(a, t0) && i <= |a|
  {
    && |s.arcs| == |a|
    && TempsOk(a, t0, s)
    && s.table - TempSet(s.log) == Expected(a, t0, i)
    && AllPending(a, t0, s, i)
  }

  // --------------------------------------------- one scan over later arcs

  /** Nothing strictly between i and j reads or overwrites arc i's source. */
  predicate Untouched(c: Arcs, i: nat, j: int)
    requires i < |c|
  {
    forall q :: i < q < j && q < |c| ==> c[q].dest != c[i].source && c[q].source != c[i].source
  }

  predicate NeedsTemp(c: Arcs, i: nat, q: nat)
    requires i < |c| && q < |c|
  {
    !c[i].IsIdentity() && c[q].source == c[i].dest
  }

  predicate HandedTo(c: Arcs, i: nat, q: nat)
    requires i < q < |c|
  {
    c[i].close && Untouched(c, i, q) && c[q].source == c[i].source && c[q].dest != c[i].source
  }

  /** What the scan for arc i makes of arc q. */
  function Scanned(c: Arcs, i: nat, q: nat, temp: int): Arc
    requires i < q < |c|
  {
    if NeedsTemp(c, i, q) then Arc(temp, c[q].dest, false)
    else c[q].(close := c[q].close || HandedTo(c, i, q))
  }

  predicate TempNeeded(c: Arcs, i: nat, j: nat)
    requires i < |c| && j <= |c|
  {
    exists q :: i < q < j && NeedsTemp(c, i, q)
  }

  predicate ArcsScanned(c: Arcs, b: Arcs, i: nat, j: nat, temp: int)
    requires i < j <= |c|
  {
    && |b| == |c|
    && b[i] == c[i].(close := c[i].close && Untouched(c, i, j))
    && (forall q :: i < q < j ==> b[q] == Scanned(c, i, q, temp))
    && (forall q :: j <= q < |c| ==> b[q] == c[q])
  }

  predicate TempTaken(s0: State, s: State, i: nat, j: nat, temp: int)
    requires i < j <= |s0.arcs|
  {
    if TempNeeded(s0.arcs, i, j) then
      && temp >= 0 && temp !in s0.table && s0.arcs[i].dest in s0.table
      && s.table == s0.table[temp := s0.table[s0.arcs[i].dest]]
      && s.log == s0.log + [Duplicated(temp, s0.arcs[i].dest)]
      && s.extra == Remember(s0.extra, temp)
    else
      temp == -1 && s.table == s0.table && s.log == s0.log && s.extra == s0.extra
  }

  lemma {:induction false} ScanArcsStep(c: Arcs, b: Arcs, b': Arcs, i: nat, j: nat, temp: int, temp': int)
    requires i < j < |c| && ArcsScanned(c, b, i, j, temp)
    requires NeedsTemp(c, i, j) ==> temp' != c[i].source
    requires b' == PassClose(if NeedsTemp(c, i, j) then b[j := Arc(temp', b[j].dest, false)] else b, i, j)
    requires temp' == temp || !TempNeeded(c, i, j)
    ensures ArcsScanned(c, b', i, j + 1, temp')
  {
    assert Untouched(c, i, j + 1) <==>
           Untouched(c, i, j) && c[j].dest != c[i].source && c[j].source != c[i].source;
    forall q | i < q < j ensures Scanned(c, i, q, temp) == Scanned(c, i, q, temp') {}
  }

  lemma {:induction false} ScanResult(d: Delegate, t0: Table, s0: State, s: State, i: nat, j: nat, temp: int)
    returns (temp': int)
    requires Fresh(d, t0) && s0.table == Replay(t0, s0.log)
    requires i < j <= |s0.arcs| && s0.arcs[i].source in s0.table
    requires ArcsScanned(s0.arcs, s.arcs, i, j, temp) && TempTaken(s0, s, i, j, temp)
    ensures var r := Scan(d, s, i, j, temp);
            r.ok ==> && ArcsScanned(s0.arcs, r.state.arcs, i, |s0.arcs|, temp')
                     && TempTaken(s0, r.state, i, |s0.arcs|, temp')
    decreases |s0.arcs| - j
  {
    hide PassClose, Remember, Replay, Effect;
    temp' := temp;
    if j < |s0.arcs| {
      if NeedsTemp(s0.arcs, i, j) {
        var (got, t) := TakeTemp(d, s, s.arcs[i].dest, temp);
        if got.ok {
          var s1 := RewriteSource(got.state, j, t);
          var s2 := s1.(arcs := PassClose(s1.arcs, i, j));
          ScanArcsStep(s0.arcs, s.arcs, s2.arcs, i, j, temp, t);
          assert TempNeeded(s0.arcs, i, j + 1);
          temp' := ScanResult(d, t0, s0, s2, i, j + 1, t);
        }
      } else {
        var s2 := s.(arcs := PassClose(s.arcs, i, j));
        ScanArcsStep(s0.arcs, s.arcs, s2.arcs, i, j, temp, temp);
        assert TempNeeded(s0.arcs, i, j + 1) <==> TempNeeded(s0.arcs, i, j);
        temp' := ScanResult(d, t0, s0, s2, i, j + 1, temp);
      }
    }
  }

  // ------------------------------------------------------- one turn of the loop

  lemma {:induction false} TempsSnoc(log: History, x: Action)
    ensures Temps(log + [x]) == if x.Duplicated? then Temps(log) + [x.result] else Temps(log)
  {
    assert (log + [x])[..|log|] == log;
  }

  lemma {:induction false} ReplaySnoc(t0: Table, log: History, x: Action)
    ensures Replay(t0, log + [x]) == Effect(Replay(t0, log), x)
  {
    assert (log + [x])[..|log|] == log;
  }

  /** Before arc i's turn the loop sees the same identities, overwrites and
      shared sources as the original arcs show. */
  lemma {:induction false} SameShape(a: Arcs, t0: Table, s: State, i: nat, j: nat)
    requires SourcesOpen(a, t0) && DistinctDests(a) && i <= j < |a| && i < |a|
    requires Inv(a, t0, s, i) && TempsAvoidDests(a, s.log)
    ensures s.arcs[i].IsIdentity() == a[i].IsIdentity()
    ensures i < j ==> (NeedsTemp(s.arcs, i, j) <==> !a[i].IsIdentity() && a[j].source == a[i].dest)
    ensures Overwritten(a, i + 1, j) <==>
            Overwritten(a, i, j) || (!a[i].IsIdentity() && a[i].dest == a[j].source)
    ensures !Overwritten(a, i, i) ==>
              (s.arcs[j].source == s.arcs[i].source <==> a[j].source == a[i].source)
  {
    assert Pending(a, t0, s, i, i) && Pending(a, t0, s, i, j);
  }

  lemma {:induction false} UntouchedShape(a: Arcs, t0: Table, s: State, i: nat, j: nat)
    requires SourcesOpen(a, t0) && DistinctDests(a) && i < j <= |a|
    requires Inv(a, t0, s, i) && TempsAvoidDests(a, s.log) && !Overwritten(a, i, i)
    ensures Untouched(s.arcs, i, j) <==>
            NoSourceBetween(a, i + 1, j, a[i].source) && NoDestBetween(a, i, j - 1, a[i].source)
  {
    assert Pending(a, t0, s, i, i);
    forall q | i < q < j
      ensures (s.arcs[q].source == s.arcs[i].source <==> a[q].source == a[i].source)
      ensures s.arcs[q].dest == a[q].dest
    {
      assert Pending(a, t0, s, i, q);
      SameShape(a, t0, s, i, q);
    }
  }

  lemma {:induction false} CarriedStep(a: Arcs, i: nat, j: nat)
    requires i < j < |a|
    ensures a[i].source != a[j].source ==> (Carried(a, i + 1, j) <==> Carried(a, i, j))
    ensures a[i].source == a[j].source ==>
              (Carried(a, i + 1, j) <==>
               (a[i].close || Carried(a, i, i)) && NoDestBetween(a, i, j, a[j].source))
  {
    if a[i].source == a[j].source {
      if Carried(a, i + 1, j) {
        var m :| 0 <= m < i + 1 && a[m].source == a[j].source && a[m].close &&
                 NoDestBetween(a, m, j, a[j].source);
        assert m < i ==> NoDestBetween(a, m, i, a[i].source);
      }
      if Carried(a, i, i) && NoDestBetween(a, i, j, a[j].source) {
        var m :| 0 <= m < i && a[m].source == a[i].source && a[m].close && NoDestBetween(a, m, i, a[i].source);
        assert NoDestBetween(a, m, j, a[j].source);
      }
    }
  }

  /** After the scan a later arc carries exactly the duty the next turn expects. */
  lemma {:induction false} CloseDutyStep(a: Arcs, t0: Table, s: State, i: nat, j: nat)
    requires SourcesOpen(a, t0) && DistinctDests(a) && i < j < |a|
    requires Inv(a, t0, s, i) && TempsAvoidDests(a, s.log) && !Overwritten(a, i + 1, j)
    ensures s.arcs[j].close || HandedTo(s.arcs, i, j) <==>
            a[j].close || (NoSourceBetween(a, i + 1, j, a[j].source) && Carried(a, i + 1, j))
  {
    assert Pending(a, t0, s, i, i) && Pending(a, t0, s, i, j);
    SameShape(a, t0, s, i, j);
    CarriedStep(a, i, j);
    if a[i].source == a[j].source {
      UntouchedShape(a, t0, s, i, j);
      assert !NoSourceBetween(a, i, j, a[j].source);
      assert NoDestBetween(a, i, j, a[j].source) <==>
             NoDestBetween(a, i, j - 1, a[j].source) && a[j].dest != a[j].source;
    } else {
      assert NoSourceBetween(a, i, j, a[j].source) <==> NoSourceBetween(a, i + 1, j, a[j].source);
    }
  }

  lemma {:induction false} CommitCloses(a: Arcs, t0: Table, s: State, i: nat)
    requires SourcesOpen(a, t0) && DistinctDests(a) && i < |a|
    requires Inv(a, t0, s, i) && TempsAvoidDests(a, s.log)
    ensures !a[i].IsIdentity() ==>
              (s.arcs[i].close && Untouched(s.arcs, i, |a|) <==> ClosesAt(a, i))
  {
    assert Pending(a, t0, s, i, i);
    if !Overwritten(a, i, i) {
      UntouchedShape(a, t0, s, i, |a|);
    }
  }

  /** Between the scan and the move: later arcs are ready for the next turn, and the
      temporaries have grown by at most one. */
  ghost predicate MidTurn(a: Arcs, t0: Table, s: State, i: nat)
    requires SourcesOpen(a, t0) && i < |a|
  {
    && |s.arcs| == |a|
    && TempsOk(a, t0, s)
    && s.table - TempSet(s.log) == Expected(a, t0, i)
    && s.arcs[i].dest == a[i].dest
    && s.arcs[i].IsIdentity() == a[i].IsIdentity()
    && s.arcs[i].source in s.table && s.table[s.arcs[i].source] == t0[a[i].source]
    && (!a[i].IsIdentity() ==> s.arcs[i].close == ClosesAt(a, i))
    && (!Overwritten(a, i, i) ==> s.arcs[i].source == a[i].source && a[i].source !in TempSet(s.log))
    && AllPending(a, t0, s, i + 1)
  }

  lemma {:induction false} TempsAfterScan(a: Arcs, t0: Table, s: State, m: State, i: nat, temp: int)
    requires i < |s.arcs| && TempsOk(a, t0, s) && TempTaken(s, m, i, |s.arcs|, temp)
    ensures TempsOk(a, t0, m)
    ensures m.table - TempSet(m.log) == s.table - TempSet(s.log)
    ensures TempSet(m.log) == TempSet(s.log) + (if TempNeeded(s.arcs, i, |s.arcs|) then {temp} else {})
  {
    if TempNeeded(s.arcs, i, |s.arcs|) {
      var x := Duplicated(temp, s.arcs[i].dest);
      TempsSnoc(s.log, x);
      ReplaySnoc(t0, s.log, x);
      assert temp !in TempSet(s.log);
    }
  }

  lemma {:induction false} PendingAfterScan(a: Arcs, t0: Table, s: State, m: State, i: nat, j: nat, temp: int)
    requires SourcesOpen(a, t0) && DistinctDests(a) && i < j < |a|
    requires Inv(a, t0, s, i) && TempsAvoidDests(a, s.log)
    requires ArcsScanned(s.arcs, m.arcs, i, |a|, temp) && TempTaken(s, m, i, |a|, temp)
    ensures Pending(a, t0, m, i + 1, j)
  {
    assert Pending(a, t0, s, i, j);
    TempsAfterScan(a, t0, s, m, i, temp);
    SameShape(a, t0, s, i, j);
    if NeedsTemp(s.arcs, i, j) {
      assert TempNeeded(s.arcs, i, |a|);
    } else if !Overwritten(a, i + 1, j) {
      CloseDutyStep(a, t0, s, i, j);
    } else {
      assert Pending(a, t0, s, i, i);
    }
  }

  lemma {:induction false} ScanReachesMidTurn(d: Delegate, a: Arcs, t0: Table, s: State, i: nat)
    requires SourcesOpen(a, t0) && DistinctDests(a) && Fresh(d, t0) && i < |a|
    requires Inv(a, t0, s, i) && TempsAvoidDests(a, s.log)
    ensures var r := Scan(d, s, i, i + 1, -1);
            r.ok ==> MidTurn(a, t0, r.state, i)
  {
    hide Scan, Expected, Carried, ClosesAt, Replay, Temps;
    assert Pending(a, t0, s, i, i);
    var r := Scan(d, s, i, i + 1, -1);
    var temp := ScanResult(d, t0, s, s, i, i + 1, -1);
    if r.ok {
      TempsAfterScan(a, t0, s, r.state, i, temp);
      SameShape(a, t0, s, i, i);
      CommitCloses(a, t0, s, i);
      var next := i + 1;
      forall j | next <= j < |a| ensures Pending(a, t0, r.state, next, j) {
        PendingAfterScan(a, t0, s, r.state, i, j, temp);
      }
    }
  }

  /** The state after arc i's move, before its close. */
  function AfterMove(m: State, i: nat): State
    requires i < |m.arcs| && m.arcs[i].source in m.table
  {
    m.(table := m.table[m.arcs[i].dest := m.table[m.arcs[i].source]],
       log := m.log + [Moved(m.arcs[i].source, m.arcs[i].dest)])
  }

  lemma {:induction false} MoveTable(a: Arcs, t0: Table, m: State, i: nat)
    requires SourcesOpen(a, t0) && i < |a| && MidTurn(a, t0, m, i) && TempsAvoidDests(a, m.log)
    ensures var v := AfterMove(m, i);
            && TempsOk(a, t0, v) && Temps(v.log) == Temps(m.log)
            && v.table - TempSet(v.log) == Expected(a, t0, i)[a[i].dest := t0[a[i].source]]
  {
    var x := Moved(m.arcs[i].source, m.arcs[i].dest);
    TempsSnoc(m.log, x);
    ReplaySnoc(t0, m.log, x);
    assert a[i].dest !in TempSet(m.log);
  }

  lemma {:induction false} CloseTable(a: Arcs, t0: Table, v: State, fd: int)
    requires TempsOk(a, t0, v) && fd !in TempSet(v.log)
    ensures var c := CloseFd(v, fd);
            && TempsOk(a, t0, c) && Temps(c.log) == Temps(v.log)
            && c.table - TempSet(c.log) == v.table - TempSet(v.log) - {fd}
  {
    TempsSnoc(v.log, Closed(fd));
    ReplaySnoc(t0, v.log, Closed(fd));
  }

  lemma {:induction false} PendingAfterCommit(d: Delegate, a: Arcs, t0: Table, m: State, i: nat, j: nat)
    requires SourcesOpen(a, t0) && i < j < |a| && !a[i].IsIdentity()
    requires MidTurn(a, t0, m, i) && TempsAvoidDests(a, m.log) && Commit(d, m, i).ok
    requires Temps(Commit(d, m, i).state.log) == Temps(m.log)
    ensures Pending(a, t0, Commit(d, m, i).state, i + 1, j)
  {
    assert Pending(a, t0, m, i + 1, j);
    assert m.arcs[j].source != a[i].dest;
    assert m.arcs[i].close ==> m.arcs[j].source != m.arcs[i].source;
  }

  /** The table after the move and the close. */
  lemma {:induction false} CommitTable(d: Delegate, a: Arcs, t0: Table, m: State, i: nat)
    requires SourcesOpen(a, t0) && i < |a| && !a[i].IsIdentity()
    requires MidTurn(a, t0, m, i) && TempsAvoidDests(a, m.log) && Commit(d, m, i).ok
    ensures var s := Commit(d, m, i).state;
            && TempsOk(a, t0, s) && Temps(s.log) == Temps(m.log)
            && s.table - TempSet(s.log) == Expected(a, t0, i + 1)
  {
    hide TempsOk, Temps, Overwritten, ClosesAt, AllPending;
    MoveTable(a, t0, m, i);
    if m.arcs[i].close {
      ClosedIsNoTemp(a, t0, m, i);
      CloseTable(a, t0, AfterMove(m, i), m.arcs[i].source);
    }
  }

  lemma {:induction false} ClosedIsNoTemp(a: Arcs, t0: Table, m: State, i: nat)
    requires SourcesOpen(a, t0) && i < |a| && !a[i].IsIdentity() && MidTurn(a, t0, m, i) && m.arcs[i].close
    ensures m.arcs[i].source == a[i].source && m.arcs[i].source !in TempSet(m.log)
  {
    hide TempsOk, Temps, AllPending, Expected;
  }

  /** The move and the close leave every pending arc its file. */
  lemma {:induction false} CommitKeepsInv(d: Delegate, a: Arcs, t0: Table, m: State, i: nat)
    requires SourcesOpen(a, t0) && DistinctDests(a) && i < |a|
    requires MidTurn(a, t0, m, i) && TempsAvoidDests(a, m.log)
    ensures var r := Commit(d, m, i);
            r.ok ==> Inv(a, t0, r.state, i + 1) && Temps(r.state.log) == Temps(m.log)
  {
    var r := Commit(d, m, i);
    if r.ok {
      if a[i].IsIdentity() {
        hide TempsOk, Temps, Overwritten, ClosesAt, AllPending;
        assert r.state == m;
      } else {
        CommitTable(d, a, t0, m, i);
        CommitKeepsPending(d, a, t0, m, i);
        hide MidTurn, TempsOk, Temps, AllPending, Expected, DistinctDests;
      }
    }
  }

  lemma {:induction false} CommitKeepsPending(d: Delegate, a: Arcs, t0: Table, m: State, i: nat)
    requires SourcesOpen(a, t0) && i < |a| && !a[i].IsIdentity()
    requires MidTurn(a, t0, m, i) && TempsAvoidDests(a, m.log) && Commit(d, m, i).ok
    requires Temps(Commit(d, m, i).state.log) == Temps(m.log)
    ensures AllPending(a, t0, Commit(d, m, i).state, i + 1) && |Commit(d, m, i).state.arcs| == |a|
  {
    hide TempsOk, Temps, Expected, Overwritten, Pending;
    var next := i + 1;
    forall j | next <= j < |a| ensures Pending(a, t0, Commit(d, m, i).state, next, j) {
      PendingAfterCommit(d, a, t0, m, i, j);
    }
  }

  lemma {:induction false} TempsPrefix(h: History, log: History)
    requires h <= log
    ensures Temps(h) <= Temps(log)
  {
    if h != log {
      var init := log[..|log|-1];
      assert log == init + [log[|log|-1]] && h <= init;
      TempsPrefix(h, init);
      TempsSnoc(init, log[|log|-1]);
    }
  }

  lemma {:induction false} AvoidsEarlier(a: Arcs, h: History, log: History)
    requires h <= log && TempsAvoidDests(a, log)
    ensures TempsAvoidDests(a, h)
  {
    TempsPrefix(h, log);
    assert forall t :: t in Temps(h) ==> t in Temps(log);
  }

  /** Every turn keeps the invariant: finished arcs have their files, pending arcs
      can still reach theirs. */
  lemma {:induction false} TurnKeepsInv(d: Delegate, a: Arcs, t0: Table, s: State, i: nat)
    requires SourcesOpen(a, t0) && DistinctDests(a) && Fresh(d, t0) && i < |a|
    requires Inv(a, t0, s, i) && TempsAvoidDests(a, Turn(d, s, i).state.log)
    ensures Turn(d, s, i).ok ==> Inv(a, t0, Turn(d, s, i).state, i + 1)
  {
    var scanned := Scan(d, s, i, i + 1, -1);
    AvoidsEarlier(a, s.log, Turn(d, s, i).state.log);
    ScanReachesMidTurn(d, a, t0, s, i);
    if scanned.ok {
      AvoidsEarlier(a, scanned.state.log, Turn(d, s, i).state.log);
      CommitKeepsInv(d, a, t0, scanned.state, i);
    }
  }

  lemma {:induction false} TurnsKeepInv(d: Delegate, a: Arcs, t0: Table, s: State, i: nat)
    requires SourcesOpen(a, t0) && DistinctDests(a) && Fresh(d, t0) && i <= |a|
    requires Inv(a, t0, s, i) && TempsAvoidDests(a, Turns(d, s, i).state.log)
    ensures Turns(d, s, i).ok ==> Inv(a, t0, Turns(d, s, i).state, |a|)
    decreases |a| - i
  {
    if i < |a| {
      var one := Turn(d, s, i);
      AvoidsEarlier(a, one.state.log, Turns(d, s, i).state.log);
      TurnKeepsInv(d, a, t0, s, i);
      if one.ok {
        TurnsKeepInv(d, a, t0, one.state, i + 1);
      }
    }
  }
}
