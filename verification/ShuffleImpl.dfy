/** The shuffle as the source writes it, over an array of arcs and a delegate. */
module ShuffleImpl {
  import opened Shuffle
  import opened ShuffleProof

  class InjectionDelegate {
    const replies: Delegate
    var table: Table
    var log: History

    constructor (replies: Delegate, table: Table)
      ensures this.replies == replies && this.table == table && log == []
    {
      this.replies, this.table, this.log := replies, table, [];
    }

    method Duplicate(fd: int) returns (ok: bool, result: int)
      modifies this
      ensures ok <==> fd in old(table) && replies.duplicate(old(log)).Some?
      ensures ok ==> && result == replies.duplicate(old(log)).value && table == old(table)[result := old(table)[fd]]
                     && log == old(log) + [Duplicated(result, fd)]
      ensures !ok ==> table == old(table) && log == old(log)
    {
      ok, result := false, -1;
      if fd in table {
        match replies.duplicate(log)
        case None =>
        case Some(t) =>
          ok, result := true, t;
          table, log := table[t := table[fd]], log + [Duplicated(t, fd)];
      }
    }

    method Move(src: int, dest: int) returns (ok: bool)
      modifies this
      ensures ok <==> src in old(table) && replies.move(old(log))
      ensures ok ==> table == old(table)[dest := old(table)[src]] && log == old(log) + [Moved(src, dest)]
      ensures !ok ==> table == old(table) && log == old(log)
    {
      ok := src in table && replies.move(log);
      if ok {
        table, log := table[dest := table[src]], log + [Moved(src, dest)];
      }
    }

    method Close(fd: int)
      modifies this
      ensures table == old(table) - {fd} && log == old(log) + [Closed(fd)]
    {
      table, log := table - {fd}, log + [Closed(fd)];
    }
  }

  /** What the array, the delegate and the temporaries amount to. */
  ghost function Snapshot(m: array<Arc>, delegate: InjectionDelegate, extra: seq<int>): State
    reads m, delegate
  {
    State(m[..], delegate.table, delegate.log, extra)
  }

  /** Cancels or hands over arc i's close. */
  method PassCloseInPlace(m: array<Arc>, i: nat, j: nat)
    requires i < j < m.Length
    modifies m
    ensures m[..] == PassClose(old(m[..]), i, j)
  {
    if m[i].close && m[i].source == m[j].dest {
      m[i] := m[i].(close := false);
    }
    if m[i].close && m[i].source == m[j].source {
      m[i] := m[i].(close := false);
      m[j] := m[j].(close := true);
    }
  }

  /** Makes sure there is a temporary for descriptor fd and remembers it if there is room. */
  method EnsureTemp(delegate: InjectionDelegate, extraFds: array<int>, nextExtra: nat, fd: int, tempFd: int,
                    ghost arcs: Arcs)
    returns (ok: bool, next: nat, temp: int)
    requires extraFds.Length == MAX_EXTRA_FDS && nextExtra <= MAX_EXTRA_FDS
    modifies delegate, extraFds
    ensures next <= MAX_EXTRA_FDS
    ensures var s := State(arcs, old(delegate.table), old(delegate.log), old(extraFds[..nextExtra]));
            (Outcome(ok, State(arcs, delegate.table, delegate.log, extraFds[..next])), temp) ==
            TakeTemp(delegate.replies, s, fd, tempFd)
  {
    ok, next, temp := true, nextExtra, tempFd;
    if tempFd == -1 {
      var got, t := delegate.Duplicate(fd);
      if !got {
        return false, nextExtra, tempFd;
      }
      temp := t;
      if next < MAX_EXTRA_FDS {
        extraFds[next] := temp;
        next := next + 1;
      }
      assert extraFds[..next] == Remember(old(extraFds[..nextExtra]), temp);
    }
  }

  /** The scan of one arc j after i. */
  method ScanArc(m: array<Arc>, delegate: InjectionDelegate, extraFds: array<int>, nextExtra: nat, i: nat, j: nat,
                 tempFd: int)
    returns (ok: bool, next: nat, temp: int)
    requires i < j < m.Length && extraFds.Length == MAX_EXTRA_FDS && nextExtra <= MAX_EXTRA_FDS
    modifies m, delegate, extraFds
    ensures next <= MAX_EXTRA_FDS && m[i].IsIdentity() == old(m[i].IsIdentity())
    ensures Scan(delegate.replies, old(Snapshot(m, delegate, extraFds[..nextExtra])), i, j, tempFd) ==
            var s := Snapshot(m, delegate, extraFds[..next]);
            if ok then Scan(delegate.replies, s, i, j + 1, temp) else Outcome(false, s)
  {
    ghost var s := Snapshot(m, delegate, extraFds[..nextExtra]);
    ok, next, temp := true, nextExtra, tempFd;
    if m[i].source != m[i].dest && m[i].dest == m[j].source {
      ok, next, temp := EnsureTemp(delegate, extraFds, next, m[i].dest, tempFd, m[..]);
      if !ok {
        return;
      }
      m[j] := Arc(temp, m[j].dest, false);
      assert m[..] == s.arcs[j := Arc(temp, s.arcs[j].dest, false)];
    }
    PassCloseInPlace(m, i, j);
  }

  /** The scan over the arcs after i. */
  method ScanArcs(m: array<Arc>, delegate: InjectionDelegate, extraFds: array<int>, nextExtra: nat, i: nat)
    returns (ok: bool, next: nat)
    requires i < m.Length && extraFds.Length == MAX_EXTRA_FDS && nextExtra <= MAX_EXTRA_FDS
    modifies m, delegate, extraFds
    ensures next <= MAX_EXTRA_FDS && m[i].IsIdentity() == old(m[i].IsIdentity())
    ensures Outcome(ok, Snapshot(m, delegate, extraFds[..next])) ==
            Scan(delegate.replies, old(Snapshot(m, delegate, extraFds[..nextExtra])), i, i + 1, -1)
  {
    var tempFd := -1;
    next := nextExtra;
    var j := i + 1;
    while j < m.Length
      invariant i < j <= m.Length && next <= MAX_EXTRA_FDS
      invariant m[i].IsIdentity() == old(m[i].IsIdentity())
      invariant Scan(delegate.replies, Snapshot(m, delegate, extraFds[..next]), i, j, tempFd) ==
                Scan(delegate.replies, old(Snapshot(m, delegate, extraFds[..nextExtra])), i, i + 1, -1)
    {
      ok, next, tempFd := ScanArc(m, delegate, extraFds, next, i, j, tempFd);
      if !ok {
        return;
      }
      j := j + 1;
    }
    ok := true;
  }

  /** Arc i's turn: the scan, the move and the close. */
  method TakeTurn(m: array<Arc>, delegate: InjectionDelegate, extraFds: array<int>, nextExtra: nat, i: nat)
    returns (ok: bool, next: nat)
    requires i < m.Length && extraFds.Length == MAX_EXTRA_FDS && nextExtra <= MAX_EXTRA_FDS
    modifies m, delegate, extraFds
    ensures next <= MAX_EXTRA_FDS
    ensures Outcome(ok, Snapshot(m, delegate, extraFds[..next])) ==
            Turn(delegate.replies, old(Snapshot(m, delegate, extraFds[..nextExtra])), i)
  {
    hide Scan;
    var isIdentity := m[i].source == m[i].dest;
    ok, next := ScanArcs(m, delegate, extraFds, nextExtra, i);
    if !ok { return; }
    if !isIdentity {
      ok := delegate.Move(m[i].source, m[i].dest);
      if ok && m[i].close {
        delegate.Close(m[i].source);
      }
    }
  }

  /** The last loop: closes the temporaries that were remembered. */
  method CloseTemps(delegate: InjectionDelegate, extraFds: array<int>, nextExtra: nat, ghost arcs: Arcs)
    requires nextExtra <= extraFds.Length
    modifies delegate
    ensures State(arcs, delegate.table, delegate.log, extraFds[..nextExtra]) ==
            CloseExtras(State(arcs, old(delegate.table), old(delegate.log), extraFds[..nextExtra]), 0)
  {
    ghost var extra := extraFds[..nextExtra];
    ghost var begin := State(arcs, delegate.table, delegate.log, extra);
    var k := 0;
    while k < nextExtra
      invariant k <= nextExtra && extraFds[..nextExtra] == extra
      invariant CloseExtras(State(arcs, delegate.table, delegate.log, extra), k) == CloseExtras(begin, 0)
    {
      delegate.Close(extraFds[k]);
      k := k + 1;
    }
  }

  method PerformInjectiveMultimapDestructive(m: array<Arc>, delegate: InjectionDelegate) returns (ok: bool)
    requires DistinctDests(m[..]) && delegate.log == []
    modifies m, delegate
    ensures var r := Perform(delegate.replies, old(m[..]), old(delegate.table));
            && ok == r.ok && delegate.table == r.state.table && delegate.log == r.state.log
            && m[..] == r.state.arcs
  {
    hide Turn, CloseExtras;
    var extraFds := new int[MAX_EXTRA_FDS];
    var nextExtra := 0;
    ghost var begin := Start(old(m[..]), old(delegate.table));
    assert Snapshot(m, delegate, extraFds[..nextExtra]) == begin;
    var i := 0;
    while i < m.Length
      invariant i <= m.Length && 0 <= nextExtra <= MAX_EXTRA_FDS
      invariant Turns(delegate.replies, Snapshot(m, delegate, extraFds[..nextExtra]), i) ==
                Turns(delegate.replies, begin, 0)
    {
      ok, nextExtra := TakeTurn(m, delegate, extraFds, nextExtra, i);
      if !ok {
        return;
      }
      i := i + 1;
    }
    CloseExtrasKeepsArcs(Snapshot(m, delegate, extraFds[..nextExtra]), 0);
    CloseTemps(delegate, extraFds, nextExtra, m[..]);
    ok := true;
  }

  lemma {:induction false} CloseExtrasKeepsArcs(s: State, k: nat)
    requires k <= |s.extra|
    ensures CloseExtras(s, k).arcs == s.arcs
    decreases |s.extra| - k
  {
    if k < |s.extra| { CloseExtrasKeepsArcs(CloseFd(s, s.extra[k]), k + 1); }
  }

  /** Works on a copy: the caller's arcs stay as they are. */
  method PerformInjectiveMultimap(arcs: Arcs, delegate: InjectionDelegate) returns (ok: bool)
    requires DistinctDests(arcs) && delegate.log == []
    modifies delegate
    ensures var r := Perform(delegate.replies, arcs, old(delegate.table));
            && ok == r.ok && delegate.table == r.state.table && delegate.log == r.state.log
  {
    var m := new Arc[|arcs|](k requires 0 <= k < |arcs| => arcs[k]);
    assert m[..] == arcs;
    ok := PerformInjectiveMultimapDestructive(m, delegate);
  }
}
