/** Rearranging file descriptors in place: base/file_descriptor_shuffle.cc. */
module Shuffle {
  import opened Basics

  /** The identity of an open file; two descriptors may share one. */
  type File = nat

  type Table = map<int, File>

  datatype Arc = Arc(source: int, dest: int, close: bool) {
    predicate IsIdentity() { source == dest }
  }

  type Arcs = seq<Arc>

  /** What a delegate was asked to do, as far as it did it. */
  datatype Action = Duplicated(result: int, fd: int) | Moved(src: int, dst: int) | Closed(fd: int)

  type History = seq<Action>

  /** A delegate answers each request by looking at what it did before: which
      descriptor a duplicate gets (or that it fails), and whether a move works. */
  datatype Delegate = Delegate(duplicate: History -> Option<nat>, move: History -> bool)

  const MAX_EXTRA_FDS := 16

  /** The variables of the loop: the arcs it rewrites, the descriptor table, what
      the delegate did so far and the temporaries to close at the end. */
  datatype State = State(arcs: Arcs, table: Table, log: History, extra: seq<int>)

  datatype Outcome = Outcome(ok: bool, state: State)

  // ---------------------------------------------------------------- the loop

  function RewriteSource(s: State, j: nat, temp: int): State
    requires j < |s.arcs|
  {
    s.(arcs := s.arcs[j := Arc(temp, s.arcs[j].dest, false)])
  }

  /** Cancels or hands over arc i's duty to close its source. */
  function PassClose(arcs: Arcs, i: nat, j: nat): (r: Arcs)
    requires i < j < |arcs|
    ensures |r| == |arcs|
  {
    var keep := if arcs[i].close && arcs[i].source == arcs[j].dest
                then arcs[i := arcs[i].(close := false)] else arcs;
    if keep[i].close && keep[i].source == keep[j].source
    then keep[i := keep[i].(close := false)][j := keep[j].(close := true)]
    else keep
  }

  function Remember(extra: seq<int>, temp: int): seq<int> {
    if |extra| < MAX_EXTRA_FDS then extra + [temp] else extra
  }

  /** The temporary for arc i's destination: the one it has, or a new duplicate. */
  function TakeTemp(d: Delegate, s: State, fd: int, temp: int): (r: (Outcome, int))
    ensures r.0.state.arcs == s.arcs
  {
    if temp != -1 then (Outcome(true, s), temp)
    else if fd !in s.table then (Outcome(false, s), temp)
    else match d.duplicate(s.log)
         case None => (Outcome(false, s), temp)
         case Some(t) =>
           (Outcome(true, s.(table := s.table[t := s.table[fd]], log := s.log + [Duplicated(t, fd)],
                             extra := Remember(s.extra, t))), t)
  }

  function Scan(d: Delegate, s: State, i: nat, j: nat, temp: int): (r: Outcome)
    requires i < j <= |s.arcs|
    ensures |r.state.arcs| == |s.arcs| && s.log <= r.state.log
    ensures r.state.log == s.log ==> r.state.extra == s.extra
    ensures r.state.log != s.log ==>
              && temp == -1 && j < |s.arcs| && d.duplicate(s.log).Some?
              && r.state.log == s.log + [Duplicated(d.duplicate(s.log).value, s.arcs[i].dest)]
              && r.state.extra == Remember(s.extra, d.duplicate(s.log).value)
    decreases |s.arcs| - j
  {
    if j == |s.arcs| then Outcome(true, s)
    else if !s.arcs[i].IsIdentity() && s.arcs[i].dest == s.arcs[j].source then
      var (got, t) := TakeTemp(d, s, s.arcs[i].dest, temp);
      if !got.ok then got
      else
        var s1 := RewriteSource(got.state, j, t);
        Scan(d, s1.(arcs := PassClose(s1.arcs, i, j)), i, j + 1, t)
    else
      Scan(d, s.(arcs := PassClose(s.arcs, i, j)), i, j + 1, temp)
  }

  /** The move and the close at the end of arc i's turn. */
  function Commit(d: Delegate, s: State, i: nat): (r: Outcome)
    requires i < |s.arcs|
    ensures r.state.arcs == s.arcs && s.log <= r.state.log
  {
    var a := s.arcs[i];
    if a.IsIdentity() then Outcome(true, s)
    else if a.source !in s.table || !d.move(s.log) then Outcome(false, s)
    else
      var s1 := s.(table := s.table[a.dest := s.table[a.source]], log := s.log + [Moved(a.source, a.dest)]);
      Outcome(true, if a.close then CloseFd(s1, a.source) else s1)
  }

  function CloseFd(s: State, fd: int): State {
    s.(table := s.table - {fd}, log := s.log + [Closed(fd)])
  }

  function Turn(d: Delegate, s: State, i: nat): (r: Outcome)
    requires i < |s.arcs|
    ensures |r.state.arcs| == |s.arcs| && s.log <= r.state.log
  {
    var scanned := Scan(d, s, i, i + 1, -1);
    if scanned.ok then Commit(d, scanned.state, i) else scanned
  }

  function Turns(d: Delegate, s: State, i: nat): (r: Outcome)
    requires i <= |s.arcs|
    ensures |r.state.arcs| == |s.arcs| && s.log <= r.state.log
    decreases |s.arcs| - i
  {
    if i == |s.arcs| then Outcome(true, s)
    else
      var one := Turn(d, s, i);
      if one.ok then Turns(d, one.state, i + 1) else one
  }

  /** The state after n turns, or after the turn that failed. */
  function FirstTurns(d: Delegate, s: State, n: nat): (r: Outcome)
    requires n <= |s.arcs|
    ensures |r.state.arcs| == |s.arcs|
  {
    if n == 0 then Outcome(true, s)
    else
      var before := FirstTurns(d, s, n - 1);
      if before.ok then Turn(d, before.state, n - 1) else before
  }

  function CloseExtras(s: State, k: nat): State
    requires k <= |s.extra|
    decreases |s.extra| - k
  {
    if k == |s.extra| then s else CloseExtras(CloseFd(s, s.extra[k]), k + 1)
  }

  function Start(arcs: Arcs, table: Table): State { State(arcs, table, [], []) }

  /** PerformInjectiveMultimapDestructive, as a function of the delegate's answers. */
  function Perform(d: Delegate, arcs: Arcs, table: Table): Outcome {
    var r := Turns(d, Start(arcs, table), 0);
    if r.ok then Outcome(true, CloseExtras(r.state, 0)) else r
  }
}
