/** Reference counts as a protocol among threads: base/atomic_ref_count.h. */
module RefCount {
  import opened Atomics
  import opened AtomicTheorems

  /** held counts for every thread the references it holds. */
  datatype Counted = Counted(m: State, held: multiset<Tid>)

  /** An atomic step, or handing n references to another thread. */
  datatype Move = Step(action: Action) | Give(giver: Tid, taker: Tid, n: nat)

  /** Enough references to add or drop d: one at least, or as many as are dropped. */
  predicate Covers(held: multiset<Tid>, t: Tid, d: int) {
    if d > 0 then held[t] >= 1 else held[t] + d >= 0
  }

  /** The discipline: a thread adds references only while it holds one and drops only
      references that it holds; it gives references away only outside of any call. */
  predicate Allowed(c: Counted, move: Move) {
    match move
    case Step(Invoke(t, Increment(d))) =>
      Enabled(c.m, move.action) && d != 0 && Covers(c.held, t, d)
    case Step(Invoke(t, Load)) => Enabled(c.m, move.action)
    case Step(Invoke(t, _)) => false
    case Step(a) => Enabled(c.m, a)
    case Give(t, u, n) => ThreadOf(c.m, t).Idle? && n <= c.held[t]
  }

  function Add(held: multiset<Tid>, t: Tid, d: int): multiset<Tid>
    requires held[t] + d >= 0
  {
    held[t := held[t] + d]
  }

  /** The change of the holdings at the step at which a call takes effect. */
  function Delta(m: State, a: Action): int {
    if Commits(m, a) && ThreadOf(m, a.tid).call.Increment? then ThreadOf(m, a.tid).call.amount as int else 0
  }

  ghost function Next(c: Counted, move: Move): Counted
    requires AllBacked(c) && Allowed(c, move)
  {
    match move
    case Step(a) => Counted(Apply(c.m, a), Add(c.held, a.tid, Delta(c.m, a)))
    case Give(t, u, n) => Counted(c.m, Add(Add(c.held, t, 0 - n), u, n))
  }

  /** What a thread in the middle of a call still has to hold. */
  predicate Backed(held: multiset<Tid>, t: Tid, th: Thread) {
    (th.Reading? || th.Trying?) ==>
      match th.call
      case Increment(d) => d != 0 && Covers(held, t, d)
      case Load => true
      case _ => false
  }

  predicate AllBacked(c: Counted) {
    forall t :: t in c.m.threads ==> Backed(c.held, t, c.m.threads[t])
  }

  /** The word counts the references, modulo the word size. */
  ghost predicate Counts(start: Word, c: Counted) {
    && Inv(start, c.m) && AllBacked(c) && OnlyIncrements(c.m.log)
    && c.m.word == Wrap(|c.held|)
  }

  lemma {:induction false} CommitKeepsBacked(c: Counted, a: Action)
    requires AllBacked(c) && Enabled(c.m, a) && Commits(c.m, a)
    ensures c.held[a.tid] + Delta(c.m, a) >= 0
    ensures AllBacked(Counted(Apply(c.m, a), Add(c.held, a.tid, Delta(c.m, a))))
  {
    assert Backed(c.held, a.tid, ThreadOf(c.m, a.tid));
  }

  lemma {:induction false} CommitCounts(start: Word, c: Counted, a: Action)
    requires Counts(start, c) && Enabled(c.m, a) && Commits(c.m, a)
    ensures OnlyIncrements(Apply(c.m, a).log)
    ensures Apply(c.m, a).word == Wrap(|c.held| + Delta(c.m, a))
  {
    hide Legal, WordAfter, CompletedOk;
    var th := ThreadOf(c.m, a.tid);
    assert Backed(c.held, a.tid, th) && ThreadOk(c.m.log, a.tid, th);
    WrapAdds(|c.held|, Delta(c.m, a));
  }

  /** Every step keeps the word equal to the number of references held. */
  lemma {:induction false} StepKeepsCounts(start: Word, c: Counted, a: Action)
    requires Counts(start, c) && Allowed(c, Step(a))
    ensures Counts(start, Next(c, Step(a)))
    ensures |Next(c, Step(a)).held| == |c.held| + Delta(c.m, a)
  {
    hide Inv, Spec, Wrap;
    StepKeepsInv(start, c.m, a);
    if Commits(c.m, a) {
      CommitKeepsBacked(c, a);
      CommitCounts(start, c, a);
    }
  }

  lemma {:induction false} GiveKeepsCounts(start: Word, c: Counted, t: Tid, u: Tid, n: nat)
    requires Counts(start, c) && Allowed(c, Give(t, u, n))
    ensures Counts(start, Next(c, Give(t, u, n)))
    ensures |Next(c, Give(t, u, n)).held| == |c.held|
  {
    hide Inv, Wrap;
  }

  // ------------------------------------------------------- whole runs

  /** The effect of a decrement whose call returned false: the count reached zero. */
  predicate IsRelease(e: Effect) {
    e.call.Increment? && e.call.amount < 0 && e.result == 0
  }

  function Releases(log: seq<Effect>): nat {
    if log == [] then 0 else Releases(log[..|log|-1]) + if IsRelease(log[|log|-1]) then 1 else 0
  }

  lemma {:induction false} ReleasesSnoc(log: seq<Effect>, e: Effect)
    ensures Releases(log + [e]) == Releases(log) + if IsRelease(e) then 1 else 0
  {
    assert (log + [e])[..|log|] == log;
  }

  /** The number of decrements that returned false matches the references: one when none
      is held any more, and none before. */
  ghost predicate Released(c: Counted) {
    Releases(c.m.log) == if |c.held| == 0 then 1 else 0
  }

  lemma {:induction false} ZeroWord(n: nat)
    requires n < TWO32
    ensures Wrap(n) == 0 <==> n == 0
  {}

  lemma {:induction false} HolderCounts(held: multiset<Tid>, t: Tid)
    ensures held[t] <= |held|
  {
    assert multiset{} + held == held;
    assert held[t := 0] + multiset{}[t := held[t]] == held;
  }

  lemma {:induction false} CommitReleases(start: Word, c: Counted, a: Action)
    requires Counts(start, c) && Released(c) && Allowed(c, Step(a)) && Commits(c.m, a)
    requires |Next(c, Step(a)).held| < TWO32
    ensures Released(Next(c, Step(a)))
  {
    hide Inv, Wrap;
    StepKeepsCounts(start, c, a);
    var th := ThreadOf(c.m, a.tid);
    assert Backed(c.held, a.tid, th);
    var n := Next(c, Step(a));
    var e := n.m.log[|c.m.log|];
    assert n.m.log == c.m.log + [e] && e.call == th.call;
    ReleasesSnoc(c.m.log, e);
    HolderCounts(c.held, a.tid);
    if th.call.Increment? {
      assert e.result == n.m.word by { CommitResult(c, a, start); }
      ZeroWord(|n.held|);
    }
  }

  lemma {:induction false} CommitResult(c: Counted, a: Action, start: Word)
    requires Counts(start, c) && Enabled(c.m, a) && Commits(c.m, a) && ThreadOf(c.m, a.tid).call.Increment?
    ensures |Apply(c.m, a).log| == |c.m.log| + 1
    ensures Apply(c.m, a).log[|c.m.log|].result == Apply(c.m, a).word
  {
    assert ThreadOk(c.m.log, a.tid, ThreadOf(c.m, a.tid));
  }

  ghost predicate AllowedRun(c: Counted, moves: seq<Move>)
    requires AllBacked(c)
    decreases |moves|
  {
    moves == [] ||
    (&& Allowed(c, moves[0]) && (BackedStays(c, moves[0]); |Next(c, moves[0]).held| < TWO32)
     && AllowedRun(Next(c, moves[0]), moves[1..]))
  }

  ghost function RunOf(c: Counted, moves: seq<Move>): Counted
    requires AllBacked(c) && AllowedRun(c, moves)
    decreases |moves|
  {
    if moves == [] then c else (BackedStays(c, moves[0]); RunOf(Next(c, moves[0]), moves[1..]))
  }

  lemma {:induction false} BackedStays(c: Counted, move: Move)
    requires AllBacked(c) && Allowed(c, move)
    ensures AllBacked(Next(c, move))
  {
    if move.Step? && Commits(c.m, move.action) { CommitKeepsBacked(c, move.action); }
  }

  lemma {:induction false} MoveKeepsReleased(start: Word, c: Counted, move: Move)
    requires Counts(start, c) && Released(c) && Allowed(c, move) && |Next(c, move).held| < TWO32
    ensures Counts(start, Next(c, move)) && Released(Next(c, move))
  {
    match move
    case Give(t, u, n) => GiveKeepsCounts(start, c, t, u, n);
    case Step(a) =>
      StepKeepsCounts(start, c, a);
      if Commits(c.m, a) { CommitReleases(start, c, a); }
  }

  lemma {:induction false} RunKeepsReleased(start: Word, c: Counted, moves: seq<Move>)
    requires Counts(start, c) && AllBacked(c) && Released(c) && AllowedRun(c, moves)
    ensures Counts(start, RunOf(c, moves)) && Released(RunOf(c, moves))
    decreases |moves|
  {
    hide Counts, Released, Allowed;
    if moves != [] {
      BackedStays(c, moves[0]);
      MoveKeepsReleased(start, c, moves[0]);
      RunKeepsReleased(start, Next(c, moves[0]), moves[1..]);
    }
  }

  function Begin(held: multiset<Tid>): Counted { Counted(Initial(Wrap(|held|)), held) }

  lemma {:induction false} RefCountStarts(held: multiset<Tid>)
    requires 0 < |held| < TWO32
    ensures Counts(Wrap(|held|), Begin(held)) && AllBacked(Begin(held)) && Released(Begin(held))
  {}

  /** Over every disciplined run from at least one reference, with fewer than 2^32
      references at any time: the word counts the references held, and exactly one
      decrement returns false if all are gone, none otherwise. */
  lemma {:induction false} RefCountOverRuns(held: multiset<Tid>, moves: seq<Move>)
    requires 0 < |held| < TWO32 && AllowedRun(Begin(held), moves)
    ensures var c := RunOf(Begin(held), moves);
            && c.m.word == Wrap(|c.held|)
            && Releases(c.m.log) == (if |c.held| == 0 then 1 else 0)
  {
    RefCountStarts(held);
    RunKeepsReleased(Wrap(|held|), Begin(held), moves);
  }

  lemma {:induction false} NoneHeldStays(start: Word, c: Counted, move: Move)
    requires Counts(start, c) && |c.held| == 0 && Allowed(c, move)
    ensures Next(c, move).held == c.held
    ensures Next(c, move).m.word == c.m.word
  {
    if move.Step? {
      var th := ThreadOf(c.m, move.action.tid);
      assert Backed(c.held, move.action.tid, th) && ThreadOk(c.m.log, move.action.tid, th);
    }
  }

  /** Once no reference is held the count is never touched again, whatever the threads go
      on to do: the release that returned false was the last one. */
  lemma {:induction false} NothingAfterRelease(start: Word, c: Counted, moves: seq<Move>)
    requires Counts(start, c) && AllBacked(c) && |c.held| == 0 && AllowedRun(c, moves)
    ensures RunOf(c, moves).held == c.held && RunOf(c, moves).m.word == c.m.word
    ensures Releases(RunOf(c, moves).m.log) == Releases(c.m.log)
    decreases |moves|
  {
    hide Counts, Allowed, AllBacked;
    if moves != [] {
      var next := Next(c, moves[0]);
      BackedStays(c, moves[0]);
      NoneHeldStays(start, c, moves[0]);
      NoReleaseWithout(start, c, moves[0]);
      MoveKeepsCounts(start, c, moves[0]);
      NothingAfterRelease(start, next, moves[1..]);
    }
  }

  lemma {:induction false} MoveKeepsCounts(start: Word, c: Counted, move: Move)
    requires Counts(start, c) && Allowed(c, move)
    ensures Counts(start, Next(c, move))
  {
    match move
    case Give(t, u, n) => GiveKeepsCounts(start, c, t, u, n);
    case Step(a) => StepKeepsCounts(start, c, a);
  }

  lemma {:induction false} NoReleaseWithout(start: Word, c: Counted, move: Move)
    requires Counts(start, c) && |c.held| == 0 && Allowed(c, move)
    ensures Releases(Next(c, move).m.log) == Releases(c.m.log)
  {
    hide Inv, Wrap;
    if move.Step? && Commits(c.m, move.action) {
      var a := move.action;
      var th := ThreadOf(c.m, a.tid);
      assert Backed(c.held, a.tid, th);
      var n := Next(c, move);
      assert n.m.log == c.m.log + [n.m.log[|c.m.log|]] && n.m.log[|c.m.log|].call == th.call;
      ReleasesSnoc(c.m.log, n.m.log[|c.m.log|]);
    }
  }

  /** AtomicRefCountIsOne answering true to a holder means that it is the only holder. */
  lemma {:induction false} IsOneMeansSole(start: Word, c: Counted, t: Tid)
    requires Counts(start, c) && |c.held| < TWO32 && c.held[t] >= 1
    ensures c.m.word == 1 <==> c.held == multiset{t}
  {
    OneWord(|c.held|);
    if |c.held| == 1 {
      assert |c.held - multiset{t}| == 0;
      assert c.held == (c.held - multiset{t}) + multiset{t};
    }
  }

  lemma {:induction false} OneWord(n: nat)
    requires n < TWO32
    ensures Wrap(n) == 1 <==> n == 1
  {}

  /** A sole holder stays the sole holder until it acts itself. */
  lemma {:induction false} SoleHolderStays(c: Counted, t: Tid, move: Move)
    requires AllBacked(c) && c.held == multiset{t} && Allowed(c, move)
    requires match move case Step(a) => a.tid != t case Give(giver, _, _) => giver != t
    ensures Next(c, move).held == multiset{t}
  {
    if move.Step? {
      assert Backed(c.held, move.action.tid, ThreadOf(c.m, move.action.tid));
    }
  }

  /** No move of the run is thread t's own. */
  predicate NoneBy(moves: seq<Move>, t: Tid) {
    forall move | move in moves :: match move case Step(a) => a.tid != t case Give(giver, _, _) => giver != t
  }

  lemma {:induction false} SoleOverRuns(c: Counted, t: Tid, moves: seq<Move>)
    requires AllBacked(c) && c.held == multiset{t} && AllowedRun(c, moves) && NoneBy(moves, t)
    ensures RunOf(c, moves).held == multiset{t}
    decreases |moves|
  {
    hide Allowed, AllBacked;
    if moves != [] {
      assert moves[0] in moves && forall move :: move in moves[1..] ==> move in moves;
      SoleHolderStays(c, t, moves[0]);
      BackedStays(c, moves[0]);
      SoleOverRuns(Next(c, moves[0]), t, moves[1..]);
    }
  }

  /** AtomicRefCountIsOne called by a holder: it sees one exactly if the caller is the only
      holder at that moment, and then the caller stays that whatever the others do, until
      it acts itself. */
  lemma {:induction false} IsOneOverRuns(start: Word, c: Counted, t: Tid, moves: seq<Move>)
    requires Counts(start, c) && |c.held| < TWO32 && c.held[t] >= 1
    requires ThreadOf(c.m, t).Reading? && ThreadOf(c.m, t).call == Load && NoneBy(moves, t)
    requires var load := Step(Advance(t, false));
             (BackedStays(c, load); AllowedRun(Next(c, load), moves))
    ensures var n := Next(c, Step(Advance(t, false)));
            var th := ThreadOf(n.m, t);
            && th.Returning? && (th.result == 1 <==> c.held == multiset{t})
            && (th.result == 1 ==> AllBacked(n) && RunOf(n, moves).held == multiset{t})
  {
    var load := Step(Advance(t, false));
    IsOneMeansSole(start, c, t);
    BackedStays(c, load);
    assert Next(c, load).held == c.held;
    if c.m.word == 1 { SoleOverRuns(Next(c, load), t, moves); }
  }
}
