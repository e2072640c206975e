/** LazyInstance: many threads race through Pointer(), NeedsInstance() and
    CompleteInstance() on one state word: base/lazy_instance.cc, base/lazy_instance.h. */
module LazyInstance {
  import opened Atomics
  import opened Basics

  const EMPTY: Word := 0
  const CREATING: Word := 1
  const CREATED: Word := 2

  /** Where a thread is in Pointer(): at the first load, in the compare-and-swap, creating
      the instance, storing CREATED, about to register the destructor, in the spin loop, or
      back, having been told by NeedsInstance whether to create. */
  datatype Phase =
    | Out | Checking | Racing | Creating | Publishing | Registering | Spinning | Finished(needed: bool)

  /** instances and registered count the constructions and the registered destructors;
      winner is the thread whose compare-and-swap took the word from EMPTY. */
  datatype Lazy = Lazy(m: State, phases: map<Tid, Phase>, instances: nat, registered: nat, winner: Option<Tid>,
                       hasDtor: bool)

  datatype Move =
    | Enter(t: Tid) | Atomic(t: Tid, helperSwaps: bool) | Resume(t: Tid) | Construct(t: Tid) | Register(t: Tid)

  function PhaseOf(s: Lazy, t: Tid): Phase { if t in s.phases then s.phases[t] else Out }

  const RACE := CompareAndSwap(EMPTY, CREATING)

  predicate Enabled(s: Lazy, move: Move) {
    var phase, th := PhaseOf(s, move.t), ThreadOf(s.m, move.t);
    match move
    case Enter(t) => (phase.Out? || phase.Finished?) && th.Idle?
    case Atomic(t, swaps) => Atomics.Enabled(s.m, Advance(t, swaps))
    case Resume(t) => th.Returning?
    case Construct(t) => phase.Creating? && th.Idle?
    case Register(t) => phase.Registering?
  }

  function Call(s: Lazy, t: Tid, phase: Phase, call: Atomics.Call): Lazy
    requires ThreadOf(s.m, t).Idle?
  {
    s.(m := Apply(s.m, Invoke(t, call)), phases := s.phases[t := phase])
  }

  function Take(s: Lazy, move: Move): Lazy
    requires Enabled(s, move)
  {
    var t := move.t;
    match move
    case Enter(_) => Call(s, t, Checking, Load)
    case Atomic(_, swaps) =>
      var a := Advance(t, swaps);
      var wins := Commits(s.m, a) && ThreadOf(s.m, t).call == RACE && s.m.word == EMPTY;
      s.(m := Apply(s.m, a), winner := if wins then Some(t) else s.winner)
    case Resume(_) =>
      var result := ThreadOf(s.m, t).result;
      var back := s.(m := Apply(s.m, Return(t)));
      (match PhaseOf(s, t)
       case Checking =>
         if result == CREATED then back.(phases := s.phases[t := Finished(false)]) else Call(back, t, Racing, RACE)
       case Racing =>
         if result == EMPTY then back.(phases := s.phases[t := Creating]) else Call(back, t, Spinning, Load)
       case Spinning =>
         if result == CREATED then back.(phases := s.phases[t := Finished(false)]) else Call(back, t, Spinning, Load)
       case Publishing => back.(phases := s.phases[t := Registering])
       case _ => back)
    case Construct(_) => Call(s.(instances := s.instances + 1), t, Publishing, Store(CREATED))
    case Register(_) =>
      s.(registered := s.registered + (if s.hasDtor then 1 else 0), phases := s.phases[t := Finished(true)])
  }

  function Start(hasDtor: bool): Lazy { Lazy(Initial(EMPTY), map[], 0, 0, None, hasDtor) }

  // ------------------------------------------------------------ invariant

  /** The call that belongs to a phase. */
  predicate CallMatches(phase: Phase, th: Thread) {
    match phase
    case Checking => !th.Idle? && th.call == Load && !th.Trying?
    case Spinning => !th.Idle? && th.call == Load && !th.Trying?
    case Racing => !th.Idle? && th.call == RACE && (th.Trying? ==> th.expected == EMPTY && th.wanted == CREATING)
    case Publishing => !th.Idle? && th.call == Store(CREATED) && !th.Trying?
    case _ => th.Idle?
  }

  /** Thread t has won the race and has not yet stored CREATED. */
  predicate IsCreator(s: Lazy, t: Tid) {
    var phase, th := PhaseOf(s, t), ThreadOf(s.m, t);
    || (phase.Racing? && th.Returning? && th.result == EMPTY)
    || phase.Creating?
    || (phase.Publishing? && th.Reading?)
  }

  /** Thread t has stored CREATED and has not yet registered the destructor. */
  predicate IsRegistering(s: Lazy, t: Tid) {
    var phase, th := PhaseOf(s, t), ThreadOf(s.m, t);
    (phase.Publishing? && th.Returning?) || phase.Registering?
  }

  /** Thread t knows that the instance is there. */
  predicate KnowsCreated(s: Lazy, t: Tid) {
    var phase, th := PhaseOf(s, t), ThreadOf(s.m, t);
    phase.Finished? || ((phase.Checking? || phase.Spinning?) && th.Returning? && th.result == CREATED)
  }

  predicate ThreadOk(s: Lazy, t: Tid) {
    && CallMatches(PhaseOf(s, t), ThreadOf(s.m, t))
    && (IsCreator(s, t) ==> s.winner == Some(t) && s.m.word == CREATING)
    && (IsRegistering(s, t) ==> s.winner == Some(t))
    && (IsRegistering(s, t) || KnowsCreated(s, t) ==> s.m.word == CREATED)
  }

  /** The winner's progress, read off the word and the counters. */
  predicate WinnerOk(s: Lazy) {
    match s.winner
    case None => s.m.word == EMPTY && s.instances == 0 && s.registered == 0
    case Some(w) =>
      if s.m.word == CREATING then
        && IsCreator(s, w) && s.registered == 0
        && s.instances == (if PhaseOf(s, w).Publishing? then 1 else 0)
      else
        && s.m.word == CREATED && s.instances == 1
        && s.registered == (if IsRegistering(s, w) || !s.hasDtor then 0 else 1)
  }

  ghost predicate Inv(s: Lazy) {
    WinnerOk(s) && forall t :: ThreadOk(s, t)
  }

  lemma {:induction false} OtherThread(s: Lazy, move: Move, u: Tid)
    requires Enabled(s, move) && u != move.t
    ensures PhaseOf(Take(s, move), u) == PhaseOf(s, u)
    ensures ThreadOf(Take(s, move).m, u) == ThreadOf(s.m, u)
  {}

  /** A step of thread t: t stays consistent, the winner's progress stays consistent, the
      winner stays the winner, and the word never goes back. */
  predicate StepOk(s: Lazy, s': Lazy, t: Tid) {
    && ThreadOk(s', t) && WinnerOk(s')
    && (s.winner.Some? ==> s'.winner == s.winner)
    && s.m.word <= s'.m.word
    && (s'.m.word == s.m.word || s.winner == None || s.winner == Some(t))
  }

  lemma {:induction false} EnterOk(s: Lazy, t: Tid)
    requires Inv(s) && Enabled(s, Enter(t))
    ensures StepOk(s, Take(s, Enter(t)), t)
  {
    assert ThreadOk(s, t);
  }

  lemma {:induction false} AtomicOk(s: Lazy, t: Tid, swaps: bool)
    requires Inv(s) && Enabled(s, Atomic(t, swaps))
    ensures StepOk(s, Take(s, Atomic(t, swaps)), t)
  {
    assert ThreadOk(s, t);
    var s' := Take(s, Atomic(t, swaps));
    if w :| s.winner == Some(w) && w != t {
      assert ThreadOk(s, w);
      OtherThread(s, Atomic(t, swaps), w);
    }
  }

  /** A thread whose load has come back. */
  lemma {:induction false} ResumeLoadOk(s: Lazy, t: Tid)
    requires Inv(s) && Enabled(s, Resume(t)) && (PhaseOf(s, t).Checking? || PhaseOf(s, t).Spinning?)
    ensures StepOk(s, Take(s, Resume(t)), t)
  {
    assert ThreadOk(s, t);
    ResumeKeepsWinner(s, t);
    hide WinnerOk, Inv;
  }

  lemma {:induction false} ResumeKeepsWinner(s: Lazy, t: Tid)
    requires Inv(s) && Enabled(s, Resume(t)) && (PhaseOf(s, t).Checking? || PhaseOf(s, t).Spinning?)
    ensures WinnerOk(Take(s, Resume(t)))
  {
    assert ThreadOk(s, t);
    if w :| s.winner == Some(w) && w != t {
      OtherThread(s, Resume(t), w);
    }
  }

  /** A thread whose compare-and-swap has come back. */
  lemma {:induction false} ResumeRaceOk(s: Lazy, t: Tid)
    requires Inv(s) && Enabled(s, Resume(t)) && PhaseOf(s, t).Racing?
    ensures StepOk(s, Take(s, Resume(t)), t)
  {
    assert ThreadOk(s, t);
    if w :| s.winner == Some(w) && w != t {
      OtherThread(s, Resume(t), w);
    }
  }

  lemma {:induction false} ResumeOk(s: Lazy, t: Tid)
    requires Inv(s) && Enabled(s, Resume(t))
    ensures StepOk(s, Take(s, Resume(t)), t)
  {
    assert ThreadOk(s, t);
    if PhaseOf(s, t).Racing? {
      ResumeRaceOk(s, t);
    } else if PhaseOf(s, t).Checking? || PhaseOf(s, t).Spinning? {
      ResumeLoadOk(s, t);
    } else {
      assert PhaseOf(s, t).Publishing?;
    }
  }

  lemma {:induction false} ConstructOk(s: Lazy, t: Tid)
    requires Inv(s) && Enabled(s, Construct(t))
    ensures StepOk(s, Take(s, Construct(t)), t)
  {
    assert ThreadOk(s, t);
  }

  lemma {:induction false} RegisterOk(s: Lazy, t: Tid)
    requires Inv(s) && Enabled(s, Register(t))
    ensures StepOk(s, Take(s, Register(t)), t)
  {
    assert ThreadOk(s, t);
  }

  lemma {:induction false} MoveOk(s: Lazy, move: Move)
    requires Inv(s) && Enabled(s, move)
    ensures StepOk(s, Take(s, move), move.t)
  {
    match move
    case Enter(t) => EnterOk(s, t);
    case Atomic(t, swaps) => AtomicOk(s, t, swaps);
    case Resume(t) => ResumeOk(s, t);
    case Construct(t) => ConstructOk(s, t);
    case Register(t) => RegisterOk(s, t);
  }

  lemma {:induction false} OthersOk(s: Lazy, move: Move, u: Tid)
    requires Inv(s) && Enabled(s, move) && u != move.t
    ensures ThreadOk(Take(s, move), u)
  {
    hide Take, Enabled, WinnerOk;
    assert ThreadOk(s, u) && WinnerOk(s);
    MoveOk(s, move);
    OtherThread(s, move, u);
    WordOfWinner(Take(s, move));
  }

  lemma {:induction false} WordOfWinner(s: Lazy)
    requires WinnerOk(s)
    ensures s.m.word == EMPTY || s.m.word == CREATING || s.m.word == CREATED
    ensures s.m.word != EMPTY ==> s.winner.Some?
  {}

  /** Every step keeps the protocol. */
  lemma {:induction false} MoveKeepsInv(s: Lazy, move: Move)
    requires Inv(s) && Enabled(s, move)
    ensures Inv(Take(s, move)) && s.m.word <= Take(s, move).m.word
  {
    hide Take, ThreadOk, WinnerOk, Enabled;
    MoveOk(s, move);
    forall u ensures ThreadOk(Take(s, move), u) {
      if u != move.t { OthersOk(s, move, u); }
    }
  }

  // -------------------------------------------------------------- runs

  predicate EnabledRun(s: Lazy, moves: seq<Move>)
    decreases |moves|
  {
    moves == [] || (Enabled(s, moves[0]) && EnabledRun(Take(s, moves[0]), moves[1..]))
  }

  function Run(s: Lazy, moves: seq<Move>): Lazy
    requires EnabledRun(s, moves)
    decreases |moves|
  {
    if moves == [] then s else Run(Take(s, moves[0]), moves[1..])
  }

  /** The threads that NeedsInstance has told to create the instance, in order. */
  function Chosen(s: Lazy, moves: seq<Move>): seq<Tid>
    requires EnabledRun(s, moves)
    decreases |moves|
  {
    if moves == [] then []
    else
      (if moves[0].Resume? && PhaseOf(s, moves[0].t).Racing? && ThreadOf(s.m, moves[0].t).result == EMPTY
       then [moves[0].t] else [])
      + Chosen(Take(s, moves[0]), moves[1..])
  }

  /** No thread is told to create any more once the winner is past the race. */
  predicate RaceOver(s: Lazy) {
    s.winner.Some? && (s.m.word == CREATED || !PhaseOf(s, s.winner.value).Racing?)
  }

  lemma {:induction false} RaceStaysOver(s: Lazy, move: Move)
    requires Inv(s) && RaceOver(s) && Enabled(s, move)
    ensures RaceOver(Take(s, move))
    ensures !(move.Resume? && PhaseOf(s, move.t).Racing? && ThreadOf(s.m, move.t).result == EMPTY)
  {
    assert ThreadOk(s, move.t);
    MoveOk(s, move);
    if move.t != s.winner.value { OtherThread(s, move, s.winner.value); }
  }

  lemma {:induction false} NoneChosenAfter(s: Lazy, moves: seq<Move>)
    requires Inv(s) && RaceOver(s) && EnabledRun(s, moves)
    ensures Chosen(s, moves) == []
    decreases |moves|
  {
    if moves != [] {
      MoveKeepsInv(s, moves[0]);
      RaceStaysOver(s, moves[0]);
      NoneChosenAfter(Take(s, moves[0]), moves[1..]);
    }
  }

  lemma {:induction false} ChoosingEndsRace(s: Lazy, move: Move)
    requires Inv(s) && Enabled(s, move)
    requires move.Resume? && PhaseOf(s, move.t).Racing? && ThreadOf(s.m, move.t).result == EMPTY
    ensures RaceOver(Take(s, move))
  {
    assert ThreadOk(s, move.t);
  }

  /** Over every run from a consistent state: NeedsInstance returns true at most once. */
  lemma {:induction false} AtMostOneChosen(s: Lazy, moves: seq<Move>)
    requires Inv(s) && EnabledRun(s, moves)
    ensures |Chosen(s, moves)| <= 1
    decreases |moves|
  {
    if moves != [] {
      var s' := Take(s, moves[0]);
      MoveKeepsInv(s, moves[0]);
      if moves[0].Resume? && PhaseOf(s, moves[0].t).Racing? && ThreadOf(s.m, moves[0].t).result == EMPTY {
        ChoosingEndsRace(s, moves[0]);
        NoneChosenAfter(s', moves[1..]);
      } else {
        AtMostOneChosen(s', moves[1..]);
      }
    }
  }

  lemma {:induction false} RunKeepsInv(s: Lazy, moves: seq<Move>)
    requires Inv(s) && EnabledRun(s, moves)
    ensures Inv(Run(s, moves)) && s.m.word <= Run(s, moves).m.word
    decreases |moves|
  {
    hide Inv;
    if moves != [] {
      MoveKeepsInv(s, moves[0]);
      RunKeepsInv(Take(s, moves[0]), moves[1..]);
    }
  }

  /** Lazy creation, over every run: at most one thread is told to create; the instance is
      constructed at most once and its destructor registered at most once; whoever is back
      from Pointer() is back after CREATED was stored and the instance was constructed; and
      the state only goes from EMPTY over CREATING to CREATED. */
  lemma {:induction false} LazyOverRuns(hasDtor: bool, moves: seq<Move>, t: Tid)
    requires EnabledRun(Start(hasDtor), moves)
    ensures var s := Run(Start(hasDtor), moves);
            && |Chosen(Start(hasDtor), moves)| <= 1
            && s.instances <= 1 && s.registered <= (if hasDtor then 1 else 0)
            && (PhaseOf(s, t).Finished? ==> s.m.word == CREATED && s.instances == 1)
            && EMPTY <= s.m.word <= CREATED
  {
    var s0 := Start(hasDtor);
    assert Inv(s0);
    AtMostOneChosen(s0, moves);
    RunKeepsInv(s0, moves);
    DtorStays(s0, moves);
    var s := Run(s0, moves);
    assert ThreadOk(s, t) && WinnerOk(s);
  }

  lemma {:induction false} DtorStays(s: Lazy, moves: seq<Move>)
    requires EnabledRun(s, moves)
    ensures Run(s, moves).hasDtor == s.hasDtor
    decreases |moves|
  {
    if moves != [] { DtorStays(Take(s, moves[0]), moves[1..]); }
  }

  /** Once a run has created the instance and every thread is out or back, the destructor
      has been registered exactly if there is one. */
  lemma {:induction false} DtorRegisteredInTheEnd(hasDtor: bool, moves: seq<Move>)
    requires EnabledRun(Start(hasDtor), moves)
    requires var s := Run(Start(hasDtor), moves);
             s.m.word == CREATED && forall t :: PhaseOf(s, t).Out? || PhaseOf(s, t).Finished?
    ensures Run(Start(hasDtor), moves).registered == (if hasDtor then 1 else 0)
  {
    var s0 := Start(hasDtor);
    assert Inv(s0);
    RunKeepsInv(s0, moves);
    DtorStays(s0, moves);
    assert WinnerOk(Run(s0, moves));
  }

  // ------------------------------------------------------------ progress

  /** The move that thread t makes next, unless it is out or back. */
  function OwnMove(s: Lazy, t: Tid): Move {
    var th := ThreadOf(s.m, t);
    if th.Returning? then Resume(t)
    else if th.Reading? then Atomic(t, false)
    else if th.Trying? then Atomic(t, s.m.word == th.expected)
    else if PhaseOf(s, t).Registering? then Register(t)
    else Construct(t)
  }

  predicate IsInside(s: Lazy, t: Tid) { !PhaseOf(s, t).Out? && !PhaseOf(s, t).Finished? }

  /** Thread t does not depend on anyone else to get back. */
  predicate OnItsOwn(s: Lazy, t: Tid) { s.m.word == CREATED || IsCreator(s, t) }

  /** How many moves of its own it needs. */
  function Distance(s: Lazy, t: Tid): nat {
    var th := ThreadOf(s.m, t);
    match PhaseOf(s, t)
    case Checking => if th.Reading? then 7 else if th.Returning? && th.result == CREATED then 1 else 6
    case Racing =>
      if th.Trying? then 5 else if th.Reading? then 4 else if th.Returning? && th.result == EMPTY then 5 else 3
    case Spinning => if th.Reading? then 2 else if th.Returning? && th.result == CREATED then 1 else 3
    case Creating => 4
    case Publishing => if th.Reading? then 3 else 2
    case Registering => 1
    case _ => 0
  }

  /** Thread t was told by NeedsInstance to create the instance. */
  predicate WasChosen(s: Lazy, t: Tid) {
    IsCreator(s, t) || IsRegistering(s, t) || PhaseOf(s, t) == Finished(true)
  }

  lemma {:induction false} OwnMoveEnabled(s: Lazy, t: Tid)
    requires Inv(s) && IsInside(s, t)
    ensures Enabled(s, OwnMove(s, t)) && OwnMove(s, t).t == t
  {
    assert ThreadOk(s, t);
  }

  lemma {:induction false} OwnMoveHelps(s: Lazy, t: Tid)
    requires ThreadOk(s, t) && IsInside(s, t) && OnItsOwn(s, t) && Enabled(s, OwnMove(s, t))
    ensures var s' := Take(s, OwnMove(s, t));
            && OnItsOwn(s', t) && Distance(s', t) < Distance(s, t) && !PhaseOf(s', t).Out?
            && (WasChosen(s', t) <==> WasChosen(s, t)) && (PhaseOf(s', t).Finished? ==> s'.m.word == CREATED)
  {}

  predicate MovesOf(moves: seq<Move>, t: Tid) {
    forall move | move in moves :: move.t == t
  }

  /** A thread in Pointer that does not wait for another one gets back by its own moves:
      no spin goes on once CREATED is there. It returns with true exactly if it was chosen. */
  lemma {:induction false} GetsBack(s: Lazy, t: Tid) returns (moves: seq<Move>)
    requires Inv(s) && !PhaseOf(s, t).Out? && (IsInside(s, t) ==> OnItsOwn(s, t))
    ensures MovesOf(moves, t) && |moves| <= Distance(s, t) && EnabledRun(s, moves)
    ensures Inv(Run(s, moves)) && PhaseOf(Run(s, moves), t) == Finished(WasChosen(s, t))
    decreases Distance(s, t)
  {
    moves := [];
    if IsInside(s, t) {
      var move := OwnMove(s, t);
      OwnMoveEnabled(s, t);
      OwnMoveHelps(s, t);
      MoveKeepsInv(s, move);
      hide Take, Inv, WasChosen, Distance, OnItsOwn, Enabled, OwnMove;
      var rest := GetsBack(Take(s, move), t);
      moves := [move] + rest;
    }
  }

  lemma {:induction false} OthersStay(s: Lazy, moves: seq<Move>, t: Tid, u: Tid)
    requires EnabledRun(s, moves) && MovesOf(moves, t) && u != t
    ensures PhaseOf(Run(s, moves), u) == PhaseOf(s, u) && ThreadOf(Run(s, moves).m, u) == ThreadOf(s.m, u)
    decreases |moves|
  {
    if moves != [] {
      assert moves[0] in moves && forall move :: move in moves[1..] ==> move in moves;
      OtherThread(s, moves[0], u);
      OthersStay(Take(s, moves[0]), moves[1..], t, u);
    }
  }

  lemma {:induction false} RunConcat(s: Lazy, xs: seq<Move>, ys: seq<Move>)
    requires EnabledRun(s, xs) && EnabledRun(Run(s, xs), ys)
    ensures EnabledRun(s, xs + ys) && Run(s, xs + ys) == Run(Run(s, xs), ys)
    decreases |xs|
  {
    if xs == [] {
      assert xs + ys == ys;
    } else {
      assert (xs + ys)[1..] == xs[1..] + ys;
      RunConcat(Take(s, xs[0]), xs[1..], ys);
    }
  }

  /** Nothing gets stuck: from every state that a run reaches once the race is won, every
      thread in Pointer can still get back, the winner's moves and its own being enough. */
  lemma {:induction false} EveryoneCanGetBack(s: Lazy, t: Tid) returns (moves: seq<Move>)
    requires Inv(s) && s.m.word != EMPTY && !PhaseOf(s, t).Out?
    ensures EnabledRun(s, moves) && PhaseOf(Run(s, moves), t) == Finished(WasChosen(s, t))
  {
    assert WinnerOk(s) && ThreadOk(s, t);
    var w := s.winner.value;
    if s.m.word == CREATED || w == t {
      moves := GetsBack(s, t);
    } else {
      var first := GetsBack(s, w);
      var s1 := Run(s, first);
      OthersStay(s, first, w, t);
      assert ThreadOk(s1, w) && s1.m.word == CREATED;
      var second := GetsBack(s1, t);
      RunConcat(s, first, second);
      moves := first + second;
    }
  }
}
