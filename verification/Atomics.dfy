/** The ARM atomic operations, retry loops over the kernel's compare-exchange:
    base/atomicops_internals_arm_gcc.h. Any number of threads, any interleaving of single
    steps on one shared word, and a helper that may fail at any time. */
module Atomics {

  const TWO31 := 0x8000_0000
  const TWO32 := 0x1_0000_0000

  /** Atomic32. */
  type Word = x: int | -0x8000_0000 <= x < 0x8000_0000

  /** x as a 32-bit two's complement number. */
  function Wrap(x: int): Word { (x + TWO31) % TWO32 - TWO31 }

  type Tid = nat

  datatype Call =
    | CompareAndSwap(oldValue: Word, newValue: Word)
    | Exchange(newValue: Word)
    | Increment(amount: Word)
    | Load
    | Store(newValue: Word)

  /** Where a thread is: outside, about to read the word, about to call the helper with
      (expected, wanted), or about to return. since is the length of the linearization when
      the call began, and at the position of the call in it. */
  datatype Thread =
    | Idle
    | Reading(call: Call, since: nat)
    | Trying(call: Call, since: nat, expected: Word, wanted: Word)
    | Returning(call: Call, since: nat, result: Word, at: nat)

  /** One effect in the linearization. */
  datatype Effect = Effect(tid: Tid, call: Call, result: Word)

  /** A call that has returned. */
  datatype Completed = Completed(tid: Tid, call: Call, result: Word, since: nat, at: nat, end: nat)

  datatype State = State(word: Word, threads: map<Tid, Thread>, log: seq<Effect>, done: seq<Completed>)

  datatype Action = Invoke(tid: Tid, call: Call) | Advance(tid: Tid, helperSwaps: bool) | Return(tid: Tid)

  function ThreadOf(s: State, t: Tid): Thread { if t in s.threads then s.threads[t] else Idle }

  /** A helper call can swap only if it finds what it expects; it may also refuse. */
  predicate Enabled(s: State, a: Action) {
    match a
    case Invoke(t, _) => ThreadOf(s, t).Idle?
    case Advance(t, swaps) =>
      var th := ThreadOf(s, t);
      th.Reading? || (th.Trying? && (swaps ==> s.word == th.expected))
    case Return(t) => ThreadOf(s, t).Returning?
  }

  /** The call takes effect here: its result is fixed and its write happens. */
  function Commit(s: State, t: Tid, word: Word, result: Word): State
    requires ThreadOf(s, t).Reading? || ThreadOf(s, t).Trying?
  {
    var th := ThreadOf(s, t);
    s.(word := word, log := s.log + [Effect(t, th.call, result)],
       threads := s.threads[t := Returning(th.call, th.since, result, |s.log|)])
  }

  function Begin(call: Call, since: nat): Thread {
    match call
    case CompareAndSwap(o, n) => Trying(call, since, o, n)
    case _ => Reading(call, since)
  }

  function Apply(s: State, a: Action): State
    requires Enabled(s, a)
  {
    match a
    case Invoke(t, call) => s.(threads := s.threads[t := Begin(call, |s.log|)])
    case Return(t) =>
      var th := ThreadOf(s, t);
      s.(threads := s.threads[t := Idle],
         done := s.done + [Completed(t, th.call, th.result, th.since, th.at, |s.log|)])
    case Advance(t, swaps) =>
      match ThreadOf(s, t)
      case Reading(call, since) =>
        (match call
         // the reload after a failed try: an unchanged word means another try
         case CompareAndSwap(o, n) =>
           if s.word == o then s.(threads := s.threads[t := Trying(call, since, o, n)])
           else Commit(s, t, s.word, s.word)
         case Exchange(n) => s.(threads := s.threads[t := Trying(call, since, s.word, n)])
         case Increment(amount) => s.(threads := s.threads[t := Trying(call, since, s.word, Wrap(s.word + amount))])
         case Load => Commit(s, t, s.word, s.word)
         case Store(v) => Commit(s, t, v, v))
      case Trying(call, since, expected, wanted) =>
        if !swaps then s.(threads := s.threads[t := Reading(call, since)])
        else Commit(s, t, wanted, if call.Increment? then wanted else expected)
  }

  /** The step at which a call takes effect: a swap, a plain access, or a reload that
      sees another value. */
  predicate Commits(s: State, a: Action) {
    && a.Advance?
    && match ThreadOf(s, a.tid)
       case Reading(CompareAndSwap(o, _), _) => s.word != o
       case Reading(Load, _) => true
       case Reading(Store(_), _) => true
       case Trying(_, _, _, _) => a.helperSwaps
       case _ => false
  }

  predicate EnabledRun(s: State, actions: seq<Action>)
    decreases |actions|
  {
    actions == [] || (Enabled(s, actions[0]) && EnabledRun(Apply(s, actions[0]), actions[1..]))
  }

  function Run(s: State, actions: seq<Action>): State
    requires EnabledRun(s, actions)
    decreases |actions|
  {
    if actions == [] then s else Run(Apply(s, actions[0]), actions[1..])
  }

  function Initial(word: Word): State { State(word, map[], [], []) }

  // ---------------------------------------- what the operations promise

  /** The operations one at a time: the new word and the result. */
  function Spec(word: Word, call: Call): (Word, Word) {
    match call
    case CompareAndSwap(o, n) => if word == o then (n, o) else (word, word)
    case Exchange(n) => (n, word)
    case Increment(amount) => (Wrap(word + amount), Wrap(word + amount))
    case Load => (word, word)
    case Store(v) => (v, v)
  }

  /** The word after carrying out the effects one after the other. */
  function WordAfter(start: Word, log: seq<Effect>): Word {
    if log == [] then start else Spec(WordAfter(start, log[..|log|-1]), log[|log|-1].call).0
  }

  /** Every effect has the result that the operations give one at a time. */
  predicate Legal(start: Word, log: seq<Effect>) {
    forall k :: 0 <= k < |log| ==> log[k].result == Spec(WordAfter(start, log[..k]), log[k].call).1
  }

  /** Thread t has no effect at or after position since, or just the one at position at. */
  predicate NoEffectSince(log: seq<Effect>, t: Tid, since: nat) {
    forall k :: since <= k < |log| ==> log[k].tid != t
  }

  predicate OneEffectSince(log: seq<Effect>, t: Tid, since: nat, at: nat) {
    since <= at < |log| && forall k :: since <= k < |log| && k != at ==> log[k].tid != t
  }

  predicate ThreadOk(log: seq<Effect>, t: Tid, th: Thread) {
    match th
    case Idle => true
    case Reading(call, since) => since <= |log| && NoEffectSince(log, t, since)
    case Trying(call, since, expected, wanted) =>
      && since <= |log| && NoEffectSince(log, t, since)
      && (match call
          case CompareAndSwap(o, n) => expected == o && wanted == n
          case Exchange(n) => wanted == n
          case Increment(amount) => wanted == Wrap(expected + amount)
          case _ => false)
    case Returning(call, since, result, at) =>
      OneEffectSince(log, t, since, at) && log[at] == Effect(t, call, result)
  }

  predicate CompletedOk(log: seq<Effect>, c: Completed) {
    c.end <= |log| && OneEffectSince(log[..c.end], c.tid, c.since, c.at) && log[c.at] == Effect(c.tid, c.call, c.result)
  }

  predicate Inv(start: Word, s: State) {
    && Legal(start, s.log) && WordAfter(start, s.log) == s.word
    && (forall t :: t in s.threads ==> ThreadOk(s.log, t, s.threads[t]))
    && (forall k :: 0 <= k < |s.done| ==> CompletedOk(s.log, s.done[k]))
  }

  lemma {:induction false} LegalSnoc(start: Word, log: seq<Effect>, e: Effect)
    requires Legal(start, log) && e.result == Spec(WordAfter(start, log), e.call).1
    ensures Legal(start, log + [e]) && WordAfter(start, log + [e]) == Spec(WordAfter(start, log), e.call).0
  {
    var longer := log + [e];
    assert longer[..|log|] == log;
    forall k | 0 <= k < |log| ensures longer[..k] == log[..k] {}
  }

  lemma {:induction false} CommitKeepsInv(start: Word, s: State, t: Tid, word: Word, result: Word)
    requires Inv(start, s) && t in s.threads && (s.threads[t].Reading? || s.threads[t].Trying?)
    requires (word, result) == Spec(s.word, s.threads[t].call)
    ensures Inv(start, Commit(s, t, word, result))
  {
    hide Legal, WordAfter, Spec, Wrap;
    var e := Effect(t, s.threads[t].call, result);
    LegalSnoc(start, s.log, e);
    var s' := Commit(s, t, word, result);
    assert ThreadOk(s.log, t, s.threads[t]);
    forall u | u in s'.threads ensures ThreadOk(s'.log, u, s'.threads[u]) {
      if u != t { assert ThreadOk(s.log, u, s.threads[u]); }
    }
    forall k | 0 <= k < |s'.done| ensures CompletedOk(s'.log, s'.done[k]) {
      assert CompletedOk(s.log, s.done[k]);
      assert s'.log[..s.done[k].end] == s.log[..s.done[k].end];
    }
  }

  /** Every step of every thread keeps the linearization. */
  lemma {:induction false} StepKeepsInv(start: Word, s: State, a: Action)
    requires Inv(start, s) && Enabled(s, a)
    ensures Inv(start, Apply(s, a))
  {
    hide Legal, WordAfter, Wrap;
    var t := a.tid;
    var th := ThreadOf(s, t);
    assert ThreadOk(s.log, t, th);
    if Commits(s, a) {
      var s' := Apply(s, a);
      var e := s'.log[|s.log|];
      CommitKeepsInv(start, s, t, s'.word, e.result);
    } else if a.Return? {
      assert s.log[..|s.log|] == s.log;
    }
  }

  lemma {:induction false} RunKeepsInv(start: Word, s: State, actions: seq<Action>)
    requires Inv(start, s) && EnabledRun(s, actions)
    ensures Inv(start, Run(s, actions))
    decreases |actions|
  {
    if actions != [] {
      StepKeepsInv(start, s, actions[0]);
      RunKeepsInv(start, Apply(s, actions[0]), actions[1..]);
    }
  }
}
