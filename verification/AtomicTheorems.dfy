/** What follows for compare-and-swap, increments and sequence numbers. */
module AtomicTheorems {
  import opened Atomics

  // ------------------------------------------- each call takes effect once

  /** Thread t's calls come one after the other. */
  predicate Ordered(s: State) {
    && (forall i, j :: 0 <= i < j < |s.done| && s.done[i].tid == s.done[j].tid ==> s.done[i].end <= s.done[j].since)
    && (forall i :: 0 <= i < |s.done| ==> EndsBefore(s, s.done[i]))
  }

  /** c is over, also for the call that its thread is in now. */
  predicate EndsBefore(s: State, c: Completed) {
    c.end <= |s.log| && (!ThreadOf(s, c.tid).Idle? ==> c.end <= ThreadOf(s, c.tid).since)
  }

  /** Effect k belongs to a call that has returned or is about to. */
  predicate Owned(s: State, k: nat)
    requires k < |s.log|
  {
    || (exists i :: 0 <= i < |s.done| && s.done[i].at == k)
    || (var th := ThreadOf(s, s.log[k].tid); th.Returning? && th.at == k)
  }

  ghost predicate Matched(s: State) {
    Ordered(s) && forall k :: 0 <= k < |s.log| ==> Owned(s, k)
  }

  lemma {:induction false} StepKeepsOrdered(s: State, a: Action)
    requires Ordered(s) && Enabled(s, a)
    ensures Ordered(Apply(s, a))
  {
    hide Legal, WordAfter, Spec, Wrap, ThreadOk, CompletedOk;
    var s' := Apply(s, a);
    forall i | 0 <= i < |s'.done| ensures EndsBefore(s', s'.done[i]) {
      if i < |s.done| { assert EndsBefore(s, s.done[i]); }
    }
    if a.Return? {
      forall i | 0 <= i < |s.done| && s.done[i].tid == a.tid
        ensures s.done[i].end <= s'.done[|s.done|].since
      {
        assert EndsBefore(s, s.done[i]);
      }
    }
  }

  lemma {:induction false} StepKeepsOwned(s: State, a: Action, k: nat)
    requires Enabled(s, a) && k < |Apply(s, a).log| && (k < |s.log| ==> Owned(s, k))
    ensures Owned(Apply(s, a), k)
  {
    var s' := Apply(s, a);
    if k < |s.log| {
      if i :| 0 <= i < |s.done| && s.done[i].at == k {
        assert s'.done[i].at == k;
      } else if a.Return? && a.tid == s.log[k].tid {
        assert s'.done[|s.done|].at == k;
      }
    }
  }

  lemma {:induction false} RunKeepsMatched(start: Word, s: State, actions: seq<Action>)
    requires Inv(start, s) && Matched(s) && EnabledRun(s, actions)
    ensures Matched(Run(s, actions))
    decreases |actions|
  {
    if actions != [] {
      var s' := Apply(s, actions[0]);
      StepKeepsInv(start, s, actions[0]);
      StepKeepsOrdered(s, actions[0]);
      forall k | 0 <= k < |s'.log| ensures Owned(s', k) {
        StepKeepsOwned(s, actions[0], k);
      }
      RunKeepsMatched(start, s', actions[1..]);
    }
  }

  /** Linearizability, over every run: the effects are what the operations do one at a
      time; every returned call has its effect, with its result, between its beginning and
      its end; no two calls share an effect, and no effect is without a call. */
  lemma {:induction false} Linearizable(word: Word, actions: seq<Action>)
    requires EnabledRun(Initial(word), actions)
    ensures var s := Run(Initial(word), actions);
            && Legal(word, s.log) && s.word == WordAfter(word, s.log)
            && (forall i :: 0 <= i < |s.done| ==>
                  var c := s.done[i];
                  c.since <= c.at < c.end <= |s.log| && s.log[c.at] == Effect(c.tid, c.call, c.result))
            && (forall i, j :: 0 <= i < j < |s.done| ==> s.done[i].at != s.done[j].at)
            && (forall k :: 0 <= k < |s.log| ==> Owned(s, k))
  {
    var s := Run(Initial(word), actions);
    RunKeepsInv(word, Initial(word), actions);
    RunKeepsMatched(word, Initial(word), actions);
    forall i | 0 <= i < |s.done| ensures CompletedOk(s.log, s.done[i]) {}
  }

  /** A compare-and-swap returns the old value exactly if it swapped, at a moment during
      the call at which the word had that value; otherwise it wrote nothing and returns
      another value that the word had at a moment during the call. */
  lemma {:induction false} CompareAndSwapExact(word: Word, actions: seq<Action>, i: nat)
    requires EnabledRun(Initial(word), actions) && i < |Run(Initial(word), actions).done|
    requires Run(Initial(word), actions).done[i].call.CompareAndSwap?
    ensures var s := Run(Initial(word), actions);
            var c := s.done[i];
            && c.since <= c.at < c.end <= |s.log|
            && (var before, after := WordAfter(word, s.log[..c.at]), WordAfter(word, s.log[..c.at+1]);
                && (c.result == c.call.oldValue <==> before == c.call.oldValue)
                && c.result == before
                && after == if c.result == c.call.oldValue then c.call.newValue else before)
  {
    EffectOfCall(word, actions, i);
  }

  /** An exchange returns the value that the word had at its instant during the call, and
      leaves the new one. */
  lemma {:induction false} ExchangeExact(word: Word, actions: seq<Action>, i: nat)
    requires EnabledRun(Initial(word), actions) && i < |Run(Initial(word), actions).done|
    requires Run(Initial(word), actions).done[i].call.Exchange?
    ensures var s := Run(Initial(word), actions);
            var c := s.done[i];
            && c.since <= c.at < c.end <= |s.log|
            && c.result == WordAfter(word, s.log[..c.at])
            && WordAfter(word, s.log[..c.at+1]) == c.call.newValue
  {
    EffectOfCall(word, actions, i);
  }

  /** A load returns the value that the word had at its instant, and leaves it. */
  lemma {:induction false} LoadExact(word: Word, actions: seq<Action>, i: nat)
    requires EnabledRun(Initial(word), actions) && i < |Run(Initial(word), actions).done|
    requires Run(Initial(word), actions).done[i].call.Load?
    ensures var s := Run(Initial(word), actions);
            var c := s.done[i];
            && c.since <= c.at < c.end <= |s.log|
            && c.result == WordAfter(word, s.log[..c.at]) == WordAfter(word, s.log[..c.at+1])
  {
    EffectOfCall(word, actions, i);
  }

  /** A store leaves the value that it was given. */
  lemma {:induction false} StoreExact(word: Word, actions: seq<Action>, i: nat)
    requires EnabledRun(Initial(word), actions) && i < |Run(Initial(word), actions).done|
    requires Run(Initial(word), actions).done[i].call.Store?
    ensures var s := Run(Initial(word), actions);
            var c := s.done[i];
            && c.since <= c.at < c.end <= |s.log|
            && WordAfter(word, s.log[..c.at+1]) == c.call.newValue
  {
    EffectOfCall(word, actions, i);
  }

  lemma {:induction false} EffectOfCall(word: Word, actions: seq<Action>, i: nat)
    requires EnabledRun(Initial(word), actions) && i < |Run(Initial(word), actions).done|
    ensures var s := Run(Initial(word), actions);
            var c := s.done[i];
            && c.since <= c.at < c.end <= |s.log|
            && (WordAfter(word, s.log[..c.at+1]), c.result) == Spec(WordAfter(word, s.log[..c.at]), c.call)
  {
    var s := Run(Initial(word), actions);
    RunKeepsInv(word, Initial(word), actions);
    var c := s.done[i];
    assert CompletedOk(s.log, c);
    assert s.log[..c.at+1][..c.at] == s.log[..c.at];
  }

  // ---------------------------------------------------------- progress

  /** The action of thread t next, if its helper call swaps whenever it can. */
  function OwnAction(s: State, t: Tid): Action {
    match ThreadOf(s, t)
    case Reading(_, _) => Advance(t, false)
    case Trying(_, _, expected, _) => Advance(t, s.word == expected)
    case _ => Return(t)
  }

  /** How many of them its call needs at most. */
  function Distance(s: State, t: Tid): nat {
    match ThreadOf(s, t)
    case Idle => 0
    case Returning(_, _, _, _) => 1
    case Reading(_, _) => 3
    case Trying(_, _, expected, _) => if s.word == expected then 2 else 4
  }

  predicate ActionsOf(actions: seq<Action>, t: Tid) {
    forall a | a in actions :: a.tid == t && !a.Invoke?
  }

  lemma {:induction false} OwnActionHelps(s: State, t: Tid)
    requires !ThreadOf(s, t).Idle?
    ensures Enabled(s, OwnAction(s, t))
    ensures var s' := Apply(s, OwnAction(s, t));
            && Distance(s', t) < Distance(s, t)
            && (ThreadOf(s, t).Returning? ==> && ThreadOf(s', t).Idle? && |s'.done| == |s.done| + 1
                                              && s'.done[|s.done|].tid == t
                                              && s'.done[|s.done|].call == ThreadOf(s, t).call)
            && (!ThreadOf(s, t).Returning? ==> && !ThreadOf(s', t).Idle? && s'.done == s.done
                                               && ThreadOf(s', t).call == ThreadOf(s, t).call)
  {}

  /** The retry loops are lock-free: left alone with a helper that swaps whenever it can, a
      thread returns from its call after at most four of its own steps. */
  lemma {:induction false} ReturnsAlone(s: State, t: Tid) returns (actions: seq<Action>)
    requires !ThreadOf(s, t).Idle?
    ensures ActionsOf(actions, t) && |actions| <= 4 && EnabledRun(s, actions)
    ensures var r := Run(s, actions);
            && ThreadOf(r, t).Idle? && |r.done| == |s.done| + 1
            && r.done[|s.done|].tid == t && r.done[|s.done|].call == ThreadOf(s, t).call
  {
    actions := ReturnsWithin(s, t);
  }

  lemma {:induction false} ReturnsWithin(s: State, t: Tid) returns (actions: seq<Action>)
    requires !ThreadOf(s, t).Idle?
    ensures ActionsOf(actions, t) && |actions| <= Distance(s, t) && EnabledRun(s, actions)
    ensures var r := Run(s, actions);
            && ThreadOf(r, t).Idle? && |r.done| == |s.done| + 1
            && r.done[|s.done|].tid == t && r.done[|s.done|].call == ThreadOf(s, t).call
    decreases Distance(s, t)
  {
    var a := OwnAction(s, t);
    OwnActionHelps(s, t);
    var s' := Apply(s, a);
    var returned := ThreadOf(s, t).Returning?;
    assert a.tid == t && !a.Invoke?;
    hide Apply, Distance, OwnAction, Enabled;
    if returned {
      actions := [a];
      assert [a][1..] == [];
    } else {
      var rest := ReturnsWithin(s', t);
      actions := [a] + rest;
    }
  }

  // ------------------------------------------------------- increments

  function Sum(log: seq<Effect>): int {
    if log == [] then 0
    else Sum(log[..|log|-1]) + if log[|log|-1].call.Increment? then log[|log|-1].call.amount as int else 0
  }

  predicate OnlyIncrements(log: seq<Effect>) {
    forall k :: 0 <= k < |log| ==> log[k].call.Increment? || log[k].call.Load?
  }

  lemma {:induction false} WrapAdds(x: int, d: int)
    ensures Wrap(Wrap(x) + d) == Wrap(x + d)
  {
    assert (x + TWO31) % TWO32 == x + TWO31 - TWO32 * ((x + TWO31) / TWO32);
    ModShift(x + d + TWO31, (x + TWO31) / TWO32);
  }

  lemma {:induction false} ModShift(x: int, q: int)
    ensures (x - TWO32 * q) % TWO32 == x % TWO32
  {
    var y := x - TWO32 * q;
    var r, p := x % TWO32, x / TWO32;
    assert x == TWO32 * p + r;
    assert y == TWO32 * (p - q) + r;
    DivModUnique(y, p - q, r);
  }

  lemma {:induction false} DivModUnique(y: int, q: int, r: int)
    requires y == TWO32 * q + r && 0 <= r < TWO32
    ensures y % TWO32 == r && y / TWO32 == q
  {}

  lemma {:induction false} WrapSmall(x: int)
    requires -TWO31 <= x < TWO31
    ensures Wrap(x) == x
  {}

  /** With increments only the word is the start plus the sum, wrapped, ... */
  lemma {:induction false} IncrementsSum(start: Word, log: seq<Effect>)
    requires OnlyIncrements(log)
    ensures WordAfter(start, log) == Wrap(start + Sum(log))
  {
    if log == [] {
      WrapSmall(start);
    } else {
      var init, last := log[..|log|-1], log[|log|-1];
      IncrementsSum(start, init);
      WrapAdds(start + Sum(init), if last.call.Increment? then last.call.amount as int else 0);
    }
  }

  /** ... and every increment returned the sum up to and including its own effect. */
  lemma {:induction false} IncrementReturnsSum(start: Word, log: seq<Effect>, k: nat)
    requires OnlyIncrements(log) && Legal(start, log) && k < |log|
    ensures log[k].result == Wrap(start + Sum(log[..k+1]))
  {
    IncrementsSum(start, log[..k]);
    var upTo := log[..k+1];
    assert upTo[..k] == log[..k] && upTo[k] == log[k];
    WrapAdds(start + Sum(log[..k]), if log[k].call.Increment? then log[k].call.amount as int else 0);
  }

  // -------------------------------------------------- sequence numbers

  /** AtomicSequenceNumber: GetNext is an increment by one, less one. */
  function GetNextValue(result: Word): Word { Wrap(result - 1) }

  predicate OnlyGetNext(log: seq<Effect>) {
    forall k :: 0 <= k < |log| ==> log[k].call == Increment(1)
  }

  lemma {:induction false} SumOfOnes(log: seq<Effect>)
    requires OnlyGetNext(log)
    ensures Sum(log) == |log|
  {
    if log != [] { SumOfOnes(log[..|log|-1]); }
  }

  /** The k-th number handed out is k, wrapped. */
  lemma {:induction false} GetNextIsCounter(log: seq<Effect>, k: nat)
    requires OnlyGetNext(log) && Legal(0, log) && k < |log|
    ensures GetNextValue(log[k].result) == Wrap(k)
  {
    IncrementReturnsSum(0, log, k);
    SumOfOnes(log[..k+1]);
    WrapAdds(k + 1, -1);
  }

  lemma {:induction false} AllNumbers(log: seq<Effect>)
    requires OnlyGetNext(log) && Legal(0, log)
    ensures forall k :: 0 <= k < |log| ==> GetNextValue(log[k].result) == Wrap(k)
  {
    hide Legal, OnlyGetNext, Wrap, GetNextValue;
    forall k | 0 <= k < |log| ensures GetNextValue(log[k].result) == Wrap(k) {
      GetNextIsCounter(log, k);
    }
  }

  /** All numbers handed out are 0, 1, 2, ... in order exactly as long as there are at
      most 2^31 of them, ... */
  lemma {:induction false} GetNextCounts(log: seq<Effect>)
    requires OnlyGetNext(log) && Legal(0, log)
    ensures (forall k :: 0 <= k < |log| ==> GetNextValue(log[k].result) == k) <==> |log| <= TWO31
  {
    AllNumbers(log);
    hide Legal, OnlyGetNext, GetNextValue, Wrap;
    forall k | 0 <= k < |log| ensures GetNextValue(log[k].result) == k <==> k < TWO31 {
      WrapIdentity(k);
    }
    if |log| > TWO31 {
      assert GetNextValue(log[TWO31].result) != TWO31;
    }
  }

  /** ... and they are all different exactly as long as there are at most 2^32. */
  lemma {:induction false} GetNextDistinct(log: seq<Effect>)
    requires OnlyGetNext(log) && Legal(0, log)
    ensures (forall j, k :: 0 <= j < k < |log| ==> GetNextValue(log[j].result) != GetNextValue(log[k].result))
            <==> |log| <= TWO32
  {
    AllNumbers(log);
    hide Legal, OnlyGetNext, GetNextValue, Wrap;
    if |log| > TWO32 {
      WrapPeriod();
      assert GetNextValue(log[0].result) == GetNextValue(log[TWO32].result);
    } else {
      forall j, k | 0 <= j < k < |log| ensures GetNextValue(log[j].result) != GetNextValue(log[k].result) {
        WrapInjective(j, k);
      }
    }
  }

  lemma {:induction false} WrapIdentity(k: nat)
    ensures Wrap(k) == k <==> k < TWO31
  {}

  lemma {:induction false} WrapPeriod()
    ensures Wrap(0) == Wrap(TWO32)
  {}

  lemma {:induction false} WrapInjective(j: nat, k: nat)
    requires j < k < TWO32
    ensures Wrap(j) != Wrap(k)
  {}

  predicate InvokesOnly(actions: seq<Action>, call: Call) {
    forall k :: 0 <= k < |actions| && actions[k].Invoke? ==> actions[k].call == call
  }

  predicate CallsOnly(s: State, call: Call) {
    && (forall t :: t in s.threads && !s.threads[t].Idle? ==> s.threads[t].call == call)
    && (forall k :: 0 <= k < |s.log| ==> s.log[k].call == call)
    && (forall k :: 0 <= k < |s.done| ==> s.done[k].call == call)
  }

  lemma {:induction false} RunCallsOnly(s: State, actions: seq<Action>, call: Call)
    requires EnabledRun(s, actions) && InvokesOnly(actions, call) && CallsOnly(s, call)
    ensures CallsOnly(Run(s, actions), call)
    decreases |actions|
  {
    if actions != [] {
      var s' := Apply(s, actions[0]);
      assert CallsOnly(s', call);
      assert forall k :: 0 <= k < |actions| - 1 ==> actions[1..][k] == actions[k+1];
      RunCallsOnly(s', actions[1..], call);
    }
  }

  /** Whatever the threads and the scheduler do: while at most 2^31 numbers have been
      handed out, a call of GetNext returns the number of calls that took effect before
      it, so no number comes twice. */
  lemma {:induction false} GetNextOverRuns(actions: seq<Action>)
    requires EnabledRun(Initial(0), actions) && InvokesOnly(actions, Increment(1))
    ensures var s := Run(Initial(0), actions);
            |s.log| <= TWO31 ==>
              && (forall i :: 0 <= i < |s.done| ==> GetNextValue(s.done[i].result) == s.done[i].at)
              && (forall i, j :: 0 <= i < j < |s.done| ==>
                    GetNextValue(s.done[i].result) != GetNextValue(s.done[j].result))
  {
    var s := Run(Initial(0), actions);
    RunCallsOnly(Initial(0), actions, Increment(1));
    Linearizable(0, actions);
    if |s.log| <= TWO31 {
      GetNextCounts(s.log);
      forall i | 0 <= i < |s.done| ensures GetNextValue(s.done[i].result) == s.done[i].at {
        assert s.log[s.done[i].at].result == s.done[i].result;
      }
    }
  }
}
