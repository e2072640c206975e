/** At-exit managers as a stack of stacks: base/at_exit.cc. */
module AtExitModel {
  import opened Basics

  /** A function together with its parameter. */
  type Callback = nat

  /** The callbacks of every manager, the newest manager first and in each the newest
      callback last, and the callbacks that have run. */
  datatype World = World(stacks: seq<seq<Callback>>, trace: seq<Callback>)

  datatype Op = Create | Register(callback: Callback) | ProcessNow | Destroy

  function Process(w: World): World {
    if w.stacks == [] then w
    else World([[]] + w.stacks[1..], w.trace + Reverse(w.stacks[0]))
  }

  /** Without a manager every operation but the creation of one does nothing. */
  function Apply(w: World, op: Op): World {
    match op
    case Create => w.(stacks := [[]] + w.stacks)
    case Register(c) => if w.stacks == [] then w else w.(stacks := [w.stacks[0] + [c]] + w.stacks[1..])
    case ProcessNow => Process(w)
    case Destroy => if w.stacks == [] then w else World(Process(w).stacks[1..], Process(w).trace)
  }

  function Run(w: World, ops: seq<Op>): World
    decreases |ops|
  {
    if ops == [] then w else Run(Apply(w, ops[0]), ops[1..])
  }

  /** The callbacks that a run registers with some manager. */
  function Accepted(w: World, ops: seq<Op>): seq<Callback>
    decreases |ops|
  {
    if ops == [] then []
    else (if ops[0].Register? && w.stacks != [] then [ops[0].callback] else []) + Accepted(Apply(w, ops[0]), ops[1..])
  }

  function Flatten(stacks: seq<seq<Callback>>): seq<Callback> {
    if stacks == [] then [] else stacks[0] + Flatten(stacks[1..])
  }

  lemma {:induction false} ReverseKeepsElements(xs: seq<Callback>)
    ensures multiset(Reverse(xs)) == multiset(xs)
  {
    if xs != [] {
      assert xs == xs[..|xs|-1] + [xs[|xs|-1]];
      ReverseKeepsElements(xs[..|xs|-1]);
    }
  }

  ghost function Balance(w: World): multiset<Callback> { multiset(w.trace) + multiset(Flatten(w.stacks)) }

  lemma {:induction false} FlattenCons(x: seq<Callback>, rest: seq<seq<Callback>>)
    ensures Flatten([x] + rest) == x + Flatten(rest)
  {
    assert ([x] + rest)[1..] == rest;
  }

  lemma {:induction false} ProcessBalance(w: World)
    ensures Balance(Process(w)) == Balance(w)
  {
    if w.stacks != [] {
      var rest := w.stacks[1..];
      assert w.stacks == [w.stacks[0]] + rest;
      FlattenCons(w.stacks[0], rest);
      FlattenCons([], rest);
      ReverseKeepsElements(w.stacks[0]);
      assert [] + Flatten(rest) == Flatten(rest);
    }
  }

  lemma {:induction false} RegisterBalance(w: World, c: Callback)
    requires w.stacks != []
    ensures Balance(Apply(w, Register(c))) == Balance(w) + multiset{c}
  {
    hide Flatten;
    var rest := w.stacks[1..];
    assert w.stacks == [w.stacks[0]] + rest;
    FlattenCons(w.stacks[0], rest);
    FlattenCons(w.stacks[0] + [c], rest);
  }

  lemma {:induction false} StepBalance(w: World, op: Op)
    ensures Balance(Apply(w, op)) ==
            Balance(w) + if op.Register? && w.stacks != [] then multiset{op.callback} else multiset{}
  {
    hide Flatten, Balance;
    match op
    case Create => CreateBalance(w);
    case Register(c) => if w.stacks != [] { RegisterBalance(w, c); }
    case ProcessNow => ProcessBalance(w);
    case Destroy =>
      ProcessBalance(w);
      if w.stacks != [] { PopBalance(Process(w)); }
  }

  lemma {:induction false} CreateBalance(w: World)
    ensures Balance(Apply(w, Create)) == Balance(w)
  {
    FlattenCons([], w.stacks);
    assert [] + Flatten(w.stacks) == Flatten(w.stacks);
  }

  lemma {:induction false} PopBalance(w: World)
    requires w.stacks != [] && w.stacks[0] == []
    ensures Balance(World(w.stacks[1..], w.trace)) == Balance(w)
  {
    assert w.stacks == [[]] + w.stacks[1..];
    FlattenCons([], w.stacks[1..]);
    assert [] + Flatten(w.stacks[1..]) == Flatten(w.stacks[1..]);
  }

  /** Over every run nothing is lost and nothing runs twice: what was registered has either
      run or is still pending, each as often as it was registered. */
  lemma {:induction false} NothingLostOrRepeated(w: World, ops: seq<Op>)
    ensures Balance(Run(w, ops)) == Balance(w) + multiset(Accepted(w, ops))
    decreases |ops|
  {
    if ops != [] {
      StepBalance(w, ops[0]);
      NothingLostOrRepeated(Apply(w, ops[0]), ops[1..]);
    }
  }

  /** When the last manager is gone, every accepted callback has run exactly once. */
  lemma {:induction false} AllRunInTheEnd(ops: seq<Op>)
    ensures var w := World([], []);
            Run(w, ops).stacks == [] ==> multiset(Run(w, ops).trace) == multiset(Accepted(w, ops))
  {
    var w := World([], []);
    NothingLostOrRepeated(w, ops);
    assert Balance(w) == multiset{};
    if Run(w, ops).stacks == [] {
      assert Balance(Run(w, ops)) == multiset(Run(w, ops).trace);
    }
  }

  /** Only the newest managers, those above the n oldest, are ever on top during the run. */
  predicate StaysAbove(w: World, ops: seq<Op>, n: nat)
    decreases |ops|
  {
    |w.stacks| > n && (ops == [] || StaysAbove(Apply(w, ops[0]), ops[1..], n))
  }

  function Oldest(w: World, n: nat): seq<seq<Callback>>
    requires n <= |w.stacks|
  {
    w.stacks[|w.stacks|-n..]
  }

  /** A run above the n oldest managers leaves their callbacks alone, and so does the
      destruction of the manager that shadowed them. */
  lemma {:induction false} ShadowedStay(w: World, ops: seq<Op>, n: nat)
    requires StaysAbove(w, ops, n)
    ensures |Run(w, ops).stacks| > n && Oldest(Run(w, ops), n) == Oldest(w, n)
    decreases |ops|
  {
    if ops != [] {
      var next := Apply(w, ops[0]);
      assert Oldest(next, n) == Oldest(w, n);
      ShadowedStay(next, ops[1..], n);
    }
  }

  /** Callbacks registered in a row run once each, the last one first. */
  lemma {:induction false} RunInReverse(w: World, callbacks: seq<Callback>)
    requires w.stacks != [] && w.stacks[0] == []
    ensures var r := Run(w, Registrations(callbacks) + [ProcessNow]);
            r.trace == w.trace + Reverse(callbacks) && r.stacks == w.stacks
  {
    RegisterAll(w, callbacks);
    RunConcat(w, Registrations(callbacks), [ProcessNow]);
    var v := Run(w, Registrations(callbacks));
    assert [] + callbacks == callbacks;
    assert v.stacks[0] == callbacks;
    assert [ProcessNow][1..] == [];
    assert Run(v, [ProcessNow]) == Process(v);
    assert w.stacks == [[]] + w.stacks[1..];
  }

  /** Without a manager nothing is registered, run or destroyed, and a new one covers nothing. */
  lemma {:induction false} WithoutManager(trace: seq<Callback>, op: Op)
    ensures Apply(World([], trace), op) == World(if op.Create? then [[]] else [], trace)
  {}

  /** A destructor, too, runs callbacks registered in a row the last one first. */
  lemma {:induction false} DestroyInReverse(w: World, callbacks: seq<Callback>)
    requires w.stacks != [] && w.stacks[0] == []
    ensures var r := Run(w, Registrations(callbacks) + [Destroy]);
            r.trace == w.trace + Reverse(callbacks) && r.stacks == w.stacks[1..]
  {
    RegisterAll(w, callbacks);
    RunConcat(w, Registrations(callbacks), [Destroy]);
    var v := Run(w, Registrations(callbacks));
    assert [] + callbacks == callbacks;
    assert v.stacks[0] == callbacks;
    assert [Destroy][1..] == [];
    assert Run(v, [Destroy]) == Apply(v, Destroy);
    assert Process(v).stacks[1..] == w.stacks[1..];
  }

  /** What is pending with the depth-th manager from below after a run above the managers
      under it: what is registered while it is on top and not processed since. */
  function OwnPending(w: World, ops: seq<Op>, depth: nat, pending: seq<Callback>): seq<Callback>
    decreases |ops|
  {
    if ops == [] then pending
    else
      var next :=
        if |w.stacks| != depth then pending
        else match ops[0]
             case Register(c) => pending + [c]
             case ProcessNow => []
             case _ => pending;
      OwnPending(Apply(w, ops[0]), ops[1..], depth, next)
  }

  lemma {:induction false} OwnStack(w: World, ops: seq<Op>, depth: nat)
    requires depth > 0 && StaysAbove(w, ops, depth - 1)
    ensures |Run(w, ops).stacks| >= depth
    ensures var r := Run(w, ops).stacks;
            r[|r|-depth] == OwnPending(w, ops, depth, w.stacks[|w.stacks|-depth])
    decreases |ops|
  {
    if ops != [] {
      var next := Apply(w, ops[0]);
      OwnStack(next, ops[1..], depth);
    }
  }

  /** Whatever managers came and went above it in the meantime: the destructor of a manager
      runs its own pending callbacks, each once and the last one first, and uncovers the
      managers below as they are. */
  lemma {:induction false} DestroyRunsOwn(w: World, ops: seq<Op>, depth: nat)
    requires depth > 0 && StaysAbove(w, ops, depth - 1) && |Run(w, ops).stacks| == depth
    ensures var before, after := Run(w, ops), Run(w, ops + [Destroy]);
            var own := OwnPending(w, ops, depth, w.stacks[|w.stacks|-depth]);
            after.trace == before.trace + Reverse(own) && after.stacks == before.stacks[1..]
  {
    OwnStack(w, ops, depth);
    RunConcat(w, ops, [Destroy]);
    var v := Run(w, ops);
    assert [Destroy][1..] == [];
    assert Run(v, [Destroy]) == Apply(v, Destroy);
    assert Process(v).stacks[1..] == v.stacks[1..];
  }

  function Registrations(callbacks: seq<Callback>): (ops: seq<Op>)
    ensures |ops| == |callbacks| && forall i :: 0 <= i < |ops| ==> ops[i] == Register(callbacks[i])
  {
    seq(|callbacks|, i requires 0 <= i < |callbacks| => Register(callbacks[i]))
  }

  lemma {:induction false} RegisterAll(w: World, callbacks: seq<Callback>)
    requires w.stacks != []
    ensures Run(w, Registrations(callbacks)) == w.(stacks := [w.stacks[0] + callbacks] + w.stacks[1..])
    decreases |callbacks|
  {
    if callbacks == [] {
      assert w.stacks[0] + callbacks == w.stacks[0];
      assert w.stacks == [w.stacks[0]] + w.stacks[1..];
    } else {
      var next := Apply(w, Register(callbacks[0]));
      RegisterAll(next, callbacks[1..]);
      assert Registrations(callbacks)[1..] == Registrations(callbacks[1..]);
      assert next.stacks[0] + callbacks[1..] == w.stacks[0] + callbacks;
    }
  }

  lemma {:induction false} RunConcat(w: World, xs: seq<Op>, ys: seq<Op>)
    ensures Run(w, xs + ys) == Run(Run(w, xs), ys)
    decreases |xs|
  {
    if xs == [] {
      assert xs + ys == ys;
    } else {
      assert (xs + ys)[1..] == xs[1..] + ys;
      RunConcat(Apply(w, xs[0]), xs[1..], ys);
    }
  }
}
