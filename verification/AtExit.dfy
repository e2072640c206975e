/** AtExitManager with its fields and the global pointer to the top manager. */
module AtExit {
  import opened Basics
  import opened AtExitModel

  class AtExitManager {
    var stack: seq<Callback>
    const nextManager: AtExitManager?  // never changes once the manager is there

    constructor (next: AtExitManager?)
      ensures stack == [] && nextManager == next
    {
      stack, nextManager := [], next;
    }
  }

  /** Following the pointers from top visits exactly the given managers, all different. */
  ghost predicate Linked(top: AtExitManager?, managers: seq<AtExitManager>) {
    if managers == [] then top == null
    else top == managers[0] && managers[0] !in managers[1..] && Linked(managers[0].nextManager, managers[1..])
  }

  lemma {:induction false} LinkedDistinct(top: AtExitManager?, managers: seq<AtExitManager>)
    requires Linked(top, managers)
    ensures forall i, j :: 0 <= i < j < |managers| ==> managers[i] != managers[j]
  {
    if managers != [] { LinkedDistinct(managers[0].nextManager, managers[1..]); }
  }

  /** The global state: g_top_manager, and what the callbacks did so far. */
  class Globals {
    var topManager: AtExitManager?
    var trace: seq<Callback>
    ghost var managers: seq<AtExitManager>

    ghost predicate Valid()
      reads this, managers
    {
      Linked(topManager, managers)
    }

    ghost function View(): World
      reads this, managers
    {
      World(seq(|managers|, i requires 0 <= i < |managers| reads this, managers => managers[i].stack), trace)
    }

    constructor ()
      ensures Valid() && managers == [] && View() == World([], [])
    {
      topManager, trace, managers := null, [], [];
    }

    /** The constructors: a further manager may only be made to shadow the others. */
    method Create(shadow: bool) returns (m: AtExitManager)
      requires Valid() && (shadow || topManager == null)
      modifies this
      ensures Valid() && fresh(m) && managers == [m] + old(managers)
      ensures View() == Apply(old(View()), AtExitModel.Create)
    {
      m := new AtExitManager(topManager);
      topManager := m;
      managers := [m] + managers;
      assert managers[1..] == old(managers);
    }

    method RegisterCallback(callback: Callback)
      requires Valid()
      modifies managers
      ensures Valid() && managers == old(managers)
      ensures View() == Apply(old(View()), Register(callback))
    {
      if topManager == null { return; }
      LinkedDistinct(topManager, managers);
      topManager.stack := topManager.stack + [callback];
    }

    method ProcessCallbacksNow()
      requires Valid()
      modifies this, managers
      ensures Valid() && managers == old(managers) && topManager == old(topManager)
      ensures View() == Process(old(View()))
    {
      if topManager == null { return; }
      LinkedDistinct(topManager, managers);
      ghost var all, before := topManager.stack, trace;
      while topManager.stack != []
        invariant Valid() && managers == old(managers) && topManager == old(topManager) && topManager != null
        invariant forall i :: 1 <= i < |managers| ==> managers[i].stack == old(managers[i].stack)
        invariant trace + Reverse(topManager.stack) == before + Reverse(all)
        decreases |topManager.stack|
      {
        var n := |topManager.stack|;
        var callback := topManager.stack[n-1];
        topManager.stack := topManager.stack[..n-1];
        trace := trace + [callback];
        assert Reverse(topManager.stack + [callback]) == [callback] + Reverse(topManager.stack);
      }
      assert View().stacks == [[]] + old(View()).stacks[1..];
    }

    /** The destructor of the top manager. */
    method Destroy(m: AtExitManager)
      requires Valid() && topManager == m
      modifies this, managers
      ensures Valid() && managers == old(managers)[1..]
      ensures View() == Apply(old(View()), AtExitModel.Destroy)
    {
      if topManager == null { return; }
      ProcessCallbacksNow();
      topManager := m.nextManager;
      ghost var w := View();
      managers := managers[1..];
      assert View().stacks == w.stacks[1..];
    }
  }
}
