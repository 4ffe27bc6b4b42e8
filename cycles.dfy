/** Commit cycles of a component that calls `useMergeRefs`.

    React orders the three entry points within one cycle: the render hands
    the hook the live ref list, then the host hands the merged ref callback
    each node it detaches (`null`) or attaches, then the layout effect runs
    when its dependency list changed.

    The hook clears `didElementChange` only in the layout effect body, and
    that body is skipped when the ref list is unchanged. So a cycle in which
    the node changes but the refs do not leaves the flag up, and the next
    change of the ref list is then taken for one that the callback already
    handled: the dropped ref keeps the node and the new ref never gets it.
    `Cycle` models the cycle as written; `FixedCycle` also lowers the flag
    at the end of every commit, which is what the comment above the layout
    effect describes ("except when the element changes in the same cycle").
 */
module Cycles {
  import opened Refs
  import opened MergeRefs

  /** The host hands the merged callback the first `n` values of `attach`, in order. */
  function CallbacksFirst(s: State, attach: seq<Value>, n: nat): State
    requires n <= |attach|
  {
    if n == 0 then s else CallbackStep(CallbacksFirst(s, attach, n - 1), attach[n - 1])
  }

  function Callbacks(s: State, attach: seq<Value>): State
  {
    CallbacksFirst(s, attach, |attach|)
  }

  /** One commit cycle with `refs`, as the source is written. */
  function Cycle(s: State, refs: seq<Ref>, attach: seq<Value>): State
  {
    LayoutEffectStep(Callbacks(RenderStep(s, refs), attach), refs)
  }

  /** One commit cycle with the flag lowered once the commit is over. */
  function FixedCycle(s: State, refs: seq<Ref>, attach: seq<Value>): State
  {
    var t := Cycle(s, refs, attach);
    t.(hook := t.hook.(didElementChange := false))
  }

  /** The callbacks touch neither ref list nor the remembered dependencies. */
  lemma {:induction false} CallbacksFirstKeepLists(s: State, attach: seq<Value>, n: nat)
    requires n <= |attach|
    ensures CallbacksFirst(s, attach, n).hook.previousRefs == s.hook.previousRefs
    ensures CallbacksFirst(s, attach, n).hook.currentRefs == s.hook.currentRefs
    ensures CallbacksFirst(s, attach, n).hook.effectDeps == s.hook.effectDeps
  {
    if n > 0 {
      CallbacksFirstKeepLists(s, attach, n - 1);
    }
  }

  /** Each cycle leaves the remembered dependency list coherent, with the
      cycle's refs as the list last reconciled and as the live list. */
  lemma CycleCoherent(s: State, refs: seq<Ref>, attach: seq<Value>)
    requires Coherent(s.hook)
    ensures Coherent(Cycle(s, refs, attach).hook)
    ensures Cycle(s, refs, attach).hook.previousRefs == Some(refs)
    ensures Cycle(s, refs, attach).hook.currentRefs == refs
  {
    var u := Callbacks(RenderStep(s, refs), attach);
    CallbacksFirstKeepLists(RenderStep(s, refs), attach, |attach|);
    assert Coherent(u.hook);
    CoherentPreserved(u, refs, None);
  }

  /** A cycle with no node handed over reconciles the refs, when they
      changed, from where the previous cycle left the hook. */
  lemma QuietCycle(s: State, refs: seq<Ref>)
    requires Coherent(s.hook)
    ensures Cycle(s, refs, []).world
         == if s.hook.previousRefs == Some(refs) then s.world
            else Emit(s.world, ReconcileDeliveries(s.hook, refs))
  {
    var r := RenderStep(s, refs);
    assert Callbacks(r, []) == r;
    LayoutEffectRunsIff(r.hook, refs);
  }

  /** As written: once a cycle hands over a node with the refs unchanged,
      the next cycle that changes the refs hands nothing to anyone. */
  lemma StaleFlagSkipsNextChange(s: State, refs: seq<Ref>, attach: seq<Value>, refs2: seq<Ref>)
    requires Coherent(s.hook) && s.hook.previousRefs == Some(refs)
    requires attach != [] && refs2 != refs
    ensures Cycle(s, refs, attach).hook.didElementChange
    ensures Cycle(Cycle(s, refs, attach), refs2, []).world == Cycle(s, refs, attach).world
  {
    var r := RenderStep(s, refs);
    var u := Callbacks(r, attach);
    CallbacksFirstKeepLists(r, attach, |attach|);
    LayoutEffectRunsIff(u.hook, refs);
    var t := Cycle(s, refs, attach);
    assert t == u.(hook := u.hook.(effectDeps := Some(Deps(refs))));
    CycleCoherent(s, refs, attach);
    QuietCycle(t, refs2);
    assert ReconcileDeliveries(t.hook, refs2) == [];
    assert t.world.log + [] == t.world.log;
  }

  const a: Ref := Cell(0)
  const b: Ref := Cell(1)

  /** The hook after its first render with `[a]`, and no cell yet. */
  function Start(): State
  {
    State(Init([a]), World(map[], []))
  }

  /** As written. Node 1 is attached under `[a]`; node 1 is swapped for
      node 2 with the refs unchanged; then `a` is replaced by `b`. The last
      cycle hands nothing: `a` keeps node 2 and `b` never gets it. */
  lemma StaleFlagMissesChurn()
    ensures var t := Cycle(Cycle(Start(), [a], [Some(1)]), [a], [None, Some(2)]);
            var u := Cycle(t, [b], []);
            u.world.log == t.world.log && u.world.cells == map[0 := Some(2)] && 1 !in u.world.cells
  {
    var s1 := Cycle(Start(), [a], [Some(1)]);
    assert s1.hook == Hook(Some(1), false, Some([a]), [a], Some(Deps([a])));
    var s2 := Cycle(s1, [a], [None, Some(2)]);
    assert s2.hook == Hook(Some(2), true, Some([a]), [a], Some(Deps([a])));
    assert s2.world.cells == map[0 := Some(2)];
    var s3 := Cycle(s2, [b], []);
    SameDepsIff([a], [b]);
    assert s3.world == s2.world;
  }

  /** The first two fixed cycles of the trace above: the flag is down
      after each. */
  lemma FixedTracePrefix()
    ensures var t := FixedCycle(FixedCycle(Start(), [a], [Some(1)]), [a], [None, Some(2)]);
            t.hook == Hook(Some(2), false, Some([a]), [a], Some(Deps([a])))
            && t.world.cells == map[0 := Some(2)]
  {
    var s1 := FixedCycle(Start(), [a], [Some(1)]);
    assert s1.hook == Hook(Some(1), false, Some([a]), [a], Some(Deps([a])));
    assert s1.world.cells == map[0 := Some(1)];
    var s2 := FixedCycle(s1, [a], [None, Some(2)]);
    assert s2.hook == Hook(Some(2), false, Some([a]), [a], Some(Deps([a])));
  }

  /** A pass with the flag down that replaces `[a]` by `[b]` while node 2 is
      attached nulls `a`, then hands node 2 to `b`. */
  lemma ChurnDeliveries()
    ensures ReconcileDeliveries(Hook(Some(2), false, Some([a]), [b], Some(Deps([a]))), [b])
         == [Delivery(a, None), Delivery(b, Some(2))]
  {
    assert a !in [b] && b !in [a];
    assert Removed([a], [b]) == RemovedFirst([a], 0, [b]) + [a] == [a];
    assert Added([b], Some([a])) == AddedFirst([b], 0, Some([a])) + [b] == [b];
    assert Deliver([a], None) == DeliverFirst([a], 0, None) + Effect(a, None) == [Delivery(a, None)];
    assert Deliver([b], Some(2)) == DeliverFirst([b], 0, Some(2)) + Effect(b, Some(2)) == [Delivery(b, Some(2))];
  }

  /** Corrected: with the flag lowered after each commit, the same churn
      nulls `a` and hands node 2 to `b`. */
  lemma FixedCycleHandlesChurn()
    ensures var t := FixedCycle(FixedCycle(Start(), [a], [Some(1)]), [a], [None, Some(2)]);
            var u := FixedCycle(t, [b], []);
            u.world.log == t.world.log + [Delivery(a, None), Delivery(b, Some(2))]
            && u.world.cells == map[0 := None, 1 := Some(2)]
  {
    var t := FixedCycle(FixedCycle(Start(), [a], [Some(1)]), [a], [None, Some(2)]);
    FixedTracePrefix();
    var ds := ReconcileDeliveries(t.hook.(currentRefs := [b]), [b]);
    ChurnDeliveries();
    SameDepsIff([a], [b]);
    QuietCycle(t, [b]);
    assert Store(t.world.cells, ds) == map[0 := None, 1 := Some(2)] by {
      StoreSnoc(t.world.cells, [Delivery(a, None)], Delivery(b, Some(2)));
      assert [Delivery(a, None)] + [Delivery(b, Some(2))] == ds;
      StoreEffect(t.world.cells, a, None);
    }
  }

  /** Each fixed cycle ends with the flag down, the remembered dependency
      list coherent and the cycle's refs as both lists. */
  lemma FixedCycleInvariant(s: State, refs: seq<Ref>, attach: seq<Value>)
    requires Coherent(s.hook)
    ensures var t := FixedCycle(s, refs, attach);
            Coherent(t.hook) && !t.hook.didElementChange
            && t.hook.previousRefs == Some(refs) && t.hook.currentRefs == refs
  {
    CycleCoherent(s, refs, attach);
  }

  /** Corrected: after any fixed cycle, a cycle that only changes the refs
      nulls each dropped ref and hands each new ref the node. */
  lemma FixedCycleNotifiesChurn(s: State, refs: seq<Ref>, attach: seq<Value>, refs2: seq<Ref>)
    requires Coherent(s.hook)
    ensures var t := FixedCycle(s, refs, attach);
            (FixedCycle(t, refs2, []).world
             == if refs2 == refs then t.world
                else Emit(t.world, Deliver(Removed(refs, refs2), None) + Deliver(Added(refs2, Some(refs)), t.hook.element)))
  {
    var t := FixedCycle(s, refs, attach);
    FixedCycleInvariant(s, refs, attach);
    QuietCycle(t, refs2);
  }

  /** Every cell of the live list holds the node. */
  ghost predicate Synced(s: State)
  {
    forall id :: Cell(id) in s.hook.currentRefs ==> id in s.world.cells && s.world.cells[id] == s.hook.element
  }

  /** Corrected: a cycle that only changes the refs keeps every cell of the
      live list holding the node, and nulls every cell it dropped. */
  lemma FixedCycleKeepsSynced(s: State, refs: seq<Ref>, attach: seq<Value>, refs2: seq<Ref>)
    requires Coherent(s.hook) && Synced(FixedCycle(s, refs, attach))
    ensures Synced(FixedCycle(FixedCycle(s, refs, attach), refs2, []))
    ensures var u := FixedCycle(FixedCycle(s, refs, attach), refs2, []);
            forall id :: Cell(id) in refs && Cell(id) !in refs2 ==> id in u.world.cells && u.world.cells[id].None?
  {
    var t := FixedCycle(s, refs, attach);
    var u := FixedCycle(t, refs2, []);
    FixedCycleInvariant(s, refs, attach);
    FixedCycleNotifiesChurn(s, refs, attach, refs2);
    FixedCycleInvariant(t, refs2, []);
    assert u.hook.element == t.hook.element;
    if refs2 != refs {
      var h := t.hook.(currentRefs := refs2);
      assert Emit(t.world, ReconcileDeliveries(h, refs2)) == u.world;
      forall id | Cell(id) in refs2 || Cell(id) in refs
        ensures Cell(id) in refs2 ==> id in u.world.cells && u.world.cells[id] == u.hook.element
        ensures Cell(id) !in refs2 ==> id in u.world.cells && u.world.cells[id].None?
      {
        ReconcileCells(h, refs2, t.world.cells, id);
      }
    }
  }
}
