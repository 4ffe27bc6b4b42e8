/** The merged-ref hook `useMergeRefs`.

    The hook keeps four pieces of instance state: the latest node
    (`element`), a flag raised whenever the host hands the merged ref a node
    (`didElementChange`), the ref list last reconciled (`previousRefs`,
    absent before the first pass) and the live ref list (`currentRefs`).
    Three entry points act on it: every render rewrites the live list; a
    layout effect reconciles a changed list, nulling removed refs and
    handing the node to added ones; and the merged ref callback itself,
    created once, records the node and fans it out.

    The pure step functions below give the meaning of each entry point on a
    `State`; the class `MergedRef` runs them in place, with the source's
    loops, and each of its methods is proved to compute its step function.
 */
module MergeRefs {
  import opened Refs

  /** An entry of the layout effect's dependency list `[refs.length, ...refs]`. */
  datatype Dep = Length(n: nat) | Identity(ref: Ref)

  /** The hook's own state, plus the dependency list React remembers for the
      layout effect (`effectDeps`, absent before the effect first ran). */
  datatype Hook = Hook(
    element: Value,
    didElementChange: bool,
    previousRefs: Option<seq<Ref>>,
    currentRefs: seq<Ref>,
    effectDeps: Option<seq<Dep>>)

  /** The consumer side: the `current` of every cell and every delivery so far. */
  datatype World = World(cells: map<nat, Value>, log: seq<Delivery>)

  datatype State = State(hook: Hook, world: World)

  /** The hook after its first render with `refs`. */
  function Init(refs: seq<Ref>): Hook
  {
    Hook(None, false, None, refs, None)
  }

  /** The layout effect's dependency list for `refs`. */
  function Deps(refs: seq<Ref>): seq<Dep>
  {
    [Length(|refs|)] + seq(|refs|, i requires 0 <= i < |refs| => Identity(refs[i]))
  }

  /** React's test that lets an effect be skipped: the two lists agree,
      under `Object.is`, at every position both of them have. */
  predicate SameDeps(prev: seq<Dep>, next: seq<Dep>)
  {
    forall i :: 0 <= i < |prev| && i < |next| ==> prev[i] == next[i]
  }

  /** The refs among the first `n` of `prev` that are not in `refs`, in order. */
  function RemovedFirst(prev: seq<Ref>, n: nat, refs: seq<Ref>): seq<Ref>
    requires n <= |prev|
  {
    if n == 0 then []
    else RemovedFirst(prev, n - 1, refs) + (if prev[n - 1] in refs then [] else [prev[n - 1]])
  }

  /** The refs of `prev` that are not in `refs`, in order. */
  function Removed(prev: seq<Ref>, refs: seq<Ref>): seq<Ref>
  {
    RemovedFirst(prev, |prev|, refs)
  }

  /** The refs among the first `n` of `refs` that are not in `prev` (all of
      them when `prev` is absent), in order. */
  function AddedFirst(refs: seq<Ref>, n: nat, prev: Option<seq<Ref>>): seq<Ref>
    requires n <= |refs|
  {
    if n == 0 then []
    else AddedFirst(refs, n - 1, prev) + (if prev.Some? && refs[n - 1] in prev.value then [] else [refs[n - 1]])
  }

  /** The refs of `refs` that are not in `prev`, in order. */
  function Added(refs: seq<Ref>, prev: Option<seq<Ref>>): seq<Ref>
  {
    AddedFirst(refs, |refs|, prev)
  }

  /** The deliveries one reconcile pass with `refs` makes from hook state `h`. */
  function ReconcileDeliveries(h: Hook, refs: seq<Ref>): seq<Delivery>
  {
    if h.didElementChange then []
    else
      (if h.previousRefs.Some? then Deliver(Removed(h.previousRefs.value, refs), None) else [])
      + Deliver(Added(refs, h.previousRefs), h.element)
  }

  /** The merged callback throws when it is handed `null` before any
      reconcile pass: it iterates `previousRefs`, which is undefined. */
  predicate CallbackThrows(h: Hook, value: Value)
  {
    value.None? && h.previousRefs.None?
  }

  /** The deliveries of the merged callback: a node goes to the live list,
      `null` to the list last reconciled. */
  function CallbackDeliveries(h: Hook, value: Value): seq<Delivery>
  {
    if value.Some? then Deliver(h.currentRefs, value)
    else if h.previousRefs.Some? then Deliver(h.previousRefs.value, None)
    else []
  }

  function Emit(w: World, ds: seq<Delivery>): World
  {
    World(Store(w.cells, ds), w.log + ds)
  }

  function RenderStep(s: State, refs: seq<Ref>): State
  {
    s.(hook := s.hook.(currentRefs := refs))
  }

  function ReconcileStep(s: State, refs: seq<Ref>): State
  {
    State(s.hook.(previousRefs := Some(refs), didElementChange := false),
          Emit(s.world, ReconcileDeliveries(s.hook, refs)))
  }

  function CallbackStep(s: State, value: Value): State
  {
    State(s.hook.(element := value, didElementChange := true),
          Emit(s.world, CallbackDeliveries(s.hook, value)))
  }

  /** Whether the layout effect body runs for `refs`: always the first time,
      afterwards when the dependency lists differ. */
  predicate EffectRuns(h: Hook, refs: seq<Ref>)
  {
    h.effectDeps.None? || !SameDeps(h.effectDeps.value, Deps(refs))
  }

  function LayoutEffectStep(s: State, refs: seq<Ref>): State
  {
    var t := if EffectRuns(s.hook, refs) then ReconcileStep(s, refs) else s;
    t.(hook := t.hook.(effectDeps := Some(Deps(refs))))
  }

  /** The remembered dependency list is that of the list last reconciled. */
  ghost predicate Coherent(h: Hook)
  {
    if h.previousRefs.None? then h.effectDeps.None?
    else h.effectDeps == Some(Deps(h.previousRefs.value))
  }

  class MergedRef {
    var element: Value
    var didElementChange: bool
    var previousRefs: Option<seq<Ref>>
    var currentRefs: seq<Ref>
    var effectDeps: Option<seq<Dep>>
    const targets: Targets

    function Snapshot(): State
      reads this, targets
    {
      State(Hook(element, didElementChange, previousRefs, currentRefs, effectDeps),
            World(targets.cells, targets.log))
    }

    /** The first render: the refs are held, nothing else is known yet. */
    constructor (refs: seq<Ref>, targets: Targets)
      ensures this.targets == targets
      ensures Snapshot() == State(Init(refs), World(targets.cells, targets.log))
    {
      element := None;
      didElementChange := false;
      previousRefs := None;
      currentRefs := refs;
      effectDeps := None;
      this.targets := targets;
    }

    /** A render hands the hook the live ref list. */
    method Render(refs: seq<Ref>)
      modifies this
      ensures currentRefs == refs
      ensures Snapshot() == RenderStep(old(Snapshot()), refs)
    {
      currentRefs := refs;
    }

    /** The layout effect body. */
    method Reconcile(refs: seq<Ref>)
      modifies this, targets
      ensures previousRefs == Some(refs) && !didElementChange
      ensures Snapshot() == ReconcileStep(old(Snapshot()), refs)
    {
      ghost var h := Snapshot().hook;
      ghost var w := Snapshot().world;
      ghost var ds := ReconcileDeliveries(h, refs);
      if !didElementChange {
        NotifyChanges(refs);
      } else {
        assert targets.log == w.log + ds;
      }
      previousRefs := Some(refs);
      didElementChange := false;
      assert Snapshot().hook == h.(previousRefs := Some(refs), didElementChange := false);
      assert Snapshot().world == Emit(w, ds);
    }

    /** The two loops of the layout effect, run when the flag is down. */
    method NotifyChanges(refs: seq<Ref>)
      requires !didElementChange
      modifies targets
      ensures targets.log == old(targets.log) + ReconcileDeliveries(Snapshot().hook, refs)
      ensures targets.cells == Store(old(targets.cells), ReconcileDeliveries(Snapshot().hook, refs))
    {
      ghost var removals: seq<Delivery> := [];
      if previousRefs.Some? {
        NullRemoved(previousRefs.value, refs);
        removals := Deliver(Removed(previousRefs.value, refs), None);
      } else {
        assert targets.log == old(targets.log) + removals;
      }
      ghost var additions := Deliver(Added(refs, previousRefs), element);
      HandAdded(refs, previousRefs, element);
      StoreAppend(old(targets.cells), removals, additions);
      assert ReconcileDeliveries(Snapshot().hook, refs) == removals + additions;
    }

    /** The first loop of the layout effect: `null` to every ref of `prev`
        that `refs` no longer holds. */
    method NullRemoved(prev: seq<Ref>, refs: seq<Ref>)
      modifies targets
      ensures targets.log == old(targets.log) + Deliver(Removed(prev, refs), None)
      ensures targets.cells == Store(old(targets.cells), Deliver(Removed(prev, refs), None))
    {
      ghost var c0, l0 := targets.cells, targets.log;
      for i := 0 to |prev|
        invariant targets.log == l0 + Deliver(RemovedFirst(prev, i, refs), None)
        invariant targets.cells == Store(c0, Deliver(RemovedFirst(prev, i, refs), None))
      {
        ghost var done := Deliver(RemovedFirst(prev, i, refs), None);
        if prev[i] !in refs {
          DeliverSnoc(RemovedFirst(prev, i, refs), prev[i], None);
          StoreAppend(c0, done, Effect(prev[i], None));
          targets.Assign(prev[i], None);
        } else {
          assert RemovedFirst(prev, i + 1, refs) == RemovedFirst(prev, i, refs) + [];
          assert RemovedFirst(prev, i, refs) + [] == RemovedFirst(prev, i, refs);
        }
      }
    }

    /** The second loop of the layout effect: the node, or `null`, to every
        ref of `refs` that `prev` did not hold. */
    method HandAdded(refs: seq<Ref>, prev: Option<seq<Ref>>, value: Value)
      modifies targets
      ensures targets.log == old(targets.log) + Deliver(Added(refs, prev), value)
      ensures targets.cells == Store(old(targets.cells), Deliver(Added(refs, prev), value))
    {
      ghost var c0, l0 := targets.cells, targets.log;
      for j := 0 to |refs|
        invariant targets.log == l0 + Deliver(AddedFirst(refs, j, prev), value)
        invariant targets.cells == Store(c0, Deliver(AddedFirst(refs, j, prev), value))
      {
        ghost var done := Deliver(AddedFirst(refs, j, prev), value);
        if prev.None? || refs[j] !in prev.value {
          DeliverSnoc(AddedFirst(refs, j, prev), refs[j], value);
          StoreAppend(c0, done, Effect(refs[j], value));
          targets.Assign(refs[j], value);
        } else {
          assert AddedFirst(refs, j + 1, prev) == AddedFirst(refs, j, prev) + [];
          assert AddedFirst(refs, j, prev) + [] == AddedFirst(refs, j, prev);
        }
      }
    }

    /** The stable merged ref callback; `ok` is false where the source
        throws, after it has recorded the value and raised the flag. */
    method Callback(value: Value) returns (ok: bool)
      modifies this, targets
      ensures element == value && didElementChange
      ensures ok == !CallbackThrows(old(Snapshot().hook), value)
      ensures Snapshot() == CallbackStep(old(Snapshot()), value)
    {
      ghost var h := Snapshot().hook;
      ghost var w := Snapshot().world;
      ghost var ds := CallbackDeliveries(h, value);
      element := value;
      didElementChange := true;
      var refsToUpdate: seq<Ref>;
      if value.Some? {
        refsToUpdate := currentRefs;
      } else if previousRefs.Some? {
        refsToUpdate := previousRefs.value;
      } else {
        assert ds == [] && targets.log == w.log + ds;
        return false;
      }
      assert ds == Deliver(refsToUpdate, value);
      AssignAll(refsToUpdate, value);
      ok := true;
    }

    /** The loop of the merged callback: `value` to every ref of `refs`. */
    method AssignAll(refs: seq<Ref>, value: Value)
      modifies targets
      ensures targets.log == old(targets.log) + Deliver(refs, value)
      ensures targets.cells == Store(old(targets.cells), Deliver(refs, value))
    {
      ghost var c0, l0 := targets.cells, targets.log;
      for i := 0 to |refs|
        invariant targets.log == l0 + DeliverFirst(refs, i, value)
        invariant targets.cells == Store(c0, DeliverFirst(refs, i, value))
      {
        ghost var done := DeliverFirst(refs, i, value);
        assert DeliverFirst(refs, i + 1, value) == done + Effect(refs[i], value);
        StoreAppend(c0, done, Effect(refs[i], value));
        targets.Assign(refs[i], value);
      }
    }

    /** What React does with the layout effect after each commit: run the
        body when the dependency list changed, and remember the new list. */
    method LayoutEffect(refs: seq<Ref>)
      modifies this, targets
      ensures Snapshot() == LayoutEffectStep(old(Snapshot()), refs)
    {
      var deps := Deps(refs);
      if effectDeps.None? || !SameDeps(effectDeps.value, deps) {
        Reconcile(refs);
      }
      effectDeps := Some(deps);
    }
  }

  /** `[refs.length, ...refs]` lets React skip the effect exactly when the
      ref list is unchanged, position by position. */
  lemma SameDepsIff(a: seq<Ref>, b: seq<Ref>)
    ensures SameDeps(Deps(a), Deps(b)) <==> a == b
  {
    if SameDeps(Deps(a), Deps(b)) {
      assert Deps(a)[0] == Deps(b)[0];
      forall i | 0 <= i < |a|
        ensures a[i] == b[i]
      {
        assert Deps(a)[i + 1] == Deps(b)[i + 1];
      }
    }
  }

  lemma {:induction false} RemovedFirstAgree(a: seq<Ref>, b: seq<Ref>, n: nat, refs: seq<Ref>)
    requires n <= |a| && n <= |b|
    requires forall i :: 0 <= i < n ==> a[i] == b[i]
    ensures RemovedFirst(a, n, refs) == RemovedFirst(b, n, refs)
  {
    if n > 0 {
      RemovedFirstAgree(a, b, n - 1, refs);
    }
  }

  lemma RemovedSnoc(prev: seq<Ref>, y: Ref, refs: seq<Ref>, x: Ref)
    ensures Removed(prev + [y], refs) == Removed(prev, refs) + (if y in refs then [] else [y])
    ensures multiset(Removed(prev + [y], refs))[x]
         == multiset(Removed(prev, refs))[x] + (if x == y && x !in refs then 1 else 0)
  {
    RemovedFirstAgree(prev + [y], prev, |prev|, refs);
    var before := Removed(prev, refs);
    if y in refs {
      assert Removed(prev + [y], refs) == before + [];
      assert before + [] == before;
    } else {
      assert Removed(prev + [y], refs) == before + [y];
      CountSnoc(before, y, x);
    }
  }

  /** Removal keeps, of every ref of `prev` that `refs` lacks, all its
      occurrences, and nothing else. */
  lemma {:induction false} RemovedCount(prev: seq<Ref>, refs: seq<Ref>, x: Ref)
    ensures multiset(Removed(prev, refs))[x] == if x in refs then 0 else multiset(prev)[x]
    ensures x in Removed(prev, refs) <==> x in prev && x !in refs
  {
    if prev != [] {
      var init, y := prev[..|prev| - 1], prev[|prev| - 1];
      assert prev == init + [y];
      RemovedCount(init, refs, x);
      RemovedSnoc(init, y, refs, x);
      CountSnoc(init, y, x);
    }
  }

  lemma {:induction false} AddedFirstAgree(a: seq<Ref>, b: seq<Ref>, n: nat, prev: Option<seq<Ref>>)
    requires n <= |a| && n <= |b|
    requires forall i :: 0 <= i < n ==> a[i] == b[i]
    ensures AddedFirst(a, n, prev) == AddedFirst(b, n, prev)
  {
    if n > 0 {
      AddedFirstAgree(a, b, n - 1, prev);
    }
  }

  lemma AddedSnoc(refs: seq<Ref>, y: Ref, prev: Option<seq<Ref>>, x: Ref)
    ensures Added(refs + [y], prev) == Added(refs, prev) + (if prev.Some? && y in prev.value then [] else [y])
    ensures multiset(Added(refs + [y], prev))[x]
         == multiset(Added(refs, prev))[x] + (if x == y && !(prev.Some? && x in prev.value) then 1 else 0)
  {
    AddedFirstAgree(refs + [y], refs, |refs|, prev);
    var before := Added(refs, prev);
    if prev.Some? && y in prev.value {
      assert Added(refs + [y], prev) == before + [];
      assert before + [] == before;
    } else {
      assert Added(refs + [y], prev) == before + [y];
      CountSnoc(before, y, x);
    }
  }

  /** Addition keeps, of every ref of `refs` that `prev` lacks, all its
      occurrences, and nothing else; with no `prev` it keeps the whole list. */
  lemma {:induction false} AddedCount(refs: seq<Ref>, prev: Option<seq<Ref>>, x: Ref)
    ensures multiset(Added(refs, prev))[x] == if prev.Some? && x in prev.value then 0 else multiset(refs)[x]
    ensures x in Added(refs, prev) <==> x in refs && !(prev.Some? && x in prev.value)
    ensures prev.None? ==> Added(refs, prev) == refs
  {
    if refs != [] {
      var init, y := refs[..|refs| - 1], refs[|refs| - 1];
      assert refs == init + [y];
      AddedCount(init, prev, x);
      AddedSnoc(init, y, prev, x);
      CountSnoc(init, y, x);
    }
  }

  /** The first pass, with no node handed over in between, hands the node
      (or `null`) to every ref of the list, in order. */
  lemma FirstPass(h: Hook, refs: seq<Ref>)
    requires !h.didElementChange && h.previousRefs.None?
    ensures ReconcileDeliveries(h, refs) == Deliver(refs, h.element)
  {
    AddedCount(refs, None, Cell(0));
    assert ReconcileDeliveries(h, refs) == [] + Deliver(refs, h.element);
  }

  /** How many times a pass nulls `r`: once per occurrence in the old list,
      if the new list lacks it. */
  function RemovalsTo(h: Hook, refs: seq<Ref>, r: Ref): nat
  {
    if h.previousRefs.Some? && r !in refs then multiset(h.previousRefs.value)[r] else 0
  }

  /** How many times a pass hands `r` the node: once per occurrence in the
      new list, if the old list lacked it. */
  function AdditionsTo(h: Hook, refs: seq<Ref>, r: Ref): nat
  {
    if h.previousRefs.Some? && r in h.previousRefs.value then 0 else multiset(refs)[r]
  }

  /** What one reconcile pass hands each ref. Nothing when the flag is up.
      Otherwise `null` once per occurrence in the old list of a ref the new
      list lacks, then the node once per occurrence in the new list of a
      ref the old list lacked; a ref in both lists, or in neither, gets
      nothing. */
  lemma ReconcileReceived(h: Hook, refs: seq<Ref>, r: Ref)
    ensures Received(ReconcileDeliveries(h, refs), r)
         == if h.didElementChange || r.Other? then []
            else Repeat(None, RemovalsTo(h, refs, r)) + Repeat(h.element, AdditionsTo(h, refs, r))
  {
    if !h.didElementChange {
      var additions := Deliver(Added(refs, h.previousRefs), h.element);
      ReceivedDeliver(Added(refs, h.previousRefs), h.element, r);
      AddedCount(refs, h.previousRefs, r);
      if h.previousRefs.Some? {
        var removals := Deliver(Removed(h.previousRefs.value, refs), None);
        ReceivedAppend(removals, additions, r);
        ReceivedDeliver(Removed(h.previousRefs.value, refs), None, r);
        RemovedCount(h.previousRefs.value, refs, r);
      } else {
        assert ReconcileDeliveries(h, refs) == additions;
      }
    }
  }

  /** The cells after one pass with the flag down: a cell the pass hands the
      node holds it, a cell it nulls holds `null`, and every other cell is
      as it was. */
  lemma ReconcileCells(h: Hook, refs: seq<Ref>, cells: map<nat, Value>, id: nat)
    requires !h.didElementChange
    ensures var after := Store(cells, ReconcileDeliveries(h, refs));
            if AdditionsTo(h, refs, Cell(id)) > 0 then id in after && after[id] == h.element
            else if RemovalsTo(h, refs, Cell(id)) > 0 then id in after && after[id].None?
            else (id in after <==> id in cells) && (id in cells ==> after[id] == cells[id])
  {
    var ds := ReconcileDeliveries(h, refs);
    var k, m := RemovalsTo(h, refs, Cell(id)), AdditionsTo(h, refs, Cell(id));
    ReconcileReceived(h, refs, Cell(id));
    assert Received(ds, Cell(id)) == Repeat(None, k) + Repeat(h.element, m);
    LastOfRepeats(None, k, h.element, m);
    StoreHoldsLastReceived(cells, ds, id);
  }

  lemma LastOfRepeats(u: Value, k: nat, v: Value, m: nat)
    ensures var s := Repeat(u, k) + Repeat(v, m);
            (m > 0 ==> s != [] && s[|s| - 1] == v)
            && (m == 0 && k > 0 ==> s != [] && s[|s| - 1] == u)
            && (m == 0 && k == 0 ==> s == [])
  {
    RepeatShape(u, k);
    RepeatShape(v, m);
  }

  /** The cells after the merged callback, when it does not throw: each cell
      of the list it walks holds the value, every other cell is as it was. */
  lemma CallbackCells(h: Hook, value: Value, cells: map<nat, Value>, id: nat)
    requires !CallbackThrows(h, value)
    ensures var refsToUpdate := if value.Some? then h.currentRefs else h.previousRefs.value;
            var after := Store(cells, CallbackDeliveries(h, value));
            if Cell(id) in refsToUpdate then id in after && after[id] == value
            else (id in after <==> id in cells) && (id in cells ==> after[id] == cells[id])
  {
    var refsToUpdate := if value.Some? then h.currentRefs else h.previousRefs.value;
    assert CallbackDeliveries(h, value) == Deliver(refsToUpdate, value);
    DeliverCells(cells, refsToUpdate, value, id);
  }

  /** A list in which no ref occurs twice. */
  predicate Distinct(refs: seq<Ref>)
  {
    forall i, j :: 0 <= i < j < |refs| ==> refs[i] != refs[j]
  }

  lemma {:induction false} DistinctCount(refs: seq<Ref>, r: Ref)
    requires Distinct(refs)
    ensures multiset(refs)[r] == if r in refs then 1 else 0
  {
    if refs != [] {
      var init, x := refs[..|refs| - 1], refs[|refs| - 1];
      assert refs == init + [x];
      assert Distinct(init);
      DistinctCount(init, r);
      assert x !in init;
    }
  }

  /** With lists free of repeats, a reconcile pass with the flag down calls
      or writes a removed ref exactly once with `null`, an added ref exactly
      once with the node, and leaves every other ref alone. */
  lemma ReconcileExactlyOnce(h: Hook, refs: seq<Ref>, r: Ref)
    requires !h.didElementChange && !r.Other?
    requires Distinct(refs) && (h.previousRefs.Some? ==> Distinct(h.previousRefs.value))
    ensures h.previousRefs.Some? && r in h.previousRefs.value && r !in refs
            ==> Received(ReconcileDeliveries(h, refs), r) == [None]
    ensures r in refs && (h.previousRefs.None? || r !in h.previousRefs.value)
            ==> Received(ReconcileDeliveries(h, refs), r) == [h.element]
    ensures (r in refs) == (h.previousRefs.Some? && r in h.previousRefs.value)
            ==> Received(ReconcileDeliveries(h, refs), r) == []
  {
    ReconcileReceived(h, refs, r);
    DistinctCount(refs, r);
    if h.previousRefs.Some? {
      DistinctCount(h.previousRefs.value, r);
    }
    assert Repeat(None, 1) == [None];
    assert Repeat(h.element, 1) == [h.element];
  }

  /** A delivery of a reconcile pass from `h` that nulls a ref the new list lacks. */
  predicate IsRemoval(h: Hook, refs: seq<Ref>, d: Delivery)
  {
    d.value.None? && h.previousRefs.Some? && d.ref in h.previousRefs.value && d.ref !in refs
  }

  /** A delivery of a reconcile pass from `h` that hands the node to a ref
      the old list lacked. */
  predicate IsAddition(h: Hook, refs: seq<Ref>, d: Delivery)
  {
    d.value == h.element && d.ref in refs && (h.previousRefs.None? || d.ref !in h.previousRefs.value)
  }

  /** Every delivery of a pass is a removal or an addition to a callback or
      cell, and once an addition has been made no removal follows. */
  lemma RemovalsBeforeAdditions(h: Hook, refs: seq<Ref>)
    ensures var ds := ReconcileDeliveries(h, refs);
            (forall i :: 0 <= i < |ds| ==>
               !ds[i].ref.Other? && (IsRemoval(h, refs, ds[i]) || IsAddition(h, refs, ds[i])))
            && (forall i, j :: 0 <= i < j < |ds| && IsAddition(h, refs, ds[i]) ==> IsAddition(h, refs, ds[j]))
  {
    if !h.didElementChange {
      var ds := ReconcileDeliveries(h, refs);
      var added := Added(refs, h.previousRefs);
      var additions := Deliver(added, h.element);
      var removals: seq<Delivery> := [];
      DeliverShape(added, h.element);
      forall d | d in additions
        ensures !d.ref.Other? && IsAddition(h, refs, d)
      {
        AddedCount(refs, h.previousRefs, d.ref);
      }
      if h.previousRefs.Some? {
        var removed := Removed(h.previousRefs.value, refs);
        removals := Deliver(removed, None);
        DeliverShape(removed, None);
        forall d | d in removals
          ensures !d.ref.Other? && IsRemoval(h, refs, d)
        {
          RemovedCount(h.previousRefs.value, refs, d.ref);
        }
      }
      assert ds == removals + additions;
      var k := |removals|;
      assert forall i :: 0 <= i < k ==> ds[i] == removals[i] && ds[i] in removals;
      assert forall i :: k <= i < |ds| ==> ds[i] == additions[i - k] && ds[i] in additions;
    }
  }

  /** What the merged callback hands each ref, when it does not throw: a
      node goes to every ref of the live list, once per occurrence; `null`
      goes to every ref of the list last reconciled; no other ref gets
      anything. */
  lemma CallbackReceived(h: Hook, value: Value, r: Ref)
    requires !CallbackThrows(h, value)
    ensures Received(CallbackDeliveries(h, value), r)
         == (if r.Other? then []
             else Repeat(value, multiset(if value.Some? then h.currentRefs else h.previousRefs.value)[r]))
  {
    var refsToUpdate := if value.Some? then h.currentRefs else h.previousRefs.value;
    assert CallbackDeliveries(h, value) == Deliver(refsToUpdate, value);
    ReceivedDeliver(refsToUpdate, value, r);
  }

  /** Where the merged callback throws, it has still recorded the value and
      raised the flag, and it has handed nothing to any ref. */
  lemma CallbackThrowsLate(s: State, value: Value)
    requires CallbackThrows(s.hook, value)
    ensures CallbackStep(s, value).hook == s.hook.(element := None, didElementChange := true)
    ensures CallbackStep(s, value).world == s.world
  {
    assert s.world.log + [] == s.world.log;
  }

  /** With the remembered dependency list kept coherent, React runs the
      layout effect exactly when the ref list differs from the one last
      reconciled. */
  lemma LayoutEffectRunsIff(h: Hook, refs: seq<Ref>)
    requires Coherent(h)
    ensures EffectRuns(h, refs) <==> h.previousRefs != Some(refs)
  {
    if h.previousRefs.Some? {
      SameDepsIff(h.previousRefs.value, refs);
    }
  }

  /** Every entry point keeps the remembered dependency list coherent. */
  lemma CoherentPreserved(s: State, refs: seq<Ref>, value: Value)
    requires Coherent(s.hook)
    ensures Coherent(RenderStep(s, refs).hook)
    ensures Coherent(CallbackStep(s, value).hook)
    ensures Coherent(LayoutEffectStep(s, refs).hook)
    ensures LayoutEffectStep(s, refs).hook.previousRefs == Some(refs)
  {
    LayoutEffectRunsIff(s.hook, refs);
  }
}
