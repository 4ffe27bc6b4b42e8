# useMergeRefs, modelled in Dafny

`useMergeRefs(refs)` (packages/compose/src/hooks/use-merge-refs/index.js)
merges a list of consumer refs into one stable ref callback. The host
attaches a node to that callback, or detaches it with `null`. The hook fans
the node out to every consumer ref. When the list of refs changes between
renders, a layout effect sends `null` to the refs that were dropped and the
current node to the refs that were added. It skips that work when the node
itself changed in the same commit, because the callback has already
notified the live list.

The model has three modules.

- `Refs` (refs.dfy) covers the consumer side. A ref is a callback, a cell
  (an object with an own `current`) or anything else, and is compared by
  identity. `Targets.Assign` is `assignRef`. Every call of a callback and
  every write to a cell is recorded as a `Delivery` in a log, and `cells`
  holds each cell's `current`. It also defines the specification functions
  `Deliver` (what a loop of `assignRef` over a list does), `Received` (what
  one ref got) and `Store` (what the cells hold afterwards), with their
  lemmas.
- `MergeRefs` (merge_refs.dfy) covers the hook.
  - The class `MergedRef` holds the four instance fields (`element`,
    `didElementChange`, `previousRefs`, `currentRefs`). It also holds the
    dependency list React remembers for the layout effect.
  - Its methods `Render`, `Reconcile`, `Callback` and `LayoutEffect` run the
    source's loops in place.
  - Each method is proved to compute a pure step function on a `State`.
    The properties of the hook are lemmas about those step functions.
- `Cycles` (cycles.dfy) composes the entry points into React commit
  cycles: render, then the host's calls of the merged callback, then the
  layout effect. It holds the finding below.

Calls of the host's ref callbacks are not executed. They are recorded as
deliveries. React's scheduling is represented by the order of the step
functions in `Cycles.Cycle`.

Two points follow the code rather than the prose description of the hook:

- A ref added while no node is attached is still called, with `null`
  (line 58 passes `element.current` unconditionally).
- A detach (`null`) goes to the list last reconciled, not to the live list
  (line 77).

Calling the merged ref with `null` before the first layout effect makes the
source iterate an undefined `previousRefs`, which throws a TypeError. The
model keeps this path. `Callback` then returns `ok == false`, and it has
still set `element` and the flag, as the source does before the loop.

## Model

| member | source | states |
|---|---|---|
| `Refs.Targets.Assign` | packages/compose/src/hooks/use-merge-refs/index.js:9-15 | a callback ref gets one call with the value, a cell ref's `current` becomes the value, any other ref is untouched; log and cells both advance by exactly that effect |
| `Refs.StoreEffect` | packages/compose/src/hooks/use-merge-refs/index.js:12-13 | the cell write of one `assignRef`: only the cell's own entry changes, and only for a cell ref |
| `Refs.DeliverShape` | packages/compose/src/hooks/use-merge-refs/index.js:80-82 | a loop of `assignRef` over a list makes at most one delivery per entry, each carrying the value to a callback or cell of that list |
| `Refs.ReceivedDeliver` | packages/compose/src/hooks/use-merge-refs/index.js:80-82 | a loop of `assignRef` over a list gives a callback or cell the value once per occurrence in the list, and gives any other ref nothing |
| `Refs.StoreHoldsLastReceived` | packages/compose/src/hooks/use-merge-refs/index.js:12-13 | a cell's `current` is the last value delivered to it, and a cell that got nothing keeps what it held |
| `Refs.DeliverCells` | packages/compose/src/hooks/use-merge-refs/index.js:80-82 | after a loop of `assignRef` over a list, every cell of the list holds the value and every other cell is as it was |
| `MergeRefs.MergedRef.constructor` | packages/compose/src/hooks/use-merge-refs/index.js:31-34 | the first render starts with no node, the flag down, no reconciled list, the given live list and no remembered dependencies |
| `MergeRefs.MergedRef.Render` | packages/compose/src/hooks/use-merge-refs/index.js:38 | a render only replaces the live list; nothing reaches any ref |
| `MergeRefs.MergedRef.Reconcile` | packages/compose/src/hooks/use-merge-refs/index.js:43-64 | the effect body makes exactly the deliveries of one pass, leaves the cells as those deliveries leave them, and always ends with the new refs as the reconciled list and the flag down |
| `MergeRefs.MergedRef.NotifyChanges` | packages/compose/src/hooks/use-merge-refs/index.js:44-61 | with the flag down, the two loops together make the removals and then the additions of one pass |
| `MergeRefs.MergedRef.NullRemoved` | packages/compose/src/hooks/use-merge-refs/index.js:45-51 | the first loop sends `null` to each entry of the old list that the new list lacks, in the old list's order |
| `MergeRefs.MergedRef.HandAdded` | packages/compose/src/hooks/use-merge-refs/index.js:53-60 | the second loop sends the node to each entry of the new list that the old list lacked (every entry when there is no old list), in order |
| `MergeRefs.MergedRef.Callback` | packages/compose/src/hooks/use-merge-refs/index.js:69-83 | the callback records the value and raises the flag; a node goes to the live list and `null` to the reconciled list; it reports the throw exactly when `null` comes before any reconcile |
| `MergeRefs.MergedRef.AssignAll` | packages/compose/src/hooks/use-merge-refs/index.js:80-82 | the callback's loop hands the value to every entry of the list it walks, in order |
| `MergeRefs.MergedRef.LayoutEffect` | packages/compose/src/hooks/use-merge-refs/index.js:43-65 | React runs the body the first time and whenever the dependency list differs, then remembers the new list |
| `MergeRefs.SameDepsIff` | packages/compose/src/hooks/use-merge-refs/index.js:65 | React's prefix comparison of `[refs.length, ...refs]` finds two dependency lists equal exactly when the two ref lists are identical |
| `MergeRefs.LayoutEffectRunsIff` | packages/compose/src/hooks/use-merge-refs/index.js:43-65 | with the remembered dependencies coherent, the effect runs exactly when the ref list differs from the one last reconciled |
| `MergeRefs.CoherentPreserved` | packages/compose/src/hooks/use-merge-refs/index.js:63-65 | render, callback and layout effect all keep the remembered dependencies equal to those of the reconciled list, and the layout effect leaves its refs as the reconciled list |
| `MergeRefs.RemovedCount` | packages/compose/src/hooks/use-merge-refs/index.js:46-47 | the refs the first loop nulls are the old list's entries that the new list does not include, with their multiplicity, and no others |
| `MergeRefs.AddedCount` | packages/compose/src/hooks/use-merge-refs/index.js:53-56 | the refs the second loop serves are the new list's entries that the old list does not include, with their multiplicity (all of them when there is no old list), and no others |
| `MergeRefs.FirstPass` | packages/compose/src/hooks/use-merge-refs/index.js:54-58 | the first pass with the flag down hands the current node (or `null`) to every ref of the list, in order |
| `MergeRefs.ReconcileReceived` | packages/compose/src/hooks/use-merge-refs/index.js:44-60 | per ref: nothing when the flag is up; otherwise `null` for each occurrence in the old list of a dropped ref, then the node for each occurrence in the new list of an added ref; a ref in both lists gets nothing |
| `MergeRefs.ReconcileExactlyOnce` | packages/compose/src/hooks/use-merge-refs/index.js:45-60 | with lists free of repeats, a dropped ref gets exactly `[null]`, an added ref exactly `[node]`, and a ref kept (or never listed) nothing |
| `MergeRefs.ReconcileCells` | packages/compose/src/hooks/use-merge-refs/index.js:44-60 | after a pass with the flag down, an added cell holds the node, a dropped cell holds `null`, every other cell is unchanged |
| `MergeRefs.RemovalsBeforeAdditions` | packages/compose/src/hooks/use-merge-refs/index.js:45-60 | every delivery of a pass nulls a dropped ref or hands the node to an added one, and no removal follows an addition |
| `MergeRefs.CallbackReceived` | packages/compose/src/hooks/use-merge-refs/index.js:77-82 | when it does not throw, the callback gives each ref of the list it walks the value once per occurrence and gives every other ref nothing |
| `MergeRefs.CallbackCells` | packages/compose/src/hooks/use-merge-refs/index.js:77-82 | when it does not throw, each cell of the walked list holds the value and every other cell keeps its content |
| `MergeRefs.CallbackThrowsLate` | packages/compose/src/hooks/use-merge-refs/index.js:72-80 | on the throwing path the node is recorded as `null` and the flag is raised, but no ref is called or written |
| `Cycles.CallbacksFirstKeepLists` | packages/compose/src/hooks/use-merge-refs/index.js:69-83 | any number of callback invocations leave both ref lists and the remembered dependencies alone |
| `Cycles.CycleCoherent` | packages/compose/src/hooks/use-merge-refs/index.js:36-65 | every commit cycle ends with its refs as both the live and the reconciled list, with coherent remembered dependencies |
| `Cycles.QuietCycle` | packages/compose/src/hooks/use-merge-refs/index.js:40-65 | a cycle in which the host passes no node makes no delivery when the refs are unchanged, and makes one reconcile pass otherwise |
| `Cycles.StaleFlagSkipsNextChange` | packages/compose/src/hooks/use-merge-refs/index.js:63-73 | as written: a cycle that passes a node with the refs unchanged leaves the flag up, and the next cycle that changes the refs delivers nothing |
| `Cycles.StaleFlagMissesChurn` | packages/compose/src/hooks/use-merge-refs/index.js:40-65 | as written, on the trace in Findings: the last cycle delivers nothing, the dropped cell keeps node 2, the added cell is never written |
| `Cycles.FixedCycleHandlesChurn` | packages/compose/src/hooks/use-merge-refs/index.js:40-42 | corrected, same trace: the last cycle nulls the dropped cell, then hands node 2 to the added cell |
| `Cycles.FixedCycleInvariant` | packages/compose/src/hooks/use-merge-refs/index.js:63-64 | corrected: every cycle ends with the flag down, coherent dependencies, and its refs as both lists |
| `Cycles.FixedCycleNotifiesChurn` | packages/compose/src/hooks/use-merge-refs/index.js:40-60 | corrected: after any cycle, a cycle that only changes the refs nulls the dropped refs and then hands the node to the added ones |
| `Cycles.FixedCycleKeepsSynced` | packages/compose/src/hooks/use-merge-refs/index.js:17-24 | corrected: if every live cell holds the node, it still does after a cycle that only changes the refs, and every dropped cell holds `null` |

## Left out

- React's hook machinery (`useRef`, `useCallback`, `useLayoutEffect`) is not modelled. Instance state is the fields of one `MergedRef`. The callback's stable identity is that object. React's ordering is fixed by `Cycles.Cycle`: render, then the host's callback calls, then the layout effect.
- Callbacks are caller code and are not executed. A callback ref that throws, re-enters the hook, or changes a ref list is outside the model.
- The TypeError of `null` before the first reconcile ends the callback with `ok == false`. The exception propagating through React's commit is not modelled; `Cycles` carries on with the state as left.
- Values are `null` or a node, and every node is truthy. The source's truthiness test at line 77 and `undefined` or other falsy values are not modelled.
- Ref identity is an id per constructor. Duck typing of refs (`typeof`, `hasOwnProperty('current')`) is represented by which constructor a ref has.
- React's development warning when a dependency list changes length is not modelled. Only its comparison is.
- packages/block-editor/src/components/inner-blocks/use-nested-settings-update.js is not part of this model: it is store plumbing resting on an external equality library.
- packages/dom/src/dom/insert-after.js is not part of this model: it is a single DOM call.
- packages/dom/src/dom/get-range-height.js is not part of this model: it is browser geometry in floating point.

## Findings

| source | as written | input that shows it | evidently intended | confidence | as-written member | corrected member |
|---|---|---|---|---|---|---|
| packages/compose/src/hooks/use-merge-refs/index.js:63-73 | `didElementChange` is lowered only in the layout effect body (line 64), and React skips that body while `[refs.length, ...refs]` is unchanged (line 65). A node change in a cycle with unchanged refs leaves the flag up into later cycles. | cycle 1: refs `[a]`, node 1 attached; cycle 2: refs `[a]`, node 1 detached and node 2 attached; cycle 3: refs `[b]`, no node change. Cycle 3 delivers nothing: `a.current` stays node 2 and `b.current` is never set. | The flag marks a node change "in the same cycle" (lines 40-42), so it is lowered at the end of every commit. Cycle 3 then nulls `a` and hands node 2 to `b`. | not executed | `Cycles.StaleFlagMissesChurn` | `Cycles.FixedCycleHandlesChurn` |

`Cycles.StaleFlagSkipsNextChange` states the as-written behaviour for every
state and trace. `Cycles.FixedCycleNotifiesChurn` and
`Cycles.FixedCycleKeepsSynced` state the corrected behaviour in general, on
`Cycles.FixedCycle`.
