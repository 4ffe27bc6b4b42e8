/** Consumer refs and what reaches them.

    A ref is either a callback, a cell (an object with an own `current`
    property) or anything else; refs are compared by identity, which the
    model writes as an id. `assignRef` hands a value to one ref. Its
    observable effect is recorded as a `Delivery`: a call of a callback ref,
    or a write to the `current` of a cell ref.

    The functions over sequences recurse on the length of a prefix, so that
    a loop over the first `i` elements can name what it has done so far.
 */
module Refs {

  datatype Option<+T> = None | Some(value: T)

  /** The identity of a host node. Every node is truthy. */
  type Node = nat

  /** What a ref is handed: a node, or `None` for `null`. */
  type Value = Option<Node>

  /** A consumer ref, compared by identity. */
  datatype Ref =
    | Callback(id: nat)   // a function ref
    | Cell(id: nat)       // an object with an own `current` property
    | Other(id: nat)      // null, undefined, or an object without own `current`

  /** One value reaching one ref: a callback invocation or a cell write. */
  datatype Delivery = Delivery(ref: Ref, value: Value)

  /** The deliveries `assignRef(ref, value)` makes: one, unless the ref is
      neither a callback nor a cell. */
  function Effect(ref: Ref, value: Value): seq<Delivery>
  {
    if ref.Other? then [] else [Delivery(ref, value)]
  }

  /** The deliveries of `assignRef(r, value)` for the first `n` refs `r` of `refs`, in order. */
  function DeliverFirst(refs: seq<Ref>, n: nat, value: Value): seq<Delivery>
    requires n <= |refs|
  {
    if n == 0 then [] else DeliverFirst(refs, n - 1, value) + Effect(refs[n - 1], value)
  }

  /** The deliveries of `assignRef(r, value)` for every `r` of `refs`, in order. */
  function Deliver(refs: seq<Ref>, value: Value): seq<Delivery>
  {
    DeliverFirst(refs, |refs|, value)
  }

  /** The values delivered to `r` by the first `n` deliveries of `ds`, in order. */
  function ReceivedFirst(ds: seq<Delivery>, n: nat, r: Ref): seq<Value>
    requires n <= |ds|
  {
    if n == 0 then []
    else ReceivedFirst(ds, n - 1, r) + (if ds[n - 1].ref == r then [ds[n - 1].value] else [])
  }

  /** The values delivered to `r` in `ds`, in order. */
  function Received(ds: seq<Delivery>, r: Ref): seq<Value>
  {
    ReceivedFirst(ds, |ds|, r)
  }

  /** `n` copies of `v`. */
  function Repeat(v: Value, n: nat): seq<Value>
  {
    if n == 0 then [] else Repeat(v, n - 1) + [v]
  }

  lemma {:induction false} RepeatShape(v: Value, n: nat)
    ensures |Repeat(v, n)| == n
    ensures n > 0 ==> Repeat(v, n)[n - 1] == v
  {
    if n > 0 {
      RepeatShape(v, n - 1);
    }
  }

  lemma CountSnoc(s: seq<Ref>, y: Ref, x: Ref)
    ensures multiset(s + [y])[x] == multiset(s)[x] + (if x == y then 1 else 0)
  {
    assert multiset(s + [y]) == multiset(s) + multiset{y};
  }

  /** The `current` of every cell, keyed by cell id, after the cell writes
      of the first `n` deliveries of `ds`. */
  function StoreFirst(cells: map<nat, Value>, ds: seq<Delivery>, n: nat): map<nat, Value>
    requires n <= |ds|
  {
    if n == 0 then cells
    else
      var before := StoreFirst(cells, ds, n - 1);
      if ds[n - 1].ref.Cell? then before[ds[n - 1].ref.id := ds[n - 1].value] else before
  }

  /** The `current` of every cell after the cell writes of `ds`. */
  function Store(cells: map<nat, Value>, ds: seq<Delivery>): map<nat, Value>
  {
    StoreFirst(cells, ds, |ds|)
  }

  lemma {:induction false} DeliverFirstAgree(a: seq<Ref>, b: seq<Ref>, n: nat, value: Value)
    requires n <= |a| && n <= |b|
    requires forall i :: 0 <= i < n ==> a[i] == b[i]
    ensures DeliverFirst(a, n, value) == DeliverFirst(b, n, value)
  {
    if n > 0 {
      DeliverFirstAgree(a, b, n - 1, value);
    }
  }

  lemma DeliverSnoc(refs: seq<Ref>, x: Ref, value: Value)
    ensures Deliver(refs + [x], value) == Deliver(refs, value) + Effect(x, value)
  {
    DeliverFirstAgree(refs + [x], refs, |refs|, value);
  }

  /** Every delivery of `Deliver(refs, value)` carries `value` to a callback
      or cell of `refs`. */
  lemma {:induction false} DeliverShape(refs: seq<Ref>, value: Value)
    ensures |Deliver(refs, value)| <= |refs|
    ensures forall d :: d in Deliver(refs, value) ==> d.ref in refs && d.value == value && !d.ref.Other?
  {
    if refs != [] {
      var init := refs[..|refs| - 1];
      assert refs == init + [refs[|refs| - 1]];
      DeliverSnoc(init, refs[|refs| - 1], value);
      DeliverShape(init, value);
    }
  }

  lemma {:induction false} DeliverAppend(a: seq<Ref>, b: seq<Ref>, value: Value)
    ensures Deliver(a + b, value) == Deliver(a, value) + Deliver(b, value)
  {
    if b == [] {
      assert a + b == a;
    } else {
      var b' := b[..|b| - 1];
      assert a + b == (a + b') + [b[|b| - 1]];
      assert b == b' + [b[|b| - 1]];
      DeliverSnoc(a + b', b[|b| - 1], value);
      DeliverSnoc(b', b[|b| - 1], value);
      DeliverAppend(a, b', value);
    }
  }

  lemma {:induction false} ReceivedFirstAgree(a: seq<Delivery>, b: seq<Delivery>, n: nat, r: Ref)
    requires n <= |a| && n <= |b|
    requires forall i :: 0 <= i < n ==> a[i] == b[i]
    ensures ReceivedFirst(a, n, r) == ReceivedFirst(b, n, r)
  {
    if n > 0 {
      ReceivedFirstAgree(a, b, n - 1, r);
    }
  }

  lemma ReceivedSnoc(ds: seq<Delivery>, d: Delivery, r: Ref)
    ensures Received(ds + [d], r) == Received(ds, r) + (if d.ref == r then [d.value] else [])
  {
    ReceivedFirstAgree(ds + [d], ds, |ds|, r);
  }

  lemma {:induction false} ReceivedAppend(a: seq<Delivery>, b: seq<Delivery>, r: Ref)
    ensures Received(a + b, r) == Received(a, r) + Received(b, r)
  {
    if b == [] {
      assert a + b == a;
    } else {
      var b', d := b[..|b| - 1], b[|b| - 1];
      assert a + b == (a + b') + [d];
      assert b == b' + [d];
      ReceivedSnoc(a + b', d, r);
      ReceivedSnoc(b', d, r);
      ReceivedAppend(a, b', r);
    }
  }

  lemma ReceivedEffect(x: Ref, value: Value, r: Ref)
    ensures Received(Effect(x, value), r) == if x == r && !x.Other? then [value] else []
  {
    var e := Effect(x, value);
    if !x.Other? {
      assert Received(e, r) == ReceivedFirst(e, 0, r) + (if x == r then [value] else []);
    }
  }

  /** Handing `value` to every ref of `refs` gives a callback or a cell
      `value` once per occurrence of it in `refs`, and gives any other ref
      nothing. */
  lemma {:induction false} ReceivedDeliver(refs: seq<Ref>, value: Value, r: Ref)
    ensures Received(Deliver(refs, value), r)
         == if r.Other? then [] else Repeat(value, multiset(refs)[r])
  {
    if refs != [] {
      var init, x := refs[..|refs| - 1], refs[|refs| - 1];
      var before, last := Deliver(init, value), Effect(x, value);
      assert refs == init + [x];
      DeliverSnoc(init, x, value);
      assert Deliver(refs, value) == before + last;
      ReceivedAppend(before, last, r);
      ReceivedDeliver(init, value, r);
      ReceivedEffect(x, value, r);
      assert multiset(refs) == multiset(init) + multiset{x};
      if !r.Other? {
        if x == r {
          assert multiset(refs)[r] == multiset(init)[r] + 1;
        } else {
          assert multiset(refs)[r] == multiset(init)[r];
        }
      }
    }
  }

  lemma {:induction false} StoreFirstAgree(cells: map<nat, Value>, a: seq<Delivery>, b: seq<Delivery>, n: nat)
    requires n <= |a| && n <= |b|
    requires forall i :: 0 <= i < n ==> a[i] == b[i]
    ensures StoreFirst(cells, a, n) == StoreFirst(cells, b, n)
  {
    if n > 0 {
      StoreFirstAgree(cells, a, b, n - 1);
    }
  }

  lemma StoreSnoc(cells: map<nat, Value>, ds: seq<Delivery>, d: Delivery)
    ensures Store(cells, ds + [d])
         == if d.ref.Cell? then Store(cells, ds)[d.ref.id := d.value] else Store(cells, ds)
  {
    StoreFirstAgree(cells, ds + [d], ds, |ds|);
  }

  lemma {:induction false} StoreAppend(cells: map<nat, Value>, a: seq<Delivery>, b: seq<Delivery>)
    ensures Store(cells, a + b) == Store(Store(cells, a), b)
  {
    if b == [] {
      assert a + b == a;
    } else {
      var b', d := b[..|b| - 1], b[|b| - 1];
      assert a + b == (a + b') + [d];
      assert b == b' + [d];
      StoreSnoc(cells, a + b', d);
      StoreSnoc(Store(cells, a), b', d);
      StoreAppend(cells, a, b');
    }
  }

  /** The cell write of `assignRef(x, value)`. */
  lemma StoreEffect(cells: map<nat, Value>, x: Ref, value: Value)
    ensures Store(cells, Effect(x, value)) == if x.Cell? then cells[x.id := value] else cells
  {
    var e := Effect(x, value);
    if !x.Other? {
      assert Store(cells, e) == if x.Cell? then StoreFirst(cells, e, 0)[x.id := value] else StoreFirst(cells, e, 0);
    }
  }

  /** A cell holds the last value delivered to it, and a cell that received
      nothing keeps what it held. */
  lemma {:induction false} StoreHoldsLastReceived(cells: map<nat, Value>, ds: seq<Delivery>, id: nat)
    ensures var got := Received(ds, Cell(id));
            if got != [] then id in Store(cells, ds) && Store(cells, ds)[id] == got[|got| - 1]
            else (id in Store(cells, ds) <==> id in cells)
                 && (id in cells ==> Store(cells, ds)[id] == cells[id])
  {
    if ds != [] {
      var init, d := ds[..|ds| - 1], ds[|ds| - 1];
      assert ds == init + [d];
      StoreSnoc(cells, init, d);
      ReceivedSnoc(init, d, Cell(id));
      StoreHoldsLastReceived(cells, init, id);
    }
  }

  /** Handing `value` to every ref of `refs` leaves `value` in each cell of
      `refs` and every other cell as it was. */
  lemma DeliverCells(cells: map<nat, Value>, refs: seq<Ref>, value: Value, id: nat)
    ensures Cell(id) in refs ==> id in Store(cells, Deliver(refs, value)) && Store(cells, Deliver(refs, value))[id] == value
    ensures Cell(id) !in refs ==> (id in Store(cells, Deliver(refs, value)) <==> id in cells)
    ensures Cell(id) !in refs && id in cells ==> Store(cells, Deliver(refs, value))[id] == cells[id]
  {
    StoreHoldsLastReceived(cells, Deliver(refs, value), id);
    ReceivedDeliver(refs, value, Cell(id));
    RepeatShape(value, multiset(refs)[Cell(id)]);
  }

  /** The refs the merged ref hands values to: callback invocations and cell
      contents. `log` lists every delivery in the order it happened. */
  class Targets {
    var cells: map<nat, Value>
    var log: seq<Delivery>

    constructor (cells: map<nat, Value>)
      ensures this.cells == cells && log == []
    {
      this.cells := cells;
      log := [];
    }

    /** `assignRef`: calls a callback ref with `value`, sets `current` of a
        cell ref to `value`, and does nothing to any other ref. */
    method Assign(ref: Ref, value: Value)
      modifies this
      ensures ref.Callback? ==> log == old(log) + [Delivery(ref, value)] && cells == old(cells)
      ensures ref.Cell? ==> log == old(log) + [Delivery(ref, value)] && cells == old(cells)[ref.id := value]
      ensures ref.Other? ==> log == old(log) && cells == old(cells)
      ensures log == old(log) + Effect(ref, value)
      ensures cells == Store(old(cells), Effect(ref, value))
    {
      StoreEffect(cells, ref, value);
      match ref
      case Callback(_) =>
        log := log + [Delivery(ref, value)];
      case Cell(id) =>
        cells := cells[id := value];
        log := log + [Delivery(ref, value)];
      case Other(_) =>
    }
  }
}
