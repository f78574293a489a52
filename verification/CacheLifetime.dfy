/** How long a cached point lives, over every interleaving of Get, Set and ticks. */
module CacheLifetime {
  import opened DataPoints
  import opened Normalization
  import opened PointCache

  datatype Op = GetOp(key: Key) | SetOp(key: Key, p: Point) | TickOp

  predicate KindedOp(op: Op) {
    op.SetOp? ==> op.p.data.Kind() == op.key.kind
  }

  predicate Kinded(ops: seq<Op>) {
    forall i :: 0 <= i < |ops| ==> KindedOp(ops[i])
  }

  function StepCell(cell: Option<Slot>, op: Op, key: Key): (r: Option<Slot>)
    requires KindedOp(op) && (cell.Some? ==> cell.value.data.Kind() == key.kind)
    ensures r.Some? ==> r.value.data.Kind() == key.kind
  {
    match op
    case GetOp(k) => if k == key then Touch(cell) else cell
    case SetOp(k, p) => if k == key then Some(Put(cell, p)) else cell
    case TickOp => Collect(cell)
  }

  /** What the cache holds for one key after the operations. */
  function Cell(ops: seq<Op>, key: Key): (cell: Option<Slot>)
    requires Kinded(ops)
    ensures cell.Some? ==> cell.value.data.Kind() == key.kind
  {
    if ops == [] then None else StepCell(Cell(ops[..|ops| - 1], key), ops[|ops| - 1], key)
  }

  /** Operation i stored the key, or found it. */
  predicate Uses(ops: seq<Op>, i: nat, key: Key)
    requires Kinded(ops) && i < |ops|
  {
    match ops[i]
    case GetOp(k) => k == key && Cell(ops[..i], key).Some?
    case SetOp(k, _) => k == key
    case TickOp => false
  }

  function TicksAfter(ops: seq<Op>, i: nat): nat {
    if |ops| <= i + 1 then 0
    else TicksAfter(ops[..|ops| - 1], i) + if ops[|ops| - 1].TickOp? then 1 else 0
  }

  /** Some use of the key was followed by at most that many ticks. */
  ghost predicate UsedWithin(ops: seq<Op>, key: Key, ticks: nat)
    requires Kinded(ops)
  {
    exists i: nat :: i < |ops| && Uses(ops, i, key) && TicksAfter(ops, i) <= ticks
  }

  lemma UsedWithinStep(ops: seq<Op>, op: Op, key: Key, ticks: nat)
    requires Kinded(ops + [op])
    ensures Kinded(ops)
    ensures UsedWithin(ops + [op], key, ticks)
       <==> (Uses(ops + [op], |ops|, key)
             || if op.TickOp? then ticks > 0 && UsedWithin(ops, key, ticks - 1) else UsedWithin(ops, key, ticks))
  {
    var all := ops + [op];
    assert all[..|ops|] == ops;
    assert forall i :: 0 <= i < |ops| ==> all[i] == ops[i] && all[..i] == ops[..i];
    assert Kinded(ops);
    assert forall i: nat :: i < |ops| ==> Uses(all, i, key) == Uses(ops, i, key);
    assert forall i: nat :: i < |ops| ==> TicksAfter(all, i) == TicksAfter(ops, i) + if op.TickOp? then 1 else 0;
    assert TicksAfter(all, |ops|) == 0;
  }

  /** A key is in the cache exactly when some use of it was followed by at most one tick:
      it survives the tick after a use, and no second tick without another use. */
  lemma {:induction false} PresentIffUsedWithinOneTick(ops: seq<Op>, key: Key)
    requires Kinded(ops)
    ensures Cell(ops, key).Some? <==> UsedWithin(ops, key, 1)
    ensures Cell(ops, key).Some? && Cell(ops, key).value.used <==> UsedWithin(ops, key, 0)
  {
    if ops != [] {
      var prefix, op := ops[..|ops| - 1], ops[|ops| - 1];
      assert ops == prefix + [op];
      UsedWithinStep(prefix, op, key, 0);
      UsedWithinStep(prefix, op, key, 1);
      PresentIffUsedWithinOneTick(prefix, key);
      assert ops[..|prefix|] == prefix;
    }
  }

  // ---------- the cache object ----------

  predicate Storable(op: Op) {
    KindedOp(op) && (op.SetOp? ==> op.p.data.WellFormed())
  }

  lemma CellStep(ops: seq<Op>, op: Op, key: Key)
    requires Kinded(ops) && KindedOp(op)
    ensures Kinded(ops + [op]) && Cell(ops + [op], key) == StepCell(Cell(ops, key), op, key)
  {
    assert (ops + [op])[..|ops|] == ops;
  }

  method Perform(cache: Cache, ghost done: seq<Op>, op: Op)
    requires cache.Valid() && Kinded(done) && Storable(op) && Kinded(done + [op])
    requires forall key :: cache.SlotAt(key) == Cell(done, key)
    modifies cache.Repr
    ensures cache.Valid() && fresh(cache.Repr - old(cache.Repr))
    ensures forall key :: cache.SlotAt(key) == Cell(done + [op], key)
  {
    ghost var before := cache.store;
    forall key ensures Lookup(before, key) == Cell(done, key) {
      assert cache.SlotAt(key) == Cell(done, key);
    }
    match op {
      case GetOp(k) =>
        var point, found := cache.Get(k);
      case SetOp(k, p) =>
        var point := new DataPoint(k.kind);
        point.startTimestamp, point.timestamp, point.data := p.start, p.time, p.data;
        cache.Set(k, point);
      case TickOp =>
        cache.Gc();
    }
    forall key ensures cache.SlotAt(key) == Cell(done + [op], key) {
      CellStep(done, op, key);
    }
  }

  /** The operations on a real cache: each key has the cell of the operations on it. */
  method Drive(ops: seq<Op>) returns (cache: Cache)
    requires forall i :: 0 <= i < |ops| ==> Storable(ops[i])
    ensures cache.Valid()
    ensures Kinded(ops) && forall key :: cache.SlotAt(key) == Cell(ops, key)
  {
    assert Kinded(ops);
    cache := new Cache();
    for i := 0 to |ops|
      invariant cache.Valid() && fresh(cache.Repr)
      invariant Kinded(ops[..i])
      invariant forall key :: cache.SlotAt(key) == Cell(ops[..i], key)
    {
      assert ops[..i + 1] == ops[..i] + [ops[i]];
      Perform(cache, ops[..i], ops[i]);
    }
    assert ops[..|ops|] == ops;
  }
}
