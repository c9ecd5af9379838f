/**
 The operations of a bounded pool and of its accessors, as pure transitions.

 An accessor operation takes the pool and the accessor's id and returns a `Step`: the
 pool after the call, what the call returned (a byte count, or the usage error thrown
 once the accessor is unlinked), and the request the evictor received, if any.
 */
module BoundedPool {
  import opened Options
  import opened PoolState

  /** What an accessor operation returned: a byte count, or the usage error it threw. */
  datatype Outcome = Returned(bytes: int) | IllegalState

  /** A request handed to the evictor: the registered stores and the bytes to free. */
  datatype EvictorCall = EvictorCall(stores: seq<StoreId>, missingSize: int)

  datatype Step = Step(pool: Pool, outcome: Outcome, evictorCall: Option<EvictorCall>)

  /** The value an add returns when it does not admit the triple. */
  const Rejected: int := -1

  /** A pool with the given ceiling, evictor and default engine, and no accessors. */
  function NewPool(maximumPoolSize: int, evictor: PoolEvictor, engine: SizeOfEngine): (p: Pool)
    ensures Valid(p)
    ensures GetSize(p) == 0 && GetPoolableStores(p) == []
    ensures p.maximumPoolSize == maximumPoolSize && p.evictor == evictor
    ensures p.defaultSizeOfEngine == engine && p.accessors == []
  {
    Pool(maximumPoolSize, evictor, engine, [], [])
  }

  /** Bytes currently accounted to the pool: the sum over its registered accessors. */
  function GetSize(p: Pool): int
    requires Valid(p)
  {
    RegisteredSize(p.accessors, p.registry)
  }

  /** The pool total, accumulated over the registry one accessor at a time. */
  method ComputeSize(p: Pool) returns (total: int)
    requires Valid(p)
    ensures total == GetSize(p)
  {
    total := 0;
    var i := 0;
    while i < |p.registry|
      invariant 0 <= i <= |p.registry|
      invariant total == RegisteredSize(p.accessors, p.registry[..i])
    {
      assert p.registry[..i + 1][..i] == p.registry[..i];
      total := total + p.accessors[p.registry[i]].size;
      i := i + 1;
    }
    assert p.registry[..i] == p.registry;
  }

  /** The stores of the registered accessors, in registry order. */
  function GetPoolableStores(p: Pool): (stores: seq<StoreId>)
    requires Valid(p)
    ensures |stores| == |p.registry|
    ensures forall k :: 0 <= k < |stores| ==>
      stores[k] == p.accessors[p.registry[k]].store && !p.accessors[p.registry[k]].unlinked
  {
    seq(|p.registry|, k requires 0 <= k < |p.registry| => p.accessors[p.registry[k]].store)
  }

  /** `p` with accessor `id`'s size set to `newSize` and nothing else changed. */
  ghost predicate OnlySizeChanged(p: Pool, q: Pool, id: AccessorId, newSize: int)
    requires id < |p.accessors|
  {
    q == p.(accessors := p.accessors[id := p.accessors[id].(size := newSize)])
  }

  function Resize(p: Pool, id: AccessorId, newSize: int): (q: Pool)
    requires Valid(p) && id < |p.accessors|
    ensures Valid(q) && OnlySizeChanged(p, q, id, newSize)
    ensures GetSize(q) == GetSize(p) + (if id in p.registry then newSize - p.accessors[id].size else 0)
    ensures GetPoolableStores(q) == GetPoolableStores(p)
  {
    var a := p.accessors[id].(size := newSize);
    RegisteredSizeAfterUpdate(p.accessors, p.registry, id, a);
    p.(accessors := p.accessors[id := a])
  }

  /** Registers a new accessor of size 0 for `store`, measuring with `engine`. */
  function CreatePoolAccessor(p: Pool, store: StoreId, engine: SizeOfEngine): (r: (Pool, AccessorId))
    requires Valid(p)
    ensures var (q, id) := r;
      && Valid(q)
      && id == |p.accessors| && q.accessors == p.accessors + [Accessor(store, engine, 0, false)]
      && q.registry == p.registry + [id]
      && q == p.(accessors := q.accessors, registry := q.registry)
      && GetSize(q) == GetSize(p)
      && GetPoolableStores(q) == GetPoolableStores(p) + [store]
  {
    var a := Accessor(store, engine, 0, false);
    var id := |p.accessors|;
    var q := p.(accessors := p.accessors + [a], registry := p.registry + [id]);
    RegisteredSizeAfterAppend(p.accessors, p.registry, a);
    assert q.registry[..|q.registry| - 1] == p.registry;
    (q, id)
  }

  /** `createPoolAccessor(store)`: the same, with the pool's default engine. */
  function CreateDefaultPoolAccessor(p: Pool, store: StoreId): (r: (Pool, AccessorId))
    requires Valid(p)
    ensures Valid(r.0) && r.1 == |p.accessors| && r.0.registry == p.registry + [r.1]
    ensures r.0.accessors == p.accessors + [Accessor(store, p.defaultSizeOfEngine, 0, false)]
    ensures r.0 == p.(accessors := r.0.accessors, registry := r.0.registry)
    ensures GetSize(r.0) == GetSize(p) && GetPoolableStores(r.0) == GetPoolableStores(p) + [store]
  {
    CreatePoolAccessor(p, store, p.defaultSizeOfEngine)
  }

  /** Drops the first registry entry for `id`, if any; the accessor itself is untouched. */
  function RemovePoolAccessor(p: Pool, id: AccessorId): (q: Pool)
    requires Valid(p)
    ensures Valid(q) && q == p.(registry := q.registry) && id !in q.registry
    ensures id !in p.registry ==> q == p
    ensures id in p.registry ==>
      exists k :: 0 <= k < |p.registry| && p.registry[k] == id
        && q.registry == RemoveAt(p.registry, k)
        && GetPoolableStores(q) == GetPoolableStores(p)[..k] + GetPoolableStores(p)[k + 1..]
    ensures GetSize(q) == GetSize(p) - (if id in p.registry then p.accessors[id].size else 0)
  {
    var k := IndexOf(p.registry, id);
    if k == |p.registry| then p
    else
      RemoveAtKeepsShape(p.accessors, p.registry, k);
      RegisteredSizeAfterRemoveAt(p.accessors, p.registry, k);
      var q := p.(registry := RemoveAt(p.registry, k));
      StoresAfterRemoveAt(p, q, k);
      q
  }

  lemma StoresAfterRemoveAt(p: Pool, q: Pool, k: nat)
    requires Valid(p) && Valid(q) && k < |p.registry|
    requires q.accessors == p.accessors && q.registry == RemoveAt(p.registry, k)
    ensures GetPoolableStores(q) == GetPoolableStores(p)[..k] + GetPoolableStores(p)[k + 1..]
  {
  }

  /** The triple a replace measures for an object in the given role. */
  function Slot(role: Role, o: Object): (Object, Object, Object) {
    match role
    case Container => (Null, Null, o)
    case Key => (o, Null, Null)
    case Value => (Null, o, Null)
  }

  function Measure(engine: SizeOfEngine, t: (Object, Object, Object)): int {
    engine(t.0, t.1, t.2)
  }

  /**
   Admission control for one (key, value, container) triple of `sizeOf` bytes. It fits
   when the pool total plus `sizeOf` stays within the ceiling. Otherwise it is refused
   outright, without asking the evictor, when not forced and the excess alone is over the
   ceiling; in every other overflow case the evictor is asked for the excess, even when
   forced, and the triple is admitted when forced or when the evictor succeeds. An
   admitted triple is not checked against the ceiling again.
   */
  function Add(p: Pool, id: AccessorId, key: Object, value: Object, container: Object, force: bool): (r: Step)
    requires Valid(p) && id < |p.accessors|
    ensures Valid(r.pool)
    // the usage error, and only it, after unlink; it changes nothing
    ensures r.outcome.IllegalState? <==> p.accessors[id].unlinked
    ensures r.outcome.IllegalState? ==> r.pool == p && r.evictorCall.None?
    // otherwise either this accessor grows by exactly the measured size, or nothing changes and -1 is returned
    ensures !p.accessors[id].unlinked ==>
      var sizeOf := p.accessors[id].engine(key, value, container);
      || (r.outcome == Returned(sizeOf) && OnlySizeChanged(p, r.pool, id, p.accessors[id].size + sizeOf)
          && GetSize(r.pool) == GetSize(p) + (if id in p.registry then sizeOf else 0))
      || (r.outcome == Returned(Rejected) && r.pool == p)
    // room in the pool: admitted without the evictor, and the total stays within the ceiling
    ensures !p.accessors[id].unlinked ==>
      var sizeOf := p.accessors[id].engine(key, value, container);
      GetSize(p) + sizeOf <= p.maximumPoolSize ==>
        && r.outcome == Returned(sizeOf) && r.evictorCall.None?
        && OnlySizeChanged(p, r.pool, id, p.accessors[id].size + sizeOf)
        && (id in p.registry ==> GetSize(r.pool) <= p.maximumPoolSize)
    // no room: the evictor is asked for the excess exactly when not (unforced and too big)
    ensures !p.accessors[id].unlinked ==>
      var sizeOf := p.accessors[id].engine(key, value, container);
      var missingSize := GetSize(p) + sizeOf - p.maximumPoolSize;
      missingSize > 0 ==>
        if !force && missingSize > p.maximumPoolSize then
          r == Step(p, Returned(Rejected), None)
        else
          && r.evictorCall == Some(EvictorCall(GetPoolableStores(p), missingSize))
          && (force || p.evictor(GetPoolableStores(p), missingSize) ==>
                r.outcome == Returned(sizeOf) && OnlySizeChanged(p, r.pool, id, p.accessors[id].size + sizeOf))
          && (!force && !p.evictor(GetPoolableStores(p), missingSize) ==>
                r.outcome == Returned(Rejected) && r.pool == p)
  {
    var a := p.accessors[id];
    if a.unlinked then Step(p, IllegalState, None)
    else
      var sizeOf := a.engine(key, value, container);
      var newSize := GetSize(p) + sizeOf;
      if newSize <= p.maximumPoolSize then
        Step(Resize(p, id, a.size + sizeOf), Returned(sizeOf), None)
      else
        var missingSize := newSize - p.maximumPoolSize;
        if !force && missingSize > p.maximumPoolSize then
          Step(p, Returned(Rejected), None)
        else
          var call := EvictorCall(GetPoolableStores(p), missingSize);
          var freed := p.evictor(call.stores, call.missingSize);
          if force || freed then
            Step(Resize(p, id, a.size + sizeOf), Returned(sizeOf), Some(call))
          else
            Step(p, Returned(Rejected), Some(call))
  }

  /** Always gives back the measured bytes of the triple, without any capacity check. */
  function Delete(p: Pool, id: AccessorId, key: Object, value: Object, container: Object): (r: Step)
    requires Valid(p) && id < |p.accessors|
    ensures Valid(r.pool) && r.evictorCall.None?
    ensures r.outcome.IllegalState? <==> p.accessors[id].unlinked
    ensures r.outcome.IllegalState? ==> r.pool == p
    ensures !p.accessors[id].unlinked ==>
      var sizeOf := p.accessors[id].engine(key, value, container);
      && r.outcome == Returned(sizeOf)
      && OnlySizeChanged(p, r.pool, id, p.accessors[id].size - sizeOf)
      && GetSize(r.pool) == GetSize(p) - (if id in p.registry then sizeOf else 0)
  {
    var a := p.accessors[id];
    if a.unlinked then Step(p, IllegalState, None)
    else
      var sizeOf := a.engine(key, value, container);
      Step(Resize(p, id, a.size - sizeOf), Returned(sizeOf), None)
  }

  /** Whether `add` admits a triple that leaves the pool `missingSize` bytes over its
      ceiling: it fits, or it is forced, or it is not too big and the evictor frees the
      excess from the registered stores. */
  predicate AddAdmits(p: Pool, missingSize: int, force: bool)
    requires Valid(p)
  {
    missingSize <= 0 || force || (missingSize <= p.maximumPoolSize && p.evictor(GetPoolableStores(p), missingSize))
  }

  /**
   Swaps the object in one role of a stored triple: deletes the current occupant, then
   adds the replacement in the same role, and returns the bytes deleted minus what the add
   returned. The add's admission check runs against the total after the delete. A refused
   add leaves the deleted bytes deducted and, having returned -1, makes the result one more
   than the bytes deleted.
   */
  function Replace(p: Pool, id: AccessorId, role: Role, current: Object, replacement: Object, force: bool): (r: Step)
    requires Valid(p) && id < |p.accessors|
    ensures Valid(r.pool)
    ensures r.outcome.IllegalState? <==> p.accessors[id].unlinked
    ensures r.outcome.IllegalState? ==> r.pool == p && r.evictorCall.None?
    ensures !p.accessors[id].unlinked ==>
      var a := p.accessors[id];
      var deleted := Measure(a.engine, Slot(role, current));
      var added := Measure(a.engine, Slot(role, replacement));
      var afterDelete := GetSize(p) - (if id in p.registry then deleted else 0);
      var missingSize := afterDelete + added - p.maximumPoolSize;
      // admitted: the size moves by added - deleted, and so does the total if registered
      && (AddAdmits(p, missingSize, force) ==>
            && r.outcome == Returned(deleted - added)
            && OnlySizeChanged(p, r.pool, id, a.size - deleted + added)
            && GetSize(r.pool) == afterDelete + (if id in p.registry then added else 0))
      // refused: the deleted bytes stay deducted and -1 is subtracted from them
      && (!AddAdmits(p, missingSize, force) ==>
            && r.outcome == Returned(deleted + 1)
            && OnlySizeChanged(p, r.pool, id, a.size - deleted)
            && GetSize(r.pool) == afterDelete)
      // the evictor is asked for the excess exactly when it overflows and is not refused outright
      && (r.evictorCall.Some? <==> missingSize > 0 && (force || missingSize <= p.maximumPoolSize))
      && (r.evictorCall.Some? ==> r.evictorCall == Some(EvictorCall(GetPoolableStores(p), missingSize)))
  {
    if p.accessors[id].unlinked then Step(p, IllegalState, None)
    else
      var (dk, dv, dc) := Slot(role, current);
      var del := Delete(p, id, dk, dv, dc);
      var (ak, av, ac) := Slot(role, replacement);
      var add := Add(del.pool, id, ak, av, ac, force);
      Step(add.pool, Returned(del.outcome.bytes - add.outcome.bytes), add.evictorCall)
  }

  /** Sets this accessor's size to 0; it neither checks nor changes the unlinked flag. */
  function Clear(p: Pool, id: AccessorId): (q: Pool)
    requires Valid(p) && id < |p.accessors|
    ensures Valid(q) && OnlySizeChanged(p, q, id, 0)
    ensures GetSize(q) == GetSize(p) - (if id in p.registry then p.accessors[id].size else 0)
  {
    Resize(p, id, 0)
  }

  /**
   The first call marks the accessor unlinked and takes it out of the registry, so its
   bytes and its store stop counting; later calls change nothing.
   */
  function Unlink(p: Pool, id: AccessorId): (q: Pool)
    requires Valid(p) && id < |p.accessors|
    ensures Valid(q) && |q.accessors| == |p.accessors| && q.accessors[id].unlinked && id !in q.registry
    ensures p.accessors[id].unlinked ==> q == p
    ensures !p.accessors[id].unlinked ==>
      q.accessors == p.accessors[id := p.accessors[id].(unlinked := true)]
    ensures q == p.(accessors := q.accessors, registry := q.registry)
    ensures GetSize(q) == GetSize(p) - (if id in p.registry then p.accessors[id].size else 0)
    ensures id !in p.registry ==> q.registry == p.registry
    ensures id in p.registry ==>
      exists k :: 0 <= k < |p.registry| && p.registry[k] == id
        && q.registry == RemoveAt(p.registry, k)
        && GetPoolableStores(q) == GetPoolableStores(p)[..k] + GetPoolableStores(p)[k + 1..]
  {
    var a := p.accessors[id];
    if a.unlinked then p
    else
      var removed := RemovePoolAccessor(p, id);
      var q := removed.(accessors := removed.accessors[id := a.(unlinked := true)]);
      MarkingUnregisteredKeepsPool(removed, q, id);
      q
  }

  /** Changing the record of an accessor outside the registry leaves the pool valid and its
      total and store list unchanged. */
  lemma MarkingUnregisteredKeepsPool(p: Pool, q: Pool, id: AccessorId)
    requires Valid(p) && id < |p.accessors| && id !in p.registry
    requires q == p.(accessors := p.accessors[id := p.accessors[id].(unlinked := true)])
    ensures Valid(q) && GetSize(q) == GetSize(p) && GetPoolableStores(q) == GetPoolableStores(p)
  {
    RegisteredSizeAfterUpdate(p.accessors, p.registry, id, p.accessors[id].(unlinked := true));
  }
}
