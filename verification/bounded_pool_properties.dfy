/** Properties of the bounded pool that relate several calls. */
module BoundedPoolProperties {
  import opened Options
  import opened PoolState
  import opened BoundedPool

  /**
   An add followed by a delete of the same triple on the same accessor: either the add
   was refused (returning -1 and changing nothing), or the two calls return the same byte
   count and together leave the pool exactly as it was.
   */
  lemma AddDeleteRoundTrip(p: Pool, id: AccessorId, key: Object, value: Object, container: Object, force: bool)
    requires Valid(p) && id < |p.accessors| && !p.accessors[id].unlinked
    ensures var added := Add(p, id, key, value, container, force);
      var deleted := Delete(added.pool, id, key, value, container);
      || (added.outcome == Returned(Rejected) && added.pool == p)
      || (added.outcome == deleted.outcome && deleted.outcome.Returned? && deleted.pool == p
          && GetSize(deleted.pool) == GetSize(p))
  {
  }

  /** After unlink every mutating call throws the usage error and changes nothing, and the
      accessor no longer counts toward the pool total. */
  lemma UnlinkIsFinal(p: Pool, id: AccessorId, role: Role, key: Object, value: Object, container: Object, force: bool)
    requires Valid(p) && id < |p.accessors|
    ensures var q := Unlink(p, id);
      && Add(q, id, key, value, container, force) == Step(q, IllegalState, None)
      && Delete(q, id, key, value, container) == Step(q, IllegalState, None)
      && Replace(q, id, role, key, value, force) == Step(q, IllegalState, None)
      && id !in q.registry
      && GetSize(q) == GetSize(p) - (if id in p.registry then p.accessors[id].size else 0)
  {
  }

  /** A second unlink is a no-op. */
  lemma UnlinkIdempotent(p: Pool, id: AccessorId)
    requires Valid(p) && id < |p.accessors|
    ensures Unlink(Unlink(p, id), id) == Unlink(p, id)
  {
  }

  /**
   A replace that does not grow its slot, on a registered accessor of a pool within its
   ceiling, is always admitted without the evictor: the add that follows the delete finds
   room, so the result is the plain difference and the pool stays within its ceiling.
   */
  lemma ReplaceNotGrowingIsAdmitted(p: Pool, id: AccessorId, role: Role, current: Object, replacement: Object, force: bool)
    requires Valid(p) && id < |p.accessors| && !p.accessors[id].unlinked && id in p.registry
    requires GetSize(p) <= p.maximumPoolSize
    requires Measure(p.accessors[id].engine, Slot(role, replacement)) <= Measure(p.accessors[id].engine, Slot(role, current))
    ensures var r := Replace(p, id, role, current, replacement, force);
      var deleted := Measure(p.accessors[id].engine, Slot(role, current));
      var added := Measure(p.accessors[id].engine, Slot(role, replacement));
      && r.outcome == Returned(deleted - added) && r.evictorCall.None?
      && OnlySizeChanged(p, r.pool, id, p.accessors[id].size - deleted + added)
      && GetSize(r.pool) <= p.maximumPoolSize
  {
  }

  /** An engine that measures every triple at `bytes`. */
  function Constant(bytes: int): SizeOfEngine {
    (k: Object, v: Object, c: Object) => bytes
  }

  /** An evictor that never manages to free anything. */
  function Failing(): PoolEvictor {
    (stores: seq<StoreId>, missingSize: int) => false
  }

  /**
   With a ceiling of 100 bytes, store 1 admits an 80-byte entry; store 2 then offers a
   30-byte entry, unforced, to an evictor that cannot free enough: it is refused after
   asking the evictor for the 10 missing bytes, and the two sizes stay 80 and 0.
   */
  lemma RejectedWhenEvictorFails()
    ensures var p0 := NewPool(100, Failing(), Constant(0));
      var (p1, a) := CreatePoolAccessor(p0, 1, Constant(80));
      var (p2, b) := CreatePoolAccessor(p1, 2, Constant(30));
      var s3 := Add(p2, a, Null, Null, Null, false);
      var s4 := Add(s3.pool, b, Null, Null, Null, false);
      && s3.outcome == Returned(80)
      && s4.outcome == Returned(Rejected)
      && s4.evictorCall == Some(EvictorCall([1, 2], 10))
      && s4.pool.accessors[a].size == 80 && s4.pool.accessors[b].size == 0
  {
    var p0 := NewPool(100, Failing(), Constant(0));
    var (p1, a) := CreatePoolAccessor(p0, 1, Constant(80));
    var (p2, b) := CreatePoolAccessor(p1, 2, Constant(30));
    assert GetSize(p2) == 0;
    var s3 := Add(p2, a, Null, Null, Null, false);
    assert GetSize(s3.pool) == 80;
    assert GetPoolableStores(s3.pool) == [1, 2];
  }

  /**
   A forced add is not checked against the ceiling after the evictor answers: with a
   ceiling of 100 bytes, 80 bytes in use and an evictor that frees nothing, a forced
   30-byte add is admitted and leaves 110 bytes accounted.
   */
  lemma ForcedAddCanExceedCeiling()
    ensures var p0 := NewPool(100, Failing(), Constant(0));
      var (p1, a) := CreatePoolAccessor(p0, 1, Constant(80));
      var (p2, b) := CreatePoolAccessor(p1, 2, Constant(30));
      var s3 := Add(p2, a, Null, Null, Null, false);
      var s4 := Add(s3.pool, b, Null, Null, Null, true);
      && s4.outcome == Returned(30)
      && s4.evictorCall == Some(EvictorCall([1, 2], 10))
      && GetSize(s4.pool) == 110 > s4.pool.maximumPoolSize
  {
    var p0 := NewPool(100, Failing(), Constant(0));
    var (p1, a) := CreatePoolAccessor(p0, 1, Constant(80));
    var (p2, b) := CreatePoolAccessor(p1, 2, Constant(30));
    assert GetSize(p2) == 0;
    var s3 := Add(p2, a, Null, Null, Null, false);
    assert GetSize(s3.pool) == 80;
    assert GetPoolableStores(s3.pool) == [1, 2];
  }
}
