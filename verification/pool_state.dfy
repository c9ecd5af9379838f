/**
 State of a bounded byte-accounting pool shared by several cache stores.

 Every accessor the pool ever handed out lives in `accessors`, indexed by its
 `AccessorId`; an accessor keeps its size and its `unlinked` flag after it leaves the
 pool. `registry` is the pool's own list of accessors, in insertion order: only the
 accessors in it count toward the pool total and only their stores are offered to the
 evictor.
 */
module PoolState {

  /** A reference handed to a size-of engine: `null` or some object. */
  datatype Object = Null | Object(identity: nat)

  /** The part of a stored (key, value, container) triple that a replace is about. */
  datatype Role = Container | Key | Value

  type StoreId = nat
  type AccessorId = nat

  /** Measures the bytes of a (key, value, container) triple. Being a function, it gives
      the same answer for the same triple, which is what lets a delete undo an add. */
  type SizeOfEngine = (Object, Object, Object) -> int

  /** Asked to free `missingSize` bytes across the given stores; answers whether it did. */
  type PoolEvictor = (seq<StoreId>, int) -> bool

  datatype Accessor = Accessor(store: StoreId, engine: SizeOfEngine, size: int, unlinked: bool)

  datatype Pool = Pool(
    maximumPoolSize: int,
    evictor: PoolEvictor,
    defaultSizeOfEngine: SizeOfEngine,
    accessors: seq<Accessor>,
    registry: seq<AccessorId>)

  predicate RegistryInRange(accessors: seq<Accessor>, registry: seq<AccessorId>) {
    forall k :: 0 <= k < |registry| ==> registry[k] < |accessors|
  }

  predicate Distinct(registry: seq<AccessorId>) {
    forall a, b :: 0 <= a < b < |registry| ==> registry[a] != registry[b]
  }

  /** The representation invariant every reachable pool keeps: the registry names
      existing accessors, each at most once, and never an unlinked one. */
  predicate Valid(p: Pool) {
    && RegistryInRange(p.accessors, p.registry)
    && Distinct(p.registry)
    && forall k :: 0 <= k < |p.registry| ==> !p.accessors[p.registry[k]].unlinked
  }

  /** Sum of the sizes of the registered accessors, accumulated front to back. */
  function RegisteredSize(accessors: seq<Accessor>, registry: seq<AccessorId>): int
    requires RegistryInRange(accessors, registry)
    decreases |registry|
  {
    if registry == [] then 0
    else RegisteredSize(accessors, registry[..|registry| - 1]) + accessors[registry[|registry| - 1]].size
  }

  /** The pool total is additive over a split of the registry. */
  lemma {:induction false} RegisteredSizeConcat(accessors: seq<Accessor>, xs: seq<AccessorId>, ys: seq<AccessorId>)
    requires RegistryInRange(accessors, xs) && RegistryInRange(accessors, ys)
    ensures RegistryInRange(accessors, xs + ys)
    ensures RegisteredSize(accessors, xs + ys) == RegisteredSize(accessors, xs) + RegisteredSize(accessors, ys)
    decreases |ys|
  {
    if ys == [] {
      assert xs + ys == xs;
    } else {
      var init := ys[..|ys| - 1];
      RegisteredSizeConcat(accessors, xs, init);
      assert (xs + ys)[..|xs + ys| - 1] == xs + init;
    }
  }

  /** Changing one accessor's record moves the total by its size change when it is
      registered, and leaves the total alone otherwise. */
  lemma {:induction false} RegisteredSizeAfterUpdate(accessors: seq<Accessor>, registry: seq<AccessorId>, id: AccessorId, a: Accessor)
    requires RegistryInRange(accessors, registry) && Distinct(registry) && id < |accessors|
    ensures RegistryInRange(accessors[id := a], registry)
    ensures RegisteredSize(accessors[id := a], registry)
         == RegisteredSize(accessors, registry) + (if id in registry then a.size - accessors[id].size else 0)
    decreases |registry|
  {
    if registry != [] {
      var init := registry[..|registry| - 1];
      var last := registry[|registry| - 1];
      assert registry == init + [last];
      RegisteredSizeAfterUpdate(accessors, init, id, a);
      if last == id {
        assert id !in init by {
          forall k | 0 <= k < |init| ensures init[k] != id {
            assert registry[k] != registry[|registry| - 1];
          }
        }
      }
    }
  }

  /** Appending a new accessor to the arena does not change the total of an existing registry. */
  lemma {:induction false} RegisteredSizeAfterAppend(accessors: seq<Accessor>, registry: seq<AccessorId>, a: Accessor)
    requires RegistryInRange(accessors, registry)
    ensures RegistryInRange(accessors + [a], registry)
    ensures RegisteredSize(accessors + [a], registry) == RegisteredSize(accessors, registry)
    decreases |registry|
  {
    if registry != [] {
      RegisteredSizeAfterAppend(accessors, registry[..|registry| - 1], a);
    }
  }

  /** The registry with its entry at position `k` dropped. */
  function RemoveAt(registry: seq<AccessorId>, k: nat): (rest: seq<AccessorId>)
    requires k < |registry|
    ensures |rest| == |registry| - 1
    ensures forall j :: 0 <= j < |rest| ==> rest[j] == if j < k then registry[j] else registry[j + 1]
  {
    registry[..k] + registry[k + 1..]
  }

  /** Dropping one entry keeps the registry well formed and removes that id entirely. */
  lemma RemoveAtKeepsShape(accessors: seq<Accessor>, registry: seq<AccessorId>, k: nat)
    requires RegistryInRange(accessors, registry) && Distinct(registry) && k < |registry|
    ensures RegistryInRange(accessors, RemoveAt(registry, k)) && Distinct(RemoveAt(registry, k))
    ensures registry[k] !in RemoveAt(registry, k)
  {
  }

  /** Dropping the entry at position `k` takes exactly that accessor's size off the total. */
  lemma {:induction false} RegisteredSizeAfterRemoveAt(accessors: seq<Accessor>, registry: seq<AccessorId>, k: nat)
    requires RegistryInRange(accessors, registry) && k < |registry|
    ensures RegistryInRange(accessors, RemoveAt(registry, k))
    ensures RegisteredSize(accessors, RemoveAt(registry, k)) == RegisteredSize(accessors, registry) - accessors[registry[k]].size
  {
    var id := registry[k];
    var xs, ys := registry[..k], registry[k + 1..];
    assert registry == xs + [id] + ys;
    assert RemoveAt(registry, k) == xs + ys;
    RegisteredSizeConcat(accessors, xs, [id]);
    RegisteredSizeConcat(accessors, xs + [id], ys);
    RegisteredSizeConcat(accessors, xs, ys);
    assert RegisteredSize(accessors, [id]) == accessors[id].size by {
      assert [id][..0] == [];
    }
  }

  /** Position of the first occurrence of `id` in `registry`, or `|registry|` when absent:
      the search `removePoolAccessor` performs by identity. */
  function IndexOf(registry: seq<AccessorId>, id: AccessorId): (k: nat)
    ensures k <= |registry|
    ensures k < |registry| ==> registry[k] == id
    ensures forall j :: 0 <= j < k ==> registry[j] != id
  {
    if registry == [] then 0
    else if registry[0] == id then 0
    else 1 + IndexOf(registry[1..], id)
  }
}
