# Bounded pool and sampled-LFU eviction of the Ehcache caching engine

This project models two sequential cores behind Ehcache's memory bounds, and proves
properties about them in Dafny.

**The bounded pool** (`BoundedPool` with its inner `BoundedPoolAccessor`) is a byte-accounting
authority that several cache stores share. Every store owns an accessor with a running `size`
and an `unlinked` flag. The pool total is the sum over the accessors still registered with it.
`add` is an admission check against `maximumPoolSize`. It either:
- commits the measured size, or
- refuses with `-1`, or
- throws `IllegalStateException` once the accessor is unlinked.

When the triple does not fit, `add` may first ask the pool evictor to free the excess. `delete`
always gives the measured bytes back. `replace` is a `delete` of the current occupant of one
role (container, key or value) followed by an `add` of its replacement.

In the model (modules `PoolState`, `BoundedPool`, `BoundedPoolProperties`):
- A `Pool` is an arena of every accessor ever created, indexed by `AccessorId`, plus `registry`,
  the pool's list of accessor ids in insertion order. An unlinked accessor therefore keeps its
  state after it leaves the list.
- The size-of engine is a function value held by each accessor. Because it is a function, the
  same triple always measures the same.
- The evictor is a function value `(stores, missingSize) -> bool` held by the pool.
- `add`, `delete` and `replace` return a `Step`. A step holds the new pool, the outcome
  (`Returned(bytes)` or `IllegalState`) and the request the evictor received, if any.
  `clear` and `unlink` return the new pool.
- `GetPoolableStores` is the stores of the registered accessors in registry order. The
  operations that change the registry state how they change this list.
- The accessor's `getSize` is the `size` field of its record.

**The sampled-LFU memory store** (`LfuMemoryStore`) keeps below its entry ceiling without keeping
an exact frequency order. On a put into a full store it samples entries by fast-forwarding one
iterator over the map's values by random offsets. A selection policy then picks a relatively
unused candidate. That candidate is removed either as an expiry or as an eviction. In the model
(modules `LfuSampling`, `LfuMemoryStore`):
- The map is its values in iteration order, with distinct keys.
- The random offsets are an input.
- The policy is a function parameter. Its only promise is the one the source documents: it
  returns nothing, or a sampled element whose key differs from the key just added.

## Model

| member | source | states |
|---|---|---|
| BoundedPool.NewPool | branches/cachemanager_pools/src/main/java/net/sf/ehcache/pool/impl/BoundedPool.java:44-49 | a new pool keeps the given ceiling, evictor and default engine, and has no accessors, total 0 and no stores |
| BoundedPool.ComputeSize | branches/cachemanager_pools/src/main/java/net/sf/ehcache/pool/impl/BoundedPool.java:51-57 | the loop over the registry yields the sum of the sizes of exactly the registered accessors |
| PoolState.RegisteredSizeAfterUpdate | branches/cachemanager_pools/src/main/java/net/sf/ehcache/pool/impl/BoundedPool.java:51-57 | changing one accessor moves the pool total by its size change if it is registered, and not at all otherwise |
| PoolState.RegisteredSizeAfterRemoveAt | branches/cachemanager_pools/src/main/java/net/sf/ehcache/pool/impl/BoundedPool.java:69-78 | dropping one registry entry takes exactly that accessor's size off the pool total |
| PoolState.RemoveAtKeepsShape | branches/cachemanager_pools/src/main/java/net/sf/ehcache/pool/impl/BoundedPool.java:69-78 | dropping one registry entry keeps the other ids distinct and in range, and leaves no copy of the dropped id |
| BoundedPool.GetPoolableStores | branches/cachemanager_pools/src/main/java/net/sf/ehcache/pool/impl/BoundedPool.java:80-86 | one store per registered accessor, in registry order, each belonging to an accessor that is not unlinked; how creating, removing and unlinking accessors change this list is stated by those members |
| BoundedPool.CreateDefaultPoolAccessor | branches/cachemanager_pools/src/main/java/net/sf/ehcache/pool/impl/BoundedPool.java:59-61 | the new accessor uses the pool's default engine, starts at 0 and is appended; the ceiling, evictor and default engine are kept; the total is unchanged and its store is appended to the store list |
| BoundedPool.CreatePoolAccessor | branches/cachemanager_pools/src/main/java/net/sf/ehcache/pool/impl/BoundedPool.java:63-67 | a fresh linked accessor of size 0 gets the next id and is appended to the registry; only the arena and the registry change, so the ceiling, evictor and default engine are kept; the total is unchanged and its store is appended to the store list |
| BoundedPool.RemovePoolAccessor | branches/cachemanager_pools/src/main/java/net/sf/ehcache/pool/impl/BoundedPool.java:69-78 | removes the one registry entry for this accessor, found by identity, keeping the others in order; nothing but the registry changes; that accessor's bytes and store stop counting; removing an absent accessor changes nothing |
| BoundedPool.Add | branches/cachemanager_pools/src/main/java/net/sf/ehcache/pool/impl/BoundedPool.java:101-130 | usage error exactly when unlinked, changing nothing. Otherwise it either grows only this accessor by exactly sizeOf (total up by sizeOf if registered) or returns -1 and changes nothing. With room it is admitted without the evictor and the total stays within the ceiling. An unforced add whose excess is over the ceiling is refused without the evictor. Any other overflow asks the evictor for the excess over the registered stores, even when forced; it commits when forced or the evictor succeeds and refuses otherwise |
| BoundedPool.Delete | branches/cachemanager_pools/src/main/java/net/sf/ehcache/pool/impl/BoundedPool.java:132-142 | usage error exactly when unlinked; otherwise it always returns the measured bytes, shrinks only this accessor by them and never asks the evictor |
| BoundedPool.Replace | branches/cachemanager_pools/src/main/java/net/sf/ehcache/pool/impl/BoundedPool.java:144-165 | usage error exactly when unlinked. Otherwise the add is judged against the total after the delete. If that add is admitted (it fits, or is forced, or is not too big and the evictor frees the excess), the result is deleted minus added and the size and total move by added minus deleted. If it is refused, the result is deleted + 1 and the deleted bytes stay deducted from the size and the total. The evictor is asked for the excess exactly when the add overflows and is not refused outright |
| BoundedPool.Clear | branches/cachemanager_pools/src/main/java/net/sf/ehcache/pool/impl/BoundedPool.java:177-179 | sets only this accessor's size to 0, whether or not it is unlinked |
| BoundedPool.Unlink | branches/cachemanager_pools/src/main/java/net/sf/ehcache/pool/impl/BoundedPool.java:171-175 | afterwards the accessor is unlinked and out of the registry. Its entry is removed by identity, the others keep their order, and its bytes and store stop counting. The ceiling, evictor and default engine are kept. On an already unlinked accessor the pool is unchanged |
| BoundedPoolProperties.AddDeleteRoundTrip | branches/cachemanager_pools/src/main/java/net/sf/ehcache/pool/impl/BoundedPool.java:106-141 | an add then a delete of the same triple either saw the add refused, or returned equal byte counts and restored the pool exactly |
| BoundedPoolProperties.UnlinkIsFinal | branches/cachemanager_pools/src/main/java/net/sf/ehcache/pool/impl/BoundedPool.java:101-147 | after unlink, add, delete and replace each throw the usage error and change nothing, and the accessor no longer counts toward the total |
| BoundedPoolProperties.UnlinkIdempotent | branches/cachemanager_pools/src/main/java/net/sf/ehcache/pool/impl/BoundedPool.java:171-175 | unlinking twice is the same as unlinking once |
| BoundedPoolProperties.ReplaceNotGrowingIsAdmitted | branches/cachemanager_pools/src/main/java/net/sf/ehcache/pool/impl/BoundedPool.java:149-164 | a replace that does not grow its slot, on a registered accessor of a pool within its ceiling, is admitted without the evictor and keeps the pool within the ceiling |
| BoundedPoolProperties.RejectedWhenEvictorFails | branches/cachemanager_pools/src/main/java/net/sf/ehcache/pool/impl/BoundedPool.java:106-128 | ceiling 100: an 80-byte add is admitted; a 30-byte unforced add by another store asks the evictor for 10 bytes, is refused when the evictor fails, and the sizes stay 80 and 0 |
| BoundedPoolProperties.ForcedAddCanExceedCeiling | branches/cachemanager_pools/src/main/java/net/sf/ehcache/pool/impl/BoundedPool.java:122-124 | a forced add is committed after the evictor is consulted, even when it frees nothing, leaving 110 bytes under a ceiling of 100 |
| LfuSampling.SampleElements | branches/ehcache-1.6.0-beta4/core/src/main/java/net/sf/ehcache/store/LfuMemoryStore.java:128-149 | walking one iterator with the skips equals the closed form: one slot per offset; slot i holds the value at position offsets[0] + ... + offsets[i] + i when that is below the entry count, and null otherwise |
| LfuSampling.Sample | branches/ehcache-1.6.0-beta4/core/src/main/java/net/sf/ehcache/store/LfuMemoryStore.java:129-147 | one slot per offset, and every filled slot holds a current store value |
| LfuSampling.SamplePositionIncreasing | branches/ehcache-1.6.0-beta4/core/src/main/java/net/sf/ehcache/store/LfuMemoryStore.java:132-147 | later slots read strictly later iteration positions |
| LfuSampling.SampleStaysExhausted | branches/ehcache-1.6.0-beta4/core/src/main/java/net/sf/ehcache/store/LfuMemoryStore.java:133-146 | once a slot is null, every later slot is null |
| LfuSampling.SampleNoRepeats | branches/ehcache-1.6.0-beta4/core/src/main/java/net/sf/ehcache/store/LfuMemoryStore.java:131-147 | no entry is sampled twice: two filled slots hold entries with different keys |
| LfuMemoryStore.FindRelativelyUnused | branches/ehcache-1.6.0-beta4/core/src/main/java/net/sf/ehcache/store/LfuMemoryStore.java:114-121 | the candidate, if any, is a sampled slot, a current store value, and has a key other than the element just added |
| LfuMemoryStore.RemoveKeyRemovesOne | branches/ehcache-1.6.0-beta4/core/src/main/java/net/sf/ehcache/store/LfuMemoryStore.java:105-111 | removing the candidate's key from a map with distinct keys takes out exactly that entry and keeps all others |
| LfuMemoryStore.RemoveLfuElement | branches/ehcache-1.6.0-beta4/core/src/main/java/net/sf/ehcache/store/LfuMemoryStore.java:90-112 | no candidate leaves the store unchanged, so it grows by one. An expired candidate is removed and reported as an expiry; any other candidate is reported as evicted and removed. Either way exactly the candidate leaves the map, and its key is not the key just added |
| LfuMemoryStore.DoPut | branches/ehcache-1.6.0-beta4/core/src/main/java/net/sf/ehcache/store/LfuMemoryStore.java:83-87 | a store that is not full is left unchanged. A full store gives up an entry exactly when the selection finds a candidate, that candidate, as an expiry exactly when it has expired; it gives up at most one entry, a present one whose key is not the key just added, and keeps every other entry, so the element just added stays in the map |

## Left out

- Concurrency. The model covers none of the atomic counters and flags, the synchronized
  accessor list, or the synchronized `doPut`. It also omits the overshoot that racing adds on
  different accessors can cause. Every operation is one sequential transition.
- Java `long` arithmetic. Sizes and totals are unbounded integers, so no 64-bit wrap-around of
  `getSize() + sizeOf` or `newSize - maximumPoolSize` is modelled.
- Evictor side effects. A successful evictor evicts entries from the stores, and those stores
  then delete through their own accessors. The model treats the evictor as an oracle that only
  answers, so no accessor size changes because of it.
- Evictor answers. The evictor is one fixed function of (stores, missing bytes), so two identical
  requests get the same answer. A real evictor works on changing store contents and need not
  answer the same way twice. No property proved here depends on this.
- Size-of engines. They are total functions. A measurement that throws is not modelled, and the
  reflective engines are not modelled either.
- Sample generation and selection. `LfuPolicy.generateRandomSample` and
  `LfuPolicy.selectedBasedOnPolicy` are not part of this model. The offsets are an input, and
  the policy is a parameter bound only by its documented promise. The hit-count comparison is
  therefore not modelled, and no claim is made that a full scan finds the least used entry.
- The `MemoryStore` collaborators. `isFull()` is a boolean input to `DoPut`. `isExpired()` is a
  flag on the element, fixed when the sample is taken, which stands in for the clock. `evict`
  (spooling to disk, listener notification) and `notifyExpiry` are the `Evicted` and `Expired`
  outcomes. `remove(key)` drops the entry with that key and keeps the others in iteration
  order; the real map does not promise any order after a removal.
- Element equality. The source compares elements by key, and so does the model wherever it
  says "not the element just added". Elsewhere elements are compared structurally, which is the
  same thing inside a map with distinct keys.
- Logging.

## Notes on the source

- The accessor's `add` refuses without consulting the evictor only when the excess over the
  ceiling is itself larger than the ceiling, that is when total + sizeOf > 2 × maximumPoolSize.
  A triple larger than the ceiling but at most twice the ceiling, added to an empty pool,
  therefore still reaches the evictor. The model follows the code.
- `force | evictor.freeSpace(...)` does not short-circuit. The evictor is asked even for a
  forced add, and a forced or evictor-approved add is committed without checking the ceiling
  again. `ForcedAddCanExceedCeiling` shows a total above the ceiling after such an add.
- `replace` subtracts the value `add` returned even when that value is the refusal `-1`. In that
  case it returns the deleted bytes plus one, and the deleted bytes stay deducted.
- A shrinking replace still runs through `add`'s capacity check. `ReplaceNotGrowingIsAdmitted`
  proves that this check always admits it for a registered accessor of a pool within its
  ceiling. An accessor that was taken out of the registry without being unlinked is not
  covered: its own bytes are not part of the total, so the delete frees no room for the add.
