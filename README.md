# Component tree cache, modelled in Dafny

This project models the in-memory cache of the component service
(`cache/component_cache.go`). A component is a node in a tree. It has an
integer id, a name, a description, a nullable parent id and two opaque
timestamps. The cache keeps three structures that must agree:

- `componentsById`: the by-id index, a map from id to component;
- `childrenByParentId`: the by-parent index, a map from a parent key to the
  ordered bucket of components filed under it;
- `allComponents`: the flat listing of every cached component.

The parent key of a component is its parent id when that id is present, and
the root key `0` when it is NULL. So a present parent id of `0` also lands in
the root bucket.

Files:

- `models.dfy`: `Component`, the nullable column `NullInt64` (two fields,
  compared as a pair, as Go compares `sql.NullInt64`), `Option`, `Result`.
- `cache_spec.dfy`: the three structures as one value (`State`) and, as
  functions, what each operation does to it. It also holds the consistency
  invariant `Inv`.
- `cache_lemmas.dfy`: what the operations guarantee. Each one preserves `Inv`.
  Set returns the entity by id, moves it rather than duplicating it, and is
  idempotent. Delete removes exactly one entity and does not cascade.
  Initialisation files every snapshot entity under its parent key, in
  snapshot order.
- `component_cache.dfy`: the `ComponentCache` class with the source's
  fields and loops. Set, Delete, removeChildFromParent and the
  initialisation are proved to compute the matching function of
  `cache_spec.dfy`; Set and Delete are also proved to keep `Valid()`. The
  getters are proved to return the fields they read.
- `store.dfy`: the parent-id normalisation the store applies before
  writing. It is the only pure fragment of `store/component_store.go`.
- `scenarios.dfy`: two scenarios from `cache/component_cache_test.go`:
  deleting a parent and re-parenting a child. Each scenario state is derived
  from the general lemmas, and each test body is proved from the class
  contracts alone.

Where the code behaves in a way a reader might not expect, the model follows the code. The first item also contradicts the code's own test:

- **Deleting a parent keeps its children's bucket.** Delete prunes only the
  deleted entity's own parent-key bucket (`cache/component_cache.go:141-142`).
  After `Delete(100)`, bucket `100` still holds children 200 and 300, and
  `GetChildren(100)` still reports them as found
  (`CacheScenarios.DeleteParentKeepsChildren`, `CacheLemmas.RemoveKeepsChildren`).
  The test comment at `cache/component_cache_test.go:483` says that bucket
  will be gone, and the assertion at `cache/component_cache_test.go:494-498`
  fails if it is still there. The code keeps it.
- **An update moves the entity to the end of its bucket.** Set always
  filters the entity out of its new bucket and re-appends it
  (`cache/component_cache.go:117-118`), even when the parent is unchanged.
  The model states this order (`CacheLemmas.UpsertBuckets`).
- **Set compares parent values, not parent keys.** `NullInt64(false, 0)`
  and `NullInt64(true, 0)` are different values with the same key. Changing
  one into the other takes the "parent changed" branch
  (`CacheLemmas.DetachByParentValue`). That branch still ends with the
  entity last in the root bucket.

## Model

| member | source | states |
|---|---|---|
| `CacheSpec.ParentKey` | cache/component_cache.go:214-219 | a present parent id is the key; a NULL parent maps to the root key 0 |
| `Store.NormalizeParentId` | store/component_store.go:26-28 | the stored parent id is never a present 0, is present exactly when the input is present and non-zero, and selects the same bucket as the input |
| `Store.NormalizeAgreesWithParentKey` | store/component_store.go:104-106 | two parent ids normalise to the same stored value if and only if they have the same parent key |
| `CacheSpec.IndexOfId` | cache/component_cache.go:100-106 | the scan finds the first slot carrying the id, or reports that no slot carries it |
| `Cache.FilterOutId` | cache/component_cache.go:152-157 | the copy loop keeps, in order, exactly the elements whose id differs |
| `CacheLemmas.WithoutMembers` | cache/component_cache.go:133-138 | filtering keeps an element if and only if it was there and has another id |
| `CacheLemmas.WithoutCount` | cache/component_cache.go:133-139 | in a duplicate-free listing, filtering a present id removes exactly one element |
| `CacheLemmas.RemoveChildFacts` | cache/component_cache.go:147-163 | removing a child changes only its bucket; that bucket becomes the filtered bucket and stays stored exactly when it is non-empty |
| `Cache.ComponentCache.RemoveChildFromParent` | cache/component_cache.go:147-163 | the method computes the bucket removal; other buckets are unchanged and an emptied bucket is dropped |
| `Cache.ComponentCache.constructor` | cache/component_cache.go:24-30 | a new cache is empty and consistent |
| `CacheLemmas.ReplaceOrAppendFacts` | cache/component_cache.go:97-109 | on a duplicate-free listing, the new entity replaces the one slot with its id or is appended; the result stays duplicate-free |
| `CacheLemmas.DetachFacts` | cache/component_cache.go:86-92 | detaching changes only entries carrying the id; afterwards the id is in no bucket but possibly its new parent key's, and no bucket is empty |
| `CacheLemmas.DetachByParentValue` | cache/component_cache.go:86-92 | an unchanged parent value leaves the buckets untouched; a changed one removes the id from its old parent key's bucket, even when the old and new keys coincide |
| `CacheLemmas.UpsertBuckets` | cache/component_cache.go:86-118 | after Set, the new parent key's bucket is its old contents minus the id, then the entity; every other bucket only loses the id; empty buckets are gone |
| `CacheLemmas.UpsertListing` | cache/component_cache.go:97-109 | after Set, the listing keeps its length with the entity in the old slot, or grows by exactly one with the entity at the end for a new id |
| `CacheLemmas.UpsertKeepsInv` | cache/component_cache.go:79-119 | Set keeps the by-id index, the listing and the buckets consistent |
| `CacheLemmas.UpsertIdempotent` | cache/component_cache.go:111-118 | a second Set of the same entity changes nothing |
| `Cache.ComponentCache.Set` | cache/component_cache.go:79-119 | a nil argument is a no-op; otherwise the new state is the upsert of the old one, the id now maps to the entity, all other ids are unchanged, and consistency is kept |
| `CacheLemmas.RemoveKeepsInv` | cache/component_cache.go:122-143 | Delete keeps the three structures consistent |
| `CacheLemmas.RemoveEffect` | cache/component_cache.go:126-142 | deleting a cached id shrinks the listing by one and leaves no trace of the id there; other entities are unchanged; only the deleted entity's own bucket is filtered |
| `CacheLemmas.RemoveKeepsChildren` | cache/component_cache.go:141-142 | deleting a parent keeps its children cached and unchanged, and keeps the bucket keyed by its id |
| `Cache.ComponentCache.Delete` | cache/component_cache.go:122-143 | an absent id changes nothing; otherwise the new state is the removal from the old one, and consistency is kept |
| `Cache.ComponentCache.GetById` | cache/component_cache.go:166-175 | returns the cached component exactly when the id is indexed |
| `Cache.ComponentCache.GetAll` | cache/component_cache.go:178-188 | returns the flat listing; in a consistent cache it has one element per indexed id |
| `Cache.ComponentCache.GetChildren` | cache/component_cache.go:192-210 | found is true exactly when the bucket exists and is non-empty; the result is that bucket, or empty otherwise |
| `CacheLemmas.ListingSize` | cache/component_cache.go:14-16 | the ids of the listing are exactly the keys of the by-id index, and each occurs once |
| `CacheLemmas.IndexByIdFacts` | cache/component_cache.go:50-58 | the index built from a snapshot holds exactly its ids, each under itself; with distinct ids, each snapshot entity is returned unchanged |
| `CacheLemmas.GroupByParentFacts` | cache/component_cache.go:60-66 | each bucket built from a snapshot is the snapshot's entities with that parent key, in snapshot order, and exists exactly when non-empty, even when the parent is not in the snapshot |
| `CacheLemmas.SnapshotInv` | cache/component_cache.go:50-71 | a snapshot with distinct ids initialises a consistent cache |
| `Cache.InitGlobalCache` | cache/component_cache.go:34-75 | a listing failure returns the wrapped error and a fresh empty cache; success returns a fresh cache holding the snapshot, with listing length equal to the snapshot's, consistent when ids are distinct |
| `CacheScenarios.DeleteTestChildren` | cache/component_cache_test.go:418-423 | in the Delete tests' snapshot, the entities filed under 100 are 200 and 300, in that order |
| `CacheScenarios.DeleteTestState` | cache/component_cache_test.go:467-484 | after deleting 100 from that snapshot, 100 is gone, 200 is still cached unchanged, three entities are listed, and bucket 100 still holds 200 and 300 |
| `CacheScenarios.ReparentTestChildren` | cache/component_cache_test.go:357-361 | in the re-parenting test's snapshot, only 20 is filed under 10 and nothing is filed under 30 |
| `CacheScenarios.ReparentTestBuckets` | cache/component_cache_test.go:357-369 | after re-parenting 20 from 10 to 30, bucket 10 is gone and bucket 30 holds only the moved entity |

## Left out

- Locking (`sync.RWMutex`) is not modelled. Each method is treated as atomic, as the single exclusive lock makes it.
- The process-wide `GlobalComponentCache` variable is not modelled. `InitGlobalCache` returns the fresh instance it would assign.
- The store's `ListComponents` is a parameter of `InitGlobalCache`: a `Result` holding the snapshot or an error message. `%w` error wrapping is modelled as the prefix followed by the message; the error chain is not kept.
- Pointers and copying are not modelled. Components are immutable values here, so every stored or returned component is already a private copy. Copy isolation holds by construction and is not stated separately.
- 64-bit integer width is not modelled. Ids and parent ids are unbounded integers; the cache only compares them.
- Go's distinction between a nil and an empty slice is not modelled. An empty listing or bucket is the empty sequence.
- `Cache.InitGlobalCache`: the loader is modelled as independent of the cache, as the tests' `MockComponentStore` is (`cache/component_cache_test.go:19-30`). The production store's `ListComponents` reads back the global cache once it is non-nil (`store/component_store.go:170-173`). `InitGlobalCache` sets that global and takes the write lock before listing (`cache/component_cache.go:35-40`), so with the store that `main.go:23-24` passes in, the read lock in `GetAll` (`cache/component_cache.go:179`) would wait on that held lock. Reading the global back through the loader, and that wait, are not modelled.
- `Cache.InitGlobalCache`: does not exclude repeated ids in the snapshot, matching the code. Consistency is proved only for snapshots with distinct ids; with a repeat, the index keeps the later entry and the listing and buckets keep both.
- The rest of `store/component_store.go` (SQL statements, row scanning, timestamp formatting, the cache-or-database fallback) is database I/O and is not part of this model. So are `api/handlers.go` (HTTP routing and JSON), `db/db.go` and `main.go`.
