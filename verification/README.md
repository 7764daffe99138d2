# ReferenceCountedCache, modelled in Dafny

Chronicle Queue's `ReferenceCountedCache` maps keys to shared,
reference-counted resources (`ReferenceCounted`) and hands callers a view of
a resource made by a caller-supplied transformer. Each `get(owner, key)`
does three things in order:

1. It fails fast when the cache is closed.
2. It lazily sweeps out every entry whose resource reads a reference count
   of zero.
3. It reuses the resource under `key` if that resource is still live at a
   second read of its count. Otherwise it calls the creator and stores the
   new resource under `key`.

The view is always built from the resource that `get` used. `close()` is
idempotent. On an open cache it runs `checkReferences` on every remaining
resource. Only when all of them pass does it clear the map and mark the
cache closed.

The model is a functional state machine over `Cache(entries, closed)`.
Everything the cache only calls out to is a parameter:

- the reference count, as two snapshots `R -> int`: one read by the sweep
  (line 36) and one by the re-check (line 41);
- the creator, `K -> Result<R, E>`;
- the transformer, `(O, R) -> V`;
- `checkReferences`, `R -> bool`.

Each `Get` step records the creator and transformer calls it made. This makes "the
creator is called exactly once / not at all" a statement about the result.

Files:

- `wrappers.dfy`: `Result` and `Outcome` for operations that return or raise.
- `cache.dfy` (module `RefCountedCache`): the state, the sweep, `Get` and
  `Close` as whole-map functions.
- `iteration.dfy` (module `EntryIteration`): the sweep and the teardown as
  entry-by-entry walks in an unspecified order. Each walk is proved equal to
  its whole-map definition.
- `laws.dfy` (module `CacheLaws`): properties relating several calls. They
  follow from the contracts of `Get` and `Close` with no further proof.
- `traces.dfy` (module `CacheTraces`): properties of whole runs of `get`
  and `close` calls.

The refcount test follows the code exactly: an entry is dropped only when
its count reads `== 0`. A negative count, which the code never expects,
counts as live.

`get` rethrows the creator's exception `E` unchanged (line 43), so
`CreationError(cause)` carries exactly that error.

## Model

| member | source | states |
|---|---|---|
| RefCountedCache.Sweep | src/main/java/net/openhft/chronicle/queue/impl/single/ReferenceCountedCache.java:36 | After the sweep, a key is present exactly when it was present and its resource's count was not zero. Every survivor keeps its resource, and no key is added. |
| RefCountedCache.Get | src/main/java/net/openhft/chronicle/queue/impl/single/ReferenceCountedCache.java:32-48 | Closed: fails with the closed error, the state is unchanged, and nobody is called. Open: the cache stays open. Every entry other than `key` is one that survived the sweep, unchanged, and every survivor stays. The creator is called exactly once, with `key`, when no live entry can be reused, and otherwise not at all. On reuse, the map is the swept map and the view is of the existing resource. On successful creation, the map is `swept[key := created]` and the view is of the new resource. On failed creation, the error propagates, the map is the swept map, and the transformer is not called. Any returned view is of the resource now stored under `key`. |
| RefCountedCache.Close | src/main/java/net/openhft/chronicle/queue/impl/single/ReferenceCountedCache.java:50-56 | Closing a closed cache passes with no change. `close` passes exactly when the cache was already closed or every remaining resource passes the check. A passing close of an open cache leaves it empty and closed. A failing close leaves the state unchanged and open. |
| EntryIteration.RemoveIf | src/main/java/net/openhft/chronicle/queue/impl/single/ReferenceCountedCache.java:36 | Removing zero-count entries one at a time, in any order, gives exactly the whole-map sweep. |
| EntryIteration.CloseChecked | src/main/java/net/openhft/chronicle/queue/impl/single/ReferenceCountedCache.java:50-56 | Checking the resources one entry at a time, in any order, gives exactly the `Close` transition. A closed cache checks nothing. Each entry is checked at most once. A passing close has checked every entry. A failing close stopped at the first failing resource, after only passing ones. |
| CacheLaws.ReleasedResourceIsRecreated | src/main/java/net/openhft/chronicle/queue/impl/single/ReferenceCountedCache.java:36-47 | After a resource is released, the next `get` for its key calls the creator exactly once. The new resource replaces the old one, and the view is of the new resource. |
| CacheLaws.LateReleaseIsCaught | src/main/java/net/openhft/chronicle/queue/impl/single/ReferenceCountedCache.java:38-47 | A resource that is live at the sweep but reads zero at the re-check is not handed out. A new one is created, stored and viewed. |
| CacheLaws.LiveResourceIsShared | src/main/java/net/openhft/chronicle/queue/impl/single/ReferenceCountedCache.java:38-47 | After a successful `get`, a second `get` of the same key whose resource is still live does not create. It returns a view of the same resource and keeps it stored. |
| CacheLaws.FailedCreationStoresNothing | src/main/java/net/openhft/chronicle/queue/impl/single/ReferenceCountedCache.java:43-44 | Whenever `get` must create and the creator fails, the creator's error is what `get` raises and the creator ran once. The resulting map is a sub-map of the map before: nothing is stored and no resource is replaced. The key keeps an entry exactly when its resource survived the sweep, that is, when it went stale only before the re-check. |
| CacheLaws.CloseIsIdempotent | src/main/java/net/openhft/chronicle/queue/impl/single/ReferenceCountedCache.java:50-55 | After a passing close, the cache is closed and empty (if it was open before). Closing it again passes with no change, whatever the checks would say. |
| CacheLaws.GetAfterCloseFails | src/main/java/net/openhft/chronicle/queue/impl/single/ReferenceCountedCache.java:33-55 | After a passing close, every `get` fails with the closed error, changes nothing and creates nothing. |
| CacheLaws.FailedCloseKeepsEntries | src/main/java/net/openhft/chronicle/queue/impl/single/ReferenceCountedCache.java:53-55 | A close that finds a resource failing its check raises a teardown violation. That resource's entry stays, and the cache stays open. |
| CacheTraces.Apply | src/main/java/net/openhft/chronicle/queue/impl/single/ReferenceCountedCache.java:32-56 | One call never changes a closed cache. A `get` adds at most its own key. A `close` adds no key. |
| CacheTraces.OnlyRequestedKeysAreCached | src/main/java/net/openhft/chronicle/queue/impl/single/ReferenceCountedCache.java:36-44 | Over any run of calls, every cached key was cached at the start or passed to some `get` of the run. |
| CacheTraces.NeverRequestedNeverCached | src/main/java/net/openhft/chronicle/queue/impl/single/ReferenceCountedCache.java:36-44 | Starting from a fresh cache, a key never passed to `get` is never in the map. |
| CacheTraces.ClosedIsFinal | src/main/java/net/openhft/chronicle/queue/impl/single/ReferenceCountedCache.java:33-52 | No run of calls changes a closed cache. |
| CacheTraces.GetsKeepCacheOpen | src/main/java/net/openhft/chronicle/queue/impl/single/ReferenceCountedCache.java:32-48 | A run made only of `get` calls leaves an open cache open. |
| CacheTraces.RunPreservesValid | src/main/java/net/openhft/chronicle/queue/impl/single/ReferenceCountedCache.java:50-56 | A closed cache holds no entries, and every run from such a state keeps that invariant. |

## Left out

- Concurrency is not modelled. That covers the `ConcurrentHashMap`
  semantics, a count changing during the sweep, the duplicate-creation race
  at line 42, and two threads closing at once. The only trace of it is the
  two independent count snapshots read at lines 36 and 41.
- `ReferenceCounted` is external library code, so it is not part of this
  model. Its count is an arbitrary function, and `checkReferences` is an
  arbitrary pass/fail predicate.
- `AbstractCloseable` is not part of this model beyond the closed flag and
  `checkIsNotClosed`. Its closing-in-progress state and what `super.close()`
  releases are not modelled.
- The creator and the transformer are supplied by the caller and stay
  uninterpreted. A transformer that throws after the creator's resource was
  stored is not modelled, because the transformer is a total function here.
  A creator that returns `null`, which makes the map's `put` throw, is not
  modelled either, because the creator returns a resource or an error.
- `ReferenceOwner` and the nullability annotations carry no behaviour. The
  owner is passed through to the transformer unchanged.
- Close: a failing `checkReferences` raises whatever that library method
  throws. The model reduces it to a single `TeardownViolation`.
