/** Properties that relate several calls of `Get` and `Close`: the life of
    one key across a release, sharing of a live resource, and teardown
    that is idempotent and final. Each follows from the contracts of `Get`
    and `Close`, with no further proof. */
module CacheLaws {
  import opened Wrappers
  import opened RefCountedCache

  /** Once a resource is released, the next `get` for its key calls the
      creator exactly once and the new resource replaces the old one. */
  lemma ReleasedResourceIsRecreated<K, O, R, V, E>(
    c: Cache<K, R>, owner: O, key: K,
    countAtSweep: R -> int, countAtCheck: R -> int,
    creator: K -> Result<R, E>, transformer: (O, R) -> V, created: R)
    requires !c.closed && key in c.entries
    requires Released(countAtSweep, c.entries[key])
    requires creator(key) == Success(created)
    ensures var s := Get(c, owner, key, countAtSweep, countAtCheck, creator, transformer);
            && CreatorCalls(s.calls) == 1
            && s.cache.entries == Sweep(c.entries, countAtSweep)[key := created]
            && s.result == Success(transformer(owner, created))
  {
  }

  /** A release that happens after the sweep but before the re-check is
      still caught: the stale resource is not handed out, a new one is made. */
  lemma LateReleaseIsCaught<K, O, R, V, E>(
    c: Cache<K, R>, owner: O, key: K,
    countAtSweep: R -> int, countAtCheck: R -> int,
    creator: K -> Result<R, E>, transformer: (O, R) -> V, created: R)
    requires !c.closed && key in c.entries
    requires !Released(countAtSweep, c.entries[key]) && Released(countAtCheck, c.entries[key])
    requires creator(key) == Success(created)
    ensures var s := Get(c, owner, key, countAtSweep, countAtCheck, creator, transformer);
            && CreatorCalls(s.calls) == 1
            && s.cache.entries[key] == created
            && s.result == Success(transformer(owner, created))
  {
  }

  /** A resource obtained by one `get` and still live at the next `get` of
      the same key is reused: no second creation, a view of the same
      resource, and the entry stays. */
  lemma LiveResourceIsShared<K, O, R, V, E>(
    c: Cache<K, R>, owner1: O, owner2: O, key: K,
    sweep1: R -> int, check1: R -> int, creator1: K -> Result<R, E>, transformer1: (O, R) -> V,
    sweep2: R -> int, check2: R -> int, creator2: K -> Result<R, E>, transformer2: (O, R) -> V)
    requires Get(c, owner1, key, sweep1, check1, creator1, transformer1).result.Success?
    requires var s1 := Get(c, owner1, key, sweep1, check1, creator1, transformer1);
             !Released(sweep2, s1.cache.entries[key]) && !Released(check2, s1.cache.entries[key])
    ensures var s1 := Get(c, owner1, key, sweep1, check1, creator1, transformer1);
            var r := s1.cache.entries[key];
            var s2 := Get(s1.cache, owner2, key, sweep2, check2, creator2, transformer2);
            && CreatorCalls(s2.calls) == 0
            && s2.result == Success(transformer2(owner2, r))
            && key in s2.cache.entries && s2.cache.entries[key] == r
  {
  }

  /** A failed creation stores nothing: the error propagates, the creator
      ran once, and the map is the swept map, so a sub-map of the map before.
      The key keeps an entry only when its resource survived the sweep and
      went stale before the re-check; that stale resource is not replaced. */
  lemma FailedCreationStoresNothing<K, O, R, V, E>(
    c: Cache<K, R>, owner: O, key: K,
    countAtSweep: R -> int, countAtCheck: R -> int,
    creator: K -> Result<R, E>, transformer: (O, R) -> V)
    requires NeedsCreation(c, key, countAtSweep, countAtCheck) && creator(key).Failure?
    ensures var s := Get(c, owner, key, countAtSweep, countAtCheck, creator, transformer);
            && s.result == Failure(CreationError(creator(key).error))
            && CreatorCalls(s.calls) == 1
            && (forall k :: k in s.cache.entries ==> k in c.entries && s.cache.entries[k] == c.entries[k])
            && (key in s.cache.entries <==> key in c.entries && !Released(countAtSweep, c.entries[key]))
  {
  }

  /** `close` is idempotent: after a successful close, closing again passes
      with no change whatever the checks would say. */
  lemma CloseIsIdempotent<K, R>(c: Cache<K, R>, check1: R -> bool, check2: R -> bool)
    requires Close(c, check1).outcome.Pass?
    ensures var s1 := Close(c, check1);
            && s1.cache.closed
            && (!c.closed ==> s1.cache.entries == map[])
            && Close(s1.cache, check2) == s1
  {
  }

  /** After a successful close every `get`, for any key and collaborators,
      fails with the closed error and changes nothing. */
  lemma GetAfterCloseFails<K, O, R, V, E>(
    c: Cache<K, R>, check: R -> bool, owner: O, key: K,
    countAtSweep: R -> int, countAtCheck: R -> int,
    creator: K -> Result<R, E>, transformer: (O, R) -> V)
    requires Close(c, check).outcome.Pass?
    ensures var closed := Close(c, check).cache;
            var s := Get(closed, owner, key, countAtSweep, countAtCheck, creator, transformer);
            && s.result == Failure(ClosedError)
            && s.cache == closed
            && CreatorCalls(s.calls) == 0
  {
  }

  /** A close that finds a resource still referenced raises and leaves that
      resource's entry in place, with the cache still usable. */
  lemma FailedCloseKeepsEntries<K, R>(c: Cache<K, R>, check: R -> bool, key: K)
    requires !c.closed && key in c.entries && !check(c.entries[key])
    ensures var s := Close(c, check);
            && s.outcome == Fail(TeardownViolation)
            && key in s.cache.entries && s.cache.entries[key] == c.entries[key]
            && !s.cache.closed
  {
  }
}
