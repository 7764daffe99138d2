/** Runs of the cache: any sequence of `get` and `close` calls applied from
    a starting state, each with its own collaborators (the counts a call
    reads, its creator and transformer, its reference check). */
module CacheTraces {
  import opened Wrappers
  import opened RefCountedCache

  /** One call to the cache, with the collaborators it sees. */
  datatype Event<!K, !O, !R, V, E> =
    | GetEvent(owner: O, key: K,
               countAtSweep: R -> int, countAtCheck: R -> int,
               creator: K -> Result<R, E>, transformer: (O, R) -> V)
    | CloseEvent(check: R -> bool)

  /** The state after one call. */
  function Apply<K, O, R, V, E>(c: Cache<K, R>, e: Event<K, O, R, V, E>): (c': Cache<K, R>)
    ensures c.closed ==> c' == c
    ensures e.GetEvent? ==> c'.entries.Keys <= c.entries.Keys + {e.key}
    ensures e.CloseEvent? ==> c'.entries.Keys <= c.entries.Keys
  {
    match e
    case GetEvent(owner, key, countAtSweep, countAtCheck, creator, transformer) =>
      Get(c, owner, key, countAtSweep, countAtCheck, creator, transformer).cache
    case CloseEvent(check) =>
      Close(c, check).cache
  }

  /** The state after every call of `events`, in order. */
  function Run<K, O, R, V, E>(c: Cache<K, R>, events: seq<Event<K, O, R, V, E>>): Cache<K, R>
    decreases |events|
  {
    if |events| == 0 then c else Run(Apply(c, events[0]), events[1..])
  }

  /** The keys passed to `get` somewhere in `events`. */
  function Requested<K, O, R, V, E>(events: seq<Event<K, O, R, V, E>>): (ks: set<K>)
    ensures forall i :: 0 <= i < |events| && events[i].GetEvent? ==> events[i].key in ks
    ensures forall k :: k in ks ==> exists i :: 0 <= i < |events| && events[i].GetEvent? && events[i].key == k
    decreases |events|
  {
    if |events| == 0 then {}
    else (if events[0].GetEvent? then {events[0].key} else {}) + Requested(events[1..])
  }

  /** Only requested keys are ever added: every key cached after a run was
      cached at its start or passed to some `get` of the run. */
  lemma {:induction false} OnlyRequestedKeysAreCached<K, O, R, V, E>(
    c: Cache<K, R>, events: seq<Event<K, O, R, V, E>>)
    ensures Run(c, events).entries.Keys <= c.entries.Keys + Requested(events)
    decreases |events|
  {
    if |events| > 0 {
      OnlyRequestedKeysAreCached(Apply(c, events[0]), events[1..]);
    }
  }

  /** From a freshly constructed cache (empty and open), a key never passed to `get` never appears. */
  lemma NeverRequestedNeverCached<K, O, R, V, E>(events: seq<Event<K, O, R, V, E>>, key: K)
    requires key !in Requested(events)
    ensures key !in Run(Cache(map[], false), events).entries
  {
    OnlyRequestedKeysAreCached(Cache(map[], false), events);
  }

  /** A closed cache is final: no later call changes it. */
  lemma {:induction false} ClosedIsFinal<K, O, R, V, E>(c: Cache<K, R>, events: seq<Event<K, O, R, V, E>>)
    requires c.closed
    ensures Run(c, events) == c
    decreases |events|
  {
    if |events| > 0 {
      ClosedIsFinal(Apply(c, events[0]), events[1..]);
    }
  }

  /** A run that never closes leaves the cache open. */
  lemma {:induction false} GetsKeepCacheOpen<K, O, R, V, E>(c: Cache<K, R>, events: seq<Event<K, O, R, V, E>>)
    requires !c.closed
    requires forall i :: 0 <= i < |events| ==> events[i].GetEvent?
    ensures !Run(c, events).closed
    decreases |events|
  {
    if |events| > 0 {
      GetsKeepCacheOpen(Apply(c, events[0]), events[1..]);
    }
  }

  /** The state invariant the code keeps: a closed cache holds nothing,
      since the map is cleared before the closed flag is set. */
  predicate Valid<K, R>(c: Cache<K, R>) {
    c.closed ==> c.entries == map[]
  }

  /** Every run from a valid state, in particular from a fresh cache, ends
      in a valid state. */
  lemma {:induction false} RunPreservesValid<K, O, R, V, E>(c: Cache<K, R>, events: seq<Event<K, O, R, V, E>>)
    requires Valid(c)
    ensures Valid(Run(c, events))
    decreases |events|
  {
    if |events| > 0 {
      var e := events[0];
      if e.CloseEvent? && !c.closed {
        assert Close(c, e.check).outcome.Pass? ==> Apply(c, e).entries == map[];
      }
      RunPreservesValid(Apply(c, e), events[1..]);
    }
  }
}
