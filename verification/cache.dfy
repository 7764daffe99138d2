/** The state machine of `ReferenceCountedCache`: a map from key to a
    reference-counted resource plus a closed flag, with the two public
    transitions `Get` (sweep, lookup-or-create, transform) and `Close`
    (idempotent checked teardown).

    Everything the cache only calls out to is a parameter:
    - the reference count of a resource, as two snapshots (`R -> int`), one
      read by the sweep and one read by the re-check after the lookup, since
      another holder may release the resource in between;
    - the creator, `K -> Result<R, E>`, which may fail with the caller's
      error type `E`;
    - the transformer, `(O, R) -> V`, turning a resource and the requesting
      owner into the view handed back;
    - `checkReferences`, `R -> bool`, true when the resource passes. */
module RefCountedCache {
  import opened Wrappers

  /** The cache's whole mutable state. */
  datatype Cache<K, R> = Cache(entries: map<K, R>, closed: bool)

  /** Why `Get` raised instead of returning a view. */
  datatype GetError<+E> =
    | ClosedError            // checkIsNotClosed failed
    | CreationError(cause: E) // the creator threw; propagated as is

  /** Why `Close` raised: some resource failed `checkReferences`. */
  datatype CloseError = TeardownViolation

  /** A call the cache makes to a collaborator supplied by its owner. */
  datatype Call<K, O, R> =
    | CreatorCall(key: K)
    | TransformerCall(owner: O, resource: R)

  /** The outcome of one `Get`: the state afterwards, the view or error
      returned, and the collaborator calls made, in order. */
  datatype GetStep<K, O, R, V, E> =
    GetStep(cache: Cache<K, R>, result: Result<V, GetError<E>>, calls: seq<Call<K, O, R>>)

  /** The outcome of one `Close`. */
  datatype CloseStep<K, R> = CloseStep(cache: Cache<K, R>, outcome: Outcome<CloseError>)

  /** A resource whose count reads zero has been released by every holder. */
  predicate Released<R>(count: R -> int, r: R) {
    count(r) == 0
  }

  /** The lazy sweep: drop every entry whose resource reads a zero count,
      keep every other entry under the same key with the same resource. */
  function Sweep<K, R>(m: map<K, R>, count: R -> int): (swept: map<K, R>)
    ensures forall k :: k in m && !Released(count, m[k]) ==> k in swept
    ensures forall k :: k in swept ==> k in m && !Released(count, m[k]) && swept[k] == m[k]
  {
    map k | k in m && !Released(count, m[k]) :: m[k]
  }

  /** The lookup after the sweep finds a resource under `key` that is still
      live at the re-check, so `Get` reuses it. */
  predicate Reuses<K, R>(c: Cache<K, R>, key: K, countAtSweep: R -> int, countAtCheck: R -> int) {
    var swept := Sweep(c.entries, countAtSweep);
    !c.closed && key in swept && !Released(countAtCheck, swept[key])
  }

  /** `Get` on an open cache that cannot reuse an entry calls the creator. */
  predicate NeedsCreation<K, R>(c: Cache<K, R>, key: K, countAtSweep: R -> int, countAtCheck: R -> int) {
    !c.closed && !Reuses(c, key, countAtSweep, countAtCheck)
  }

  /** The number of times `calls` invokes the creator. */
  function CreatorCalls<K, O, R>(calls: seq<Call<K, O, R>>): (n: nat)
    ensures n == 0 <==> forall i :: 0 <= i < |calls| ==> !calls[i].CreatorCall?
  {
    if |calls| == 0 then 0
    else (if calls[0].CreatorCall? then 1 else 0) + CreatorCalls(calls[1..])
  }

  /** `get(owner, key)`: fail fast when closed; otherwise sweep, then reuse
      the live resource under `key` or create and store a new one, and hand
      back the transformer's view of the resource used. */
  function Get<K, O, R, V, E>(
    c: Cache<K, R>, owner: O, key: K,
    countAtSweep: R -> int, countAtCheck: R -> int,
    creator: K -> Result<R, E>, transformer: (O, R) -> V
  ): (s: GetStep<K, O, R, V, E>)
    // a closed cache raises, touches nothing and calls nobody
    ensures c.closed ==> s.cache == c && s.result == Failure(ClosedError) && s.calls == []
    // an open cache stays open
    ensures !c.closed ==> !s.cache.closed
    // every entry other than `key` survived the sweep unchanged
    ensures !c.closed ==> forall k :: k in s.cache.entries && k != key ==>
              k in c.entries && s.cache.entries[k] == c.entries[k] && !Released(countAtSweep, c.entries[k])
    // and every entry that survives the sweep is still there
    ensures !c.closed ==> forall k :: k in c.entries && k != key && !Released(countAtSweep, c.entries[k]) ==>
              k in s.cache.entries
    // the creator is called at most once, only with `key`, and exactly when no live entry could be reused
    ensures CreatorCalls(s.calls) == (if NeedsCreation(c, key, countAtSweep, countAtCheck) then 1 else 0)
    ensures forall i :: 0 <= i < |s.calls| && s.calls[i].CreatorCall? ==> s.calls[i].key == key
    // reuse: the map is the swept map and the view is of the existing resource
    ensures Reuses(c, key, countAtSweep, countAtCheck) ==>
              var r := c.entries[key];
              && s.cache.entries == Sweep(c.entries, countAtSweep)
              && s.result == Success(transformer(owner, r))
              && s.calls == [TransformerCall(owner, r)]
    // creation succeeded: the new resource is stored under `key` and viewed
    ensures NeedsCreation(c, key, countAtSweep, countAtCheck) && creator(key).Success? ==>
              var r := creator(key).value;
              && s.cache.entries == Sweep(c.entries, countAtSweep)[key := r]
              && s.result == Success(transformer(owner, r))
              && s.calls == [CreatorCall(key), TransformerCall(owner, r)]
    // creation failed: the error propagates, nothing is stored, no view is made
    ensures NeedsCreation(c, key, countAtSweep, countAtCheck) && creator(key).Failure? ==>
              && s.cache.entries == Sweep(c.entries, countAtSweep)
              && s.result == Failure(CreationError(creator(key).error))
              && s.calls == [CreatorCall(key)]
    // a returned view is always of the resource now stored under `key`
    ensures s.result.Success? ==>
              key in s.cache.entries && s.result.value == transformer(owner, s.cache.entries[key])
  {
    if c.closed then
      GetStep(c, Failure(ClosedError), [])
    else
      var swept := Sweep(c.entries, countAtSweep);
      if key in swept && !Released(countAtCheck, swept[key]) then
        var r := swept[key];
        GetStep(Cache(swept, false), Success(transformer(owner, r)), [TransformerCall(owner, r)])
      else
        match creator(key)
        case Failure(e) =>
          GetStep(Cache(swept, false), Failure(CreationError(e)), [CreatorCall(key)])
        case Success(r) =>
          GetStep(Cache(swept[key := r], false), Success(transformer(owner, r)),
                  [CreatorCall(key), TransformerCall(owner, r)])
  }

  /** Every remaining resource passes `checkReferences`. */
  predicate AllPass<K, R>(m: map<K, R>, check: R -> bool) {
    forall k :: k in m ==> check(m[k])
  }

  /** `close()`: nothing when already closed; otherwise check every
      remaining resource, and only when all pass clear the map and close. */
  function Close<K, R>(c: Cache<K, R>, check: R -> bool): (s: CloseStep<K, R>)
    ensures c.closed ==> s == CloseStep(c, Pass)
    ensures s.outcome.Pass? <==> c.closed || AllPass(c.entries, check)
    ensures !c.closed && s.outcome.Pass? ==> s.cache == Cache(map[], true)
    ensures s.outcome.Fail? ==> s.cache == c && !s.cache.closed && s.outcome == Fail(TeardownViolation)
  {
    if c.closed then CloseStep(c, Pass)
    else if AllPass(c.entries, check) then CloseStep(Cache(map[], true), Pass)
    else CloseStep(c, Fail(TeardownViolation))
  }
}
