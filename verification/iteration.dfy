/** The two places where the cache walks its map entry by entry: the sweep
    (`removeIf` over the entry set) and the teardown (`forEach` of
    `checkReferences` over the values). The map's iteration order is
    unspecified, so each step picks any key not yet visited; whichever
    order is taken, the walk agrees with the whole-map definition in
    `RefCountedCache`. */
module EntryIteration {
  import opened Wrappers
  import opened RefCountedCache

  /** `removeIf(entry -> refCount == 0)`: visit every entry once and remove
      it when its resource reads a zero count. */
  method RemoveIf<K, R>(m: map<K, R>, count: R -> int) returns (swept: map<K, R>)
    ensures swept == Sweep(m, count)
  {
    swept := m;
    var pending := m.Keys;
    while pending != {}
      invariant pending <= m.Keys
      invariant forall k :: k in pending ==> k in swept
      invariant forall k :: k in swept ==> k in m && swept[k] == m[k]
      invariant forall k :: k in m && k !in pending ==> (k in swept <==> !Released(count, m[k]))
      decreases pending
    {
      var k :| k in pending;
      if Released(count, swept[k]) {
        swept := swept - {k};
      }
      pending := pending - {k};
    }
  }

  /** True when no key occurs twice in `ks`. */
  predicate Distinct<K(==)>(ks: seq<K>) {
    forall i, j :: 0 <= i < j < |ks| ==> ks[i] != ks[j]
  }

  /** `close()` as the code runs it: return at once when closed; otherwise
      check the resources one entry at a time, stopping at the first that
      fails, and clear and close only after all passed. `checked` lists the
      keys whose resources were checked, in order. */
  method CloseChecked<K, R>(c: Cache<K, R>, check: R -> bool) returns (s: CloseStep<K, R>, checked: seq<K>)
    ensures s == Close(c, check)
    ensures c.closed ==> checked == []
    ensures Distinct(checked)
    ensures forall i :: 0 <= i < |checked| ==> checked[i] in c.entries
    // on success every remaining resource was checked
    ensures !c.closed && s.outcome.Pass? ==> forall k :: k in c.entries ==> k in checked
    // on failure the walk stopped at the first failing resource
    ensures s.outcome.Fail? ==>
              && |checked| > 0
              && !check(c.entries[checked[|checked| - 1]])
              && forall i :: 0 <= i < |checked| - 1 ==> check(c.entries[checked[i]])
  {
    checked := [];
    if c.closed {
      s := CloseStep(c, Pass);
      return;
    }
    var pending := c.entries.Keys;
    while pending != {}
      invariant pending <= c.entries.Keys
      invariant Distinct(checked)
      invariant forall i :: 0 <= i < |checked| ==> checked[i] in c.entries && checked[i] !in pending
      invariant forall k :: k in c.entries ==> k in pending || k in checked
      invariant forall i :: 0 <= i < |checked| ==> check(c.entries[checked[i]])
      decreases pending
    {
      var k :| k in pending;
      checked := checked + [k];
      if !check(c.entries[k]) {
        s := CloseStep(c, Fail(TeardownViolation));
        return;
      }
      pending := pending - {k};
    }
    s := CloseStep(Cache(map[], true), Pass);
  }
}
