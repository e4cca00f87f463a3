/** Reconciler (refreshRegistryMap and the three map helpers it calls): brings
    the registry store in line with a candidate map by deleting the services
    the backend no longer reports and overwriting every reported one. */
module Reconcile {
  import opened Registry

  /** FindExclusiveKey: services in the store that the new registry lacks. */
  function ExclusiveKeys(store: Table, newRegistry: Table): set<string>
  {
    store.Keys - newRegistry.Keys
  }

  /** The part of `m` whose keys are in `ks`. */
  function Restrict(m: Table, ks: set<string>): Table
  {
    map k | k in ks && k in m :: m[k]
  }

  /** What the store holds after reconciliation, starting from `store`
      (an absent store is first created empty). */
  function Reconciled(store: Option<Table>, newRegistry: Table): Table
  {
    var base := if store.Some? then store.value else map[];
    (base - ExclusiveKeys(base, newRegistry)) + newRegistry
  }

  /** `h0` is a prefix of `h`: the past of a store is never rewritten. */
  ghost predicate Extends(h0: seq<Table>, h: seq<Table>)
  {
    |h0| <= |h| && h[..|h0|] == h0
  }

  /** A state that a reader may observe while `before` is reconciled with
      `candidate`: every service present in both is there, and every service
      there carries either its complete old list or its complete new list. */
  ghost predicate ReaderSafe(before: Table, candidate: Table, m: Table)
  {
    && (forall k :: k in before && k in candidate ==> k in m)
    && (forall k :: k in m ==> (k in before && m[k] == before[k]) || (k in candidate && m[k] == candidate[k]))
  }

  /** `m` is `before` with some of the keys in `keys` removed. */
  ghost predicate Shrunk(before: Table, keys: set<string>, m: Table)
  {
    && (forall k :: k in m ==> k in before && m[k] == before[k])
    && (forall k :: k in before && k !in keys ==> k in m)
  }

  /** `m` is `before` with some entries of `overlay` written over it. */
  ghost predicate Overlaid(before: Table, overlay: Table, m: Table)
  {
    && before.Keys <= m.Keys
    && (forall k :: k in m ==> (k in overlay && m[k] == overlay[k]) || (k in before && m[k] == before[k]))
  }

  /** DelKeys: removes the given keys from the store, one atomic delete each. */
  method DelKeys(store: RegistryStore, keys: set<string>)
    requires store.Valid()
    modifies store
    ensures store.Valid()
    ensures store.entries == old(store.entries) - keys
    ensures Extends(old(store.history), store.history)
    ensures forall i :: |old(store.history)| <= i < |store.history| ==> Shrunk(old(store.entries), keys, store.history[i])
  {
    var rest := keys;
    while rest != {}
      invariant store.Valid()
      invariant rest <= keys
      invariant store.entries == old(store.entries) - (keys - rest)
      invariant Extends(old(store.history), store.history)
      invariant forall i :: |old(store.history)| <= i < |store.history| ==> Shrunk(old(store.entries), keys, store.history[i])
      decreases rest
    {
      var k :| k in rest;
      store.Delete(k);
      rest := rest - {k};
    }
  }

  /** MergeSyncMap: writes every entry of `newRegistry` into the store, one
      atomic insert-or-overwrite per key, replacing a key's old list wholesale. */
  method MergeSyncMap(newRegistry: Table, store: RegistryStore)
    requires store.Valid()
    modifies store
    ensures store.Valid()
    ensures store.entries == old(store.entries) + newRegistry
    ensures Extends(old(store.history), store.history)
    ensures forall i :: |old(store.history)| <= i < |store.history| ==> Overlaid(old(store.entries), newRegistry, store.history[i])
  {
    var rest := newRegistry.Keys;
    while rest != {}
      invariant store.Valid()
      invariant rest <= newRegistry.Keys
      invariant store.entries == old(store.entries) + Restrict(newRegistry, newRegistry.Keys - rest)
      invariant Extends(old(store.history), store.history)
      invariant forall i :: |old(store.history)| <= i < |store.history| ==> Overlaid(old(store.entries), newRegistry, store.history[i])
      decreases rest
    {
      var k :| k in rest;
      store.Store(k, newRegistry[k]);
      rest := rest - {k};
      assert store.entries == old(store.entries) + Restrict(newRegistry, newRegistry.Keys - rest);
    }
    assert Restrict(newRegistry, newRegistry.Keys) == newRegistry;
  }

  /** After reconciliation the store is exactly the candidate map: its keys are
      the candidate's keys and each list is the candidate's list. */
  lemma ReconciledIsCandidate(store: Option<Table>, newRegistry: Table)
    ensures Reconciled(store, newRegistry) == newRegistry
  {
    var base := if store.Some? then store.value else map[];
    var r := Reconciled(store, newRegistry);
    assert r.Keys == newRegistry.Keys;
  }

  /** Deleting the exclusive keys keeps every service that the candidate map
      still reports, with its old list, and removes every other one. */
  lemma DeletionKeepsSharedKeys(before: Table, newRegistry: Table)
    ensures var kept := before - ExclusiveKeys(before, newRegistry);
            && kept.Keys == before.Keys * newRegistry.Keys
            && forall k :: k in kept ==> kept[k] == before[k]
  {
  }

  /** Every state a reader sees while the exclusive keys are deleted, and
      every state it sees while the candidate is merged in, is reader-safe. */
  lemma ReconcileStatesAreReaderSafe(before: Table, newRegistry: Table, m: Table)
    ensures Shrunk(before, ExclusiveKeys(before, newRegistry), m) ==> ReaderSafe(before, newRegistry, m)
    ensures Overlaid(before - ExclusiveKeys(before, newRegistry), newRegistry, m) ==> ReaderSafe(before, newRegistry, m)
  {
  }

  /** The worked example: {A: [x], B: [y]} reconciled with {A: [x2]} is {A: [x2]}. */
  lemma ExclusiveKeyRemovalExample(x: Instance, y: Instance, x2: Instance)
    ensures Reconciled(Some(map["A" := [x], "B" := [y]]), map["A" := [x2]]) == map["A" := [x2]]
  {
    ReconciledIsCandidate(Some(map["A" := [x], "B" := [y]]), map["A" := [x2]]);
  }
}
