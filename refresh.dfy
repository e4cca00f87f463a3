/** periodicalRefreshClient: the refresh-and-reconcile engine working on the
    registry store owned by the discovery client. */
module Refresh {
  import opened Registry
  import opened Grouping
  import opened Reconcile
  import opened Cycle
  import opened Scheduler

  class PeriodicalRefreshClient {
    const client: DiscoveryClient

    /** newPeriodicalRefresh */
    constructor (c: DiscoveryClient)
      requires c.registry != null ==> c.registry.Valid()
      ensures client == c
      ensures Valid()
    {
      client := c;
    }

    ghost predicate Valid()
      reads client, client.registry
    {
      client.registry != null ==> client.registry.Valid()
    }

    /** The registry's content, None while no store exists. */
    ghost function View(): Option<Table>
      reads client, client.registry
    {
      if client.registry == null then None else Some(client.registry.entries)
    }

    /** The states of the current store that readers may observe from history
        index `from` on are all safe for reconciling `before` with `candidate`. */
    ghost predicate ReaderSafeFrom(from: nat, before: Table, candidate: Table)
      reads client, client.registry
    {
      client.registry != null &&
      forall i :: from <= i < |client.registry.history| ==> ReaderSafe(before, candidate, client.registry.history[i])
    }

    /** refreshRegistryMap: create the store if absent and set it on the client
        while it is still empty, delete the exclusive keys, merge the new
        registry in. The store handle is kept (or created), never replaced; afterwards it holds exactly `newRegistry`; and no state
        a concurrent reader could see in between loses a service that both the
        old store and the new registry hold, or mixes old and new lists. */
    method RefreshRegistryMap(newRegistry: Table)
      requires Valid()
      modifies client, client.registry
      ensures Valid() && client.registry != null
      ensures old(client.registry) != null ==> client.registry == old(client.registry)
      ensures old(client.registry) == null ==> fresh(client.registry) && client.registry.history[0] == map[]
      ensures old(client.registry) == null ==> client.publishedAt == 1
      ensures old(client.registry) != null ==> client.publishedAt == old(client.publishedAt)
      ensures client.registry.entries == newRegistry
      ensures old(client.registry) == null ==> ReaderSafeFrom(0, map[], newRegistry)
      ensures old(client.registry) != null ==>
                && Extends(old(client.registry.history), client.registry.history)
                && ReaderSafeFrom(old(|client.registry.history|), old(client.registry.entries), newRegistry)
    {
      if client.registry == null {
        var created := new RegistryStore();
        client.registry := created;
        client.publishedAt := |created.history|;
      }
      var store := client.registry;
      ghost var before := store.entries;
      ghost var h0 := store.history;
      ghost var from := if old(client.registry) == null then 0 else |h0|;
      assert forall i :: from <= i < |h0| ==> ReaderSafe(before, newRegistry, h0[i]);

      var exclusiveKeys := ExclusiveKeys(store.entries, newRegistry);
      DelKeys(store, exclusiveKeys);
      ghost var h1 := store.history;
      forall i | |h0| <= i < |h1|
        ensures ReaderSafe(before, newRegistry, h1[i])
      {
        ReconcileStatesAreReaderSafe(before, newRegistry, h1[i]);
      }
      assert forall i :: from <= i < |h0| ==> h1[i] == h0[i];

      MergeSyncMap(newRegistry, store);
      ghost var h2 := store.history;
      forall i | |h1| <= i < |h2|
        ensures ReaderSafe(before, newRegistry, h2[i])
      {
        ReconcileStatesAreReaderSafe(before, newRegistry, h2[i]);
      }
      assert forall i :: from <= i < |h1| ==> h2[i] == h1[i];
      ReconciledIsCandidate(Some(before), newRegistry);
    }

    /** doRefresh: one cycle on the backend's answer `q`. The registry and the
        error are those RefreshCycle gives; the store handle is kept. */
    method DoRefresh(q: QueryResult) returns (err: Option<Error>)
      requires Valid()
      modifies client, client.registry
      ensures Valid()
      ensures RefreshCycle(old(View()), q) == CycleResult(View(), err)
      ensures old(client.registry) != null ==> client.registry == old(client.registry)
      ensures old(client.registry) == null ==> client.registry == null || fresh(client.registry)
      ensures q.QueryFailed? || q == Queried(None) ==>
                client.registry == old(client.registry) && (client.registry != null ==> unchanged(client.registry))
    {
      match q
      case QueryFailed(e) =>
        err := Some(SystemError(QueryAllServices, e));
      case Queried(instances) =>
        if instances == None {
          err := None;
        } else {
          var newRegistryMap := GroupByService(instances.value);
          RefreshRegistryMap(newRegistryMap);
          ReconciledIsCandidate(old(View()), newRegistryMap);
          err := None;
        }
    }

    /** StartPeriodicalRefresh, with the ticks given as the answers `first`,
        `later` of successive queries. The loop's phase, the registry and the
        signals put on the channel are those of Run; exactly one signal is
        put, and the returned value is what receiving it yields. */
    method StartPeriodicalRefresh(first: QueryResult, later: seq<QueryResult>)
      returns (startErr: Option<Error>, signals: seq<Signal>, phase: Phase)
      requires Valid()
      modifies client, client.registry
      ensures Valid()
      ensures LoopState(phase, View(), signals) == Run(Start(old(View())), [first] + later)
      ensures |signals| == 1 && startErr == Received(signals[0])
      ensures old(client.registry) != null ==> client.registry == old(client.registry)
    {
      var queries := [first] + later;
      ghost var s0 := Start(View());
      var isBootstrap := true;
      signals := [];
      var i := 0;
      while i < |queries|
        invariant 0 <= i <= |queries|
        invariant Valid()
        invariant old(client.registry) != null ==> client.registry == old(client.registry)
        invariant old(client.registry) == null ==> client.registry == null || fresh(client.registry)
        invariant isBootstrap <==> i == 0
        invariant Run(s0, queries[..i]) == LoopState(if isBootstrap then Bootstrap else Steady, View(), signals)
      {
        var err := DoRefresh(queries[i]);
        assert queries[..i + 1][..i] == queries[..i];
        if err.Some? {
          if isBootstrap {
            signals := signals + [Send(SystemError(RefreshRegistry, err.value))];
            phase := Terminated;
            assert Run(s0, queries[..i + 1]) == LoopState(phase, View(), signals);
            TerminatedAbsorbs(s0, queries, i + 1);
            assert queries[..|queries|] == queries;
            BootstrapGating(old(View()), first, later);
            startErr := Received(signals[0]);
            return;
          }
          // a steady-state failure is only logged
        }
        if isBootstrap {
          isBootstrap := false;
          signals := signals + [Close];
        } else {
          assert signals + [] == signals;
        }
        i := i + 1;
      }
      phase := Steady;
      assert queries[..|queries|] == queries;
      BootstrapGating(old(View()), first, later);
      startErr := Received(signals[0]);
    }
  }
}
