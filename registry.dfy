/** Values and shared state of the gateway's service registry: the instances
    the discovery backend reports, the errors a refresh can produce, the
    registry store that routing reads, and the discovery client that owns it. */
module Registry {

  datatype Option<+T> = None | Some(value: T)

  /** One registered endpoint. Only the service name is interpreted; `payload`
      stands for every other field of an InstanceInfo (address, port, status,
      metadata), which is passed through untouched. */
  datatype Instance = Instance(serviceName: string, payload: string)

  /** Service name to the ordered list of that service's instances. */
  type Table = map<string, seq<Instance>>

  /** The layer that wrapped an error: doRefresh wraps a failed query,
      StartPeriodicalRefresh wraps a failed bootstrap refresh again. */
  datatype Stage = QueryAllServices | RefreshRegistry

  datatype Error =
    | BackendError(detail: string)
    | SystemError(stage: Stage, cause: Error)

  /** The registry store, a concurrent map read by the routing path. `entries`
      is its current content; `history` lists every content a concurrent reader
      could have observed, oldest first, ending with the current one. */
  class RegistryStore {
    var entries: Table
    ghost var history: seq<Table>

    ghost predicate Valid()
      reads this
    {
      |history| > 0 && history[|history| - 1] == entries
    }

    /** A new, empty store (NewInsInfoArrSyncMap). */
    constructor ()
      ensures Valid()
      ensures entries == map[] && history == [map[]]
    {
      entries := map[];
      history := [map[]];
    }

    /** Atomic insert-or-overwrite of one key. */
    method Store(name: string, infos: seq<Instance>)
      requires Valid()
      modifies this
      ensures Valid()
      ensures entries == old(entries)[name := infos]
      ensures history == old(history) + [entries]
    {
      entries := entries[name := infos];
      history := history + [entries];
    }

    /** Atomic removal of one key; a missing key is left alone. */
    method Delete(name: string)
      requires Valid()
      modifies this
      ensures Valid()
      ensures entries == old(entries) - {name}
      ensures history == old(history) + [entries]
    {
      entries := entries - {name};
      history := history + [entries];
    }
  }

  /** The discovery backend client, reduced to the registry store handle it
      owns (GetInternalRegistryStore / SetInternalRegistryStore); `null`
      until the first reconciliation creates the store. `publishedAt` is the
      length of the store's history when the handle was set: readers that
      obtain the handle can observe the states from that point on. */
  class DiscoveryClient {
    var registry: RegistryStore?
    ghost var publishedAt: nat

    constructor ()
      ensures registry == null && publishedAt == 0
    {
      registry := null;
      publishedAt := 0;
    }
  }
}
