# Registry refresh-and-reconcile engine of the gogate API gateway

This project models `discovery/refresh.go` of the gateway. That file keeps the
gateway's local service registry in step with the Eureka discovery backend.
On every tick it queries all instances, groups them by service name into a
candidate map, and reconciles the candidate into the registry store owned by
the discovery client. Reconciling means deleting the services the backend no
longer reports and overwriting every reported one. The first cycle decides
what `StartPeriodicalRefresh` returns. If the bootstrap query fails, startup
fails. After bootstrap, a failed cycle is only logged.

Modules, one file each:

- `Registry` (registry.dfy): `Instance`, `Table` (service name to instance list), `Error`, the `RegistryStore` class (the `sync.Map` routing reads) and the `DiscoveryClient` class that owns the store handle. The store keeps a ghost `history` of every content a concurrent reader could observe. Each atomic `Store` or `Delete` appends one entry.
- `Grouping` (grouping.dfy): `groupByService`. The imperative loop `GroupByService` is proved equal to the function `Grouped`, and lemmas about `Grouped` show that buckets are correct, ordered and complete.
- `Reconcile` (reconcile.dfy): `refreshRegistryMap`'s helpers. `FindExclusiveKey` is the set difference `ExclusiveKeys`. `DelKeys` and `MergeSyncMap` are loops of one atomic operation per key. `ReaderSafe` states which intermediate states readers may see.
- `Cycle` (cycle.dfy): `doRefresh` as the function `RefreshCycle` of the registry and the backend's answer.
- `Scheduler` (scheduler.dfy): the bootstrap/steady policy as a step function `Step`, and `Run`, the loop fed with a sequence of answers.
- `Refresh` (refresh.dfy): the class `PeriodicalRefreshClient`, whose methods mutate the client's store and are proved against the functions above.

Only a nil slice is skipped (`discovery/refresh.go:65`). A non-nil empty
slice is grouped into an empty map, and reconciliation then deletes every
service. The answer is therefore `Option<seq<Instance>>`, and
`Cycle.EmptyAnswerClearsRegistry` proves the clearing. The nil skip also
returns before the store is lazily created (`discovery/refresh.go:65-67`
against `103-105`). So a nil answer to the first query lets
`StartPeriodicalRefresh` return nil while no store exists yet, as
`Scheduler.NilBootstrapLeavesNoStore` proves.

## Model

| member | source | states |
|---|---|---|
| `Grouping.GroupByService` | discovery/refresh.go:82-96 | The Load/append/Store loop returns exactly `Grouped(instances)`; the loop invariant is that the map built so far is the grouping of the prefix read so far. |
| `Grouping.GroupedSnoc` | discovery/refresh.go:84-93 | One iteration: appending an instance appends it to its own service's bucket (a fresh one-element bucket if the service is new) and leaves every other bucket unchanged. |
| `Grouping.BucketMembers` | discovery/refresh.go:84-93 | Every instance in bucket `name` has service name `name` and comes from the input. |
| `Grouping.BucketMultiplicity` | discovery/refresh.go:82-95 | No instance is dropped or duplicated: each instance occurs in its own service's bucket exactly as often as in the input, and in no other bucket. |
| `Grouping.BucketKeepsOrder` | discovery/refresh.go:84-93 | Each bucket is a subsequence of the input, so relative input order is preserved. |
| `Grouping.GroupedKeys` | discovery/refresh.go:82-95 | The output's key set is exactly the set of service names in the input, and no bucket is empty. |
| `Grouping.GroupedTotalSize` | discovery/refresh.go:82-95 | The bucket lengths sum to the input length. |
| `Grouping.GroupingExample` | discovery/refresh.go:82-96 | `[A1, B2, A3]` groups to `{A: [A1, A3], B: [B2]}`. |
| `Grouping.GroupedSingle` | discovery/refresh.go:86-88 | A single instance yields one bucket holding just that instance. |
| `Registry.RegistryStore.constructor` | discovery/refresh.go:104 | A newly created store is empty, and its history starts at the empty map. |
| `Registry.RegistryStore.Store` | discovery/refresh.go:111-112 | Store inserts or overwrites one key, and readers observe it as one new state. |
| `Registry.RegistryStore.Delete` | discovery/refresh.go:110 | Delete removes one key, and readers observe it as one new state. |
| `Reconcile.DelKeys` | discovery/refresh.go:109-110 | The store loses exactly the given keys. Every state seen along the way is the old store minus some of those keys, with all other entries intact. |
| `Reconcile.MergeSyncMap` | discovery/refresh.go:111-112 | The store becomes old store overlaid by the new registry, with each list replaced wholesale. Every state seen along the way keeps all old keys and holds, per key, either the old list or the new one. |
| `Reconcile.ReconciledIsCandidate` | discovery/refresh.go:107-112 | Deleting the exclusive keys and then merging leaves exactly the new registry: same key set, and `store[k] == newRegistry[k]` for every key. |
| `Reconcile.DeletionKeepsSharedKeys` | discovery/refresh.go:107-110 | After the deletion step, the store's keys are exactly the keys shared with the new registry, each with its old list. Shared keys are never deleted. |
| `Reconcile.ReconcileStatesAreReaderSafe` | discovery/refresh.go:107-112 | Every state of the deletion phase and every state of the merge phase keeps all shared keys, and gives each key a complete old or complete new list. |
| `Reconcile.ExclusiveKeyRemovalExample` | discovery/refresh.go:102-113 | `{A: [x], B: [y]}` reconciled with `{A: [x2]}` is exactly `{A: [x2]}`. |
| `Cycle.RefreshCycleOutcomes` | discovery/refresh.go:58-78 | A cycle errors iff the query errors; the error is the query error wrapped once, and the registry is unchanged. A nil answer succeeds with the registry unchanged. Any other answer succeeds, and the registry becomes its grouping. |
| `Cycle.EmptyAnswerClearsRegistry` | discovery/refresh.go:65-74 | A non-nil empty answer is not skipped: the registry is created if absent and ends up empty. |
| `Scheduler.TerminatedAbsorbs` | discovery/refresh.go:35-37 | Once the loop has returned after a bootstrap failure, later ticks change nothing. |
| `Scheduler.SteadyIsStable` | discovery/refresh.go:39-49 | From steady state the loop stays steady and produces no further channel signal. |
| `Scheduler.SteadyFailureKeepsRegistry` | discovery/refresh.go:39-44 | A failed steady-state cycle keeps the phase and the registry, and signals nothing. |
| `Scheduler.BootstrapGating` | discovery/refresh.go:21-56 | Exactly one channel signal is produced. If the first query fails, it carries the twice-wrapped error, the loop terminates, and the registry is untouched. Otherwise the channel is closed, so Start returns nil, and the loop is steady. |
| `Scheduler.BootstrapNeverReturns` | discovery/refresh.go:46-49 | After the first cycle the loop is never in bootstrap again, so `isBootstrap` goes from true to false at most once. |
| `Scheduler.NilBootstrapLeavesNoStore` | discovery/refresh.go:65-67 | A nil first answer closes the channel, so Start returns nil, and leaves the loop steady with no store created, because the nil check returns before the lazy creation. |
| `Scheduler.SteadyResilienceExample` | discovery/refresh.go:30-52 | `{A: [x]}` from cycle 1 survives a failed cycle 2 and is replaced by `{A: [y]}` in cycle 3. |
| `Refresh.PeriodicalRefreshClient.constructor` | discovery/refresh.go:16-18 | The refresh client wraps the given discovery client and, given a client whose store (if any) is well formed, starts out satisfying its invariant. |
| `Refresh.PeriodicalRefreshClient.RefreshRegistryMap` | discovery/refresh.go:102-113 | An absent store is created empty and set on the client before any deletion or merge: the ghost `publishedAt` marks that the handle was set when the store's history held only the empty state. An existing handle is kept. Afterwards the store equals the new registry. Every state a reader could observe during the call is reader-safe. |
| `Refresh.PeriodicalRefreshClient.DoRefresh` | discovery/refresh.go:58-78 | The registry and the error are those `RefreshCycle` gives. A failed or nil query leaves the store object untouched. The handle is never replaced. |
| `Refresh.PeriodicalRefreshClient.StartPeriodicalRefresh` | discovery/refresh.go:21-56 | The loop's phase, the registry and the channel signals are those of `Run` from bootstrap. Exactly one signal is put, and the return value is what receiving it yields. |

## Left out

- The goroutine, the 30-second ticker (`REGISTRY_REFRESH_INTERVAL`) and the channel are replaced by a finite sequence of query answers fed to the loop. The model runs every given tick and then returns what the channel's single signal yields. In the source, Start returns as soon as that signal arrives, while the loop goes on.
- Thread safety of `sync.Map` cannot be stated in a sequential model. The ghost `history` of store states, and the reader-safety of every state the reconciler appends, stand in for "readers never see a shared key missing or a partly merged list".
- `Client.QueryServices` is network I/O. Its answer is the parameter `QueryResult`: an error, a nil slice, or a slice.
- `GetInternalRegistryStore` and `SetInternalRegistryStore` are modelled as reads and writes of the client's `registry` field.
- The bodies of `utils.FindExclusiveKey`, `utils.DelKeys` and `utils.MergeSyncMap` are not part of this model. They are specified from their call-site comments. The per-key iteration order of the Go `Range` is left arbitrary (`:|` choice).
- Logging (`Log.*`) and the message texts of `perr.WrapSystemErrorf` are left out. An error records only which layer wrapped it.
- `InstanceInfo` fields other than `ServiceName` are one opaque `payload`. Instances are values, so pointer identity of `*InstanceInfo` is not modelled, and neither is the panic a nil `*InstanceInfo` element would cause at `ins.ServiceName`.
- The initial capacity 5 of a new bucket slice has no behavioural effect and is not modelled.
