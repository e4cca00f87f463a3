/** One refresh cycle (doRefresh) as a function of the registry it starts from
    and the backend's answer: query, nil check, grouping, reconciliation. */
module Cycle {
  import opened Registry
  import opened Grouping
  import opened Reconcile

  /** The answer of Client.QueryServices: an error, or a slice of instances
      that may be nil (None) and may be non-nil but empty (Some([])). */
  datatype QueryResult =
    | QueryFailed(cause: Error)
    | Queried(instances: Option<seq<Instance>>)

  /** The registry after the cycle (None while no store exists) and the
      cycle's error. */
  datatype CycleResult = CycleResult(registry: Option<Table>, err: Option<Error>)

  function RefreshCycle(registry: Option<Table>, q: QueryResult): CycleResult
  {
    match q
    case QueryFailed(e) => CycleResult(registry, Some(SystemError(QueryAllServices, e)))
    case Queried(None) => CycleResult(registry, None)
    case Queried(Some(instances)) => CycleResult(Some(Reconciled(registry, Grouped(instances))), None)
  }

  /** The three outcomes of a cycle: a failed query is reported wrapped and
      leaves the registry as it was; a nil answer succeeds and changes
      nothing; any other answer succeeds and leaves exactly the grouping of
      the answer in the registry. */
  lemma RefreshCycleOutcomes(registry: Option<Table>, q: QueryResult)
    ensures RefreshCycle(registry, q).err.Some? <==> q.QueryFailed?
    ensures q.QueryFailed? ==> RefreshCycle(registry, q) == CycleResult(registry, Some(SystemError(QueryAllServices, q.cause)))
    ensures q == Queried(None) ==> RefreshCycle(registry, q) == CycleResult(registry, None)
    ensures q.Queried? && q.instances.Some? ==> RefreshCycle(registry, q) == CycleResult(Some(Grouped(q.instances.value)), None)
  {
    if q.Queried? && q.instances.Some? {
      ReconciledIsCandidate(registry, Grouped(q.instances.value));
    }
  }

  /** Only a nil answer is skipped: a non-nil empty answer creates the store
      if needed and removes every service from it. */
  lemma EmptyAnswerClearsRegistry(registry: Option<Table>)
    ensures RefreshCycle(registry, Queried(Some([]))) == CycleResult(Some(map[]), None)
  {
    ReconciledIsCandidate(registry, Grouped([]));
    assert Grouped([]) == map[];
  }
}
