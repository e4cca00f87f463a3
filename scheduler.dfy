/** The bootstrap/steady policy of StartPeriodicalRefresh, without the
    goroutine, the ticker and the channel: a step function over the outcome of
    each refresh cycle, and the run of that step over a sequence of answers. */
module Scheduler {
  import opened Registry
  import opened Cycle

  /** Bootstrap while isBootstrap holds; Steady once it is cleared;
      Terminated once the loop goroutine has returned. */
  datatype Phase = Bootstrap | Steady | Terminated

  /** What the loop puts on the channel that StartPeriodicalRefresh waits on. */
  datatype Signal = Send(err: Error) | Close

  /** The loop's state: its phase, the registry, and every signal so far. */
  datatype LoopState = LoopState(phase: Phase, registry: Option<Table>, signals: seq<Signal>)

  /** The value that `<-refreshRegistryChan` yields for a signal: the sent
      error, or nil from a closed channel. */
  function Received(s: Signal): Option<Error>
  {
    match s
    case Send(e) => Some(e)
    case Close => None
  }

  /** The policy after one cycle: a failure during bootstrap is sent wrapped
      and ends the loop; a success during bootstrap clears the flag and closes
      the channel; in steady state nothing is signalled, whatever happened. */
  function Step(phase: Phase, cycleErr: Option<Error>): (Phase, Option<Signal>)
  {
    match phase
    case Bootstrap =>
      if cycleErr.Some? then (Terminated, Some(Send(SystemError(RefreshRegistry, cycleErr.value))))
      else (Steady, Some(Close))
    case Steady => (Steady, None)
    case Terminated => (Terminated, None)
  }

  /** One loop iteration: a cycle, then the policy. A terminated loop runs no
      more cycles. */
  function Advance(s: LoopState, q: QueryResult): LoopState
  {
    if s.phase == Terminated then s
    else
      var c := RefreshCycle(s.registry, q);
      var (phase', signal) := Step(s.phase, c.err);
      LoopState(phase', c.registry, s.signals + if signal.Some? then [signal.value] else [])
  }

  /** The loop fed with `qs`, one answer per tick. */
  function Run(s: LoopState, qs: seq<QueryResult>): LoopState
  {
    if qs == [] then s else Advance(Run(s, qs[..|qs| - 1]), qs[|qs| - 1])
  }

  /** The first state of the loop: bootstrap, no signal yet. */
  function Start(registry: Option<Table>): LoopState
  {
    LoopState(Bootstrap, registry, [])
  }

  /** Once the loop has returned, further ticks change nothing. */
  lemma {:induction false} TerminatedAbsorbs(s: LoopState, qs: seq<QueryResult>, j: nat)
    requires j <= |qs|
    requires Run(s, qs[..j]).phase == Terminated
    ensures Run(s, qs) == Run(s, qs[..j])
    decreases |qs|
  {
    if j < |qs| {
      var p := qs[..|qs| - 1];
      assert p[..j] == qs[..j];
      TerminatedAbsorbs(s, p, j);
    } else {
      assert qs[..j] == qs;
    }
  }

  /** Steady state is never left: a steady loop stays steady and signals
      nothing. */
  lemma {:induction false} SteadyIsStable(s: LoopState, qs: seq<QueryResult>)
    requires s.phase == Steady
    ensures Run(s, qs).phase == Steady
    ensures Run(s, qs).signals == s.signals
  {
    if qs != [] {
      SteadyIsStable(s, qs[..|qs| - 1]);
    }
  }

  /** A failed steady-state cycle is only logged: same phase, same registry,
      no signal. */
  lemma SteadyFailureKeepsRegistry(s: LoopState, e: Error)
    requires s.phase == Steady
    ensures Advance(s, QueryFailed(e)) == s
  {
    assert s.signals + [] == s.signals;
  }

  /** Bootstrap gating. Whatever follows, the first cycle decides everything
      StartPeriodicalRefresh returns: exactly one signal is ever produced; if
      the first query fails it carries the twice-wrapped query error, the loop
      ends and the registry is untouched; otherwise the channel is closed (so
      nil is returned) and the loop is steady from then on. */
  lemma {:induction false} BootstrapGating(registry: Option<Table>, first: QueryResult, later: seq<QueryResult>)
    ensures var r := Run(Start(registry), [first] + later);
            && |r.signals| == 1
            && (first.QueryFailed? ==>
                  && r.signals[0] == Send(SystemError(RefreshRegistry, SystemError(QueryAllServices, first.cause)))
                  && r.phase == Terminated
                  && r.registry == registry)
            && (!first.QueryFailed? ==> r.signals[0] == Close && r.phase == Steady)
    decreases |later|
  {
    var qs := [first] + later;
    if later == [] {
      assert qs[..0] == [];
      RefreshCycleOutcomes(registry, first);
    } else {
      BootstrapGating(registry, first, later[..|later| - 1]);
      assert qs[..|qs| - 1] == [first] + later[..|later| - 1];
      var r := Run(Start(registry), qs[..|qs| - 1]);
      if r.phase == Steady {
        assert r.signals + [] == r.signals;
      }
    }
  }

  /** The bootstrap flag is cleared at most once: from the first cycle on the
      loop is never in bootstrap again. */
  lemma {:induction false} BootstrapNeverReturns(registry: Option<Table>, qs: seq<QueryResult>)
    requires qs != []
    ensures Run(Start(registry), qs).phase != Bootstrap
  {
    BootstrapGating(registry, qs[0], qs[1..]);
    assert [qs[0]] + qs[1..] == qs;
  }

  /** A nil first answer is skipped before the store would be created: the
      channel is closed, so StartPeriodicalRefresh returns nil, and the loop
      is steady while still no store exists. */
  lemma NilBootstrapLeavesNoStore()
    ensures Run(Start(None), [Queried(None)]) == LoopState(Steady, None, [Close])
  {
    var qs := [Queried(None)];
    assert qs[..0] == [];
    RefreshCycleOutcomes(None, qs[0]);
    assert [] + [Close] == [Close];
  }

  /** Resilience: a registry {A: [x]} survives a failed steady-state cycle and
      is then replaced by the next successful one, {A: [y]}. */
  lemma SteadyResilienceExample(x: Instance, y: Instance, e: Error)
    requires x.serviceName == "A" && y.serviceName == "A"
    ensures var qs := [Queried(Some([x])), QueryFailed(e), Queried(Some([y]))];
            && Run(Start(None), qs[..2]).registry == Some(map["A" := [x]])
            && Run(Start(None), qs).registry == Some(map["A" := [y]])
  {
    var qs := [Queried(Some([x])), QueryFailed(e), Queried(Some([y]))];
    var s0 := Start(None);
    assert qs[..2][..1] == qs[..1] && qs[..1][..0] == [] && qs[..2] == qs[..3][..2];
    Grouping.GroupedSingle(x);
    Grouping.GroupedSingle(y);
    RefreshCycleOutcomes(None, qs[0]);
    var s1 := Run(s0, qs[..1]);
    assert Run(s0, []) == s0;
    assert |qs[..1]| == 1 && qs[..1][0] == qs[0];
    assert s1 == Advance(Run(s0, qs[..1][..0]), qs[..1][0]);
    assert s1 == Advance(s0, qs[0]);
    assert [] + [Close] == [Close];
    assert s1 == LoopState(Steady, Some(map["A" := [x]]), [Close]);
    SteadyFailureKeepsRegistry(s1, e);
    assert Run(s0, qs[..2]) == s1;
    RefreshCycleOutcomes(s1.registry, qs[2]);
    assert qs[..3] == qs;
  }
}
