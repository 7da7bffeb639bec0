/**
 From the draft to the scheduler: a configuration that was applied has passed the checks of its draft
 (internal/configtx/apply.go:113-125), and with one that passed them the collections of the scheduler
 do not disturb each other (internal/configtx/draft.go:515-538, internal/scheduler/scheduler.go:251-255).
 */
module AppliedConfig {
  import opened Wrappers
  import C = ConfigTx
  import D = Drafts
  import S = Scheduler
  import StateRuns
  import CurrentState

  predicate Untested(v: D.View, requireTests: bool) {
    requireTests && !D.TestsStand(v)
  }

  // The whole of Apply, with the checks of the draft that it makes before its first write.
  method ApplyDraft(service: C.Service, draft: D.Draft, revision: C.Body, keep: set<string>, requireTests: bool,
                    faults: C.Faults)
    returns (r: C.Outcome)
    modifies service
    ensures D.ShadowError(draft.pending.providers, draft.registry).Some? || Untested(draft.Now(), requireTests) ==>
              && (r == C.Conflict || r == C.Failed(C.Validating))
              && service.disk == old(service.disk) && service.secrets == old(service.secrets)
    ensures r.Applied? || r == C.Failed(C.Finalising) ==>
              && service.disk == C.File(C.Encoded(draft.pending)) && revision == C.Revision(old(service.disk))
              && service.valid(draft.pending) && D.ShadowFree(draft.pending, draft.registry)
              && (requireTests ==> D.TestsStand(draft.Now()))
  {
    var shadow := D.CheckShadows(draft.pending, draft.registry);
    var tested := true;
    if requireTests {
      tested := draft.ValidateRequiredTests();
    }
    var d := C.Draft(draft.base, draft.pending, draft.overlay, revision);
    r := service.Apply(d, keep, shadow.Some?, !tested, faults);
  }

  // What a connector delivers are metrics of its provider's, as the registry knows them.
  ghost predicate Collects(config: C.Config, registry: D.Registry, step: S.Step) {
    step.Store? ==>
      exists p <- config.providers :: p.id == step.connector && D.EmittedBy(p, registry).Some?
                                      && forall m <- step.batch :: m.id in D.EmittedBy(p, registry).value
  }

  // The lock of a connector lets one collection draw a number at a time.
  ghost predicate Locked(w: S.World, step: S.Step) {
    match step
    case Draw(c) => c != "" && c !in w.busy
    case Store(c, _) => c in w.busy
    case _ => true
  }

  ghost predicate LockedRun(w: S.World, steps: seq<S.Step>)
    decreases |steps|
  {
    steps != [] ==> Locked(w, steps[0]) && LockedRun(S.Next(w, steps[0]), steps[1..])
  }

  lemma {:induction false} LockedIsAllowed(config: C.Config, registry: D.Registry, home: map<string, string>,
                                           w: S.World, steps: seq<S.Step>)
    requires forall p <- config.providers ::
               && D.EmittedBy(p, registry).Some?
               && forall id <- D.EmittedBy(p, registry).value :: id in home && home[id] == p.id
    requires LockedRun(w, steps) && forall step <- steps :: Collects(config, registry, step)
    ensures S.AllowedRun(w, home, steps)
    decreases |steps|
  {
    if steps != [] {
      assert steps[0] in steps;
      assert S.Allowed(w, home, steps[0]);
      LockedIsAllowed(config, registry, home, S.Next(w, steps[0]), steps[1..]);
    }
  }

  // Under a configuration without shadowed metrics, and so under every applied one, each connector
  // owns exactly the metrics of its last accepted batch, with the values they had there, however the
  // collections interleave and however many of them fail.
  lemma AppliedKeepsBatches(config: C.Config, registry: D.Registry, steps: seq<S.Step>, c: string)
    requires D.ShadowFree(config, registry)
    requires LockedRun(S.START, steps) && forall step <- steps :: Collects(config, registry, step)
    ensures
      var w := S.Run(S.START, steps);
      && (c in w.last ==> S.Holds(StateRuns.Of(w.state), c, w.last[c]))
      && (c !in w.last ==> CurrentState.OwnedBy(w.state.owners, c) == {})
  {
    var home := D.MetricsHaveHomes(config.providers, registry);
    LockedIsAllowed(config, registry, home, S.START, steps);
    S.LastBatchStays(home, steps, c);
  }
}
