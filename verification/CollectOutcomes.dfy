/**
 What one collection answers and leaves in the store, for everything a connector may deliver
 (internal/scheduler/scheduler.go:264-348).
 */
module CollectOutcomes {
  import opened Wrappers
  import opened CurrentState
  import opened Scheduler
  import opened StateOutcomes
  import StateRuns

  predicate TakesBatch(id: string, metrics: seq<Metric>) {
    id != "" && DistinctMetrics(metrics) && forall i :: 0 <= i < |metrics| ==> MetricFits(metrics[i])
  }

  predicate TakesReport(s: State, id: string, report: CurrentState.Report) {
    id != "" && Admissible(report) && FitsIn(s, id, report) && Unclaimed(s, id, report)
  }

  // The collection is a success: the metrics are taken, and so is the report, if the connector makes one.
  predicate Succeeds(s: State, id: string, collected: Collected) {
    && collected.Gathered? && TakesBatch(id, collected.metrics)
    && match collected.summary
       case None => true
       case Some(None) => false
       case Some(Some(report)) => TakesReport(s, id, report)
  }

  lemma HealthsTouchNothingElse(s: State, healths: seq<Health>)
    ensures
      var t := AfterHealths(s, healths);
      && StateRuns.Of(t) == StateRuns.Of(s)
      && (t.nodes, t.nodeOwners, t.services, t.serviceOwners) == (s.nodes, s.nodeOwners, s.services, s.serviceOwners)
  {
  }

  // The outcome, and the class and message under which a failure is written on what the connector owns.
  lemma CollectAnswer(s: State, counter: nat, id: string, collected: Collected)
    ensures
      var outcome := CollectSpec(s, counter, id, collected).2;
      match collected
      case CollectFailed(cause, message) => outcome == Outcome(cause, message)
      case Gathered(metrics, _, _) =>
        if Succeeds(s, id, collected) then outcome == Outcome(NoError, "")
        else if !TakesBatch(id, metrics) then outcome == Outcome(SchemaChanged, "connector produced an invalid metric")
        else outcome == Outcome(SchemaChanged, "connector produced an invalid HomeLab summary")
    ensures CollectSpec(s, counter, id, collected).1 == if collected.Gathered? then counter + 1 else counter
  {
    if collected.Gathered? {
      BatchAnswer(s, id, counter + 1, collected.metrics);
      var offered := ConnectorMetricsSpec(s, id, counter + 1, collected.metrics).0;
      HealthsTouchNothingElse(offered, collected.healths);
      if collected.summary.Some? && collected.summary.value.Some? {
        var report := collected.summary.value.value;
        ReportAnswer(AfterHealths(offered, collected.healths), id, report);
        SameRoom(s, AfterHealths(offered, collected.healths), id, report);
      }
    }
  }

  lemma SameRoom(s: State, t: State, id: string, report: CurrentState.Report)
    requires (t.nodes, t.nodeOwners, t.services, t.serviceOwners) == (s.nodes, s.nodeOwners, s.services, s.serviceOwners)
    ensures FitsIn(s, id, report) == FitsIn(t, id, report) && Unclaimed(s, id, report) == Unclaimed(t, id, report)
  {
  }

  // A failed collection, or one with metrics that are refused, is written on what the connector owns and
  // does nothing else: neither health records nor a report are looked at.
  lemma FailureOnlyMarks(s: State, counter: nat, id: string, collected: Collected)
    requires collected.Gathered? ==> !TakesBatch(id, collected.metrics)
    ensures
      var (t, _, outcome) := CollectSpec(s, counter, id, collected);
      t == ErrorSpec(s, id, outcome.cause, outcome.message).0
  {
    if collected.Gathered? {
      BatchAnswer(s, id, counter + 1, collected.metrics);
    }
  }

  // A successful one stores the batch, every valid health record, and the report.
  lemma SuccessStoresAll(s: State, counter: nat, id: string, collected: Collected)
    requires Succeeds(s, id, collected)
    ensures
      var t := CollectSpec(s, counter, id, collected).0;
      && StateRuns.Of(t) == StateRuns.AfterBoth(StateRuns.Of(s), id, counter + 1, collected.metrics)
      && t.health == AfterHealths(s, collected.healths).health
      && (collected.summary.None? ==>
            (t.nodes, t.nodeOwners, t.services, t.serviceOwners) == (s.nodes, s.nodeOwners, s.services, s.serviceOwners))
      && (collected.summary.Some? ==>
            var u := HomeLabSpec(s, id, collected.summary.value.value).0;
            (t.nodes, t.nodeOwners, t.services, t.serviceOwners) == (u.nodes, u.nodeOwners, u.services, u.serviceOwners))
  {
    CollectAnswer(s, counter, id, collected);
    BatchAnswer(s, id, counter + 1, collected.metrics);
    var offered := ConnectorMetricsSpec(s, id, counter + 1, collected.metrics).0;
    HealthsTouchNothingElse(offered, collected.healths);
    HealthsAlone(s, offered, collected.healths);
    if collected.summary.Some? {
      var report, u := collected.summary.value.value, AfterHealths(offered, collected.healths);
      ReportAnswer(u, id, report);
      ReportAnswer(s, id, report);
      SameRoom(s, u, id, report);
    }
  }

  lemma {:induction false} HealthsAlone(s: State, t: State, healths: seq<Health>)
    requires t.health == s.health
    ensures AfterHealths(t, healths).health == AfterHealths(s, healths).health
  {
    if healths != [] {
      HealthsAlone(s, t, healths[..|healths| - 1]);
    }
  }
}
