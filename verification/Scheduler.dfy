/**
 The scheduler's use of the current state (internal/scheduler/scheduler.go:251-341, 370-375): the
 collection counter, one collection at a time for each connector, and what a collection does to the
 store, first one collection as the code runs it and then any interleaving of many.
 */
module Scheduler {
  import opened Wrappers
  import opened CurrentState
  import StateRuns

  const INVALID_METRIC := "connector produced an invalid metric"
  const INVALID_SUMMARY := "connector produced an invalid HomeLab summary"

  // What a connector's Collect gave: a classified failure with its message, or metrics, health
  // records if it reports them, and a HomeLab report or the failure to make one.
  datatype Collected =
    | CollectFailed(cause: ErrorClass, message: string)
    | Gathered(metrics: seq<Metric>, healths: seq<Health>, summary: Option<Option<CurrentState.Report>>)

  datatype Outcome = Outcome(cause: ErrorClass, message: string)

  // ----- one collection -----

  function AfterHealths(s: State, healths: seq<Health>): State {
    if healths == [] then s
    else HealthSpec(AfterHealths(s, healths[..|healths| - 1]), healths[|healths| - 1]).0
  }

  function AfterSummary(s: State, id: string, summary: Option<Option<CurrentState.Report>>): (State, Outcome) {
    match summary
    case None => (s, Outcome(NoError, ""))
    case Some(None) => (ErrorSpec(s, id, SchemaChanged, INVALID_SUMMARY).0, Outcome(SchemaChanged, INVALID_SUMMARY))
    case Some(Some(report)) =>
      var (t, error) := HomeLabSpec(s, id, report);
      if error.Some? then (ErrorSpec(t, id, SchemaChanged, INVALID_SUMMARY).0, Outcome(SchemaChanged, INVALID_SUMMARY))
      else (t, Outcome(NoError, ""))
  }

  // What follows once the metrics were offered to the store, with result r.
  function AfterOffer(s: State, r: Result<nat, StateError>, id: string, healths: seq<Health>, summary: Option<Option<CurrentState.Report>>)
    : (State, Outcome)
  {
    if r.Failure? then (ErrorSpec(s, id, SchemaChanged, INVALID_METRIC).0, Outcome(SchemaChanged, INVALID_METRIC))
    else AfterSummary(AfterHealths(s, healths), id, summary)
  }

  function CollectSpec(s: State, counter: nat, id: string, collected: Collected): (State, nat, Outcome) {
    match collected
    case CollectFailed(cause, message) => (ErrorSpec(s, id, cause, message).0, counter, Outcome(cause, message))
    case Gathered(metrics, healths, summary) =>
      var (t, r) := ConnectorMetricsSpec(s, id, counter + 1, metrics);
      var (u, outcome) := AfterOffer(t, r, id, healths, summary);
      (u, counter + 1, outcome)
  }

  class Collector {
    const store: Current
    var counter: nat

    constructor (store: Current)
      ensures this.store == store && counter == 0
    {
      this.store, counter := store, 0;
    }

    method NextSeq() returns (sequence: nat)
      modifies this`counter
      ensures sequence == counter == old(counter) + 1
    {
      counter := counter + 1;
      return counter;
    }

    method PublishHealths(healths: seq<Health>)
      modifies store
      requires store.View().Valid()
      ensures store.View() == AfterHealths(old(store.View()), healths) && store.View().Valid()
    {
      for i := 0 to |healths|
        invariant store.View() == AfterHealths(old(store.View()), healths[..i]) && store.View().Valid()
      {
        assert healths[..i + 1][..i] == healths[..i];
        StateRuns.HealthKeepsValid(store.View(), healths[i]);
        var rejected := store.ApplyHealth(healths[i]);
      }
      assert healths[..|healths|] == healths;
    }

    method PublishSummary(id: string, summary: Option<Option<CurrentState.Report>>) returns (outcome: Outcome)
      requires store.View().Valid()
      modifies store
      ensures (store.View(), outcome) == AfterSummary(old(store.View()), id, summary)
    {
      if summary.None? {
        return Outcome(NoError, "");
      }
      if summary.value.None? {
        var annotated := store.ApplyConnectorError(id, SchemaChanged, INVALID_SUMMARY);
        return Outcome(SchemaChanged, INVALID_SUMMARY);
      }
      var error := store.ApplyConnectorHomeLab(id, summary.value.value);
      if error.Some? {
        var annotated := store.ApplyConnectorError(id, SchemaChanged, INVALID_SUMMARY);
        return Outcome(SchemaChanged, INVALID_SUMMARY);
      }
      return Outcome(NoError, "");
    }

    method CollectOnce(id: string, collected: Collected) returns (outcome: Outcome)
      requires store.View().Valid()
      modifies this`counter, store
      ensures (store.View(), counter, outcome) == CollectSpec(old(store.View()), old(counter), id, collected)
    {
      if collected.CollectFailed? {
        var annotated := store.ApplyConnectorError(id, collected.cause, collected.message);
        return Outcome(collected.cause, collected.message);
      }
      var sequence := NextSeq();
      StateRuns.StepValid(store.View(), StateRuns.Batch(id, sequence, collected.metrics));
      var applied := store.ApplyConnectorMetrics(id, sequence, collected.metrics);
      if applied.Failure? {
        var annotated := store.ApplyConnectorError(id, SchemaChanged, INVALID_METRIC);
        return Outcome(SchemaChanged, INVALID_METRIC);
      }
      PublishHealths(collected.healths);
      outcome := PublishSummary(id, collected.summary);
    }
  }

  // ----- which connectors a refresh collects -----

  datatype Task = Task(id: string, enabled: bool)

  datatype RefreshError = Disabled | NotConfigured | NothingEnabled

  // The task that an ID stands for is the first one with it.
  predicate FirstOfItsId(tasks: seq<Task>, i: nat)
    requires i < |tasks|
  {
    forall k :: 0 <= k < i ==> tasks[k].id != tasks[i].id
  }

  // Named connectors are all collected or none is; without names every enabled one is.
  predicate Selects(tasks: seq<Task>, names: seq<string>, i: nat)
    requires i < |tasks|
  {
    if names == [] then tasks[i].enabled else tasks[i].id in names && FirstOfItsId(tasks, i)
  }

  method SelectTasks(tasks: seq<Task>, names: seq<string>) returns (r: Result<seq<nat>, RefreshError>)
    ensures r.Success? ==>
              && r.value != [] && (forall a, b :: 0 <= a < b < |r.value| ==> r.value[a] < r.value[b])
              && (forall i: nat :: i in r.value <==> i < |tasks| && Selects(tasks, names, i))
              && (forall i <- r.value :: tasks[i].enabled)
              && (forall name <- names :: exists t <- tasks :: t.id == name)
    ensures r == Failure(Disabled) ==> names != [] && exists i :: 0 <= i < |tasks| && Selects(tasks, names, i) && !tasks[i].enabled
    ensures r == Failure(NotConfigured) ==>
              && (exists name <- names :: forall t <- tasks :: t.id != name)
              && (forall i :: 0 <= i < |tasks| && Selects(tasks, names, i) ==> tasks[i].enabled)
    ensures r == Failure(NothingEnabled) ==> names == [] && forall t <- tasks :: !t.enabled
  {
    var selected := set name <- names :: name;
    var indices: seq<nat> := [];
    for i := 0 to |tasks|
      invariant forall a :: 0 <= a < |indices| ==> indices[a] < i && tasks[indices[a]].enabled
      invariant forall a, b :: 0 <= a < b < |indices| ==> indices[a] < indices[b]
      invariant forall k: nat :: k < i ==> (k in indices <==> Selects(tasks, names, k))
      invariant forall name :: name in selected <==> name in names && (names != [] ==> forall k :: 0 <= k < i ==> tasks[k].id != name)
    {
      if names == [] {
        if tasks[i].enabled {
          indices := indices + [i];
        }
        continue;
      }
      if tasks[i].id in selected {
        assert Selects(tasks, names, i);
        if !tasks[i].enabled {
          return Failure(Disabled);
        }
        indices := indices + [i];
        selected := selected - {tasks[i].id};
      }
    }
    if selected != {} {
      var name :| name in selected;
      assert forall t <- tasks :: t.id != name;
      return Failure(NotConfigured);
    }
    if indices == [] {
      assert forall k: nat :: k < |tasks| ==> !Selects(tasks, names, k);
      if names != [] {
        SomeSelected(tasks, names);
      }
      forall t <- tasks
        ensures !t.enabled
      {
        var k :| 0 <= k < |tasks| && tasks[k] == t;
        assert !Selects(tasks, names, k);
      }
      return Failure(NothingEnabled);
    }
    return Success(indices);
  }

  lemma SomeSelected(tasks: seq<Task>, names: seq<string>)
    requires names != [] && forall name <- names :: exists t <- tasks :: t.id == name
    ensures exists i: nat :: i < |tasks| && Selects(tasks, names, i)
  {
    var name := names[0];
    assert name in names;
    var t :| t in tasks && t.id == name;
    var k :| 0 <= k < |tasks| && tasks[k] == t;
    FirstExists(tasks, k);
    var i :| 0 <= i <= k && tasks[i].id == tasks[k].id && FirstOfItsId(tasks, i);
    assert Selects(tasks, names, i);
  }

  lemma {:induction false} FirstExists(tasks: seq<Task>, k: nat)
    requires k < |tasks|
    ensures exists i :: 0 <= i <= k && tasks[i].id == tasks[k].id && FirstOfItsId(tasks, i)
    decreases k
  {
    if !FirstOfItsId(tasks, k) {
      var j :| 0 <= j < k && tasks[j].id == tasks[k].id;
      FirstExists(tasks, j);
    }
  }

  // A named connector is collected once, and through the first task that stands for it.
  lemma SelectsOneEach(tasks: seq<Task>, names: seq<string>, name: string)
    requires name in names && exists t <- tasks :: t.id == name
    ensures exists i :: 0 <= i < |tasks| && tasks[i].id == name && Selects(tasks, names, i) && forall k :: 0 <= k < i ==> tasks[k].id != name
    ensures forall i, j :: 0 <= i < j < |tasks| && Selects(tasks, names, i) && Selects(tasks, names, j) ==> tasks[i].id != tasks[j].id
  {
    var t :| t in tasks && t.id == name;
    var k :| 0 <= k < |tasks| && tasks[k] == t;
    FirstExists(tasks, k);
    var i :| 0 <= i <= k && tasks[i].id == tasks[k].id && FirstOfItsId(tasks, i);
    assert Selects(tasks, names, i);
  }

  // ----- many collections at once -----

  // Between drawing its number and storing its batch a connector is busy, and its lock keeps it from
  // drawing another. last: the batch each connector had accepted last.
  datatype World = World(state: State, counter: nat, busy: map<string, nat>, last: map<string, seq<Metric>>)

  datatype Step =
    | Draw(connector: string)
    | Store(connector: string, batch: seq<Metric>)
    | Fail(connector: string, cause: ErrorClass, message: string)
    | Summarise(connector: string, report: CurrentState.Report)
    | Publish(health: Health)

  // Metric IDs belong to one connector each.
  ghost predicate AtHome(home: map<string, string>, connector: string, batch: seq<Metric>) {
    forall m <- batch :: m.id in home && home[m.id] == connector
  }

  ghost predicate Allowed(w: World, home: map<string, string>, step: Step) {
    match step
    case Draw(c) => c != "" && c !in w.busy
    case Store(c, batch) => c in w.busy && AtHome(home, c, batch)
    case _ => true
  }

  function Accepted(w: World, c: string, batch: seq<Metric>): bool {
    c in w.busy && ConnectorMetricsSpec(w.state, c, w.busy[c], batch).1.Success?
  }

  function Next(w: World, step: Step): World {
    match step
    case Draw(c) => w.(counter := w.counter + 1, busy := w.busy[c := w.counter + 1])
    case Store(c, batch) =>
      if c !in w.busy then w
      else
        w.(state := ConnectorMetricsSpec(w.state, c, w.busy[c], batch).0, busy := w.busy - {c},
           last := if Accepted(w, c, batch) then w.last[c := batch] else w.last)
    case Fail(c, cause, message) => w.(state := ErrorSpec(w.state, c, cause, message).0)
    case Summarise(c, report) => w.(state := HomeLabSpec(w.state, c, report).0)
    case Publish(h) => w.(state := HealthSpec(w.state, h).0)
  }

  ghost predicate AllowedRun(w: World, home: map<string, string>, steps: seq<Step>)
    decreases |steps|
  {
    steps != [] ==> Allowed(w, home, steps[0]) && AllowedRun(Next(w, steps[0]), home, steps[1..])
  }

  function Run(w: World, steps: seq<Step>): World
    decreases |steps|
  {
    if steps == [] then w else Run(Next(w, steps[0]), steps[1..])
  }

  const START := World(EMPTY, 0, map[], map[])

  // The reading as it was delivered, but for the annotation of a later failure.
  predicate SameReading(a: Metric, b: Metric) {
    a.(errorClass := b.errorClass, message := b.message) == b
  }

  // The connector owns exactly the metrics of the batch, with the values it had there.
  ghost predicate Holds(r: Readings, c: string, batch: seq<Metric>) {
    && OwnedBy(r.owners, c) == MetricIds(batch)
    && forall m <- batch :: m.id in r.metrics && SameReading(r.metrics[m.id], m)
  }

  ghost predicate GuardAt(w: World, home: map<string, string>, id: string) {
    && (id in w.state.seqs ==> id in home && w.state.seqs[id] <= w.counter
                               && (home[id] in w.busy ==> w.state.seqs[id] < w.busy[home[id]]))
    && (id in w.state.owners ==> id in w.state.seqs && id in home && w.state.owners[id] == home[id])
    && (id in w.state.metrics ==> id in w.state.owners)
  }

  ghost predicate Inv(w: World, home: map<string, string>) {
    && w.state.Valid()
    && (forall id :: GuardAt(w, home, id))
    && (forall c <- w.busy :: c != "" && w.busy[c] <= w.counter)
    && (forall c <- w.last :: Holds(StateRuns.Of(w.state), c, w.last[c]))
    && (forall c :: c !in w.last ==> OwnedBy(w.state.owners, c) == {})
  }

  // ----- an accepted batch -----

  ghost predicate StoredAs(t: Readings, m: Metric, sequence: nat) {
    m.id in t.metrics && t.metrics[m.id] == m && m.id in t.seqs && t.seqs[m.id] == sequence
  }

  ghost predicate Exactly(t: Readings, c: string, sequence: nat, batch: seq<Metric>) {
    OwnedBy(t.owners, c) == MetricIds(batch) && forall m <- batch :: StoredAs(t, m, sequence)
  }

  ghost predicate OthersUntouched(r: Readings, t: Readings, c: string, batch: seq<Metric>) {
    forall id :: id !in MetricIds(batch) && id !in OwnedBy(r.owners, c) ==> StateRuns.SameAt(r, t, id)
  }

  ghost predicate BuriedAt(t: Readings, sequence: nat, id: string) {
    id !in t.metrics && id !in t.owners && id in t.seqs && t.seqs[id] == sequence
  }

  // What the batch no longer holds is gone, and its guard keeps older batches from bringing it back.
  ghost predicate RestBuried(r: Readings, t: Readings, c: string, sequence: nat, batch: seq<Metric>) {
    forall id :: id !in MetricIds(batch) && id in OwnedBy(r.owners, c) ==> BuriedAt(t, sequence, id)
  }

  // The batch is newer than everything of its connector, and owners are at home.
  ghost predicate LatestAt(r: Readings, home: map<string, string>, c: string, sequence: nat, id: string) {
    && (id in home && home[id] == c ==> Newer(r.seqs, id, sequence))
    && (id in r.owners ==> id in home && r.owners[id] == home[id])
  }

  lemma OwnerAfter(r: Readings, home: map<string, string>, c: string, sequence: nat, batch: seq<Metric>, id: string)
    requires DistinctMetrics(batch) && c != "" && AtHome(home, c, batch) && LatestAt(r, home, c, sequence, id)
    ensures
      var t := StateRuns.AfterBoth(r, c, sequence, batch);
      && (id in MetricIds(batch) ==> id in t.owners && t.owners[id] == c)
      && (id !in MetricIds(batch) ==> if id in OwnedBy(r.owners, c) then BuriedAt(t, sequence, id) else StateRuns.SameAt(r, t, id))
      && (forall m <- batch :: m.id == id ==> StoredAs(t, m, sequence))
  {
    StateRuns.BatchAt(r, c, sequence, batch, id);
    if id in MetricIds(batch) {
      var m :| m in batch && m.id == id;
    }
  }

  lemma BatchIsExact(r: Readings, home: map<string, string>, c: string, sequence: nat, batch: seq<Metric>)
    requires DistinctMetrics(batch) && c != "" && AtHome(home, c, batch) && forall id :: LatestAt(r, home, c, sequence, id)
    ensures
      var t := StateRuns.AfterBoth(r, c, sequence, batch);
      && Exactly(t, c, sequence, batch) && OthersUntouched(r, t, c, batch) && RestBuried(r, t, c, sequence, batch)
  {
    var t := StateRuns.AfterBoth(r, c, sequence, batch);
    forall m <- batch
      ensures StoredAs(t, m, sequence)
    {
      assert LatestAt(r, home, c, sequence, m.id);
      OwnerAfter(r, home, c, sequence, batch, m.id);
    }
    forall id
      ensures id in OwnedBy(t.owners, c) <==> id in MetricIds(batch)
      ensures id !in MetricIds(batch) && id in OwnedBy(r.owners, c) ==> BuriedAt(t, sequence, id)
      ensures id !in MetricIds(batch) && id !in OwnedBy(r.owners, c) ==> StateRuns.SameAt(r, t, id)
    {
      assert LatestAt(r, home, c, sequence, id);
      OwnerAfter(r, home, c, sequence, batch, id);
    }
  }

  // A batch stored under its lock is newer than all of its connector's metrics.
  lemma BusyIsLatest(w: World, home: map<string, string>, c: string)
    requires Inv(w, home) && c in w.busy
    ensures forall id :: LatestAt(StateRuns.Of(w.state), home, c, w.busy[c], id)
  {
    forall id
      ensures LatestAt(StateRuns.Of(w.state), home, c, w.busy[c], id)
    {
      assert GuardAt(w, home, id);
    }
  }

  lemma AcceptedState(w: World, c: string, batch: seq<Metric>)
    requires Accepted(w, c, batch)
    ensures DistinctMetrics(batch) && c != ""
    ensures StateRuns.Of(Next(w, Store(c, batch)).state) == StateRuns.AfterBoth(StateRuns.Of(w.state), c, w.busy[c], batch)
  {
    CheckedMetrics(batch, {});
  }

  // After an accepted batch the connector owns exactly that batch, to the letter; what it had
  // besides is gone for good, and nothing changed for any other ID.
  lemma AcceptedBatchIsExact(w: World, home: map<string, string>, c: string, batch: seq<Metric>)
    requires Inv(w, home) && Allowed(w, home, Store(c, batch)) && Accepted(w, c, batch)
    ensures
      var r, t := StateRuns.Of(w.state), StateRuns.Of(Next(w, Store(c, batch)).state);
      && Exactly(t, c, w.busy[c], batch) && OthersUntouched(r, t, c, batch) && RestBuried(r, t, c, w.busy[c], batch)
  {
    AcceptedState(w, c, batch);
    BusyIsLatest(w, home, c);
    BatchIsExact(StateRuns.Of(w.state), home, c, w.busy[c], batch);
  }

  // ----- every step keeps the invariant -----

  lemma StartInv(home: map<string, string>)
    ensures Inv(START, home)
  {
    assert forall id :: GuardAt(START, home, id);
  }

  lemma DrawKeeps(w: World, home: map<string, string>, c: string)
    requires Inv(w, home) && Allowed(w, home, Draw(c))
    ensures Inv(Next(w, Draw(c)), home)
  {
    var w' := Next(w, Draw(c));
    forall id
      ensures GuardAt(w', home, id)
    {
      assert GuardAt(w, home, id);
    }
  }

  lemma OthersHold(r: Readings, t: Readings, home: map<string, string>, c: string, d: string, batch: seq<Metric>, held: seq<Metric>)
    requires Holds(r, d, held) && d != c && OthersUntouched(r, t, c, batch)
    requires AtHome(home, c, batch) && forall id :: id in r.owners ==> id in home && r.owners[id] == home[id]
    requires OwnedBy(t.owners, c) == MetricIds(batch)
    requires forall id :: id !in MetricIds(batch) && id in OwnedBy(r.owners, c) ==> id !in t.owners
    ensures Holds(t, d, held)
  {
    forall id
      ensures id in OwnedBy(t.owners, d) <==> id in OwnedBy(r.owners, d)
    {
      if id !in MetricIds(batch) && id !in OwnedBy(r.owners, c) {
        assert StateRuns.SameAt(r, t, id);
      }
    }
    forall m <- held
      ensures m.id in t.metrics && SameReading(t.metrics[m.id], m)
    {
      assert m.id in OwnedBy(r.owners, d);
      assert StateRuns.SameAt(r, t, m.id);
    }
  }

  lemma NoOthers(r: Readings, t: Readings, home: map<string, string>, c: string, d: string, batch: seq<Metric>)
    requires OwnedBy(r.owners, d) == {} && d != c && OthersUntouched(r, t, c, batch)
    requires OwnedBy(t.owners, c) == MetricIds(batch)
    requires forall id :: id !in MetricIds(batch) && id in OwnedBy(r.owners, c) ==> id !in t.owners
    ensures OwnedBy(t.owners, d) == {}
  {
    forall id
      ensures id !in OwnedBy(t.owners, d)
    {
      if id !in MetricIds(batch) && id !in OwnedBy(r.owners, c) {
        assert StateRuns.SameAt(r, t, id);
        assert id !in OwnedBy(r.owners, d);
      }
    }
  }

  lemma GuardAfterBatch(w: World, home: map<string, string>, c: string, batch: seq<Metric>, id: string)
    requires Inv(w, home) && Allowed(w, home, Store(c, batch)) && Accepted(w, c, batch)
    ensures GuardAt(Next(w, Store(c, batch)), home, id)
  {
    var r, t := StateRuns.Of(w.state), StateRuns.Of(Next(w, Store(c, batch)).state);
    AcceptedBatchIsExact(w, home, c, batch);
    assert GuardAt(w, home, id);
    if id in MetricIds(batch) {
      var m :| m in batch && m.id == id;
      assert StoredAs(t, m, w.busy[c]);
      assert id in OwnedBy(t.owners, c);
    } else if id in OwnedBy(r.owners, c) {
      assert BuriedAt(t, w.busy[c], id);
    } else {
      assert StateRuns.SameAt(r, t, id);
    }
  }

  // What an accepted batch means for the other connectors.
  lemma OthersAfterBatch(w: World, home: map<string, string>, c: string, batch: seq<Metric>, d: string)
    requires Inv(w, home) && Allowed(w, home, Store(c, batch)) && Accepted(w, c, batch) && d != c
    ensures
      var t := StateRuns.Of(Next(w, Store(c, batch)).state);
      && (d in w.last ==> Holds(t, d, w.last[d])) && (d !in w.last ==> OwnedBy(t.owners, d) == {})
  {
    var r, t := StateRuns.Of(w.state), StateRuns.Of(Next(w, Store(c, batch)).state);
    AcceptedBatchIsExact(w, home, c, batch);
    assert forall id :: id !in MetricIds(batch) && id in OwnedBy(r.owners, c) ==> BuriedAt(t, w.busy[c], id);
    if d in w.last {
      assert forall id :: id in r.owners ==> GuardAt(w, home, id);
      OthersHold(r, t, home, c, d, batch, w.last[d]);
    } else {
      NoOthers(r, t, home, c, d, batch);
    }
  }

  lemma HeldAfterBatch(w: World, home: map<string, string>, c: string, batch: seq<Metric>)
    requires Inv(w, home) && Allowed(w, home, Store(c, batch)) && Accepted(w, c, batch)
    ensures
      var w' := Next(w, Store(c, batch));
      var t := StateRuns.Of(w'.state);
      && (forall d <- w'.last :: Holds(t, d, w'.last[d])) && (forall d :: d !in w'.last ==> OwnedBy(w'.state.owners, d) == {})
  {
    var w' := Next(w, Store(c, batch));
    AcceptedBatchIsExact(w, home, c, batch);
    assert forall m <- batch :: StoredAs(StateRuns.Of(w'.state), m, w.busy[c]);
    forall d | d != c
      ensures d in w.last ==> Holds(StateRuns.Of(w'.state), d, w.last[d])
      ensures d !in w.last ==> OwnedBy(w'.state.owners, d) == {}
    {
      OthersAfterBatch(w, home, c, batch, d);
    }
  }

  lemma StoreKeeps(w: World, home: map<string, string>, c: string, batch: seq<Metric>)
    requires Inv(w, home) && Allowed(w, home, Store(c, batch))
    ensures Inv(Next(w, Store(c, batch)), home)
  {
    var w' := Next(w, Store(c, batch));
    StateRuns.StepValid(w.state, StateRuns.Batch(c, w.busy[c], batch));
    if Accepted(w, c, batch) {
      HeldAfterBatch(w, home, c, batch);
      forall id
        ensures GuardAt(w', home, id)
      {
        GuardAfterBatch(w, home, c, batch, id);
      }
    } else {
      forall id
        ensures GuardAt(w', home, id)
      {
        assert GuardAt(w, home, id);
      }
    }
  }

  lemma AnnotatedHolds(r: Readings, ids: set<string>, cause: ErrorClass, message: string, c: string, batch: seq<Metric>)
    requires Holds(r, c, batch)
    ensures Holds(r.(metrics := AnnotateMetrics(r.metrics, ids, cause, message)), c, batch)
  {
  }

  lemma FailGuard(w: World, home: map<string, string>, c: string, cause: ErrorClass, message: string, id: string)
    requires GuardAt(w, home, id)
    ensures GuardAt(Next(w, Fail(c, cause, message)), home, id)
  {
  }

  lemma FailHolds(w: World, c: string, cause: ErrorClass, message: string, d: string)
    requires d in w.last && Holds(StateRuns.Of(w.state), d, w.last[d])
    ensures Holds(StateRuns.Of(Next(w, Fail(c, cause, message)).state), d, w.last[d])
  {
    var stale := StaleMetrics(w.state.owners, w.state.metrics, c, cause, message);
    AnnotatedHolds(StateRuns.Of(w.state), stale, cause, message, d, w.last[d]);
  }

  lemma FailFrame(w: World, c: string, cause: ErrorClass, message: string)
    ensures
      var w' := Next(w, Fail(c, cause, message));
      w'.counter == w.counter && w'.busy == w.busy && w'.last == w.last && w'.state.owners == w.state.owners
  {
  }

  lemma FailKeeps(w: World, home: map<string, string>, c: string, cause: ErrorClass, message: string)
    requires Inv(w, home)
    ensures Inv(Next(w, Fail(c, cause, message)), home)
  {
    var w' := Next(w, Fail(c, cause, message));
    StateRuns.ErrorKeepsValid(w.state, c, cause, message);
    FailFrame(w, c, cause, message);
    assert w'.state.Valid();
    forall d <- w.last
      ensures Holds(StateRuns.Of(w'.state), d, w.last[d])
    {
      FailHolds(w, c, cause, message, d);
    }
    forall id
      ensures GuardAt(w', home, id)
    {
      FailGuard(w, home, c, cause, message, id);
    }
  }

  lemma OtherKeeps(w: World, home: map<string, string>, step: Step)
    requires Inv(w, home) && (step.Summarise? || step.Publish?)
    ensures Inv(Next(w, step), home)
  {
    var w' := Next(w, step);
    if step.Summarise? {
      StateRuns.ReportKeepsValid(w.state, step.connector, step.report);
    } else {
      StateRuns.HealthKeepsValid(w.state, step.health);
    }
    assert StateRuns.Of(w'.state) == StateRuns.Of(w.state);
    forall id
      ensures GuardAt(w', home, id)
    {
      assert GuardAt(w, home, id);
    }
  }

  lemma {:induction false} InvRun(w: World, home: map<string, string>, steps: seq<Step>)
    requires Inv(w, home) && AllowedRun(w, home, steps)
    ensures Inv(Run(w, steps), home)
    decreases |steps|
  {
    if steps != [] {
      match steps[0] {
        case Draw(c) => DrawKeeps(w, home, c);
        case Store(c, batch) => StoreKeeps(w, home, c, batch);
        case Fail(c, cause, message) => FailKeeps(w, home, c, cause, message);
        case _ => OtherKeeps(w, home, steps[0]);
      }
      InvRun(Next(w, steps[0]), home, steps[1..]);
    }
  }

  // However the collections of all connectors interleave, and however many fail, every connector
  // owns exactly the metrics of its last accepted batch, with the values they had there.
  lemma LastBatchStays(home: map<string, string>, steps: seq<Step>, c: string)
    requires AllowedRun(START, home, steps)
    ensures
      var w := Run(START, steps);
      && (c in w.last ==> Holds(StateRuns.Of(w.state), c, w.last[c]))
      && (c !in w.last ==> OwnedBy(w.state.owners, c) == {})
  {
    StartInv(home);
    InvRun(START, home, steps);
  }

  // What is stored is at least as new as the batch, wherever the batch or its connector has anything.
  ghost predicate Late(s: State, c: string, sequence: nat, batch: seq<Metric>) {
    && (forall id <- OwnedBy(s.owners, c) :: id in s.seqs && sequence <= s.seqs[id])
    && (forall m <- batch :: m.id in s.seqs ==> sequence <= s.seqs[m.id])
  }

  // A late batch inserts exactly those of its metrics that never had a guard, and touches nothing else.
  lemma LateBatch(s: State, c: string, sequence: nat, batch: seq<Metric>, id: string)
    requires ConnectorMetricsSpec(s, c, sequence, batch).1.Success? && Late(s, c, sequence, batch)
    ensures
      var r, t := StateRuns.Of(s), StateRuns.Of(ConnectorMetricsSpec(s, c, sequence, batch).0);
      && (id !in MetricIds(batch) || id in s.seqs ==> StateRuns.SameAt(r, t, id))
      && (forall m <- batch :: m.id == id && id !in s.seqs ==> StateRuns.PutAt(r, t, c, sequence, m))
  {
    CheckedMetrics(batch, {});
    StateRuns.BatchAt(StateRuns.Of(s), c, sequence, batch, id);
  }

  // So it is without effect on the readings if and only if all of its IDs were seen before.
  lemma LateBatchIgnored(s: State, c: string, sequence: nat, batch: seq<Metric>)
    requires ConnectorMetricsSpec(s, c, sequence, batch).1.Success? && Late(s, c, sequence, batch)
    ensures StateRuns.Of(ConnectorMetricsSpec(s, c, sequence, batch).0) == StateRuns.Of(s) <==> forall m <- batch :: m.id in s.seqs
  {
    var r, t := StateRuns.Of(s), StateRuns.Of(ConnectorMetricsSpec(s, c, sequence, batch).0);
    forall id
      ensures (forall m <- batch :: m.id in s.seqs) ==> StateRuns.SameAt(r, t, id)
    {
      LateBatch(s, c, sequence, batch, id);
    }
    forall m <- batch | m.id !in s.seqs
      ensures m.id in t.seqs
    {
      LateBatch(s, c, sequence, batch, m.id);
    }
    if forall m <- batch :: m.id in s.seqs {
      SameEverywhere(r, t);
    }
  }

  lemma SameEverywhere(r: Readings, t: Readings)
    requires forall id :: StateRuns.SameAt(r, t, id)
    ensures r == t
  {
    forall id
      ensures id in t.metrics <==> id in r.metrics
      ensures id in t.owners <==> id in r.owners
      ensures id in t.seqs <==> id in r.seqs
      ensures id in r.metrics ==> t.metrics[id] == r.metrics[id]
      ensures id in r.owners ==> t.owners[id] == r.owners[id]
      ensures id in r.seqs ==> t.seqs[id] == r.seqs[id]
    {
      assert StateRuns.SameAt(r, t, id);
    }
    assert r.metrics == t.metrics && r.owners == t.owners && r.seqs == t.seqs;
  }

  lemma StoredSingle(r: Readings, c: string, sequence: nat, m: Metric)
    requires Newer(r.seqs, m.id, sequence)
    ensures Stored(r, c, sequence, [m]) == (StoreOne(r, c, sequence, m), 1)
  {
    assert [m][..0] == [];
  }

  lemma FirstBatch(c: string, sequence: nat, m: Metric)
    requires c != "" && ValidMetric(m)
    ensures ConnectorMetricsSpec(EMPTY, c, sequence, [m]).0
            == EMPTY.(metrics := map[m.id := m], owners := map[m.id := c], seqs := map[m.id := sequence], version := 1)
  {
    CheckedMetrics([m], {});
    StateRuns.RemovedNothing(Readings(map[], map[], map[]), c, sequence, [m]);
    StoredSingle(Readings(map[], map[], map[]), c, sequence, m);
  }

  // Without the lock a late batch can bring in an ID that was never seen: of two collections that
  // drew 1 and 2, the one with 1 stores last, and the connector then owns the metrics of both.
  lemma LateBatchInserts(c: string, a: Metric, b: Metric)
    requires c != "" && ValidMetric(a) && ValidMetric(b) && a.id != b.id
    ensures
      var s := ConnectorMetricsSpec(EMPTY, c, 2, [a]).0;
      var (t, r) := ConnectorMetricsSpec(s, c, 1, [b]);
      r == Success(1) && OwnedBy(t.owners, c) == {a.id, b.id} && t.metrics == map[a.id := a, b.id := b]
  {
    FirstBatch(c, 2, a);
    var r := Readings(map[a.id := a], map[a.id := c], map[a.id := 2]);
    CheckedMetrics([b], {});
    StateRuns.RemovedNothing(r, c, 1, [b]);
    StoredSingle(r, c, 1, b);
  }

  // ----- a collection is a run of steps -----

  lemma {:induction false} RunThen(w: World, home: map<string, string>, steps: seq<Step>, more: seq<Step>)
    ensures Run(w, steps + more) == Run(Run(w, steps), more)
    ensures AllowedRun(w, home, steps + more) <==> AllowedRun(w, home, steps) && AllowedRun(Run(w, steps), home, more)
    decreases |steps|
  {
    if steps == [] {
      assert steps + more == more;
    } else {
      assert (steps + more)[1..] == steps[1..] + more;
      RunThen(Next(w, steps[0]), home, steps[1..], more);
    }
  }

  function HealthSteps(healths: seq<Health>): seq<Step> {
    if healths == [] then [] else HealthSteps(healths[..|healths| - 1]) + [Publish(healths[|healths| - 1])]
  }

  function SummarySteps(s: State, id: string, summary: Option<Option<CurrentState.Report>>): seq<Step> {
    match summary
    case None => []
    case Some(None) => [Fail(id, SchemaChanged, INVALID_SUMMARY)]
    case Some(Some(report)) =>
      if HomeLabSpec(s, id, report).1.Some? then [Summarise(id, report), Fail(id, SchemaChanged, INVALID_SUMMARY)]
      else [Summarise(id, report)]
  }

  function OfferSteps(s: State, r: Result<nat, StateError>, id: string, healths: seq<Health>, summary: Option<Option<CurrentState.Report>>)
    : seq<Step>
  {
    if r.Failure? then [Fail(id, SchemaChanged, INVALID_METRIC)]
    else HealthSteps(healths) + SummarySteps(AfterHealths(s, healths), id, summary)
  }

  lemma {:induction false} HealthRun(w: World, home: map<string, string>, healths: seq<Health>)
    ensures Run(w, HealthSteps(healths)) == w.(state := AfterHealths(w.state, healths))
    ensures AllowedRun(w, home, HealthSteps(healths))
  {
    if healths != [] {
      var front, last := healths[..|healths| - 1], Publish(healths[|healths| - 1]);
      HealthRun(w, home, front);
      RunThen(w, home, HealthSteps(front), [last]);
      SingleStep(Run(w, HealthSteps(front)), home, last);
    }
  }

  lemma SingleStep(w: World, home: map<string, string>, step: Step)
    ensures Run(w, [step]) == Next(w, step) && (AllowedRun(w, home, [step]) <==> Allowed(w, home, step))
  {
    assert [step][1..] == [];
  }

  lemma TwoSteps(w: World, home: map<string, string>, a: Step, b: Step)
    ensures Run(w, [a, b]) == Next(Next(w, a), b)
    ensures AllowedRun(w, home, [a, b]) <==> Allowed(w, home, a) && Allowed(Next(w, a), home, b)
  {
    assert [a, b][1..] == [b];
    SingleStep(Next(w, a), home, b);
  }

  lemma SummaryRun(w: World, home: map<string, string>, id: string, summary: Option<Option<CurrentState.Report>>)
    ensures
      var steps := SummarySteps(w.state, id, summary);
      Run(w, steps) == w.(state := AfterSummary(w.state, id, summary).0) && AllowedRun(w, home, steps)
  {
    match summary
    case None =>
    case Some(None) => SingleStep(w, home, Fail(id, SchemaChanged, INVALID_SUMMARY));
    case Some(Some(report)) =>
      SingleStep(w, home, Summarise(id, report));
      TwoSteps(w, home, Summarise(id, report), Fail(id, SchemaChanged, INVALID_SUMMARY));
  }

  lemma BusyAndBack(busy: map<string, nat>, id: string, sequence: nat)
    requires id !in busy
    ensures busy[id := sequence] - {id} == busy
  {
  }

  lemma DrawAndStore(w: World, home: map<string, string>, id: string, metrics: seq<Metric>)
    requires id != "" && id !in w.busy && AtHome(home, id, metrics)
    ensures
      var u := Run(w, [Draw(id), Store(id, metrics)]);
      && u.state == ConnectorMetricsSpec(w.state, id, w.counter + 1, metrics).0
      && u.counter == w.counter + 1 && u.busy == w.busy
      && AllowedRun(w, home, [Draw(id), Store(id, metrics)])
  {
    TwoSteps(w, home, Draw(id), Store(id, metrics));
    BusyAndBack(w.busy, id, w.counter + 1);
    var v := Next(w, Draw(id));
    assert v.state == w.state && id in v.busy && v.busy[id] == w.counter + 1;
  }

  lemma OfferRun(w: World, home: map<string, string>, r: Result<nat, StateError>, id: string,
                 healths: seq<Health>, summary: Option<Option<CurrentState.Report>>)
    ensures
      var steps := OfferSteps(w.state, r, id, healths, summary);
      Run(w, steps) == w.(state := AfterOffer(w.state, r, id, healths, summary).0) && AllowedRun(w, home, steps)
  {
    if r.Failure? {
      SingleStep(w, home, Fail(id, SchemaChanged, INVALID_METRIC));
    } else {
      var after := AfterHealths(w.state, healths);
      HealthRun(w, home, healths);
      SummaryRun(w.(state := after), home, id, summary);
      RunThen(w, home, HealthSteps(healths), SummarySteps(after, id, summary));
    }
  }

  // The steps are allowed, lead to the given store and counter, and leave every lock as it was.
  ghost predicate Performs(w: World, home: map<string, string>, steps: seq<Step>, s: State, counter: nat) {
    && AllowedRun(w, home, steps)
    && Run(w, steps).state == s && Run(w, steps).counter == counter && Run(w, steps).busy == w.busy
  }

  lemma OfferedRun(w: World, home: map<string, string>, id: string, metrics: seq<Metric>, r: Result<nat, StateError>,
                   healths: seq<Health>, summary: Option<Option<CurrentState.Report>>)
    requires id != "" && id !in w.busy && AtHome(home, id, metrics)
    ensures
      var t := ConnectorMetricsSpec(w.state, id, w.counter + 1, metrics).0;
      Performs(w, home, [Draw(id), Store(id, metrics)] + OfferSteps(t, r, id, healths, summary),
               AfterOffer(t, r, id, healths, summary).0, w.counter + 1)
  {
    var first := [Draw(id), Store(id, metrics)];
    var u := Run(w, first);
    DrawAndStore(w, home, id, metrics);
    OfferRun(u, home, r, id, healths, summary);
    RunThen(w, home, first, OfferSteps(u.state, r, id, healths, summary));
  }

  // What CollectOnce does to the store is a run of steps that the interleaving allows, so the
  // theorems about interleavings hold of the code.
  lemma CollectionIsRun(w: World, home: map<string, string>, id: string, collected: Collected) returns (steps: seq<Step>)
    requires id != "" && id !in w.busy && (collected.Gathered? ==> AtHome(home, id, collected.metrics))
    ensures
      var r := CollectSpec(w.state, w.counter, id, collected);
      Performs(w, home, steps, r.0, r.1)
  {
    match collected
    case CollectFailed(cause, message) =>
      steps := [Fail(id, cause, message)];
      SingleStep(w, home, steps[0]);
    case Gathered(metrics, healths, summary) =>
      var (t, r) := ConnectorMetricsSpec(w.state, id, w.counter + 1, metrics);
      steps := [Draw(id), Store(id, metrics)] + OfferSteps(t, r, id, healths, summary);
      OfferedRun(w, home, id, metrics, r, healths, summary);
  }
}
