/**
 What the operations of the current state answer and leave behind, said without the functions that
 compute it (internal/state/current.go:96-197, 248-369).
 */
module StateOutcomes {
  import opened Wrappers
  import opened Protocol
  import opened CurrentState
  import opened StateRuns

  // ----- what the store takes -----

  predicate IdFits(id: string) {
    1 <= |id| <= 64 && forall c <- id :: 'a' <= c <= 'z' || 'A' <= c <= 'Z' || '0' <= c <= '9' || c in "-_."
  }

  // No control character, and not too long for the display.
  predicate Printable(text: string) {
    |text| <= 160 && forall c <- text :: c as int >= 32 && c as int != 127
  }

  predicate MetricFits(m: Metric) {
    IdFits(m.id) && Printable(m.message) && !m.errorClass.UnknownClass? && m.content.wellFormed
  }

  predicate ServiceFits(v: Service) {
    IdFits(v.id) && Printable(v.message) && !v.errorClass.UnknownClass? && v.content.wellFormed
  }

  predicate HealthFits(h: Health) {
    IdFits(h.connectorId) && h.content.wellFormed
  }

  // Shares are percentages, and rates are not negative.
  predicate NodeFits(n: Node) {
    && IdFits(n.id) && Printable(n.message) && !n.errorClass.UnknownClass? && n.content.wellFormed
    && (forall share <- [n.cpu, n.memory, n.disk] :: share == None || 0 <= share.value <= 100)
    && (forall rate <- [n.receive, n.transmit] :: rate == None || rate.value >= 0)
  }

  lemma TextFits(text: string)
    ensures SafeText(text) <==> Printable(text)
    ensures SafeId(text) <==> IdFits(text)
  {
    forall i | 0 <= i < |text|
      ensures text[i] in text
    {
    }
  }

  lemma NodesFit(n: Node)
    ensures ValidNode(n) <==> NodeFits(n)
  {
    TextFits(n.id);
    TextFits(n.message);
    var shares, rates := [n.cpu, n.memory, n.disk], [n.receive, n.transmit];
    assert forall share <- shares :: share == shares[0] || share == shares[1] || share == shares[2];
    assert forall rate <- rates :: rate == rates[0] || rate == rates[1];
    assert n.cpu in shares && n.memory in shares && n.disk in shares && n.receive in rates && n.transmit in rates;
  }

  lemma OthersFit()
    ensures forall m: Metric :: ValidMetric(m) <==> MetricFits(m)
    ensures forall v: Service :: ValidService(v) <==> ServiceFits(v)
    ensures forall h: Health :: ValidHealth(h) <==> HealthFits(h)
  {
    forall text: string
      ensures SafeText(text) <==> Printable(text)
      ensures SafeId(text) <==> IdFits(text)
    {
      TextFits(text);
    }
  }

  // ----- metrics -----

  // Not seen before, or seen with a smaller number.
  predicate Fresh(s: State, id: string, sequence: nat) {
    id in s.seqs ==> s.seqs[id] < sequence
  }

  function CountFresh(s: State, sequence: nat, batch: seq<Metric>): nat {
    if batch == [] then 0
    else CountFresh(s, sequence, batch[..|batch| - 1]) + if Fresh(s, batch[|batch| - 1].id, sequence) then 1 else 0
  }

  lemma {:induction false} StoredFresh(s: State, r: Readings, connector: string, sequence: nat, batch: seq<Metric>, all: seq<Metric>)
    requires DistinctMetrics(batch) && batch <= all
    requires forall m <- all :: m.id in r.seqs <==> m.id in s.seqs
    requires forall m <- all :: m.id in s.seqs ==> r.seqs[m.id] == s.seqs[m.id]
    ensures Stored(r, connector, sequence, batch).1 == CountFresh(s, sequence, batch)
  {
    if batch != [] {
      var front, m := batch[..|batch| - 1], batch[|batch| - 1];
      assert all[|batch| - 1] == m && m in all;
      StoredFresh(s, r, connector, sequence, front, all);
      assert m.id !in MetricIds(front) by {
        assert forall k :: 0 <= k < |front| ==> front[k].id != m.id;
      }
      StoredElsewhere(r, connector, sequence, front, m.id);
    }
  }

  // A batch is taken if and only if it has a connector and valid metrics with different IDs; the answer
  // is how many of them are new.
  lemma BatchAnswer(s: State, connector: string, sequence: nat, batch: seq<Metric>)
    ensures
      var (t, r) := ConnectorMetricsSpec(s, connector, sequence, batch);
      var taken := connector != "" && DistinctMetrics(batch) && forall i :: 0 <= i < |batch| ==> MetricFits(batch[i]);
      && (if taken then r == Success(CountFresh(s, sequence, batch)) else r.Failure? && t == s)
      && (connector == "" ==> r == Failure(NoConnector))
      && (t.nodes, t.nodeOwners, t.services, t.serviceOwners, t.health)
         == (s.nodes, s.nodeOwners, s.services, s.serviceOwners, s.health)
  {
    CheckedMetrics(batch, {});
    OthersFit();
    if connector != "" && CheckMetrics(batch, {}).None? {
      var without := Removed(Of(s), connector, sequence, batch).0;
      forall m <- batch
        ensures m.id in without.seqs <==> m.id in s.seqs
        ensures m.id in s.seqs ==> without.seqs[m.id] == s.seqs[m.id]
      {
        RemovedAt(Of(s), connector, sequence, batch, m.id);
      }
      StoredFresh(s, without, connector, sequence, batch, batch);
    }
  }

  // ----- a connector's failure -----

  predicate MetricMarked(m: Metric, after: Metric, cause: ErrorClass, message: string) {
    after == Metric(m.id, m.order, m.content, cause, message)
  }

  predicate NodeMarked(n: Node, after: Node, cause: ErrorClass, message: string) {
    after == Node(n.id, n.order, n.online, n.cpu, n.memory, n.disk, n.receive, n.transmit, n.content, cause, message)
  }

  predicate ServiceMarked(v: Service, after: Service, cause: ErrorClass, message: string) {
    after == Service(v.id, v.order, v.content, cause, message)
  }

  // The connector owns metrics to which the failure would be news.
  ghost predicate MetricsToMark(s: State, connector: string, cause: ErrorClass, message: string)
    requires s.owners.Keys <= s.metrics.Keys
  {
    exists id <- s.owners :: s.owners[id] == connector && (s.metrics[id].errorClass != cause || s.metrics[id].message != message)
  }

  lemma StaleIsToMark(s: State, connector: string, cause: ErrorClass, message: string)
    requires s.owners.Keys <= s.metrics.Keys
    ensures StaleMetrics(s.owners, s.metrics, connector, cause, message) != {} <==> MetricsToMark(s, connector, cause, message)
  {
    var stale := StaleMetrics(s.owners, s.metrics, connector, cause, message);
    if MetricsToMark(s, connector, cause, message) {
      var id :| id in s.owners && s.owners[id] == connector && (s.metrics[id].errorClass != cause || s.metrics[id].message != message);
      assert id in stale;
    }
  }

  // A failure is refused without a connector, without a class, or when a metric would be given an
  // unsafe message; and then nothing changes.
  lemma FailureRefused(s: State, connector: string, cause: ErrorClass, message: string)
    requires s.Valid()
    ensures
      var (t, r) := ErrorSpec(s, connector, cause, message);
      if connector == "" then t == s && r == Failure(NoConnector)
      else if !cause.Known() then t == s && r == Failure(InvalidClass)
      else if !Printable(message) && MetricsToMark(s, connector, cause, message) then t == s && r == Failure(UnsafeMessage)
      else r.Success?
  {
    StaleIsToMark(s, connector, cause, message);
    TextFits(message);
  }

  ghost predicate MetricsMarked(ms: map<string, Metric>, owners: map<string, string>, ms': map<string, Metric>,
                                connector: string, cause: ErrorClass, message: string) {
    && ms'.Keys == ms.Keys
    && forall id <- ms ::
         if id in owners && owners[id] == connector then MetricMarked(ms[id], ms'[id], cause, message) else ms'[id] == ms[id]
  }

  ghost predicate NodesMarked(ns: map<string, Node>, owners: map<string, string>, ns': map<string, Node>,
                              connector: string, cause: ErrorClass, message: string) {
    && ns'.Keys == ns.Keys
    && forall id <- ns ::
         if id in owners && owners[id] == connector then NodeMarked(ns[id], ns'[id], cause, message) else ns'[id] == ns[id]
  }

  ghost predicate ServicesMarked(ss: map<string, Service>, owners: map<string, string>, ss': map<string, Service>,
                                 connector: string, cause: ErrorClass, message: string) {
    && ss'.Keys == ss.Keys
    && forall id <- ss ::
         if id in owners && owners[id] == connector then ServiceMarked(ss[id], ss'[id], cause, message) else ss'[id] == ss[id]
  }

  lemma AnnotationMarksMetrics(ms: map<string, Metric>, owners: map<string, string>, connector: string, cause: ErrorClass, message: string)
    ensures MetricsMarked(ms, owners, AnnotateMetrics(ms, StaleMetrics(owners, ms, connector, cause, message), cause, message),
                          connector, cause, message)
  {
  }

  lemma AnnotationMarksNodes(ns: map<string, Node>, owners: map<string, string>, connector: string, cause: ErrorClass, message: string)
    ensures NodesMarked(ns, owners, AnnotateNodes(ns, StaleNodes(owners, ns, connector, cause, message), cause, message),
                        connector, cause, message)
  {
  }

  lemma AnnotationMarksServices(ss: map<string, Service>, owners: map<string, string>, connector: string, cause: ErrorClass, message: string)
    ensures ServicesMarked(ss, owners, AnnotateServices(ss, StaleServices(owners, ss, connector, cause, message), cause, message),
                           connector, cause, message)
  {
  }

  // Otherwise it is written on everything that the connector owns, and on nothing else; no value, owner
  // or guard changes.
  lemma FailureMarks(s: State, connector: string, cause: ErrorClass, message: string)
    requires ErrorSpec(s, connector, cause, message).1.Success?
    ensures
      var t := ErrorSpec(s, connector, cause, message).0;
      && (t.owners, t.seqs, t.nodeOwners, t.serviceOwners, t.health) == (s.owners, s.seqs, s.nodeOwners, s.serviceOwners, s.health)
      && MetricsMarked(s.metrics, s.owners, t.metrics, connector, cause, message)
      && NodesMarked(s.nodes, s.nodeOwners, t.nodes, connector, cause, message)
      && ServicesMarked(s.services, s.serviceOwners, t.services, connector, cause, message)
  {
    AnnotationMarksMetrics(s.metrics, s.owners, connector, cause, message);
    AnnotationMarksNodes(s.nodes, s.nodeOwners, connector, cause, message);
    AnnotationMarksServices(s.services, s.serviceOwners, connector, cause, message);
  }

  function Differing<T(==)>(before: map<string, T>, after: map<string, T>): set<string> {
    set id <- before | id in after && after[id] != before[id]
  }

  lemma StaleDiffer(s: State, connector: string, cause: ErrorClass, message: string)
    ensures
      var stale := StaleMetrics(s.owners, s.metrics, connector, cause, message);
      Differing(s.metrics, AnnotateMetrics(s.metrics, stale, cause, message)) == stale
    ensures
      var stale := StaleNodes(s.nodeOwners, s.nodes, connector, cause, message);
      Differing(s.nodes, AnnotateNodes(s.nodes, stale, cause, message)) == stale
    ensures
      var stale := StaleServices(s.serviceOwners, s.services, connector, cause, message);
      Differing(s.services, AnnotateServices(s.services, stale, cause, message)) == stale
  {
  }

  // The answer is the number of entities that the failure is news to, and only news raises the version.
  lemma FailureCounts(s: State, connector: string, cause: ErrorClass, message: string)
    requires ErrorSpec(s, connector, cause, message).1.Success?
    ensures
      var (t, r) := ErrorSpec(s, connector, cause, message);
      && r.value == |Differing(s.metrics, t.metrics)| + |Differing(s.nodes, t.nodes)| + |Differing(s.services, t.services)|
      && t.version == if r.value == 0 then s.version else s.version + 1
  {
    StaleDiffer(s, connector, cause, message);
  }

  lemma {:induction false} SomeFresh(s: State, sequence: nat, batch: seq<Metric>)
    requires CountFresh(s, sequence, batch) > 0
    ensures exists m <- batch :: Fresh(s, m.id, sequence)
  {
    var m := batch[|batch| - 1];
    if Fresh(s, m.id, sequence) {
      assert m in batch;
    } else {
      SomeFresh(s, sequence, batch[..|batch| - 1]);
    }
  }

  // A batch that raises the version moves the guard of some metric.
  lemma BatchIsNews(s: State, connector: string, sequence: nat, batch: seq<Metric>)
    requires DistinctMetrics(batch)
    ensures
      var t := AfterBatch(s, connector, sequence, batch).0;
      t.version != s.version ==> exists id <- t.seqs :: t.seqs[id] == sequence && Fresh(s, id, sequence)
  {
    var r, t := Of(s), AfterBatch(s, connector, sequence, batch).0;
    var gone := Gone(r.owners, r.seqs, connector, sequence, batch);
    var without := Removed(r, connector, sequence, batch).0;
    if gone != {} {
      var id :| id in gone;
      BatchAt(r, connector, sequence, batch, id);
    } else if t.version != s.version {
      RemovedNothing(r, connector, sequence, batch);
      StoredFresh(s, r, connector, sequence, batch, batch);
      SomeFresh(s, sequence, batch);
      var m :| m in batch && Fresh(s, m.id, sequence);
      BatchAt(r, connector, sequence, batch, m.id);
    }
  }

  // Of a batch or a failure nothing is left if there was no news in it, not even a new version.
  lemma VersionMeansNews(s: State, op: Op)
    requires !op.Report? && !op.HomeLab? && Next(s, op).(version := s.version) == s
    ensures Next(s, op) == s
  {
    match op
    case Batch(connector, sequence, batch) =>
      if connector != "" {
        QuietBatch(s, connector, sequence, batch);
      }
    case Plain(sequence, batch) => QuietBatch(s, "", sequence, batch);
    case Failed(connector, cause, message) =>
      if ErrorSpec(s, connector, cause, message).1.Success? {
        FailureCounts(s, connector, cause, message);
      }
  }

  lemma QuietBatch(s: State, connector: string, sequence: nat, batch: seq<Metric>)
    requires MetricsSpec(s, connector, sequence, batch).0.(version := s.version) == s
    ensures MetricsSpec(s, connector, sequence, batch).0 == s
  {
    CheckedMetrics(batch, {});
    if CheckMetrics(batch, {}).None? {
      BatchIsNews(s, connector, sequence, batch);
    }
  }

  // ----- health -----

  // A valid health record takes the place of the connector's last one; an invalid one is refused.
  lemma HealthAnswer(s: State, h: Health)
    ensures
      var (t, error) := HealthSpec(s, h);
      if !HealthFits(h) then t == s && error == Some(InvalidEntity)
      else
        && error.None? && t.health.Keys == s.health.Keys + {h.connectorId} && t.health[h.connectorId] == h
        && (forall id <- s.health :: id != h.connectorId ==> t.health[id] == s.health[id])
        && t == s.(health := t.health, version := s.version + 1)
  {
    TextFits(h.connectorId);
  }

  function LastHealth(ops: seq<Op>, id: string): Option<Health> {
    if ops == [] then None
    else
      match ops[|ops| - 1]
      case Report(h) => if h.connectorId == id && HealthFits(h) then Some(h) else LastHealth(ops[..|ops| - 1], id)
      case _ => LastHealth(ops[..|ops| - 1], id)
  }

  lemma OthersLeaveHealth(s: State, op: Op)
    requires !op.Report?
    ensures Next(s, op).health == s.health
  {
  }

  lemma HealthOfStep(s: State, op: Op, id: string)
    ensures
      var t := Next(s, op);
      if op.Report? && op.health.connectorId == id && HealthFits(op.health) then id in t.health && t.health[id] == op.health
      else (id in t.health <==> id in s.health) && (id in s.health ==> t.health[id] == s.health[id])
  {
    if op.Report? {
      HealthAnswer(s, op.health);
    } else {
      OthersLeaveHealth(s, op);
    }
  }

  // Over every run of the state, what it says of a connector's health is the last valid record.
  lemma {:induction false} HealthIsLast(ops: seq<Op>, id: string)
    ensures
      var s := Run(EMPTY, ops);
      match LastHealth(ops, id)
      case Some(h) => id in s.health && s.health[id] == h
      case None => id !in s.health
  {
    if ops != [] {
      var front, last := ops[..|ops| - 1], ops[|ops| - 1];
      HealthIsLast(front, id);
      assert ops == front + [last];
      RunSplits(EMPTY, front, [last]);
      assert [last][1..] == [] && Run(Run(EMPTY, front), [last]) == Next(Run(EMPTY, front), last);
      HealthOfStep(Run(EMPTY, front), last, id);
    }
  }

  // ----- reports -----

  predicate Admissible(report: CurrentState.Report) {
    && |report.nodes| <= 100 && |report.services| <= 32
    && DistinctNodes(report.nodes) && (forall i :: 0 <= i < |report.nodes| ==> NodeFits(report.nodes[i]))
    && DistinctServices(report.services) && (forall i :: 0 <= i < |report.services| ==> ServiceFits(report.services[i]))
  }

  // With what other connectors have.
  predicate FitsIn(s: State, connector: string, report: CurrentState.Report) {
    && |s.nodes| - |OwnedBy(s.nodeOwners, connector)| + |report.nodes| <= 100
    && |s.services| - |OwnedBy(s.serviceOwners, connector)| + |report.services| <= 32
  }

  predicate Unclaimed(s: State, connector: string, report: CurrentState.Report) {
    && (forall n <- report.nodes :: n.id in s.nodeOwners ==> s.nodeOwners[n.id] == connector)
    && (forall v <- report.services :: v.id in s.serviceOwners ==> s.serviceOwners[v.id] == connector)
  }

  lemma AdmissibleIsChecked(report: CurrentState.Report)
    ensures Admissible(report)
            <==> |report.nodes| <= MAX_NODES && |report.services| <= MAX_SERVICES
                 && CheckNodes(report.nodes, {}).None? && CheckServices(report.services, {}).None?
  {
    CheckedNodes(report.nodes, {});
    CheckedServices(report.services, {});
    OthersFit();
    forall i | 0 <= i < |report.nodes|
      ensures ValidNode(report.nodes[i]) <==> NodeFits(report.nodes[i])
    {
      NodesFit(report.nodes[i]);
    }
  }

  lemma UnclaimedIsChecked(s: State, connector: string, report: CurrentState.Report)
    ensures Unclaimed(s, connector, report)
            <==> !(exists n <- report.nodes :: Foreign(s.nodeOwners, n.id, connector))
                 && !(exists v <- report.services :: Foreign(s.serviceOwners, v.id, connector))
  {
  }

  // A report is taken if and only if it has a connector, valid nodes and services with different IDs, no
  // more of them than the limits allow, alone and together with those of others, and none that another
  // connector owns.
  lemma ReportAnswer(s: State, connector: string, report: CurrentState.Report)
    ensures
      var (t, error) := HomeLabSpec(s, connector, report);
      && (error.Some? ==> t == s)
      && (error.None? <==> connector != "" && Admissible(report) && FitsIn(s, connector, report) && Unclaimed(s, connector, report))
  {
    NoReportError(s, connector, report);
  }

  lemma NoReportError(s: State, connector: string, report: CurrentState.Report)
    ensures ReportError(s, connector, report).None?
            <==> connector != "" && Admissible(report) && FitsIn(s, connector, report) && Unclaimed(s, connector, report)
  {
    AdmissibleIsChecked(report);
    UnclaimedIsChecked(s, connector, report);
    if connector != "" && Admissible(report) {
      if FitsIn(s, connector, report) {
        assert ReportError(s, connector, report).None? <==> Unclaimed(s, connector, report);
      } else {
        assert ReportError(s, connector, report) == Some(MergedTooLarge);
      }
    } else {
      assert ReportError(s, connector, report).Some?;
    }
  }
}
