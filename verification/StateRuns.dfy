/**
 What holds of the current state over every sequence of operations (internal/state/current.go,
 internal/nodeapi/server.go:270-279): validity, a version that identifies the published content,
 and what each operation does to the entities of its connector and of all others.
 */
module StateRuns {
  import opened Wrappers
  import opened CurrentState
  import opened MapLoops

  datatype Op =
    | Batch(connector: string, sequence: nat, batch: seq<Metric>)
    | Plain(sequence: nat, batch: seq<Metric>)
    | Failed(connector: string, cause: ErrorClass, message: string)
    | HomeLab(connector: string, report: Report)
    | Report(health: Health)

  function Next(s: State, op: Op): State {
    match op
    case Batch(connector, sequence, batch) => ConnectorMetricsSpec(s, connector, sequence, batch).0
    case Plain(sequence, batch) => MetricsSpec(s, "", sequence, batch).0
    case Failed(connector, cause, message) => ErrorSpec(s, connector, cause, message).0
    case HomeLab(connector, report) => HomeLabSpec(s, connector, report).0
    case Report(health) => HealthSpec(s, health).0
  }

  function Run(s: State, ops: seq<Op>): State
    decreases |ops|
  {
    if ops == [] then s else Run(Next(s, ops[0]), ops[1..])
  }

  // ----- what a batch does to one metric ID -----

  function Of(s: State): Readings {
    Readings(s.metrics, s.owners, s.seqs)
  }

  ghost predicate SameAt(r: Readings, t: Readings, id: string) {
    && (id in t.metrics <==> id in r.metrics) && (id in r.metrics ==> t.metrics[id] == r.metrics[id])
    && (id in t.owners <==> id in r.owners) && (id in r.owners ==> t.owners[id] == r.owners[id])
    && (id in t.seqs <==> id in r.seqs) && (id in r.seqs ==> t.seqs[id] == r.seqs[id])
  }

  ghost predicate PutAt(r: Readings, t: Readings, connector: string, sequence: nat, m: Metric) {
    && m.id in t.metrics && t.metrics[m.id] == m && m.id in t.seqs && t.seqs[m.id] == sequence
    && (if connector == "" then (m.id in t.owners <==> m.id in r.owners) && (m.id in r.owners ==> t.owners[m.id] == r.owners[m.id])
        else m.id in t.owners && t.owners[m.id] == connector)
  }

  lemma {:induction false} StoredElsewhere(r: Readings, connector: string, sequence: nat, batch: seq<Metric>, id: string)
    requires id !in MetricIds(batch)
    ensures SameAt(r, Stored(r, connector, sequence, batch).0, id)
  {
    if batch != [] {
      var front, m := batch[..|batch| - 1], batch[|batch| - 1];
      assert batch == front + [m];
      assert MetricIds(front) <= MetricIds(batch) && m in batch;
      StoredElsewhere(r, connector, sequence, front, id);
    }
  }

  lemma {:induction false} StoredAt(r: Readings, connector: string, sequence: nat, batch: seq<Metric>, i: nat)
    requires DistinctMetrics(batch) && i < |batch|
    ensures
      var t := Stored(r, connector, sequence, batch).0;
      if Newer(r.seqs, batch[i].id, sequence) then PutAt(r, t, connector, sequence, batch[i]) else SameAt(r, t, batch[i].id)
  {
    var front, m := batch[..|batch| - 1], batch[|batch| - 1];
    if i == |batch| - 1 {
      assert forall k :: 0 <= k < |front| ==> front[k].id != m.id;
      StoredElsewhere(r, connector, sequence, front, m.id);
    } else {
      StoredAt(r, connector, sequence, front, i);
      assert front[i] == batch[i] && m.id != batch[i].id;
    }
  }

  lemma {:induction false} StoredCount(r: Readings, connector: string, sequence: nat, batch: seq<Metric>)
    ensures Stored(r, connector, sequence, batch).1 == 0 ==> Stored(r, connector, sequence, batch).0 == r
  {
    if batch != [] {
      StoredCount(r, connector, sequence, batch[..|batch| - 1]);
    }
  }

  function AfterBoth(r: Readings, connector: string, sequence: nat, batch: seq<Metric>): Readings {
    Stored(Removed(r, connector, sequence, batch).0, connector, sequence, batch).0
  }

  lemma RemovedAt(r: Readings, connector: string, sequence: nat, batch: seq<Metric>, id: string)
    ensures
      var t := Removed(r, connector, sequence, batch).0;
      if connector != "" && id !in MetricIds(batch) && id in OwnedBy(r.owners, connector) && Newer(r.seqs, id, sequence)
      then id !in t.metrics && id !in t.owners && id in t.seqs && t.seqs[id] == sequence
      else SameAt(r, t, id)
  {
  }

  // A batch puts its newer metrics, removes the connector's other metrics that it outdates, leaving
  // their guards as tombstones, and touches nothing else.
  lemma BatchAt(r: Readings, connector: string, sequence: nat, batch: seq<Metric>, id: string)
    requires DistinctMetrics(batch)
    ensures
      var t := AfterBoth(r, connector, sequence, batch);
      && (id !in MetricIds(batch) ==>
            if connector != "" && id in OwnedBy(r.owners, connector) && Newer(r.seqs, id, sequence)
            then id !in t.metrics && id !in t.owners && id in t.seqs && t.seqs[id] == sequence
            else SameAt(r, t, id))
      && (forall m <- batch :: m.id == id ==>
            if Newer(r.seqs, id, sequence) then PutAt(r, t, connector, sequence, m) else SameAt(r, t, id))
  {
    var without := Removed(r, connector, sequence, batch).0;
    RemovedAt(r, connector, sequence, batch, id);
    if id !in MetricIds(batch) {
      StoredElsewhere(without, connector, sequence, batch, id);
    } else {
      var i :| 0 <= i < |batch| && batch[i].id == id;
      StoredAt(without, connector, sequence, batch, i);
    }
  }

  // ----- what a HomeLab report does -----

  lemma {:induction false} PutNodesElsewhere(ns: map<string, Node>, report: seq<Node>, id: string)
    requires id !in NodeIds(report)
    ensures id in PutNodes(ns, report) <==> id in ns
    ensures id in ns ==> PutNodes(ns, report)[id] == ns[id]
  {
    if report != [] {
      var front, last := report[..|report| - 1], report[|report| - 1];
      assert report == front + [last];
      assert NodeIds(front) <= NodeIds(report) && last in report;
      PutNodesElsewhere(ns, front, id);
    }
  }

  lemma {:induction false} PutNodesAt(ns: map<string, Node>, report: seq<Node>, i: nat)
    requires DistinctNodes(report) && i < |report|
    ensures report[i].id in PutNodes(ns, report) && PutNodes(ns, report)[report[i].id] == Merged(report[i], ns)
  {
    var front, last := report[..|report| - 1], report[|report| - 1];
    if i == |report| - 1 {
      assert forall k :: 0 <= k < |front| ==> front[k].id != last.id;
      PutNodesElsewhere(ns, front, last.id);
    } else {
      PutNodesAt(ns, front, i);
      assert front[i] == report[i] && last.id != report[i].id;
    }
  }

  lemma {:induction false} PutServicesElsewhere(ss: map<string, Service>, report: seq<Service>, id: string)
    requires id !in ServiceIds(report)
    ensures id in PutServices(ss, report) <==> id in ss
    ensures id in ss ==> PutServices(ss, report)[id] == ss[id]
  {
    if report != [] {
      var front, last := report[..|report| - 1], report[|report| - 1];
      assert report == front + [last];
      assert ServiceIds(front) <= ServiceIds(report) && last in report;
      PutServicesElsewhere(ss, front, id);
    }
  }

  lemma {:induction false} PutServicesAt(ss: map<string, Service>, report: seq<Service>, i: nat)
    requires DistinctServices(report) && i < |report|
    ensures report[i].id in PutServices(ss, report) && PutServices(ss, report)[report[i].id] == report[i]
  {
    var front, last := report[..|report| - 1], report[|report| - 1];
    if i == |report| - 1 {
      assert forall k :: 0 <= k < |front| ==> front[k].id != last.id;
      PutServicesElsewhere(ss, front, last.id);
    } else {
      PutServicesAt(ss, front, i);
      assert front[i] == report[i] && last.id != report[i].id;
    }
  }

  // The maps of one kind of entity after a report: what the connector had is replaced by the report.
  function NodesAfter(ns: map<string, Node>, owners: map<string, string>, connector: string, report: seq<Node>): map<string, Node> {
    PutNodes(ns - (OwnedBy(owners, connector) - NodeIds(report)), report)
  }

  function ServicesAfter(ss: map<string, Service>, owners: map<string, string>, connector: string, report: seq<Service>): map<string, Service> {
    PutServices(ss - (OwnedBy(owners, connector) - ServiceIds(report)), report)
  }

  function OwnersAfter(owners: map<string, string>, connector: string, ids: set<string>): map<string, string> {
    Assign(owners - (OwnedBy(owners, connector) - ids), ids, connector)
  }

  lemma OwnerAt(owners: map<string, string>, connector: string, ids: set<string>, id: string)
    ensures
      var t := OwnersAfter(owners, connector, ids);
      && (id in t <==> id in ids || (id in owners && owners[id] != connector))
      && (id in t ==> t[id] == if id in ids then connector else owners[id])
  {
  }

  lemma OwnersReplaced(owners: map<string, string>, connector: string, ids: set<string>)
    requires forall id <- ids :: !Foreign(owners, id, connector)
    ensures
      var t := OwnersAfter(owners, connector, ids);
      && t.Keys == ids + (owners.Keys - OwnedBy(owners, connector)) && OwnedBy(t, connector) == ids
      && forall id <- owners :: owners[id] != connector ==> id in t && t[id] == owners[id]
  {
    var t := OwnersAfter(owners, connector, ids);
    forall id
      ensures id in t <==> id in ids || (id in owners && owners[id] != connector)
      ensures id in t ==> t[id] == if id in ids then connector else owners[id]
    {
      OwnerAt(owners, connector, ids, id);
    }
  }

  lemma NodeAt(ns: map<string, Node>, owners: map<string, string>, connector: string, report: seq<Node>, id: string)
    requires owners.Keys == ns.Keys && DistinctNodes(report)
    ensures
      var t := NodesAfter(ns, owners, connector, report);
      && (id in t <==> id in NodeIds(report) || (id in owners && owners[id] != connector))
      && (id in t && id !in NodeIds(report) ==> t[id] == ns[id])
      && (forall n <- report :: n.id == id ==> id in t && t[id] == Merged(n, ns))
  {
    var gone := OwnedBy(owners, connector) - NodeIds(report);
    if id !in NodeIds(report) {
      PutNodesElsewhere(ns - gone, report, id);
    } else {
      var i :| 0 <= i < |report| && report[i].id == id;
      PutNodesAt(ns - gone, report, i);
      assert id !in gone;
    }
  }

  lemma ServiceAt(ss: map<string, Service>, owners: map<string, string>, connector: string, report: seq<Service>, id: string)
    requires owners.Keys == ss.Keys && DistinctServices(report)
    ensures
      var t := ServicesAfter(ss, owners, connector, report);
      && (id in t <==> id in ServiceIds(report) || (id in owners && owners[id] != connector))
      && (id in t && id !in ServiceIds(report) ==> t[id] == ss[id])
      && (forall v <- report :: v.id == id ==> id in t && t[id] == v)
  {
    var gone := OwnedBy(owners, connector) - ServiceIds(report);
    if id !in ServiceIds(report) {
      PutServicesElsewhere(ss - gone, report, id);
    } else {
      var i :| 0 <= i < |report| && report[i].id == id;
      PutServicesAt(ss - gone, report, i);
    }
  }

  // A value of an offline node: the reported one, or else the one known before.
  predicate LastKnown(reported: Option<int>, before: Option<int>, stored: Option<int>) {
    stored == if reported.Some? then reported else before
  }

  // What is stored for a reported node: just what was reported, except that a node reported offline
  // keeps those of its five values that the report does not give.
  predicate StoredNode(n: Node, before: map<string, Node>, stored: Node) {
    && stored.(cpu := n.cpu, memory := n.memory, disk := n.disk, receive := n.receive, transmit := n.transmit) == n
    && if n.online == Some(false) && n.id in before then
         var b := before[n.id];
         && LastKnown(n.cpu, b.cpu, stored.cpu) && LastKnown(n.memory, b.memory, stored.memory)
         && LastKnown(n.disk, b.disk, stored.disk) && LastKnown(n.receive, b.receive, stored.receive)
         && LastKnown(n.transmit, b.transmit, stored.transmit)
       else stored == n
  }

  // What the connector owns is exactly the report, merged with what was known of offline nodes, and
  // what others own is as it was.
  ghost predicate NodesExact(ns: map<string, Node>, owners: map<string, string>, ns': map<string, Node>, owners': map<string, string>,
                             connector: string, report: seq<Node>) {
    && OwnedBy(owners', connector) == NodeIds(report) && owners'.Keys == ns'.Keys
    && (forall n <- report :: n.id in ns' && StoredNode(n, ns, ns'[n.id]))
    && (forall id <- owners :: owners[id] != connector ==> id in owners' && owners'[id] == owners[id])
    && (forall id <- owners' :: owners'[id] != connector ==> id in owners && id in ns && owners[id] == owners'[id] && ns'[id] == ns[id])
  }

  ghost predicate ServicesExact(ss: map<string, Service>, owners: map<string, string>, ss': map<string, Service>, owners': map<string, string>,
                                connector: string, report: seq<Service>) {
    && OwnedBy(owners', connector) == ServiceIds(report) && owners'.Keys == ss'.Keys
    && (forall v <- report :: v.id in ss' && ss'[v.id] == v)
    && (forall id <- owners :: owners[id] != connector ==> id in owners' && owners'[id] == owners[id])
    && (forall id <- owners' :: owners'[id] != connector ==> id in owners && id in ss && owners[id] == owners'[id] && ss'[id] == ss[id])
  }

  lemma NodesReplaced(ns: map<string, Node>, owners: map<string, string>, connector: string, report: seq<Node>)
    requires owners.Keys == ns.Keys && DistinctNodes(report) && forall id <- NodeIds(report) :: !Foreign(owners, id, connector)
    ensures NodesExact(ns, owners, NodesAfter(ns, owners, connector, report), OwnersAfter(owners, connector, NodeIds(report)), connector, report)
  {
    var t := NodesAfter(ns, owners, connector, report);
    OwnersReplaced(owners, connector, NodeIds(report));
    forall id
      ensures id in t <==> id in NodeIds(report) || (id in owners && owners[id] != connector)
      ensures id in t && id !in NodeIds(report) ==> t[id] == ns[id]
    {
      NodeAt(ns, owners, connector, report, id);
    }
    forall n <- report
      ensures n.id in t && StoredNode(n, ns, t[n.id])
    {
      NodeAt(ns, owners, connector, report, n.id);
    }
  }

  lemma ServicesReplaced(ss: map<string, Service>, owners: map<string, string>, connector: string, report: seq<Service>)
    requires owners.Keys == ss.Keys && DistinctServices(report) && forall id <- ServiceIds(report) :: !Foreign(owners, id, connector)
    ensures ServicesExact(ss, owners, ServicesAfter(ss, owners, connector, report), OwnersAfter(owners, connector, ServiceIds(report)), connector, report)
  {
    var t := ServicesAfter(ss, owners, connector, report);
    OwnersReplaced(owners, connector, ServiceIds(report));
    forall id
      ensures id in t <==> id in ServiceIds(report) || (id in owners && owners[id] != connector)
      ensures id in t && id !in ServiceIds(report) ==> t[id] == ss[id]
    {
      ServiceAt(ss, owners, connector, report, id);
    }
    forall v <- report
      ensures v.id in t && t[v.id] == v
    {
      ServiceAt(ss, owners, connector, report, v.id);
    }
  }

  // What an accepted report has passed.
  lemma AcceptedReport(s: State, connector: string, report: CurrentState.Report)
    requires ReportError(s, connector, report).None?
    ensures DistinctNodes(report.nodes) && (forall n <- report.nodes :: ValidNode(n))
    ensures DistinctServices(report.services) && (forall v <- report.services :: ValidService(v))
    ensures forall id <- NodeIds(report.nodes) :: !Foreign(s.nodeOwners, id, connector)
    ensures forall id <- ServiceIds(report.services) :: !Foreign(s.serviceOwners, id, connector)
    ensures |s.nodes| - |OwnedBy(s.nodeOwners, connector)| + |report.nodes| <= MAX_NODES
    ensures |s.services| - |OwnedBy(s.serviceOwners, connector)| + |report.services| <= MAX_SERVICES
  {
    CheckedNodes(report.nodes, {});
    CheckedServices(report.services, {});
  }

  // All or nothing: a refused report changes nothing; an accepted one makes the connector's entities
  // exactly the report, keeps all others with their owners, stays within the limits, and touches
  // neither metrics nor health.
  lemma HomeLabExact(s: State, connector: string, report: CurrentState.Report)
    requires s.Valid()
    ensures
      var (t, error) := HomeLabSpec(s, connector, report);
      && (error.Some? ==> t == s)
      && (error.None? ==>
            && NodesExact(s.nodes, s.nodeOwners, t.nodes, t.nodeOwners, connector, report.nodes)
            && ServicesExact(s.services, s.serviceOwners, t.services, t.serviceOwners, connector, report.services)
            && |t.nodes| <= MAX_NODES && |t.services| <= MAX_SERVICES
            && (t.metrics, t.owners, t.seqs, t.health) == (s.metrics, s.owners, s.seqs, s.health))
  {
    if ReportError(s, connector, report).None? {
      AcceptedReport(s, connector, report);
      NodesReplaced(s.nodes, s.nodeOwners, connector, report.nodes);
      ServicesReplaced(s.services, s.serviceOwners, connector, report.services);
      NodesWithinLimit(s.nodes, s.nodeOwners, connector, report.nodes);
      ServicesWithinLimit(s.services, s.serviceOwners, connector, report.services);
    }
  }

  // ----- limits -----

  lemma SubsetSize(a: set<string>, b: set<string>)
    requires a <= b
    ensures |a| <= |b|
  {
    assert b == a + (b - a);
  }

  lemma {:induction false} NodeIdsSize(ns: seq<Node>)
    ensures |NodeIds(ns)| <= |ns|
  {
    if ns != [] {
      NodeIdsSize(ns[..|ns| - 1]);
      assert ns == ns[..|ns| - 1] + [ns[|ns| - 1]];
      assert NodeIds(ns) == NodeIds(ns[..|ns| - 1]) + {ns[|ns| - 1].id};
    }
  }

  lemma {:induction false} ServiceIdsSize(ss: seq<Service>)
    ensures |ServiceIds(ss)| <= |ss|
  {
    if ss != [] {
      ServiceIdsSize(ss[..|ss| - 1]);
      assert ss == ss[..|ss| - 1] + [ss[|ss| - 1]];
      assert ServiceIds(ss) == ServiceIds(ss[..|ss| - 1]) + {ss[|ss| - 1].id};
    }
  }

  lemma MergedSize(before: set<string>, owned: set<string>, reported: set<string>)
    requires owned <= before
    ensures |reported + (before - owned)| <= |before| - |owned| + |reported|
  {
    assert before == owned + (before - owned);
    assert reported + (before - owned) == reported + ((before - owned) - reported);
    SubsetSize((before - owned) - reported, before - owned);
  }

  lemma NodesWithinLimit(ns: map<string, Node>, owners: map<string, string>, connector: string, report: seq<Node>)
    requires owners.Keys == ns.Keys && forall id <- NodeIds(report) :: !Foreign(owners, id, connector)
    requires NodesExact(ns, owners, NodesAfter(ns, owners, connector, report), OwnersAfter(owners, connector, NodeIds(report)), connector, report)
    ensures |NodesAfter(ns, owners, connector, report)| <= |ns| - |OwnedBy(owners, connector)| + |report|
  {
    OwnersReplaced(owners, connector, NodeIds(report));
    NodeIdsSize(report);
    MergedSize(owners.Keys, OwnedBy(owners, connector), NodeIds(report));
  }

  lemma ServicesWithinLimit(ss: map<string, Service>, owners: map<string, string>, connector: string, report: seq<Service>)
    requires owners.Keys == ss.Keys && forall id <- ServiceIds(report) :: !Foreign(owners, id, connector)
    requires ServicesExact(ss, owners, ServicesAfter(ss, owners, connector, report), OwnersAfter(owners, connector, ServiceIds(report)), connector, report)
    ensures |ServicesAfter(ss, owners, connector, report)| <= |ss| - |OwnedBy(owners, connector)| + |report|
  {
    OwnersReplaced(owners, connector, ServiceIds(report));
    ServiceIdsSize(report);
    MergedSize(owners.Keys, OwnedBy(owners, connector), ServiceIds(report));
  }

  // ----- validity -----

  ghost predicate MetricsValid(r: Readings) {
    && (forall id <- r.metrics :: r.metrics[id].id == id && ValidMetric(r.metrics[id]) && id in r.seqs)
    && r.owners.Keys <= r.metrics.Keys
  }

  ghost predicate MetricValidAt(r: Readings, id: string) {
    && (id in r.metrics ==> r.metrics[id].id == id && ValidMetric(r.metrics[id]) && id in r.seqs)
    && (id in r.owners ==> id in r.metrics)
  }

  lemma BatchKeepsValid(r: Readings, connector: string, sequence: nat, batch: seq<Metric>)
    requires MetricsValid(r) && CheckMetrics(batch, {}).None?
    ensures MetricsValid(AfterBoth(r, connector, sequence, batch))
  {
    CheckedMetrics(batch, {});
    var t := AfterBoth(r, connector, sequence, batch);
    forall id
      ensures MetricValidAt(t, id)
    {
      assert MetricValidAt(r, id);
      BatchAt(r, connector, sequence, batch, id);
    }
    assert forall id :: id in t.metrics ==> MetricValidAt(t, id);
    assert forall id :: id in t.owners ==> MetricValidAt(t, id);
  }

  lemma AnnotatedMetricsValid(r: Readings, ids: set<string>, cause: ErrorClass, message: string)
    requires MetricsValid(r) && cause.Known() && (ids == {} || SafeText(message))
    ensures MetricsValid(r.(metrics := AnnotateMetrics(r.metrics, ids, cause, message)))
  {
  }

  lemma AnnotatedNodesFiled(ns: map<string, Node>, ids: set<string>, cause: ErrorClass, message: string)
    ensures
      var t := AnnotateNodes(ns, ids, cause, message);
      t.Keys == ns.Keys && |t| == |ns| && ((forall id <- ns :: ns[id].id == id) ==> forall id <- t :: t[id].id == id)
  {
    var t := AnnotateNodes(ns, ids, cause, message);
    assert t.Keys == ns.Keys;
  }

  lemma AnnotatedServicesFiled(ss: map<string, Service>, ids: set<string>, cause: ErrorClass, message: string)
    ensures
      var t := AnnotateServices(ss, ids, cause, message);
      t.Keys == ss.Keys && |t| == |ss| && ((forall id <- ss :: ss[id].id == id) ==> forall id <- t :: t[id].id == id)
  {
    var t := AnnotateServices(ss, ids, cause, message);
    assert t.Keys == ss.Keys;
  }

  lemma ErrorKeepsValid(s: State, connector: string, cause: ErrorClass, message: string)
    requires s.Valid()
    ensures ErrorSpec(s, connector, cause, message).0.Valid()
  {
    if ErrorSpec(s, connector, cause, message).1.Success? {
      var t := Annotated(s, connector, cause, message).0;
      AnnotatedMetricsValid(Of(s), StaleMetrics(s.owners, s.metrics, connector, cause, message), cause, message);
      AnnotatedNodesFiled(s.nodes, StaleNodes(s.nodeOwners, s.nodes, connector, cause, message), cause, message);
      AnnotatedServicesFiled(s.services, StaleServices(s.serviceOwners, s.services, connector, cause, message), cause, message);
      assert MetricsValid(Of(t));
    }
  }

  lemma ReportKeepsValid(s: State, connector: string, report: CurrentState.Report)
    requires s.Valid()
    ensures HomeLabSpec(s, connector, report).0.Valid()
  {
    var t := HomeLabSpec(s, connector, report).0;
    HomeLabExact(s, connector, report);
    if ReportError(s, connector, report).None? {
      forall id <- t.nodes
        ensures t.nodes[id].id == id
      {
        NodeFiled(s.nodes, s.nodeOwners, t.nodes, t.nodeOwners, connector, report.nodes, id);
      }
      forall id <- t.services
        ensures t.services[id].id == id
      {
        ServiceFiled(s.services, s.serviceOwners, t.services, t.serviceOwners, connector, report.services, id);
      }
    }
  }

  // A stored node was reported just now, and merged, or is another connector's and unchanged.
  lemma NodeSource(ns: map<string, Node>, owners: map<string, string>, ns': map<string, Node>, owners': map<string, string>,
                   connector: string, report: seq<Node>, id: string)
    requires NodesExact(ns, owners, ns', owners', connector, report) && id in ns'
    ensures (id in ns && ns'[id] == ns[id]) || exists n <- report :: n.id == id && ns'[id] == Merged(n, ns)
  {
    if owners'[id] == connector {
      assert id in NodeIds(report);
      var n :| n in report && n.id == id;
      assert ns'[n.id] == Merged(n, ns);
    }
  }

  lemma NodeFiled(ns: map<string, Node>, owners: map<string, string>, ns': map<string, Node>, owners': map<string, string>,
                  connector: string, report: seq<Node>, id: string)
    requires NodesExact(ns, owners, ns', owners', connector, report) && id in ns' && forall x <- ns :: ns[x].id == x
    ensures ns'[id].id == id
  {
    NodeSource(ns, owners, ns', owners', connector, report, id);
  }

  lemma NodeStaysValid(ns: map<string, Node>, owners: map<string, string>, ns': map<string, Node>, owners': map<string, string>,
                       connector: string, report: seq<Node>, id: string)
    requires NodesExact(ns, owners, ns', owners', connector, report) && id in ns'
    requires (forall x <- ns :: ValidNode(ns[x])) && forall n <- report :: ValidNode(n)
    ensures ValidNode(ns'[id])
  {
    NodeSource(ns, owners, ns', owners', connector, report, id);
  }

  lemma ServiceFiled(ss: map<string, Service>, owners: map<string, string>, ss': map<string, Service>, owners': map<string, string>,
                     connector: string, report: seq<Service>, id: string)
    requires ServicesExact(ss, owners, ss', owners', connector, report) && id in ss' && forall x <- ss :: ss[x].id == x
    ensures ss'[id].id == id
    ensures (forall x <- ss :: ValidService(ss[x])) && (forall v <- report :: ValidService(v)) ==> ValidService(ss'[id])
  {
    if owners'[id] == connector {
      assert id in ServiceIds(report);
      var v :| v in report && v.id == id;
      assert ss'[v.id] == v;
    }
  }

  lemma BatchStateValid(s: State, connector: string, sequence: nat, batch: seq<Metric>)
    requires s.Valid()
    ensures MetricsSpec(s, connector, sequence, batch).0.Valid()
  {
    if CheckMetrics(batch, {}).None? {
      var t := AfterBatch(s, connector, sequence, batch).0;
      BatchKeepsValid(Of(s), connector, sequence, batch);
      assert Of(t) == AfterBoth(Of(s), connector, sequence, batch);
    }
  }

  lemma HealthKeepsValid(s: State, h: Health)
    requires s.Valid()
    ensures HealthSpec(s, h).0.Valid()
  {
  }

  // Every operation keeps the state valid, so ApplyConnectorError always fails before its first write.
  lemma StepValid(s: State, op: Op)
    requires s.Valid()
    ensures Next(s, op).Valid()
  {
    match op
    case Batch(connector, sequence, batch) => BatchStateValid(s, connector, sequence, batch);
    case Plain(sequence, batch) => BatchStateValid(s, "", sequence, batch);
    case Failed(connector, cause, message) => ErrorKeepsValid(s, connector, cause, message);
    case HomeLab(connector, report) => ReportKeepsValid(s, connector, report);
    case Report(h) => HealthKeepsValid(s, h);
  }

  lemma {:induction false} RunValid(s: State, ops: seq<Op>)
    requires s.Valid()
    ensures Run(s, ops).Valid()
    decreases |ops|
  {
    if ops != [] {
      StepValid(s, ops[0]);
      RunValid(Next(s, ops[0]), ops[1..]);
    }
  }

  // ----- the version identifies the content -----

  lemma EmptySet(ids: set<string>)
    requires |ids| == 0
    ensures ids == {}
  {
  }

  lemma RemovedNothing(r: Readings, connector: string, sequence: nat, batch: seq<Metric>)
    requires Gone(r.owners, r.seqs, connector, sequence, batch) == {}
    ensures Removed(r, connector, sequence, batch) == (r, 0)
  {
    DropNone(r.metrics);
    DropNone(r.owners);
    AssignNone(r.seqs, sequence);
  }

  lemma BatchVersion(s: State, connector: string, sequence: nat, batch: seq<Metric>)
    ensures
      var t := AfterBatch(s, connector, sequence, batch).0;
      t.version == s.version + 1 || t == s
  {
    var r := Of(s);
    var (without, removed) := Removed(r, connector, sequence, batch);
    var applied := Stored(without, connector, sequence, batch).1;
    if removed + applied == 0 {
      EmptySet(Gone(r.owners, r.seqs, connector, sequence, batch));
      RemovedNothing(r, connector, sequence, batch);
      StoredCount(without, connector, sequence, batch);
    }
  }

  lemma AnnotationVersion(s: State, connector: string, cause: ErrorClass, message: string)
    ensures
      var t := Annotated(s, connector, cause, message).0;
      t.version == s.version + 1 || t == s
  {
    if Annotated(s, connector, cause, message).1 == 0 {
      EmptySet(StaleMetrics(s.owners, s.metrics, connector, cause, message));
      EmptySet(StaleNodes(s.nodeOwners, s.nodes, connector, cause, message));
      EmptySet(StaleServices(s.serviceOwners, s.services, connector, cause, message));
      AnnotateNoMetrics(s.metrics, cause, message);
      AnnotateNoNodes(s.nodes, cause, message);
      AnnotateNoServices(s.services, cause, message);
    }
  }

  // An operation that changes anything at all raises the version, by one.
  lemma StepVersion(s: State, op: Op)
    ensures Next(s, op).version == s.version + 1 || Next(s, op) == s
  {
    match op
    case Batch(connector, sequence, batch) => BatchVersion(s, connector, sequence, batch);
    case Plain(sequence, batch) => BatchVersion(s, "", sequence, batch);
    case Failed(connector, cause, message) => AnnotationVersion(s, connector, cause, message);
    case HomeLab(_, _) =>
    case Report(_) =>
  }

  lemma {:induction false} RunVersion(s: State, ops: seq<Op>)
    ensures Run(s, ops).version >= s.version
    ensures Run(s, ops).version == s.version ==> Run(s, ops) == s
    decreases |ops|
  {
    if ops != [] {
      StepVersion(s, ops[0]);
      RunVersion(Next(s, ops[0]), ops[1..]);
    }
  }

  lemma {:induction false} RunSplits(s: State, ops: seq<Op>, more: seq<Op>)
    ensures Run(s, ops + more) == Run(Run(s, ops), more)
    decreases |ops|
  {
    if ops == [] {
      assert ops + more == more;
    } else {
      assert (ops + more)[1..] == ops[1..] + more;
      RunSplits(Next(s, ops[0]), ops[1..], more);
    }
  }

  // Over a whole run the version never falls, and two moments with the same version have the same
  // metrics, health, nodes and services, and indeed the same state.
  lemma VersionIdentifiesContent(s: State, ops: seq<Op>, i: nat, j: nat)
    requires i <= j <= |ops|
    ensures
      var a, b := Run(s, ops[..i]), Run(s, ops[..j]);
      a.version <= b.version && (a.version == b.version ==> a == b)
  {
    assert ops[..j] == ops[..i] + ops[i..j];
    RunSplits(s, ops[..i], ops[i..j]);
    RunVersion(Run(s, ops[..i]), ops[i..j]);
  }

  // ----- offline nodes keep their values -----

  ghost predicate NothingLost(a: Node, b: Node) {
    && (a.cpu.Some? ==> b.cpu.Some?) && (a.memory.Some? ==> b.memory.Some?) && (a.disk.Some? ==> b.disk.Some?)
    && (a.receive.Some? ==> b.receive.Some?) && (a.transmit.Some? ==> b.transmit.Some?)
  }

  ghost predicate ListedOffline(nodes: seq<Node>, id: string) {
    exists n <- nodes :: n.id == id && n.online == Some(false)
  }

  // The node's own connector, when its report is accepted, still lists it as offline.
  ghost predicate StaysOffline(s: State, op: Op, id: string) {
    op.HomeLab? && HomeLabSpec(s, op.connector, op.report).1.None? && id in s.nodeOwners && s.nodeOwners[id] == op.connector ==>
      ListedOffline(op.report.nodes, id)
  }

  ghost predicate AlwaysOffline(s: State, ops: seq<Op>, id: string)
    decreases |ops|
  {
    ops != [] ==> StaysOffline(s, ops[0], id) && AlwaysOffline(Next(s, ops[0]), ops[1..], id)
  }

  lemma AnnotationLosesNothing(ns: map<string, Node>, ids: set<string>, cause: ErrorClass, message: string, id: string)
    requires id in ns
    ensures NothingLost(ns[id], AnnotateNodes(ns, ids, cause, message)[id])
  {
  }

  lemma MergeLosesNothing(ns: map<string, Node>, owners: map<string, string>, ns': map<string, Node>, owners': map<string, string>,
                          connector: string, report: seq<Node>, id: string)
    requires NodesExact(ns, owners, ns', owners', connector, report) && id in owners && id in ns
    requires owners[id] == connector ==> ListedOffline(report, id)
    ensures id in ns' && NothingLost(ns[id], ns'[id])
  {
    if owners[id] == connector {
      var n :| n in report && n.id == id && n.online == Some(false);
      assert ns'[n.id] == Merged(n, ns);
    }
  }

  lemma ReportLosesNothing(s: State, connector: string, report: CurrentState.Report, id: string)
    requires s.Valid() && id in s.nodes && ReportError(s, connector, report).None?
    requires s.nodeOwners[id] == connector ==> ListedOffline(report.nodes, id)
    ensures
      var t := HomeLabSpec(s, connector, report).0;
      id in t.nodes && NothingLost(s.nodes[id], t.nodes[id])
  {
    var t := HomeLabSpec(s, connector, report).0;
    HomeLabExact(s, connector, report);
    MergeLosesNothing(s.nodes, s.nodeOwners, t.nodes, t.nodeOwners, connector, report.nodes, id);
  }

  // Batches and health reports do not touch HomeLab entities, nor does a refused report.
  lemma EntitiesUntouched(s: State, op: Op)
    requires !op.Failed? && (op.HomeLab? ==> ReportError(s, op.connector, op.report).Some?)
    ensures Next(s, op).nodes == s.nodes && Next(s, op).services == s.services
  {
  }

  lemma FailureLosesNothing(s: State, connector: string, cause: ErrorClass, message: string, id: string)
    requires id in s.nodes
    ensures var t := ErrorSpec(s, connector, cause, message).0; id in t.nodes && NothingLost(s.nodes[id], t.nodes[id])
  {
    var t, stale := ErrorSpec(s, connector, cause, message).0, StaleNodes(s.nodeOwners, s.nodes, connector, cause, message);
    assert t == s || t.nodes == AnnotateNodes(s.nodes, stale, cause, message);
    if t != s {
      AnnotationLosesNothing(s.nodes, stale, cause, message, id);
    }
  }

  lemma OfflineStep(s: State, op: Op, id: string)
    requires s.Valid() && id in s.nodes && StaysOffline(s, op, id)
    ensures id in Next(s, op).nodes && NothingLost(s.nodes[id], Next(s, op).nodes[id])
  {
    if op.HomeLab? {
      if ReportError(s, op.connector, op.report).None? {
        ReportLosesNothing(s, op.connector, op.report, id);
      } else {
        EntitiesUntouched(s, op);
      }
    } else if op.Failed? {
      FailureLosesNothing(s, op.connector, op.cause, op.message, id);
    } else {
      EntitiesUntouched(s, op);
    }
  }

  // A value that was once reported does not disappear while the node keeps being reported offline,
  // whatever else happens.
  lemma {:induction false} OfflineKeepsValues(s: State, ops: seq<Op>, id: string)
    requires s.Valid() && id in s.nodes && AlwaysOffline(s, ops, id)
    ensures id in Run(s, ops).nodes && NothingLost(s.nodes[id], Run(s, ops).nodes[id])
    decreases |ops|
  {
    if ops != [] {
      OfflineStep(s, ops[0], id);
      StepValid(s, ops[0]);
      OfflineKeepsValues(Next(s, ops[0]), ops[1..], id);
    }
  }

  // ----- what can be published -----

  // Nodes and services as the receiving display demands them.
  ghost predicate Publishable(s: State) {
    && (forall id <- s.nodes :: ValidNode(s.nodes[id]))
    && (forall id <- s.services :: ValidService(s.services[id]))
  }

  lemma AnnotatedNodesValid(ns: map<string, Node>, ids: set<string>, cause: ErrorClass, message: string)
    requires ids <= ns.Keys && cause.Known() && forall id <- ns :: ValidNode(ns[id])
    ensures (var t := AnnotateNodes(ns, ids, cause, message); forall id <- t :: ValidNode(t[id])) <==> SafeText(message) || ids == {}
  {
    var t := AnnotateNodes(ns, ids, cause, message);
    if ids != {} {
      var id :| id in ids;
      assert t[id].message == message;
    }
  }

  lemma AnnotatedServicesValid(ss: map<string, Service>, ids: set<string>, cause: ErrorClass, message: string)
    requires ids <= ss.Keys && cause.Known() && forall id <- ss :: ValidService(ss[id])
    ensures (var t := AnnotateServices(ss, ids, cause, message); forall id <- t :: ValidService(t[id])) <==> SafeText(message) || ids == {}
  {
    var t := AnnotateServices(ss, ids, cause, message);
    if ids != {} {
      var id :| id in ids;
      assert t[id].message == message;
    }
  }

  // The annotation of nodes and services is not validated. A failure keeps the state publishable
  // exactly when its message is safe or it annotates no node and no service.
  lemma ErrorPublishable(s: State, connector: string, cause: ErrorClass, message: string)
    requires s.Valid() && Publishable(s) && ErrorSpec(s, connector, cause, message).1.Success?
    ensures
      Publishable(ErrorSpec(s, connector, cause, message).0)
      <==> SafeText(message)
           || (StaleNodes(s.nodeOwners, s.nodes, connector, cause, message) == {}
               && StaleServices(s.serviceOwners, s.services, connector, cause, message) == {})
  {
    AnnotatedNodesValid(s.nodes, StaleNodes(s.nodeOwners, s.nodes, connector, cause, message), cause, message);
    AnnotatedServicesValid(s.services, StaleServices(s.serviceOwners, s.services, connector, cause, message), cause, message);
  }

  // The state after one node was reported.
  function WithNode(c: string, n: Node): State {
    EMPTY.(nodes := map[n.id := n], nodeOwners := map[n.id := c], version := 1)
  }

  lemma OneNode(c: string, n: Node)
    requires c != "" && ValidNode(n)
    ensures HomeLabSpec(EMPTY, c, CurrentState.Report([n], [])) == (WithNode(c, n), None)
  {
    OneNodeAccepted(c, n);
    OneNodeReplaced(c, n);
  }

  lemma OneNodeReplaced(c: string, n: Node)
    ensures Replaced(EMPTY, c, CurrentState.Report([n], [])) == WithNode(c, n)
  {
    var none: map<string, Node>, nobody: map<string, string> := map[], map[];
    OneNodePut(c, n);
    assert OwnedBy(nobody, c) == {};
    assert none - {} == none && nobody - {} == nobody;
  }

  lemma OneNodeAccepted(c: string, n: Node)
    requires c != "" && ValidNode(n)
    ensures ReportError(EMPTY, c, CurrentState.Report([n], [])).None?
  {
    CheckedNodes([n], {});
    CheckedServices([], {});
  }

  lemma OneNodePut(c: string, n: Node)
    ensures NodeIds([n]) == {n.id} && ServiceIds([]) == {}
    ensures PutNodes(map[], [n]) == map[n.id := n]
    ensures Assign(map[], {n.id}, c) == map[n.id := c]
  {
    assert n in [n];
    assert [n][..0] == [];
  }

  // A node was reported, and then its connector fails with a message that a metric would not have
  // been given: the store takes it, and the display refuses the snapshot of the state.
  lemma UnsafeFailurePublished(c: string, n: Node, cause: ErrorClass, message: string)
    requires c != "" && ValidNode(n) && cause.Known() && !SafeText(message)
    ensures HomeLabSpec(EMPTY, c, CurrentState.Report([n], [])) == (WithNode(c, n), None)
    ensures WithNode(c, n).Valid() && Publishable(WithNode(c, n))
    ensures
      var (t, r) := ErrorSpec(WithNode(c, n), c, cause, message);
      r.Success? && !Publishable(t)
  {
    var s := WithNode(c, n);
    OneNode(c, n);
    assert StaleMetrics(s.owners, s.metrics, c, cause, message) == {};
    assert n.id in OwnedBy(s.nodeOwners, c);
    assert n.id in StaleNodes(s.nodeOwners, s.nodes, c, cause, message);
    ErrorPublishable(s, c, cause, message);
  }

  lemma ReportPublishable(s: State, connector: string, report: CurrentState.Report)
    requires s.Valid() && Publishable(s) && ReportError(s, connector, report).None?
    ensures Publishable(Replaced(s, connector, report))
  {
    var t := Replaced(s, connector, report);
    HomeLabExact(s, connector, report);
    AcceptedReport(s, connector, report);
    forall id <- t.nodes
      ensures ValidNode(t.nodes[id])
    {
      NodeStaysValid(s.nodes, s.nodeOwners, t.nodes, t.nodeOwners, connector, report.nodes, id);
    }
    forall id <- t.services
      ensures ValidService(t.services[id])
    {
      ServiceFiled(s.services, s.serviceOwners, t.services, t.serviceOwners, connector, report.services, id);
    }
  }

  // Every other operation keeps the state publishable.
  lemma StepPublishable(s: State, op: Op)
    requires s.Valid() && Publishable(s) && !op.Failed?
    ensures Publishable(Next(s, op))
  {
    if op.HomeLab? && ReportError(s, op.connector, op.report).None? {
      ReportPublishable(s, op.connector, op.report);
    } else {
      EntitiesUntouched(s, op);
    }
  }
}
