/**
 The daemon's current metric state (internal/state/current.go): one reading per metric ID with its
 owner and a sequence guard, connector health, HomeLab nodes and services, and a version number.
 The fields of an entity that the store never looks at are one value, with a flag that says whether
 they pass validation. A loop over a Go map takes its keys in any order.
 */
module CurrentState {
  import opened Wrappers
  import opened Protocol
  import opened MapLoops

  const MAX_NODES := 100
  const MAX_SERVICES := 32
  const MAX_TEXT := 160

  datatype ErrorClass =
    | NoError | AuthError | RateLimited | TimedOut | NetworkError | SchemaChanged | Unsupported | InvalidConfig | Upstream
    | UnknownClass(name: string)
  {
    predicate Known() {
      !NoError? && !UnknownClass?
    }
  }

  // What the store passes on without looking at it.
  datatype Content = Content(data: string, wellFormed: bool)

  datatype Metric = Metric(id: string, order: int, content: Content, errorClass: ErrorClass, message: string)

  datatype Node = Node(
    id: string, order: int, online: Option<bool>,
    cpu: Option<int>, memory: Option<int>, disk: Option<int>, receive: Option<int>, transmit: Option<int>,
    content: Content, errorClass: ErrorClass, message: string)

  datatype Service = Service(id: string, order: int, content: Content, errorClass: ErrorClass, message: string)

  datatype Health = Health(connectorId: string, content: Content)

  datatype Report = Report(nodes: seq<Node>, services: seq<Service>)

  datatype StateError =
    | NoConnector | InvalidClass | UnsafeMessage | InvalidEntity | DuplicateEntity | TooLarge | MergedTooLarge | OwnedElsewhere

  // ----- validation -----

  predicate SafeText(text: string) {
    |text| <= MAX_TEXT && forall i :: 0 <= i < |text| ==> 0x20 <= text[i] as int && text[i] as int != 0x7f
  }

  predicate ValidClass(c: ErrorClass) {
    c.NoError? || c.Known()
  }

  predicate ValidMetric(m: Metric) {
    SafeId(m.id) && m.content.wellFormed && ValidClass(m.errorClass) && SafeText(m.message)
  }

  predicate ValidPercent(p: Option<int>) {
    p.Some? ==> 0 <= p.value <= 100
  }

  predicate ValidRate(r: Option<int>) {
    r.Some? ==> 0 <= r.value
  }

  predicate ValidNode(n: Node) {
    && SafeId(n.id) && ValidPercent(n.cpu) && ValidPercent(n.memory) && ValidPercent(n.disk)
    && ValidRate(n.receive) && ValidRate(n.transmit)
    && n.content.wellFormed && ValidClass(n.errorClass) && SafeText(n.message)
  }

  predicate ValidService(s: Service) {
    SafeId(s.id) && s.content.wellFormed && ValidClass(s.errorClass) && SafeText(s.message)
  }

  predicate ValidHealth(h: Health) {
    SafeId(h.connectorId) && h.content.wellFormed
  }

  function CheckMetrics(ms: seq<Metric>, seen: set<string>): Option<StateError> {
    if ms == [] then None
    else if !ValidMetric(ms[0]) then Some(InvalidEntity)
    else if ms[0].id in seen then Some(DuplicateEntity)
    else CheckMetrics(ms[1..], seen + {ms[0].id})
  }

  function CheckNodes(ns: seq<Node>, seen: set<string>): Option<StateError> {
    if ns == [] then None
    else if !ValidNode(ns[0]) then Some(InvalidEntity)
    else if ns[0].id in seen then Some(DuplicateEntity)
    else CheckNodes(ns[1..], seen + {ns[0].id})
  }

  function CheckServices(ss: seq<Service>, seen: set<string>): Option<StateError> {
    if ss == [] then None
    else if !ValidService(ss[0]) then Some(InvalidEntity)
    else if ss[0].id in seen then Some(DuplicateEntity)
    else CheckServices(ss[1..], seen + {ss[0].id})
  }

  function MetricIds(ms: seq<Metric>): set<string> {
    set m <- ms :: m.id
  }

  function NodeIds(ns: seq<Node>): set<string> {
    set n <- ns :: n.id
  }

  function ServiceIds(ss: seq<Service>): set<string> {
    set s <- ss :: s.id
  }

  // ----- the state -----

  datatype State = State(
    version: nat,
    metrics: map<string, Metric>, seqs: map<string, nat>, owners: map<string, string>,
    health: map<string, Health>,
    nodes: map<string, Node>, nodeOwners: map<string, string>,
    services: map<string, Service>, serviceOwners: map<string, string>)
  {
    // Entities are filed under their IDs, owners have entities, and stored metrics are valid.
    ghost predicate Valid() {
      && (forall id <- metrics :: metrics[id].id == id && ValidMetric(metrics[id]) && id in seqs)
      && owners.Keys <= metrics.Keys
      && (forall id <- health :: health[id].connectorId == id && ValidHealth(health[id]))
      && (forall id <- nodes :: nodes[id].id == id)
      && (forall id <- services :: services[id].id == id)
      && nodeOwners.Keys == nodes.Keys && serviceOwners.Keys == services.Keys
      && |nodes| <= MAX_NODES && |services| <= MAX_SERVICES
    }

    predicate HasData() {
      |metrics| > 0 || |nodes| > 0 || |services| > 0
    }
  }

  const EMPTY := State(0, map[], map[], map[], map[], map[], map[], map[], map[])

  function OwnedBy(owners: map<string, string>, connector: string): (ids: set<string>)
    ensures forall id :: id in ids <==> id in owners && owners[id] == connector
  {
    set id <- owners | owners[id] == connector
  }

  // ----- ApplyMetrics and ApplyConnectorMetrics -----

  predicate Newer(seqs: map<string, nat>, id: string, sequence: nat) {
    id !in seqs || sequence > seqs[id]
  }

  // The connector's metrics that a newer batch no longer holds.
  function Gone(owners: map<string, string>, seqs: map<string, nat>, connector: string, sequence: nat, batch: seq<Metric>)
    : set<string>
  {
    if connector == "" then {}
    else set id <- OwnedBy(owners, connector) | id !in MetricIds(batch) && Newer(seqs, id, sequence)
  }

  // The part of the state that a batch of metrics changes.
  datatype Readings = Readings(metrics: map<string, Metric>, owners: map<string, string>, seqs: map<string, nat>)

  function Removed(r: Readings, connector: string, sequence: nat, batch: seq<Metric>): (Readings, nat) {
    var gone := Gone(r.owners, r.seqs, connector, sequence, batch);
    (Readings(r.metrics - gone, r.owners - gone, Assign(r.seqs, gone, sequence)), |gone|)
  }

  function StoreOne(r: Readings, connector: string, sequence: nat, m: Metric): Readings {
    Readings(r.metrics[m.id := m], if connector == "" then r.owners else r.owners[m.id := connector], r.seqs[m.id := sequence])
  }

  function Stored(r: Readings, connector: string, sequence: nat, batch: seq<Metric>): (Readings, nat) {
    if batch == [] then (r, 0)
    else
      var (before, applied) := Stored(r, connector, sequence, batch[..|batch| - 1]);
      var m := batch[|batch| - 1];
      if Newer(before.seqs, m.id, sequence) then (StoreOne(before, connector, sequence, m), applied + 1) else (before, applied)
  }

  function AfterBatch(s: State, connector: string, sequence: nat, batch: seq<Metric>): (State, nat) {
    var (without, removed) := Removed(Readings(s.metrics, s.owners, s.seqs), connector, sequence, batch);
    var (r, applied) := Stored(without, connector, sequence, batch);
    (s.(metrics := r.metrics, owners := r.owners, seqs := r.seqs, version := Bumped(s.version, removed + applied)), applied)
  }

  function MetricsSpec(s: State, connector: string, sequence: nat, batch: seq<Metric>): (State, Result<nat, StateError>) {
    match CheckMetrics(batch, {})
    case Some(error) => (s, Failure(error))
    case None =>
      var (after, applied) := AfterBatch(s, connector, sequence, batch);
      (after, Success(applied))
  }

  function ConnectorMetricsSpec(s: State, connector: string, sequence: nat, batch: seq<Metric>)
    : (State, Result<nat, StateError>)
  {
    if connector == "" then (s, Failure(NoConnector)) else MetricsSpec(s, connector, sequence, batch)
  }

  // ----- ApplyConnectorError -----

  function StaleMetrics(owners: map<string, string>, metrics: map<string, Metric>, connector: string, cause: ErrorClass, message: string)
    : set<string>
  {
    set id <- OwnedBy(owners, connector) | id in metrics && !(metrics[id].errorClass == cause && metrics[id].message == message)
  }

  function StaleNodes(owners: map<string, string>, nodes: map<string, Node>, connector: string, cause: ErrorClass, message: string)
    : set<string>
  {
    set id <- OwnedBy(owners, connector) | id in nodes && !(nodes[id].errorClass == cause && nodes[id].message == message)
  }

  function StaleServices(owners: map<string, string>, services: map<string, Service>, connector: string, cause: ErrorClass, message: string)
    : set<string>
  {
    set id <- OwnedBy(owners, connector) | id in services && !(services[id].errorClass == cause && services[id].message == message)
  }

  function AnnotateMetrics(ms: map<string, Metric>, ids: set<string>, cause: ErrorClass, message: string): map<string, Metric> {
    map id <- ms :: if id in ids then ms[id].(errorClass := cause, message := message) else ms[id]
  }

  function AnnotateNodes(ns: map<string, Node>, ids: set<string>, cause: ErrorClass, message: string): map<string, Node> {
    map id <- ns :: if id in ids then ns[id].(errorClass := cause, message := message) else ns[id]
  }

  function AnnotateServices(ss: map<string, Service>, ids: set<string>, cause: ErrorClass, message: string): map<string, Service> {
    map id <- ss :: if id in ids then ss[id].(errorClass := cause, message := message) else ss[id]
  }

  function Bumped(version: nat, changed: nat): nat {
    if changed > 0 then version + 1 else version
  }

  function Annotated(s: State, connector: string, cause: ErrorClass, message: string): (State, nat) {
    var metrics := StaleMetrics(s.owners, s.metrics, connector, cause, message);
    var nodes := StaleNodes(s.nodeOwners, s.nodes, connector, cause, message);
    var services := StaleServices(s.serviceOwners, s.services, connector, cause, message);
    var changed := |metrics| + |nodes| + |services|;
    (s.(metrics := AnnotateMetrics(s.metrics, metrics, cause, message),
        nodes := AnnotateNodes(s.nodes, nodes, cause, message),
        services := AnnotateServices(s.services, services, cause, message),
        version := Bumped(s.version, changed)),
     changed)
  }

  function ErrorSpec(s: State, connector: string, cause: ErrorClass, message: string): (State, Result<nat, StateError>) {
    if connector == "" then (s, Failure(NoConnector))
    else if !cause.Known() then (s, Failure(InvalidClass))
    else if StaleMetrics(s.owners, s.metrics, connector, cause, message) != {} && !SafeText(message) then (s, Failure(UnsafeMessage))
    else
      var (annotated, changed) := Annotated(s, connector, cause, message);
      (annotated, Success(changed))
  }

  // ----- ApplyConnectorHomeLab -----

  function Inherit(next: Node, previous: Node): Node {
    next.(cpu := if next.cpu.None? then previous.cpu else next.cpu,
          memory := if next.memory.None? then previous.memory else next.memory,
          disk := if next.disk.None? then previous.disk else next.disk,
          receive := if next.receive.None? then previous.receive else next.receive,
          transmit := if next.transmit.None? then previous.transmit else next.transmit)
  }

  // What is stored for a reported node: one that is offline keeps the values it had.
  function Merged(node: Node, nodes: map<string, Node>): Node {
    if node.online == Some(false) && node.id in nodes then Inherit(node, nodes[node.id]) else node
  }

  function PutNodes(nodes: map<string, Node>, report: seq<Node>): map<string, Node> {
    if report == [] then nodes
    else
      var before, last := PutNodes(nodes, report[..|report| - 1]), report[|report| - 1];
      before[last.id := Merged(last, before)]
  }

  function PutServices(services: map<string, Service>, report: seq<Service>): map<string, Service> {
    if report == [] then services
    else
      var last := report[|report| - 1];
      PutServices(services, report[..|report| - 1])[last.id := last]
  }

  predicate Foreign(owners: map<string, string>, id: string, connector: string) {
    id in owners && owners[id] != connector
  }

  function ReportError(s: State, connector: string, report: Report): Option<StateError> {
    if connector == "" then Some(NoConnector)
    else if |report.nodes| > MAX_NODES || |report.services| > MAX_SERVICES then Some(TooLarge)
    else if CheckNodes(report.nodes, {}).Some? then CheckNodes(report.nodes, {})
    else if CheckServices(report.services, {}).Some? then CheckServices(report.services, {})
    else if |s.nodes| - |OwnedBy(s.nodeOwners, connector)| + |report.nodes| > MAX_NODES
            || |s.services| - |OwnedBy(s.serviceOwners, connector)| + |report.services| > MAX_SERVICES then Some(MergedTooLarge)
    else if exists n <- report.nodes :: Foreign(s.nodeOwners, n.id, connector) then Some(OwnedElsewhere)
    else if exists v <- report.services :: Foreign(s.serviceOwners, v.id, connector) then Some(OwnedElsewhere)
    else None
  }

  function Replaced(s: State, connector: string, report: Report): State {
    var goneNodes := OwnedBy(s.nodeOwners, connector) - NodeIds(report.nodes);
    var goneServices := OwnedBy(s.serviceOwners, connector) - ServiceIds(report.services);
    s.(nodes := PutNodes(s.nodes - goneNodes, report.nodes),
       nodeOwners := Assign(s.nodeOwners - goneNodes, NodeIds(report.nodes), connector),
       services := PutServices(s.services - goneServices, report.services),
       serviceOwners := Assign(s.serviceOwners - goneServices, ServiceIds(report.services), connector),
       version := s.version + 1)
  }

  function HomeLabSpec(s: State, connector: string, report: Report): (State, Option<StateError>) {
    var error := ReportError(s, connector, report);
    (if error.Some? then s else Replaced(s, connector, report), error)
  }

  // ----- ApplyHealth -----

  function HealthSpec(s: State, h: Health): (State, Option<StateError>) {
    if !ValidHealth(h) then (s, Some(InvalidEntity))
    else (s.(health := s.health[h.connectorId := h], version := s.version + 1), None)
  }

  // ----- lemmas the loops need -----

  predicate DistinctMetrics(ms: seq<Metric>) {
    forall i, j :: 0 <= i < j < |ms| ==> ms[i].id != ms[j].id
  }

  predicate DistinctNodes(ns: seq<Node>) {
    forall i, j :: 0 <= i < j < |ns| ==> ns[i].id != ns[j].id
  }

  predicate DistinctServices(ss: seq<Service>) {
    forall i, j :: 0 <= i < j < |ss| ==> ss[i].id != ss[j].id
  }

  lemma {:induction false} CheckedMetrics(ms: seq<Metric>, seen: set<string>)
    ensures CheckMetrics(ms, seen).None?
            <==> DistinctMetrics(ms) && forall i :: 0 <= i < |ms| ==> ValidMetric(ms[i]) && ms[i].id !in seen
  {
    if ms != [] {
      CheckedMetrics(ms[1..], seen + {ms[0].id});
      assert forall i :: 0 < i < |ms| ==> ms[i] == ms[1..][i - 1];
    }
  }

  lemma {:induction false} CheckedNodes(ns: seq<Node>, seen: set<string>)
    ensures CheckNodes(ns, seen).None?
            <==> DistinctNodes(ns) && forall i :: 0 <= i < |ns| ==> ValidNode(ns[i]) && ns[i].id !in seen
  {
    if ns != [] {
      CheckedNodes(ns[1..], seen + {ns[0].id});
      assert forall i :: 0 < i < |ns| ==> ns[i] == ns[1..][i - 1];
    }
  }

  lemma {:induction false} CheckedServices(ss: seq<Service>, seen: set<string>)
    ensures CheckServices(ss, seen).None?
            <==> DistinctServices(ss) && forall i :: 0 <= i < |ss| ==> ValidService(ss[i]) && ss[i].id !in seen
  {
    if ss != [] {
      CheckedServices(ss[1..], seen + {ss[0].id});
      assert forall i :: 0 < i < |ss| ==> ss[i] == ss[1..][i - 1];
    }
  }

  lemma AnnotateOneMetric(ms: map<string, Metric>, done: set<string>, id: string, cause: ErrorClass, message: string)
    requires id in ms
    ensures AnnotateMetrics(ms, done, cause, message)[id := ms[id].(errorClass := cause, message := message)]
            == AnnotateMetrics(ms, done + {id}, cause, message)
  {
  }

  lemma AnnotateOneNode(ns: map<string, Node>, done: set<string>, id: string, cause: ErrorClass, message: string)
    requires id in ns
    ensures AnnotateNodes(ns, done, cause, message)[id := ns[id].(errorClass := cause, message := message)]
            == AnnotateNodes(ns, done + {id}, cause, message)
  {
  }

  lemma AnnotateOneService(ss: map<string, Service>, done: set<string>, id: string, cause: ErrorClass, message: string)
    requires id in ss
    ensures AnnotateServices(ss, done, cause, message)[id := ss[id].(errorClass := cause, message := message)]
            == AnnotateServices(ss, done + {id}, cause, message)
  {
  }

  lemma AnnotateNoNodes(ns: map<string, Node>, cause: ErrorClass, message: string)
    ensures AnnotateNodes(ns, {}, cause, message) == ns
  {
  }

  // One round of the loop that annotates nodes.
  lemma TakeNode(owners: map<string, string>, ns: map<string, Node>, connector: string, cause: ErrorClass, message: string,
                 done: set<string>, todo: set<string>, id: string)
    requires id in todo && todo <= owners.Keys && owners.Keys <= ns.Keys
    requires Partly(StaleNodes(owners, ns, connector, cause, message), done, todo)
    ensures
      var stale, now := StaleNodes(owners, ns, connector, cause, message), AnnotateNodes(ns, done, cause, message);
      && now[id] == ns[id]
      && (id in stale <==> owners[id] == connector && !(ns[id].errorClass == cause && ns[id].message == message))
      && (id in stale ==>
            && Partly(stale, done + {id}, todo - {id}) && |done + {id}| == |done| + 1
            && now[id := ns[id].(errorClass := cause, message := message)] == AnnotateNodes(ns, done + {id}, cause, message))
      && (id !in stale ==> Partly(stale, done, todo - {id}))
  {
    TakeKey(StaleNodes(owners, ns, connector, cause, message), done, todo, id);
    AnnotateOneNode(ns, done, id, cause, message);
  }

  lemma AnnotateNoServices(ss: map<string, Service>, cause: ErrorClass, message: string)
    ensures AnnotateServices(ss, {}, cause, message) == ss
  {
  }

  // One round of the loop that annotates services.
  lemma TakeService(owners: map<string, string>, ss: map<string, Service>, connector: string, cause: ErrorClass, message: string,
                 done: set<string>, todo: set<string>, id: string)
    requires id in todo && todo <= owners.Keys && owners.Keys <= ss.Keys
    requires Partly(StaleServices(owners, ss, connector, cause, message), done, todo)
    ensures
      var stale, now := StaleServices(owners, ss, connector, cause, message), AnnotateServices(ss, done, cause, message);
      && now[id] == ss[id]
      && (id in stale <==> owners[id] == connector && !(ss[id].errorClass == cause && ss[id].message == message))
      && (id in stale ==>
            && Partly(stale, done + {id}, todo - {id}) && |done + {id}| == |done| + 1
            && now[id := ss[id].(errorClass := cause, message := message)] == AnnotateServices(ss, done + {id}, cause, message))
      && (id !in stale ==> Partly(stale, done, todo - {id}))
  {
    TakeKey(StaleServices(owners, ss, connector, cause, message), done, todo, id);
    AnnotateOneService(ss, done, id, cause, message);
  }

  lemma AnnotateNoMetrics(ms: map<string, Metric>, cause: ErrorClass, message: string)
    ensures AnnotateMetrics(ms, {}, cause, message) == ms
  {
  }

  // One round of the loop that annotates metrics.
  lemma TakeMetric(owners: map<string, string>, ms: map<string, Metric>, connector: string, cause: ErrorClass, message: string,
                 done: set<string>, todo: set<string>, id: string)
    requires id in todo && todo <= owners.Keys && owners.Keys <= ms.Keys
    requires Partly(StaleMetrics(owners, ms, connector, cause, message), done, todo)
    ensures
      var stale, now := StaleMetrics(owners, ms, connector, cause, message), AnnotateMetrics(ms, done, cause, message);
      && now[id] == ms[id]
      && (id in stale <==> owners[id] == connector && !(ms[id].errorClass == cause && ms[id].message == message))
      && (id in stale ==>
            && Partly(stale, done + {id}, todo - {id}) && |done + {id}| == |done| + 1
            && now[id := ms[id].(errorClass := cause, message := message)] == AnnotateMetrics(ms, done + {id}, cause, message))
      && (id !in stale ==> Partly(stale, done, todo - {id}))
  {
    TakeKey(StaleMetrics(owners, ms, connector, cause, message), done, todo, id);
    AnnotateOneMetric(ms, done, id, cause, message);
  }

  predicate ValidAt(ms: map<string, Metric>, id: string) {
    id in ms ==> ValidMetric(ms[id])
  }

  ghost predicate AllValid(ms: map<string, Metric>) {
    forall id :: ValidAt(ms, id)
  }

  // One round of the loop that stores reported nodes.
  lemma StoreNode(ns: map<string, Node>, owners: map<string, string>, connector: string, report: seq<Node>, i: nat)
    requires i < |report|
    ensures
      var before, n := PutNodes(ns, report[..i]), report[i];
      && PutNodes(ns, report[..i + 1]) == before[n.id := Merged(n, before)]
      && Assign(owners, NodeIds(report[..i]), connector)[n.id := connector] == Assign(owners, NodeIds(report[..i + 1]), connector)
  {
    assert report[..i + 1][..i] == report[..i];
    assert NodeIds(report[..i + 1]) == NodeIds(report[..i]) + {report[i].id};
    AssignOne(owners, NodeIds(report[..i]), report[i].id, connector);
  }

  // One round of the loop that removes metrics.
  lemma TakeGone(ms: map<string, Metric>, owners: map<string, string>, seqs: map<string, nat>,
                 connector: string, sequence: nat, batch: seq<Metric>, done: set<string>, todo: set<string>, id: string)
    requires connector != "" && id in todo && todo <= owners.Keys
    requires Partly(Gone(owners, seqs, connector, sequence, batch), done, todo)
    ensures
      var gone, now := Gone(owners, seqs, connector, sequence, batch), Assign(seqs, done, sequence);
      && (id in now <==> id in seqs) && (id in now ==> now[id] == seqs[id])
      && (id in gone <==> owners[id] == connector && id !in MetricIds(batch) && !(id in now && sequence <= now[id]))
      && (id in gone ==>
            && Partly(gone, done + {id}, todo - {id}) && |done + {id}| == |done| + 1
            && (ms - done) - {id} == ms - (done + {id}) && (owners - done) - {id} == owners - (done + {id})
            && now[id := sequence] == Assign(seqs, done + {id}, sequence))
      && (id !in gone ==> Partly(gone, done, todo - {id}))
  {
    TakeKey(Gone(owners, seqs, connector, sequence, batch), done, todo, id);
    DropOne(ms, done, id);
    DropOne(owners, done, id);
    AssignOne(seqs, done, id, sequence);
  }

  lemma ValidEntries(s: State)
    requires s.Valid()
    ensures AllValid(s.metrics) && s.owners.Keys <= s.metrics.Keys
    ensures s.nodeOwners.Keys <= s.nodes.Keys && s.serviceOwners.Keys <= s.services.Keys
  {
  }

  // ----- the class -----

  class Current {
    var version: nat
    var metrics: map<string, Metric>
    var observedSeq: map<string, nat>
    var metricOwners: map<string, string>
    var health: map<string, Health>
    var nodes: map<string, Node>
    var services: map<string, Service>
    var nodeOwners: map<string, string>
    var serviceOwners: map<string, string>

    ghost function View(): State
      reads this
    {
      State(version, metrics, observedSeq, metricOwners, health, nodes, nodeOwners, services, serviceOwners)
    }

    ghost function MetricView(): Readings
      reads this`metrics, this`metricOwners, this`observedSeq
    {
      Readings(metrics, metricOwners, observedSeq)
    }

    constructor ()
      ensures View() == EMPTY
    {
      version, metrics, observedSeq, metricOwners, health := 0, map[], map[], map[], map[];
      nodes, services, nodeOwners, serviceOwners := map[], map[], map[], map[];
    }

    method ValidateMetrics(batch: seq<Metric>) returns (error: Option<StateError>, seen: set<string>)
      ensures error == CheckMetrics(batch, {})
      ensures error.None? ==> seen == MetricIds(batch)
    {
      seen := {};
      for i := 0 to |batch|
        invariant CheckMetrics(batch[i..], seen) == CheckMetrics(batch, {})
        invariant seen == MetricIds(batch[..i])
      {
        assert batch[i..][1..] == batch[i + 1..];
        assert batch[..i + 1] == batch[..i] + [batch[i]];
        if !ValidMetric(batch[i]) {
          return Some(InvalidEntity), seen;
        }
        if batch[i].id in seen {
          return Some(DuplicateEntity), seen;
        }
        seen := seen + {batch[i].id};
      }
      assert batch[..|batch|] == batch;
      error := None;
    }

    method RemoveGone(connector: string, sequence: nat, batch: seq<Metric>, seen: set<string>) returns (removed: nat)
      requires connector != "" && seen == MetricIds(batch)
      modifies this`metrics, this`metricOwners, this`observedSeq
      ensures var gone := Gone(old(metricOwners), old(observedSeq), connector, sequence, batch);
              && metrics == old(metrics) - gone && metricOwners == old(metricOwners) - gone
              && observedSeq == Assign(old(observedSeq), gone, sequence) && removed == |gone|
    {
      ghost var ms, seqs := metrics, observedSeq;
      var owners := metricOwners;
      ghost var gone, done := Gone(owners, seqs, connector, sequence, batch), {};
      DropNone(ms);
      DropNone(owners);
      AssignNone(seqs, sequence);
      var todo := owners.Keys;
      removed := 0;
      while todo != {}
        invariant Partly(gone, done, todo) && todo <= owners.Keys
        invariant metrics == ms - done && metricOwners == owners - done
        invariant observedSeq == Assign(seqs, done, sequence)
        invariant removed == |done|
        decreases todo
      {
        var id :| id in todo;
        TakeGone(ms, owners, seqs, connector, sequence, batch, done, todo, id);
        todo := todo - {id};
        if owners[id] != connector || id in seen {
          continue;
        }
        if id in observedSeq && sequence <= observedSeq[id] {
          continue;
        }
        metrics, metricOwners := metrics - {id}, metricOwners - {id};
        observedSeq := observedSeq[id := sequence];
        removed := removed + 1;
        done := done + {id};
      }
      AllTaken(gone, done);
    }

    // A batch that is not a connector's removes nothing.
    method RemoveAbsent(connector: string, sequence: nat, batch: seq<Metric>, seen: set<string>) returns (removed: nat)
      requires seen == MetricIds(batch)
      modifies this`metrics, this`metricOwners, this`observedSeq
      ensures (MetricView(), removed) == Removed(old(MetricView()), connector, sequence, batch)
    {
      removed := 0;
      if connector != "" {
        removed := RemoveGone(connector, sequence, batch, seen);
      } else {
        DropNone(metrics);
        DropNone(metricOwners);
        AssignNone(observedSeq, sequence);
      }
    }

    method PutBatch(connector: string, sequence: nat, batch: seq<Metric>) returns (applied: nat)
      modifies this`metrics, this`metricOwners, this`observedSeq
      ensures (MetricView(), applied) == Stored(old(MetricView()), connector, sequence, batch)
    {
      applied := 0;
      for i := 0 to |batch|
        invariant (MetricView(), applied) == Stored(old(MetricView()), connector, sequence, batch[..i])
      {
        var m := batch[i];
        assert batch[..i + 1][..i] == batch[..i];
        if m.id in observedSeq && sequence <= observedSeq[m.id] {
          continue;
        }
        observedSeq := observedSeq[m.id := sequence];
        metrics := metrics[m.id := m];
        if connector != "" {
          metricOwners := metricOwners[m.id := connector];
        }
        applied := applied + 1;
      }
      assert batch[..|batch|] == batch;
    }

    method StoreNewer(connector: string, sequence: nat, batch: seq<Metric>, seen: set<string>) returns (applied: nat)
      requires seen == MetricIds(batch)
      modifies this`version, this`metrics, this`metricOwners, this`observedSeq
      ensures (View(), applied) == AfterBatch(old(View()), connector, sequence, batch)
    {
      var removed := RemoveAbsent(connector, sequence, batch, seen);
      applied := PutBatch(connector, sequence, batch);
      if applied > 0 || removed > 0 {
        version := version + 1;
      }
    }

    method ApplyMetrics(connector: string, sequence: nat, batch: seq<Metric>) returns (r: Result<nat, StateError>)
      modifies this
      ensures (View(), r) == MetricsSpec(old(View()), connector, sequence, batch)
    {
      var error, seen := ValidateMetrics(batch);
      if error.Some? {
        return Failure(error.value);
      }
      var applied := StoreNewer(connector, sequence, batch, seen);
      return Success(applied);
    }

    method ApplyConnectorMetrics(connector: string, sequence: nat, batch: seq<Metric>) returns (r: Result<nat, StateError>)
      modifies this
      ensures (View(), r) == ConnectorMetricsSpec(old(View()), connector, sequence, batch)
    {
      if connector == "" {
        return Failure(NoConnector);
      }
      r := ApplyMetrics(connector, sequence, batch);
    }

    // Annotates one metric, or says that it would not be valid.
    method AnnotateMetric(id: string, cause: ErrorClass, message: string) returns (changed: Option<bool>)
      requires id in metrics && cause.Known() && ValidMetric(metrics[id])
      modifies this`metrics
      ensures var m := old(metrics)[id];
              var fits := m.errorClass == cause && m.message == message;
              && changed == (if fits then Some(false) else if SafeText(message) then Some(true) else None)
              && metrics == if changed == Some(true) then old(metrics)[id := m.(errorClass := cause, message := message)]
                            else old(metrics)
    {
      var m := metrics[id];
      if m.errorClass == cause && m.message == message {
        return Some(false);
      }
      m := m.(errorClass := cause, message := message);
      if !ValidMetric(m) {
        return None;
      }
      metrics := metrics[id := m];
      return Some(true);
    }

    method AnnotateOwnMetrics(connector: string, cause: ErrorClass, message: string) returns (r: Option<nat>)
      requires cause.Known() && metricOwners.Keys <= metrics.Keys && AllValid(metrics)
      modifies this`metrics
      ensures var stale := StaleMetrics(metricOwners, old(metrics), connector, cause, message);
              && (r.None? <==> stale != {} && !SafeText(message))
              && (r.None? ==> metrics == old(metrics))
              && (r.Some? ==> r.value == |stale| && metrics == AnnotateMetrics(old(metrics), stale, cause, message))
    {
      var owners := metricOwners;
      ghost var before, stale, done := metrics, StaleMetrics(metricOwners, metrics, connector, cause, message), {};
      AnnotateNoMetrics(before, cause, message);
      var todo, count := owners.Keys, 0;
      while todo != {}
        invariant Partly(stale, done, todo) && todo <= owners.Keys
        invariant metrics == AnnotateMetrics(before, done, cause, message)
        invariant count == |done|
        invariant done == {} || SafeText(message)
        decreases todo
      {
        var id :| id in todo;
        TakeMetric(owners, before, connector, cause, message, done, todo, id);
        todo := todo - {id};
        if owners[id] != connector {
          continue;
        }
        assert ValidAt(before, id);
        var changed := AnnotateMetric(id, cause, message);
        if changed.None? {
          return None;
        }
        if changed.value {
          done := done + {id};
          count := count + 1;
        }
      }
      AllTaken(stale, done);
      return Some(count);
    }

    method AnnotateOwnNodes(connector: string, cause: ErrorClass, message: string) returns (changed: nat)
      requires nodeOwners.Keys <= nodes.Keys
      modifies this`nodes
      ensures var stale := StaleNodes(nodeOwners, old(nodes), connector, cause, message);
              changed == |stale| && nodes == AnnotateNodes(old(nodes), stale, cause, message)
    {
      var owners := nodeOwners;
      ghost var before, stale, done := nodes, StaleNodes(nodeOwners, nodes, connector, cause, message), {};
      AnnotateNoNodes(before, cause, message);
      var todo := owners.Keys;
      changed := 0;
      while todo != {}
        invariant Partly(stale, done, todo) && todo <= owners.Keys
        invariant nodes == AnnotateNodes(before, done, cause, message)
        invariant changed == |done|
        decreases todo
      {
        var id :| id in todo;
        TakeNode(owners, before, connector, cause, message, done, todo, id);
        todo := todo - {id};
        if owners[id] != connector {
          continue;
        }
        var n := nodes[id];
        if n.errorClass == cause && n.message == message {
          continue;
        }
        nodes := nodes[id := n.(errorClass := cause, message := message)];
        done := done + {id};
        changed := changed + 1;
      }
      AllTaken(stale, done);
    }

    method AnnotateOwnServices(connector: string, cause: ErrorClass, message: string) returns (changed: nat)
      requires serviceOwners.Keys <= services.Keys
      modifies this`services
      ensures var stale := StaleServices(serviceOwners, old(services), connector, cause, message);
              changed == |stale| && services == AnnotateServices(old(services), stale, cause, message)
    {
      var owners := serviceOwners;
      ghost var before, stale, done := services, StaleServices(serviceOwners, services, connector, cause, message), {};
      AnnotateNoServices(before, cause, message);
      var todo := owners.Keys;
      changed := 0;
      while todo != {}
        invariant Partly(stale, done, todo) && todo <= owners.Keys
        invariant services == AnnotateServices(before, done, cause, message)
        invariant changed == |done|
        decreases todo
      {
        var id :| id in todo;
        TakeService(owners, before, connector, cause, message, done, todo, id);
        todo := todo - {id};
        if owners[id] != connector {
          continue;
        }
        var n := services[id];
        if n.errorClass == cause && n.message == message {
          continue;
        }
        services := services[id := n.(errorClass := cause, message := message)];
        done := done + {id};
        changed := changed + 1;
      }
      AllTaken(stale, done);
    }

    method AnnotateOwn(connector: string, cause: ErrorClass, message: string) returns (r: Option<nat>)
      requires cause.Known() && metricOwners.Keys <= metrics.Keys && AllValid(metrics)
      requires nodeOwners.Keys <= nodes.Keys && serviceOwners.Keys <= services.Keys
      modifies this`metrics, this`nodes, this`services, this`version
      ensures
        var staleMetrics := StaleMetrics(metricOwners, old(metrics), connector, cause, message);
        var staleNodes := StaleNodes(nodeOwners, old(nodes), connector, cause, message);
        var staleServices := StaleServices(serviceOwners, old(services), connector, cause, message);
        && (r.None? <==> staleMetrics != {} && !SafeText(message))
        && (r.None? ==> metrics == old(metrics) && nodes == old(nodes) && services == old(services) && version == old(version))
        && (r.Some? ==>
              && metrics == AnnotateMetrics(old(metrics), staleMetrics, cause, message)
              && nodes == AnnotateNodes(old(nodes), staleNodes, cause, message)
              && services == AnnotateServices(old(services), staleServices, cause, message)
              && r.value == |staleMetrics| + |staleNodes| + |staleServices| && version == Bumped(old(version), r.value))
    {
      var changedMetrics := AnnotateOwnMetrics(connector, cause, message);
      if changedMetrics.None? {
        return None;
      }
      var changedNodes := AnnotateOwnNodes(connector, cause, message);
      var changedServices := AnnotateOwnServices(connector, cause, message);
      var changed := changedMetrics.value + changedNodes + changedServices;
      if changed > 0 {
        version := version + 1;
      }
      return Some(changed);
    }

    method AnnotateAll(connector: string, cause: ErrorClass, message: string) returns (r: Option<nat>)
      requires cause.Known() && metricOwners.Keys <= metrics.Keys && AllValid(metrics)
      requires nodeOwners.Keys <= nodes.Keys && serviceOwners.Keys <= services.Keys
      modifies this`metrics, this`nodes, this`services, this`version
      ensures r.None? <==> StaleMetrics(metricOwners, old(metrics), connector, cause, message) != {} && !SafeText(message)
      ensures r.None? ==> View() == old(View())
      ensures r.Some? ==> (View(), r.value) == Annotated(old(View()), connector, cause, message)
    {
      ghost var t := Annotated(View(), connector, cause, message).0;
      r := AnnotateOwn(connector, cause, message);
      assert r.Some? ==> metrics == t.metrics && nodes == t.nodes && services == t.services && version == t.version;
    }

    method ApplyConnectorError(connector: string, cause: ErrorClass, message: string) returns (r: Result<nat, StateError>)
      requires View().Valid()
      modifies this
      ensures (View(), r) == ErrorSpec(old(View()), connector, cause, message)
    {
      if connector == "" {
        return Failure(NoConnector);
      }
      if cause == NoError || !cause.Known() {
        return Failure(InvalidClass);
      }
      ValidEntries(View());
      var changed := AnnotateAll(connector, cause, message);
      return if changed.Some? then Success(changed.value) else Failure(UnsafeMessage);
    }

    method ValidateReport(report: Report) returns (error: Option<StateError>)
      ensures error == (var e := CheckNodes(report.nodes, {});
                        if e.Some? then e else CheckServices(report.services, {}))
    {
      var seen: set<string> := {};
      for i := 0 to |report.nodes|
        invariant CheckNodes(report.nodes[i..], seen) == CheckNodes(report.nodes, {})
      {
        assert report.nodes[i..][1..] == report.nodes[i + 1..];
        if !ValidNode(report.nodes[i]) {
          return Some(InvalidEntity);
        }
        if report.nodes[i].id in seen {
          return Some(DuplicateEntity);
        }
        seen := seen + {report.nodes[i].id};
      }
      seen := {};
      for i := 0 to |report.services|
        invariant CheckServices(report.services[i..], seen) == CheckServices(report.services, {})
      {
        assert report.services[i..][1..] == report.services[i + 1..];
        if !ValidService(report.services[i]) {
          return Some(InvalidEntity);
        }
        if report.services[i].id in seen {
          return Some(DuplicateEntity);
        }
        seen := seen + {report.services[i].id};
      }
      return None;
    }

    method CountOwned(owners: map<string, string>, connector: string) returns (count: nat)
      ensures count == |OwnedBy(owners, connector)|
    {
      ghost var owned, done := OwnedBy(owners, connector), {};
      var todo := owners.Keys;
      count := 0;
      while todo != {}
        invariant Partly(owned, done, todo) && todo <= owners.Keys && count == |done|
        decreases todo
      {
        var id :| id in todo;
        TakeKey(owned, done, todo, id);
        todo := todo - {id};
        if owners[id] == connector {
          count := count + 1;
          done := done + {id};
        }
      }
      AllTaken(owned, done);
    }

    method FindForeign(connector: string, report: Report) returns (found: bool)
      ensures found <==> (exists n <- report.nodes :: Foreign(nodeOwners, n.id, connector))
                         || exists v <- report.services :: Foreign(serviceOwners, v.id, connector)
    {
      for i := 0 to |report.nodes|
        invariant forall k :: 0 <= k < i ==> !Foreign(nodeOwners, report.nodes[k].id, connector)
      {
        var id := report.nodes[i].id;
        if id in nodeOwners && nodeOwners[id] != connector {
          assert report.nodes[i] in report.nodes && Foreign(nodeOwners, report.nodes[i].id, connector);
          return true;
        }
      }
      for i := 0 to |report.services|
        invariant forall k :: 0 <= k < i ==> !Foreign(serviceOwners, report.services[k].id, connector)
      {
        var id := report.services[i].id;
        if id in serviceOwners && serviceOwners[id] != connector {
          assert report.services[i] in report.services && Foreign(serviceOwners, report.services[i].id, connector);
          return true;
        }
      }
      return false;
    }

    method DropUnseenNodes(connector: string, seen: set<string>)
      modifies this`nodes, this`nodeOwners
      ensures var gone := OwnedBy(old(nodeOwners), connector) - seen;
              nodes == old(nodes) - gone && nodeOwners == old(nodeOwners) - gone
    {
      ghost var gone, done := OwnedBy(nodeOwners, connector) - seen, {};
      var todo := nodeOwners.Keys;
      while todo != {}
        invariant Partly(gone, done, todo) && todo <= old(nodeOwners).Keys
        invariant nodes == old(nodes) - done && nodeOwners == old(nodeOwners) - done
        decreases todo
      {
        var id :| id in todo;
        TakeKey(gone, done, todo, id);
        todo := todo - {id};
        if nodeOwners[id] == connector && id !in seen {
          DropOne(old(nodes), done, id);
          DropOne(old(nodeOwners), done, id);
          nodes, nodeOwners := nodes - {id}, nodeOwners - {id};
          done := done + {id};
        }
      }
      AllTaken(gone, done);
    }

    method StoreNodes(connector: string, report: seq<Node>)
      modifies this`nodes, this`nodeOwners
      ensures nodes == PutNodes(old(nodes), report)
      ensures nodeOwners == Assign(old(nodeOwners), NodeIds(report), connector)
    {
      ghost var ns, owners := nodes, nodeOwners;
      AssignNone(owners, connector);
      for i := 0 to |report|
        invariant nodes == PutNodes(ns, report[..i])
        invariant nodeOwners == Assign(owners, NodeIds(report[..i]), connector)
      {
        StoreNode(ns, owners, connector, report, i);
        var node := report[i];
        if node.online.Some? && !node.online.value {
          if node.id in nodes {
            node := Inherit(node, nodes[node.id]);
          }
        }
        nodes := nodes[node.id := node];
        nodeOwners := nodeOwners[node.id := connector];
      }
      assert report[..|report|] == report;
    }

    method DropUnseenServices(connector: string, seen: set<string>)
      modifies this`services, this`serviceOwners
      ensures var gone := OwnedBy(old(serviceOwners), connector) - seen;
              services == old(services) - gone && serviceOwners == old(serviceOwners) - gone
    {
      ghost var gone, done := OwnedBy(serviceOwners, connector) - seen, {};
      var todo := serviceOwners.Keys;
      while todo != {}
        invariant Partly(gone, done, todo) && todo <= old(serviceOwners).Keys
        invariant services == old(services) - done && serviceOwners == old(serviceOwners) - done
        decreases todo
      {
        var id :| id in todo;
        TakeKey(gone, done, todo, id);
        todo := todo - {id};
        if serviceOwners[id] == connector && id !in seen {
          DropOne(old(services), done, id);
          DropOne(old(serviceOwners), done, id);
          services, serviceOwners := services - {id}, serviceOwners - {id};
          done := done + {id};
        }
      }
      AllTaken(gone, done);
    }

    method StoreServices(connector: string, report: seq<Service>)
      modifies this`services, this`serviceOwners
      ensures services == PutServices(old(services), report)
      ensures serviceOwners == Assign(old(serviceOwners), ServiceIds(report), connector)
    {
      for i := 0 to |report|
        invariant services == PutServices(old(services), report[..i])
        invariant serviceOwners == Assign(old(serviceOwners), ServiceIds(report[..i]), connector)
      {
        assert report[..i + 1][..i] == report[..i];
        assert ServiceIds(report[..i + 1]) == ServiceIds(report[..i]) + {report[i].id};
        AssignOne(old(serviceOwners), ServiceIds(report[..i]), report[i].id, connector);
        services := services[report[i].id := report[i]];
        serviceOwners := serviceOwners[report[i].id := connector];
      }
      assert report[..|report|] == report;
    }

    method CheckReport(connector: string, report: Report) returns (error: Option<StateError>)
      ensures error == ReportError(View(), connector, report)
    {
      if connector == "" {
        return Some(NoConnector);
      }
      if |report.nodes| > MAX_NODES || |report.services| > MAX_SERVICES {
        return Some(TooLarge);
      }
      error := ValidateReport(report);
      if error.Some? {
        return;
      }
      var ownedNodes := CountOwned(nodeOwners, connector);
      var ownedServices := CountOwned(serviceOwners, connector);
      if |nodes| - ownedNodes + |report.nodes| > MAX_NODES
         || |services| - ownedServices + |report.services| > MAX_SERVICES {
        return Some(MergedTooLarge);
      }
      var foreign := FindForeign(connector, report);
      if foreign {
        return Some(OwnedElsewhere);
      }
    }

    method Replace(connector: string, report: Report)
      modifies this
      ensures View() == Replaced(old(View()), connector, report)
    {
      ghost var s := View();
      DropUnseenNodes(connector, NodeIds(report.nodes));
      StoreNodes(connector, report.nodes);
      ghost var t := Replaced(s, connector, report);
      assert nodes == t.nodes && nodeOwners == t.nodeOwners;
      DropUnseenServices(connector, ServiceIds(report.services));
      StoreServices(connector, report.services);
      version := version + 1;
      assert services == t.services && serviceOwners == t.serviceOwners;
    }

    method ApplyConnectorHomeLab(connector: string, report: Report) returns (error: Option<StateError>)
      modifies this
      ensures (View(), error) == HomeLabSpec(old(View()), connector, report)
    {
      error := CheckReport(connector, report);
      if error.None? {
        Replace(connector, report);
      }
    }

    method ApplyHealth(h: Health) returns (error: Option<StateError>)
      modifies this
      ensures (View(), error) == HealthSpec(old(View()), h)
    {
      if !ValidHealth(h) {
        return Some(InvalidEntity);
      }
      health := health[h.connectorId := h];
      version := version + 1;
      return None;
    }
  }
}
