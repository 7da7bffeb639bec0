/**
 One daemon, one display and the snapshot stream between them (internal/nodeapi/stream.go:92-137,
 internal/syncclient/client.go:98-141, 204-241, 340-384). The stream is in order; connections break,
 both processes restart, and the display's file may lag behind what it shows.
 */
module Mirror {
  import opened Wrappers
  import opened Protocol
  import opened CurrentState
  import opened Snapshots
  import StateRuns

  // ----- the two ends -----

  // Whether a turn of the pump sends the snapshot it has read.
  predicate Sends(sentAny: bool, lastSent: nat, version: nat, hasData: bool) {
    hasData && (!sentAny || version > lastSent)
  }

  // What a new connection has to assume the display holds.
  function ResumeAt(held: Option<Snapshot>, epoch: string): nat {
    if held.Some? && held.value.epoch == epoch then held.value.version else 0
  }

  predicate Takes(held: Option<Snapshot>, p: Snapshot, node: string) {
    ValidSnapshot(p) && p.sourceNode == node && Supersedes(held, p)
  }

  class Pump {
    var lastSent: nat
    var sentAny: bool

    // hello carries the epoch and the version of what the display holds.
    constructor (epoch: string, helloEpoch: string, helloVersion: nat)
      ensures lastSent == (if helloEpoch == epoch then helloVersion else 0) && !sentAny
    {
      lastSent := 0;
      if helloEpoch == epoch {
        lastSent := helloVersion;
      }
      sentAny := false;
    }

    method Turn(p: Snapshot, hasData: bool) returns (sent: bool)
      modifies this
      ensures sent == Sends(old(sentAny), old(lastSent), p.version, hasData)
      ensures sentAny == (old(sentAny) || sent) && lastSent == if sent then p.version else old(lastSent)
    {
      sent := hasData && (!sentAny || p.version > lastSent);
      if sent {
        lastSent := p.version;
        sentAny := true;
      }
    }
  }

  class Client {
    const node: string
    var snapshot: Option<Snapshot>
    var saved: Option<Snapshot>

    constructor (node: string, file: Option<Snapshot>)
      ensures this.node == node && snapshot == saved == file
    {
      this.node, snapshot, saved := node, file, file;
    }

    method Hello() returns (epoch: string, version: nat)
      ensures forall daemon: string :: daemon != "" ==> (if epoch == daemon then version else 0) == ResumeAt(snapshot, daemon)
    {
      epoch, version := "", 0;
      if snapshot.Some? {
        epoch, version := snapshot.value.epoch, snapshot.value.version;
      }
    }

    // Says whether the message was a snapshot in order, also when it is dropped as not newer.
    method ApplySnapshot(p: Snapshot, canSave: bool) returns (ok: bool)
      modifies this`snapshot, this`saved
      ensures ok == (ValidSnapshot(p) && p.sourceNode == node)
      ensures snapshot == if Takes(old(snapshot), p, node) then Some(p) else old(snapshot)
      ensures saved == if Takes(old(snapshot), p, node) && canSave then Some(p) else old(saved)
    {
      if !ValidSnapshot(p) {
        return false;
      }
      if p.sourceNode != node {
        return false;
      }
      if !Supersedes(snapshot, p) {
        return true;
      }
      snapshot := Some(p);
      if canSave {
        saved := Some(p);
      }
      return true;
    }
  }

  // ----- the system -----

  // latest: what the connection sent last.
  datatype Connection = Connection(
    lastSent: nat, sentAny: bool, captured: Option<Snapshot>, queue: seq<Snapshot>, latest: Option<Snapshot>)

  // past: every state the daemon has been in, with its epoch; the last one is the current state.
  datatype World = World(
    node: string, past: seq<(string, State)>,
    held: Option<Snapshot>, saved: Option<Snapshot>, connection: Option<Connection>)
  {
    ghost predicate Live() {
      past != []
    }

    function Epoch(): string
      requires past != []
    {
      past[|past| - 1].0
    }

    function Current(): State
      requires past != []
    {
      past[|past| - 1].1
    }
  }

  datatype Step =
    | Apply(op: StateRuns.Op)
    | RestartDaemon(epoch: string)
    | Connect
    | Read(snapshot: Snapshot)
    | Send
    | Receive(canSave: bool)
    | Disconnect
    | RestartClient

  ghost predicate Allowed(w: World, step: Step)
    requires w.Live()
  {
    match step
    case RestartDaemon(epoch) => SafeId(epoch) && forall i :: 0 <= i < |w.past| ==> w.past[i].0 != epoch
    case Read(p) => IsSnapshotOf(p, w.Epoch(), w.node, w.Current())
    case _ => true
  }

  function AfterSend(c: Connection, hasData: bool): Connection {
    if c.captured.None? then c
    else
      var p := c.captured.value;
      if Sends(c.sentAny, c.lastSent, p.version, hasData) then Connection(p.version, true, None, c.queue + [p], Some(p))
      else c.(captured := None)
  }

  function Next(w: World, step: Step): (r: World)
    requires w.Live()
    ensures r.Live() && r.node == w.node
  {
    match step
    case Apply(op) => w.(past := w.past + [(w.Epoch(), StateRuns.Next(w.Current(), op))])
    case RestartDaemon(epoch) => w.(past := w.past + [(epoch, EMPTY)], connection := None)
    case Connect => w.(connection := Some(Connection(ResumeAt(w.held, w.Epoch()), false, None, [], None)))
    case Read(p) => if w.connection.Some? then w.(connection := Some(w.connection.value.(captured := Some(p)))) else w
    case Send =>
      if w.connection.Some? then w.(connection := Some(AfterSend(w.connection.value, w.Current().HasData()))) else w
    case Receive(canSave) =>
      if w.connection.None? || w.connection.value.queue == [] then w
      else
        var c := w.connection.value;
        var p := c.queue[0];
        var taken := Takes(w.held, p, w.node);
        w.(connection := Some(c.(queue := c.queue[1..])),
           held := if taken then Some(p) else w.held,
           saved := if taken && canSave then Some(p) else w.saved)
    case Disconnect => w.(connection := None)
    case RestartClient => w.(held := w.saved, connection := None)
  }

  ghost predicate AllowedRun(w: World, steps: seq<Step>)
    requires w.Live()
    decreases |steps|
  {
    steps != [] ==> Allowed(w, steps[0]) && AllowedRun(Next(w, steps[0]), steps[1..])
  }

  function Run(w: World, steps: seq<Step>): (r: World)
    requires w.Live()
    ensures r.Live()
    decreases |steps|
  {
    if steps == [] then w else Run(Next(w, steps[0]), steps[1..])
  }

  function Start(node: string, epoch: string): (w: World)
    ensures w.Live()
  {
    World(node, [(epoch, EMPTY)], None, None, None)
  }

  // ----- no snapshot is sent twice -----

  ghost predicate Rising(ps: seq<Snapshot>) {
    forall i, j :: 0 <= i < j < |ps| ==> ps[i].version < ps[j].version
  }

  // What is on its way rises in version, up to the one sent last.
  ghost predicate RisingQueue(w: World) {
    w.connection.Some? ==>
      var c := w.connection.value;
      && Rising(c.queue) && (c.queue != [] ==> c.sentAny && c.queue[|c.queue| - 1].version == c.lastSent)
  }

  lemma RisingStep(w: World, step: Step)
    requires w.Live() && RisingQueue(w)
    ensures RisingQueue(Next(w, step))
  {
  }

  // In every run the snapshots on a connection rise in version, so an unchanged one is sent only once.
  lemma {:induction false} NothingSentTwice(w: World, steps: seq<Step>)
    requires w.Live() && RisingQueue(w)
    ensures RisingQueue(Run(w, steps))
    decreases |steps|
  {
    if steps != [] {
      RisingStep(w, steps[0]);
      NothingSentTwice(Next(w, steps[0]), steps[1..]);
    }
  }

  // ----- the display does not go back -----

  // Within an epoch the display never goes back to an older snapshot, but for a restart of its own; it
  // takes only snapshots of its node, and those of another epoch whatever their version.
  lemma HeldDoesNotFall(w: World, step: Step)
    requires w.Live() && !step.RestartClient? && w.held.Some?
    ensures
      var held := Next(w, step).held;
      && held.Some?
      && (held != w.held ==>
            && held.value.sourceNode == w.node && ValidSnapshot(held.value)
            && (held.value.epoch == w.held.value.epoch ==> held.value.version > w.held.value.version))
    ensures
      step.Receive? && w.connection.Some? && w.connection.value.queue != [] ==>
        var p := w.connection.value.queue[0];
        ValidSnapshot(p) && p.sourceNode == w.node && p.epoch != w.held.value.epoch ==> Next(w, step).held == Some(p)
  {
  }

  // ----- the invariant -----

  // Within one epoch the version only rises, and says which state it was.
  ghost predicate Ordered(past: seq<(string, State)>) {
    forall i, j :: 0 <= i <= j < |past| && past[i].0 == past[j].0 ==>
      past[i].1.version <= past[j].1.version && (past[i].1.version == past[j].1.version ==> past[i].1 == past[j].1)
  }

  ghost predicate ShownAt(p: Snapshot, node: string, moment: (string, State)) {
    IsSnapshotOf(p, moment.0, node, moment.1)
  }

  ghost predicate Past(w: World, p: Snapshot) {
    exists i :: 0 <= i < |w.past| && ShownAt(p, w.node, w.past[i])
  }

  ghost predicate AllPast(w: World, ps: seq<Snapshot>) {
    forall p <- ps :: Past(w, p) && p.epoch == w.Epoch()
  }

  function Pieces(c: Connection): seq<Snapshot> {
    c.queue + (if c.captured.Some? then [c.captured.value] else []) + (if c.latest.Some? then [c.latest.value] else [])
  }

  // The display holds the given snapshot or a later one of its epoch.
  predicate UpTo(held: Option<Snapshot>, p: Snapshot) {
    held.Some? && held.value.epoch == p.epoch && held.value.version >= p.version
  }

  // What a connection has sent last is still on its way, or the display has come up to it.
  predicate QueueInv(held: Option<Snapshot>, c: Connection) {
    && c.sentAny == c.latest.Some?
    && (c.latest.Some? ==> c.latest.value.version == c.lastSent)
    && (c.queue != [] ==> c.latest == Some(c.queue[|c.queue| - 1]))
    && (c.queue == [] && c.latest.Some? && ValidSnapshot(c.latest.value) ==> UpTo(held, c.latest.value))
  }

  ghost predicate Inv(w: World) {
    && w.Live() && Ordered(w.past) && w.Current().Valid() && SafeId(w.Epoch())
    && (w.held.Some? ==> Past(w, w.held.value)) && (w.saved.Some? ==> Past(w, w.saved.value))
    && (w.connection.Some? ==> AllPast(w, Pieces(w.connection.value)) && QueueInv(w.held, w.connection.value))
  }

  lemma StartInv(node: string, epoch: string)
    requires SafeId(epoch)
    ensures Inv(Start(node, epoch))
  {
  }

  lemma PastGrows(w: World, w': World, p: Snapshot)
    requires Past(w, p) && w'.node == w.node && w.past <= w'.past
    ensures Past(w', p)
  {
    var i :| 0 <= i < |w.past| && ShownAt(p, w.node, w.past[i]);
    assert w'.past[i] == w.past[i];
  }

  lemma AllPastGrows(w: World, w': World, ps: seq<Snapshot>)
    requires w.Live() && w'.Live() && AllPast(w, ps)
    requires w'.node == w.node && w.past <= w'.past && w'.Epoch() == w.Epoch()
    ensures AllPast(w', ps)
  {
    forall p <- ps
      ensures Past(w', p)
    {
      PastGrows(w, w', p);
    }
  }

  lemma OrderedAppend(past: seq<(string, State)>, s: State)
    requires past != [] && Ordered(past)
    requires var now := past[|past| - 1].1;
             now.version <= s.version && (now.version == s.version ==> now == s)
    ensures Ordered(past + [(past[|past| - 1].0, s)])
  {
    var n := |past|;
    var longer := past + [(past[n - 1].0, s)];
    forall i | 0 <= i < n && longer[i].0 == longer[n].0
      ensures longer[i].1.version <= s.version && (longer[i].1.version == s.version ==> longer[i].1 == s)
    {
      assert past[i].0 == past[n - 1].0;
    }
  }

  lemma ApplyKeeps(w: World, op: StateRuns.Op)
    requires Inv(w)
    ensures Inv(Next(w, Apply(op)))
  {
    var w' := Next(w, Apply(op));
    StateRuns.StepVersion(w.Current(), op);
    StateRuns.StepValid(w.Current(), op);
    OrderedAppend(w.past, StateRuns.Next(w.Current(), op));
    if w.held.Some? {
      PastGrows(w, w', w.held.value);
    }
    if w.saved.Some? {
      PastGrows(w, w', w.saved.value);
    }
    if w.connection.Some? {
      AllPastGrows(w, w', Pieces(w.connection.value));
    }
  }

  lemma RestartKeeps(w: World, epoch: string)
    requires Inv(w) && Allowed(w, RestartDaemon(epoch))
    ensures Inv(Next(w, RestartDaemon(epoch)))
  {
    var w' := Next(w, RestartDaemon(epoch));
    forall i, j | 0 <= i <= j < |w'.past| && w'.past[i].0 == w'.past[j].0
      ensures w'.past[i].1.version <= w'.past[j].1.version && (w'.past[i].1.version == w'.past[j].1.version ==> w'.past[i].1 == w'.past[j].1)
    {
      assert i < |w.past| <==> j < |w.past|;
    }
    if w.held.Some? {
      PastGrows(w, w', w.held.value);
    }
    if w.saved.Some? {
      PastGrows(w, w', w.saved.value);
    }
  }

  lemma ReadKeeps(w: World, p: Snapshot)
    requires Inv(w) && Allowed(w, Read(p)) && w.connection.Some?
    ensures Inv(Next(w, Read(p)))
  {
    assert ShownAt(p, w.node, w.past[|w.past| - 1]);
    var w' := Next(w, Read(p));
    forall q <- Pieces(w'.connection.value)
      ensures Past(w', q) && q.epoch == w'.Epoch()
    {
      assert q in Pieces(w.connection.value) || q == p;
      if q in Pieces(w.connection.value) {
        PastGrows(w, w', q);
      } else {
        assert ShownAt(p, w'.node, w'.past[|w'.past| - 1]);
      }
    }
  }

  lemma SameHistory(w: World, w': World)
    requires w.Live() && w'.past == w.past && w'.node == w.node
    ensures forall p :: Past(w, p) ==> Past(w', p)
    ensures forall ps :: AllPast(w, ps) ==> AllPast(w', ps)
  {
    forall p | Past(w, p)
      ensures Past(w', p)
    {
      PastGrows(w, w', p);
    }
    forall ps | AllPast(w, ps)
      ensures AllPast(w', ps)
    {
      AllPastGrows(w, w', ps);
    }
  }

  lemma FewerPast(w: World, all: seq<Snapshot>, some: seq<Snapshot>)
    requires w.Live() && AllPast(w, all) && forall p <- some :: p in all
    ensures AllPast(w, some)
  {
  }

  lemma SendQueue(held: Option<Snapshot>, c: Connection, hasData: bool)
    requires QueueInv(held, c)
    ensures QueueInv(held, AfterSend(c, hasData))
    ensures forall p <- Pieces(AfterSend(c, hasData)) :: p in Pieces(c)
  {
  }

  lemma SendKeeps(w: World)
    requires Inv(w) && w.connection.Some?
    ensures Inv(Next(w, Send))
  {
    var w' := Next(w, Send);
    var c := w.connection.value;
    SameHistory(w, w');
    SendQueue(w.held, c, w.Current().HasData());
    FewerPast(w, Pieces(c), Pieces(w'.connection.value));
  }

  lemma ReceiveQueue(held: Option<Snapshot>, node: string, c: Connection)
    requires QueueInv(held, c) && c.queue != [] && c.queue[0].sourceNode == node
    ensures
      var c' := c.(queue := c.queue[1..]);
      && QueueInv(if Takes(held, c.queue[0], node) then Some(c.queue[0]) else held, c')
      && forall p <- Pieces(c') :: p in Pieces(c)
  {
    if |c.queue| == 1 {
      assert c.latest == Some(c.queue[0]);
    }
  }

  lemma ReceiveShape(w: World, canSave: bool)
    requires w.Live() && w.connection.Some? && w.connection.value.queue != []
    ensures
      var (w', c) := (Next(w, Receive(canSave)), w.connection.value);
      && w'.past == w.past && w'.connection == Some(c.(queue := c.queue[1..]))
      && w'.held == (if Takes(w.held, c.queue[0], w.node) then Some(c.queue[0]) else w.held)
      && (w'.saved == w.saved || w'.saved == Some(c.queue[0]))
  {
  }

  lemma ReceiveKeeps(w: World, canSave: bool)
    requires Inv(w) && w.connection.Some? && w.connection.value.queue != []
    ensures Inv(Next(w, Receive(canSave)))
    ensures Next(w, Receive(canSave)).connection.Some?
  {
    var c := w.connection.value;
    var p := c.queue[0];
    ReceiveShape(w, canSave);
    SameHistory(w, Next(w, Receive(canSave)));
    assert p in Pieces(c) && Past(w, p);
    PastNode(w, p);
    ReceiveQueue(w.held, w.node, c);
    FewerPast(w, Pieces(c), Pieces(c.(queue := c.queue[1..])));
  }

  lemma PastNode(w: World, p: Snapshot)
    requires Past(w, p)
    ensures p.sourceNode == w.node
  {
    var i :| 0 <= i < |w.past| && ShownAt(p, w.node, w.past[i]);
  }

  lemma StepKeeps(w: World, step: Step)
    requires Inv(w) && Allowed(w, step)
    ensures Inv(Next(w, step))
  {
    match step
    case Apply(op) => ApplyKeeps(w, op);
    case RestartDaemon(epoch) => RestartKeeps(w, epoch);
    case Read(p) =>
      if w.connection.Some? {
        ReadKeeps(w, p);
      }
    case Send =>
      if w.connection.Some? {
        SendKeeps(w);
      }
    case Receive(canSave) =>
      if w.connection.Some? && w.connection.value.queue != [] {
        ReceiveKeeps(w, canSave);
      }
    case _ => HeldElsewhere(w, step);
  }

  lemma HeldElsewhere(w: World, step: Step)
    requires Inv(w) && (step.Connect? || step.Disconnect? || step.RestartClient?)
    ensures Inv(Next(w, step))
  {
    SameHistory(w, Next(w, step));
  }

  lemma {:induction false} InvRun(w: World, steps: seq<Step>)
    requires Inv(w) && AllowedRun(w, steps)
    ensures Inv(Run(w, steps))
    decreases |steps|
  {
    if steps != [] {
      StepKeeps(w, steps[0]);
      InvRun(Next(w, steps[0]), steps[1..]);
    }
  }

  // ----- the theorems -----

  // What the display shows is always a state the daemon was in, under the very epoch and version it
  // had then.
  lemma ShownWasTrue(node: string, epoch: string, steps: seq<Step>)
    requires SafeId(epoch) && AllowedRun(Start(node, epoch), steps)
    ensures
      var w := Run(Start(node, epoch), steps);
      w.held.Some? ==> Past(w, w.held.value)
  {
    StartInv(node, epoch);
    InvRun(Start(node, epoch), steps);
  }

  // A snapshot of the current epoch with the current version is the current snapshot.
  lemma CurrentIsUnique(w: World, p: Snapshot, q: Snapshot)
    requires Inv(w) && IsSnapshotOf(p, w.Epoch(), w.node, w.Current()) && Past(w, q)
    requires q.epoch == w.Epoch()
    ensures q.version <= p.version && (q.version == p.version ==> q == p)
  {
    var n := |w.past|;
    var i :| 0 <= i < n && ShownAt(q, w.node, w.past[i]);
    assert w.past[i].0 == w.past[n - 1].0;
    if q.version == p.version {
      SnapshotUnique(p, q, w.Epoch(), w.node, w.Current());
    }
  }

  lemma TurnLatest(c: Connection, p: Snapshot)
    requires c.captured == Some(p) && c.sentAny == c.latest.Some?
    requires c.latest.Some? ==> c.latest.value.version == c.lastSent && (c.lastSent >= p.version ==> c.latest.value == p)
    ensures AfterSend(c, true).latest == Some(p)
  {
  }

  // What was sent last is no newer than the current snapshot.
  lemma LatestBound(w: World, p: Snapshot)
    requires Inv(w) && IsSnapshotOf(p, w.Epoch(), w.node, w.Current())
    requires w.connection.Some? && w.connection.value.latest.Some?
    ensures
      var l := w.connection.value.latest.value;
      l.version <= p.version && (l.version == p.version ==> l == p)
  {
    var l := w.connection.value.latest.value;
    assert l in Pieces(w.connection.value);
    CurrentIsUnique(w, p, l);
  }

  lemma TurnShape(w: World, p: Snapshot)
    requires w.Live() && w.connection.Some?
    ensures
      var c := w.connection.value.(captured := Some(p));
      && Next(w, Read(p)) == w.(connection := Some(c))
      && Next(Next(w, Read(p)), Send) == w.(connection := Some(AfterSend(c, w.Current().HasData())))
  {
  }

  // After a turn of the pump the current snapshot is the one sent last.
  lemma TurnSends(w: World, p: Snapshot)
    requires Inv(w) && Allowed(w, Read(p)) && w.connection.Some? && w.Current().HasData()
    ensures
      var t := Next(Next(w, Read(p)), Send);
      Inv(t) && t.connection.Some? && t.connection.value.latest == Some(p) && t.past == w.past
  {
    ReadKeeps(w, p);
    TurnShape(w, p);
    SendKeeps(Next(w, Read(p)));
    if w.connection.value.latest.Some? {
      LatestBound(w, p);
    }
    TurnLatest(w.connection.value.(captured := Some(p)), p);
  }

  function ReceiveAll(w: World, canSave: bool): (r: World)
    requires w.Live()
    ensures r.Live()
    decreases if w.connection.Some? then |w.connection.value.queue| else 0
  {
    if w.connection.None? || w.connection.value.queue == [] then w else ReceiveAll(Next(w, Receive(canSave)), canSave)
  }

  lemma {:induction false} AllReceived(w: World, canSave: bool, p: Snapshot)
    requires Inv(w) && w.connection.Some? && w.connection.value.latest == Some(p)
    ensures
      var r := ReceiveAll(w, canSave);
      && Inv(r) && r.past == w.past && r.node == w.node
      && r.connection.Some? && r.connection.value.queue == [] && r.connection.value.latest == Some(p)
    decreases |w.connection.value.queue|
  {
    if w.connection.value.queue != [] {
      ReceiveKeeps(w, canSave);
      ReceiveShape(w, canSave);
      AllReceived(Next(w, Receive(canSave)), canSave, p);
    }
  }

  // Once the pump has had a turn and the stream is drained, a display that was connected at any
  // moment, resumed or not, shows the current state, provided there is data and it can be published.
  lemma DrainedIsCurrent(w: World, p: Snapshot, canSave: bool)
    requires Inv(w) && SafeId(w.node) && Allowed(w, Read(p)) && w.connection.Some?
    requires w.Current().HasData() && StateRuns.Publishable(w.Current())
    ensures ReceiveAll(Next(Next(w, Read(p)), Send), canSave).held == Some(p)
  {
    var t := Next(Next(w, Read(p)), Send);
    TurnSends(w, p);
    AllReceived(t, canSave, p);
    var r := ReceiveAll(t, canSave);
    ValidIffPublishable(p, w.Current());
    assert UpTo(r.held, p);
    CurrentIsUnique(r, p, r.held.value);
  }

  // The same, from any run of the system.
  lemma MirrorConverges(node: string, epoch: string, steps: seq<Step>, p: Snapshot, canSave: bool)
    requires SafeId(node) && SafeId(epoch) && AllowedRun(Start(node, epoch), steps)
    requires
      var w := Run(Start(node, epoch), steps);
      && IsSnapshotOf(p, w.Epoch(), w.node, w.Current()) && w.connection.Some?
      && w.Current().HasData() && StateRuns.Publishable(w.Current())
    ensures
      var w := Run(Start(node, epoch), steps);
      ReceiveAll(Next(Next(w, Read(p)), Send), canSave).held == Some(p)
  {
    StartInv(node, epoch);
    InvRun(Start(node, epoch), steps);
    RunNode(Start(node, epoch), steps);
    DrainedIsCurrent(Run(Start(node, epoch), steps), p, canSave);
  }

  lemma {:induction false} RunNode(w: World, steps: seq<Step>)
    requires w.Live()
    ensures Run(w, steps).node == w.node
    decreases |steps|
  {
    if steps != [] {
      RunNode(Next(w, steps[0]), steps[1..]);
    }
  }

  // While there is no data nothing is sent, so a display keeps what it had.
  lemma NoDataNothingSent(w: World)
    requires Inv(w) && !w.Current().HasData()
    ensures Next(w, Send).held == w.held
    ensures w.connection.Some? ==> Next(w, Send).connection.value.queue == w.connection.value.queue
  {
  }
}
