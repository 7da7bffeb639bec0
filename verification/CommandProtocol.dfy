/**
 The whole command protocol: the daemon's bus, a channel that may lose, repeat, delay and reorder
 commands and replies, and one display. Both processes may crash and restart at any step
 (internal/commandbus/bus.go, internal/nodeapi/stream.go:92-195, internal/remotecontrol).
 */
module CommandProtocol {
  import opened Wrappers
  import opened Protocol
  import opened CommandBus
  import B = BusRuns
  import D = DisplayRuns
  import RemoteControl
  import Rotation

  // issued: the commands Publish has ever returned. sent and replies: what either side has ever put
  // on the wire. collections: the refresh commands for which a collection was triggered.
  datatype System = System(
    bus: B.World, issued: map<string, DisplayCommand>, sent: set<DisplayCommand>,
    process: D.Process, replies: set<CommandResult>, collections: seq<string>)

  datatype Step = OnBus(bus: B.Step) | OnDisplay(display: D.Step)

  // ----- the bus as the stream uses it -----

  function PublishedEntry(img: Image, step: B.Step): Option<Entry> {
    if !step.Publish? then None
    else
      match PublishSpec(img, step.deviceId, step.request, step.uuid, step.evictedAt, step.now, step.persisted).1
      case Success(entry) => Some(entry)
      case Failure(_) => None
  }

  // What pump puts on the wire of one device.
  function Handed(img: Image, deviceId: string, step: B.Step): set<DisplayCommand> {
    if !step.Pending? || step.deviceId != deviceId then {}
    else
      match PendingSpec(img, step.deviceId, step.sent, step.now, step.persisted).1
      case Success(commands) => set c <- commands :: Wire(c)
      case Failure(_) => {}
  }

  // The collections drain triggers: one for a first accepted refresh command that decodes.
  function Triggered(img: Image, step: B.Step): seq<string> {
    if !step.Record? then []
    else
      match RecordSpec(img, step.deviceId, step.result, step.now, step.persisted).1
      case Success((entry, true)) =>
        if entry.command.kind == RefreshData && Decode(RefreshData, entry.command.params).Some?
        then [entry.command.commandId] else []
      case _ => []
  }

  function OnBusNext(s: System, deviceId: string, step: B.Step): System {
    var published := PublishedEntry(s.bus.img, step);
    s.(bus := B.Next(s.bus, step),
       issued := if published.Some? then s.issued[published.value.command.commandId := published.value.command] else s.issued,
       sent := s.sent + Handed(s.bus.img, deviceId, step),
       collections := s.collections + Triggered(s.bus.img, step))
  }

  ghost function Next(s: System, deviceId: string, step: Step): (r: System)
    requires s.process.Ready() && Allowed(s, deviceId, step)
    ensures r.process.Ready()
  {
    match step
    case OnBus(b) => OnBusNext(s, deviceId, b)
    case OnDisplay(d) =>
      var (process, more) := D.Next(s.process, deviceId, d);
      s.(process := process, replies := s.replies + more)
  }

  // The display gets only what was sent to it, and results in its name are its own: they were
  // replied before and pass the checks of the decoder. Other devices may answer anything.
  ghost predicate Allowed(s: System, deviceId: string, step: Step) {
    match step
    case OnBus(b) =>
      && B.Allowed(s.bus, b)
      && (b.Record? && b.deviceId == deviceId ==> b.result in s.replies && ValidResult(b.result))
    case OnDisplay(d) =>
      && (d.Begin? ==> d.command in s.sent)
      && (d.Boot? ==> d.router.Valid())
  }

  ghost predicate AllowedRun(s: System, deviceId: string, steps: seq<Step>)
    requires s.process.Ready()
    decreases |steps|
  {
    steps != [] ==>
      Allowed(s, deviceId, steps[0]) && AllowedRun(Next(s, deviceId, steps[0]), deviceId, steps[1..])
  }

  ghost function Run(s: System, deviceId: string, steps: seq<Step>): (r: System)
    requires s.process.Ready() && AllowedRun(s, deviceId, steps)
    ensures r.process.Ready()
    decreases |steps|
  {
    if steps == [] then s else Run(Next(s, deviceId, steps[0]), deviceId, steps[1..])
  }

  // Both sides without a file.
  function Start(clock: int): System {
    System(B.Start(clock), map[], {}, D.Down(None, []), {}, [])
  }

  // ----- where a bus entry comes from -----

  // The three ends that the daemon itself puts to a command, each with its code: past its time before
  // it was accepted, without a final result five minutes after, or to make room for a new command.
  predicate Ended(a: Entry, b: Entry, now: int, status: Status, code: string, durationMs: int) {
    b.result == CommandResult(a.result.commandId, a.result.sequence, status, code, a.result.receivedAt, Some(now), durationMs)
  }

  predicate TimedOut(a: Entry, b: Entry, now: int) {
    var ms := Milliseconds(now - a.result.receivedAt);
    if a.result.status == Published then now >= a.command.expiresAt && Ended(a, b, now, Expired, "expired", ms)
    else a.result.status == Accepted && now - a.result.receivedAt >= 300 * Rotation.SECOND && Ended(a, b, now, Failed, "execution_timeout", ms)
  }

  predicate MadeRoom(a: Entry, b: Entry, now: int) {
    && a.result.status == Published && a.command.priority == Normal
    && Ended(a, b, now, Failed, "overflow", a.result.durationMs)
  }

  // The result that the command's own device sent in, with the time of its arrival if it has none.
  predicate Answered(a: Entry, b: Entry, deviceId: string, result: CommandResult, now: int) {
    && !a.Final() && deviceId == a.command.deviceId
    && result.commandId == a.command.commandId && result.sequence == a.command.sequence
    && (result.status == Accepted || result.status.Final())
    && b.result == if result.receivedAt == ZERO_TIME then result.(receivedAt := now) else result
  }

  // Why the result of an entry is another one after the step.
  predicate Explained(step: B.Step, a: Entry, b: Entry) {
    || b == a
    || match step
       case Publish(_, _, _, evictedAt, _, _) => MadeRoom(a, b, evictedAt)
       case Pending(_, _, now, _) => TimedOut(a, b, now)
       case Get(_, now, _) => TimedOut(a, b, now)
       case Record(deviceId, result, now, _) => Answered(a, b, deviceId, result, now)
       case Restart(_) => false
  }

  ghost predicate Inherits(b: Entry, es: seq<Entry>, step: B.Step) {
    exists a <- es :: B.Advances(a, b) && Explained(step, a, b)
  }

  predicate Answers(step: B.Step, b: Entry) {
    && step.Record? && step.result.status == Executed
    && step.result.commandId == b.command.commandId && step.deviceId == b.command.deviceId
  }

  ghost predicate AllInherit(es: seq<Entry>, es': seq<Entry>, step: B.Step) {
    forall b <- es' :: Inherits(b, es, step)
  }

  lemma SameInherit(es: seq<Entry>, step: B.Step)
    ensures AllInherit(es, es, step)
  {
    forall b <- es
      ensures Inherits(b, es, step)
    {
      assert B.Advances(b, b);
    }
  }

  lemma ExpiredInherit(es: seq<Entry>, now: int, step: B.Step)
    requires (step.Pending? || step.Get?) && step.now == now
    ensures AllInherit(es, Expire(es, now), step)
  {
    forall b <- Expire(es, now)
      ensures Inherits(b, es, step)
    {
      var i :| 0 <= i < |es| && b == ExpireEntry(es[i], now);
      B.ExpireAdvances(es[i], now);
      assert es[i] in es && Explained(step, es[i], b);
    }
  }

  lemma UpdateInherits(es: seq<Entry>, i: nat, e: Entry, step: B.Step)
    requires i < |es| && B.Advances(es[i], e) && Explained(step, es[i], e)
    ensures AllInherit(es, es[i := e], step)
  {
    SameInherit(es, step);
    assert es[i] in es;
    forall b <- es[i := e]
      ensures Inherits(b, es, step)
    {
      assert b == e || b in es;
    }
  }

  lemma FewerInherit(es: seq<Entry>, all: seq<Entry>, some: seq<Entry>, step: B.Step)
    requires AllInherit(es, all, step) && forall e <- some :: e in all
    ensures AllInherit(es, some, step)
  {
  }

  lemma EvictedAdvances(e: Entry, now: int)
    requires Evictable(e)
    ensures B.Advances(e, Evicted(e, now)) && MadeRoom(e, Evicted(e, now), now)
  {
  }

  lemma RoomInherits(es: seq<Entry>, evictedAt: int, step: B.Step)
    requires step.Publish? && step.evictedAt == evictedAt
    ensures AllInherit(es, MakeRoom(es, evictedAt), step)
  {
    SameInherit(es, step);
    var i := FirstEvictable(es);
    if i < |es| {
      EvictedAdvances(es[i], evictedAt);
      UpdateInherits(es, i, Evicted(es[i], evictedAt), step);
    }
  }

  lemma RecordedInherit(s: State, step: B.Step, i: nat)
    requires step.Record? && B.Shape(s) && i < |s.entries| && s.entries[i].command.commandId == step.result.commandId
    requires RecordError(s.entries[i], step.deviceId, step.result).None? && !s.entries[i].Final()
    ensures AllInherit(s.entries, Trim(s.entries[i := Recorded(s.entries[i], step.result, step.now)]), step)
  {
    var es := s.entries;
    var e := Recorded(es[i], step.result, step.now);
    assert es[i] in es;
    B.RecordedAdvances(es[i], step.result, step.now);
    UpdateInherits(es, i, e, step);
    B.TrimDescends(es[i := e]);
    FewerInherit(es, es[i := e], Trim(es[i := e]), step);
  }

  lemma RecordInherits(img: Image, step: B.Step)
    requires step.Record? && B.Shape(img.mem)
    ensures AllInherit(img.mem.entries, B.NextImage(img, step).mem.entries, step)
  {
    var es := img.mem.entries;
    B.RecordCases(img, step);
    SameInherit(es, step);
    if B.NextImage(img, step) != img {
      RecordedInherit(img.mem, step, Find(es, step.result.commandId));
    }
  }

  lemma PublishedOrInherited(img: Image, step: B.Step, b: Entry)
    requires step.Publish? && b in B.NextImage(img, step).mem.entries
    ensures Inherits(b, img.mem.entries, step) || PublishedEntry(img, step) == Some(b)
  {
    var es, room := img.mem.entries, MakeRoom(img.mem.entries, step.evictedAt);
    var published := PublishedEntry(img, step);
    SameInherit(es, step);
    RoomInherits(es, step.evictedAt, step);
    if published.Some? {
      B.TrimDescends(room + [published.value]);
      assert b in room + [published.value];
    } else {
      assert B.NextImage(img, step).mem.entries in {es, room};
    }
  }

  lemma ExpiryInherits(img: Image, step: B.Step)
    requires step.Pending? || step.Get?
    ensures AllInherit(img.mem.entries, B.NextImage(img, step).mem.entries, step)
  {
    var es := img.mem.entries;
    assert B.NextImage(img, step).mem.entries in {es, Expire(es, step.now)};
    SameInherit(es, step);
    ExpiredInherit(es, step.now, step);
  }

  // After a step every entry is the published one or what became of an entry, for one of the reasons
  // above if its result is another one.
  lemma EntryOrigin(img: Image, step: B.Step, b: Entry)
    requires !step.Restart? && B.Shape(img.mem) && b in B.NextImage(img, step).mem.entries
    ensures Inherits(b, img.mem.entries, step) || PublishedEntry(img, step) == Some(b)
  {
    if step.Publish? {
      PublishedOrInherited(img, step, b);
    } else if step.Record? {
      RecordInherits(img, step);
    } else {
      ExpiryInherits(img, step);
    }
  }

  // ----- the invariant -----

  ghost predicate IssuedWell(s: System) {
    AllIssuedWell(s.issued, s.bus.used, s.bus.img.mem.sequence)
  }

  ghost predicate EntryWell(issued: map<string, DisplayCommand>, e: Entry) {
    && e.command.commandId in issued
    && e.command.(params := issued[e.command.commandId].params) == issued[e.command.commandId]
    && (!e.Final() ==> Wire(e.command) == Wire(issued[e.command.commandId]))
  }

  ghost predicate EntrySound(history: seq<RemoteControl.Event>, deviceId: string, e: Entry) {
    e.result.status == Executed && e.command.deviceId == deviceId ==> D.Evidence(history, e.command.commandId)
  }

  ghost predicate EntriesWell(s: System, deviceId: string, es: seq<Entry>) {
    forall e <- es :: EntryWell(s.issued, e) && EntrySound(s.process.History(), deviceId, e)
  }

  ghost predicate SentWell(s: System) {
    forall c <- s.sent :: c.commandId in s.issued && Wire(s.issued[c.commandId]) == c
  }

  ghost predicate CollectionsWell(s: System) {
    B.NoDuplicates(s.collections) && forall id <- s.collections :: id in s.bus.accepted
  }

  ghost predicate Inv(s: System, deviceId: string) {
    && B.Inv(s.bus) && IssuedWell(s) && SentWell(s) && CollectionsWell(s)
    && EntriesWell(s, deviceId, s.bus.img.mem.entries) && EntriesWell(s, deviceId, s.bus.img.disk.entries)
    && D.Inv(s.process, deviceId, s.sent, s.replies)
  }

  lemma StartInv(clock: int, deviceId: string)
    ensures Inv(Start(clock), deviceId)
  {
    B.StartInv(clock);
  }

  // ----- bus steps -----

  lemma PublishedIsNew(s: System, step: B.Step)
    requires B.Inv(s.bus) && IssuedWell(s) && B.Allowed(s.bus, step) && PublishedEntry(s.bus.img, step).Some?
    ensures
      var c := PublishedEntry(s.bus.img, step).value.command;
      && c.commandId !in s.issued && c.commandId in B.Next(s.bus, step).used
      && c.sequence == s.bus.img.mem.sequence + 1 == B.Next(s.bus, step).img.mem.sequence
      && PublishedEntry(s.bus.img, step).value.result.status == Published
  {
  }

  lemma SequenceGrows(img: Image, step: B.Step)
    requires img.mem.sequence == img.disk.sequence
    ensures img.mem.sequence <= B.NextImage(img, step).mem.sequence
  {
  }

  ghost predicate AllIssuedWell(issued: map<string, DisplayCommand>, used: set<string>, sequence: nat) {
    && (forall id <- issued :: issued[id].commandId == id && id in used && issued[id].sequence <= sequence)
    && (forall x, y :: x in issued && y in issued && issued[x].sequence == issued[y].sequence ==> x == y)
  }

  lemma IssueOne(issued: map<string, DisplayCommand>, used: set<string>, sequence: nat, c: DisplayCommand)
    requires AllIssuedWell(issued, used, sequence) && c.sequence == sequence + 1
    ensures AllIssuedWell(issued[c.commandId := c], used + {c.commandId}, sequence + 1)
  {
  }

  lemma IssuedStep(s: System, deviceId: string, step: B.Step)
    requires Inv(s, deviceId) && B.Allowed(s.bus, step)
    ensures IssuedWell(OnBusNext(s, deviceId, step))
    ensures forall id <- s.issued :: id in OnBusNext(s, deviceId, step).issued && OnBusNext(s, deviceId, step).issued[id] == s.issued[id]
  {
    SequenceGrows(s.bus.img, step);
    assert AllIssuedWell(s.issued, s.bus.used, s.bus.img.mem.sequence);
    if PublishedEntry(s.bus.img, step).Some? {
      var c := PublishedEntry(s.bus.img, step).value.command;
      PublishedIsNew(s, step);
      IssueOne(s.issued, s.bus.used, s.bus.img.mem.sequence, c);
      assert B.Next(s.bus, step).used == s.bus.used + {c.commandId};
    } else {
      assert s.bus.used <= B.Next(s.bus, step).used;
    }
  }

  lemma EntryStays(s: System, issued: map<string, DisplayCommand>, deviceId: string, step: B.Step, b: Entry)
    requires forall id <- s.issued :: id in issued && issued[id] == s.issued[id]
    requires EntriesWell(s, deviceId, s.bus.img.mem.entries) && Inherits(b, s.bus.img.mem.entries, step)
    requires Answers(step, b) && b.command.deviceId == deviceId ==> D.Evidence(s.process.History(), step.result.commandId)
    ensures EntryWell(issued, b) && EntrySound(s.process.History(), deviceId, b)
  {
    var a :| a in s.bus.img.mem.entries && B.Advances(a, b) && Explained(step, a, b);
    assert EntryWell(s.issued, a) && EntrySound(s.process.History(), deviceId, a);
  }

  lemma MemoryStep(s: System, deviceId: string, step: B.Step)
    requires Inv(s, deviceId) && Allowed(s, deviceId, OnBus(step)) && !step.Restart?
    ensures EntriesWell(OnBusNext(s, deviceId, step), deviceId, OnBusNext(s, deviceId, step).bus.img.mem.entries)
  {
    var t := OnBusNext(s, deviceId, step);
    IssuedStep(s, deviceId, step);
    forall b <- t.bus.img.mem.entries
      ensures EntryWell(t.issued, b) && EntrySound(s.process.History(), deviceId, b)
    {
      EntryOrigin(s.bus.img, step, b);
      if PublishedEntry(s.bus.img, step) == Some(b) {
        PublishedIsNew(s, step);
      } else {
        if Answers(step, b) && b.command.deviceId == deviceId {
          assert D.JustifiedResult(s.process.History(), step.result);
        }
        EntryStays(s, t.issued, deviceId, step, b);
      }
    }
  }

  lemma DiskStep(s: System, deviceId: string, step: B.Step)
    requires Inv(s, deviceId) && Allowed(s, deviceId, OnBus(step))
    ensures EntriesWell(OnBusNext(s, deviceId, step), deviceId, OnBusNext(s, deviceId, step).bus.img.disk.entries)
    ensures EntriesWell(OnBusNext(s, deviceId, step), deviceId, OnBusNext(s, deviceId, step).bus.img.mem.entries)
  {
    var t := OnBusNext(s, deviceId, step);
    IssuedStep(s, deviceId, step);
    OldEntriesStay(s, t, deviceId, s.bus.img.disk.entries);
    if step.Restart? {
      LoadedWell(t, deviceId, s.bus.img.disk);
    } else {
      MemoryStep(s, deviceId, step);
      B.StepProgress(s.bus.img, step, s.bus.used);
    }
  }

  lemma LoadedWell(s: System, deviceId: string, disk: State)
    requires EntriesWell(s, deviceId, disk.entries)
    ensures EntriesWell(s, deviceId, Loaded(disk).entries)
  {
    forall x <- Loaded(disk).entries
      ensures EntryWell(s.issued, x) && EntrySound(s.process.History(), deviceId, x)
    {
      var i :| 0 <= i < |disk.entries| && x == disk.entries[i].(command := Wire(disk.entries[i].command));
      assert EntryWell(s.issued, disk.entries[i]) && EntrySound(s.process.History(), deviceId, disk.entries[i]);
    }
  }

  lemma OldEntriesStay(s: System, t: System, deviceId: string, es: seq<Entry>)
    requires EntriesWell(s, deviceId, es) && t.process.History() == s.process.History()
    requires forall id <- s.issued :: id in t.issued && t.issued[id] == s.issued[id]
    ensures EntriesWell(t, deviceId, es)
  {
    forall e <- es
      ensures EntryWell(t.issued, e) && EntrySound(t.process.History(), deviceId, e)
    {
      assert EntryWell(s.issued, e) && EntrySound(s.process.History(), deviceId, e);
    }
  }

  // What pump sends are live entries of the device, which are as they were issued.
  lemma HandedWell(s: System, deviceId: string, step: B.Step)
    requires Inv(s, deviceId) && Allowed(s, deviceId, OnBus(step))
    ensures SentWell(OnBusNext(s, deviceId, step))
    ensures forall c <- Handed(s.bus.img, deviceId, step) :: c.deviceId == deviceId
  {
    var es := s.bus.img.mem.entries;
    IssuedStep(s, deviceId, step);
    forall c <- Handed(s.bus.img, deviceId, step)
      ensures c.commandId in s.issued && Wire(s.issued[c.commandId]) == c && c.deviceId == deviceId
    {
      var cs := PendingSpec(s.bus.img, deviceId, step.sent, step.now, step.persisted).1.value;
      var x :| x in cs && c == Wire(x);
      B.PendingIsLive(s.bus.img, deviceId, step.sent, step.now, step.persisted);
      assert B.Live(x, es, step.now);
      var e :| e in es && e.command == x && !e.Final() && !Due(e, step.now);
      assert EntryWell(s.issued, e);
    }
  }

  lemma CollectionStep(s: System, deviceId: string, step: B.Step)
    requires Inv(s, deviceId) && Allowed(s, deviceId, OnBus(step))
    ensures CollectionsWell(OnBusNext(s, deviceId, step))
  {
    B.InvStep(s.bus, step);
    var more := Triggered(s.bus.img, step);
    assert more == [] || more == B.FirstAccepted(s.bus.img, step);
    if more != [] {
      NewAtEnd(s.bus.accepted, more[0]);
    }
  }

  lemma NewAtEnd(ids: seq<string>, id: string)
    requires B.NoDuplicates(ids + [id])
    ensures id !in ids
  {
    forall i | 0 <= i < |ids|
      ensures ids[i] != id
    {
      assert (ids + [id])[i] != (ids + [id])[|ids|];
    }
  }

  lemma BusStepInv(s: System, deviceId: string, step: B.Step)
    requires Inv(s, deviceId) && Allowed(s, deviceId, OnBus(step))
    ensures Inv(OnBusNext(s, deviceId, step), deviceId)
  {
    B.InvStep(s.bus, step);
    IssuedStep(s, deviceId, step);
    DiskStep(s, deviceId, step);
    HandedWell(s, deviceId, step);
    CollectionStep(s, deviceId, step);
    D.MoreSent(s.process, deviceId, s.sent, Handed(s.bus.img, deviceId, step), s.replies);
  }

  // ----- display steps -----

  lemma DisplayStepInv(s: System, deviceId: string, step: D.Step)
    requires Inv(s, deviceId) && Allowed(s, deviceId, OnDisplay(step))
    ensures Inv(Next(s, deviceId, OnDisplay(step)), deviceId)
  {
    var t := Next(s, deviceId, OnDisplay(step));
    D.StepKeeps(s.process, deviceId, step, s.sent, s.replies);
    D.HistoryGrows(s.process, deviceId, step);
    LaterHistory(s, t, deviceId, s.bus.img.mem.entries);
    LaterHistory(s, t, deviceId, s.bus.img.disk.entries);
  }

  lemma LaterHistory(s: System, t: System, deviceId: string, es: seq<Entry>)
    requires EntriesWell(s, deviceId, es) && t.issued == s.issued && s.process.History() <= t.process.History()
    ensures EntriesWell(t, deviceId, es)
  {
    var h, h' := s.process.History(), t.process.History();
    forall e <- es
      ensures EntryWell(t.issued, e) && EntrySound(h', deviceId, e)
    {
      assert EntryWell(s.issued, e) && EntrySound(h, deviceId, e);
      if e.result.status == Executed && e.command.deviceId == deviceId {
        D.EvidenceGrows(h, h'[|h|..], e.command.commandId);
        assert h + h'[|h|..] == h';
      }
    }
  }

  lemma {:induction false} InvRun(s: System, deviceId: string, steps: seq<Step>)
    requires Inv(s, deviceId) && AllowedRun(s, deviceId, steps)
    ensures Inv(Run(s, deviceId, steps), deviceId)
    decreases |steps|
  {
    if steps != [] {
      match steps[0] {
        case OnBus(b) => BusStepInv(s, deviceId, b);
        case OnDisplay(d) => DisplayStepInv(s, deviceId, d);
      }
      InvRun(Next(s, deviceId, steps[0]), deviceId, steps[1..]);
    }
  }

  // ----- the theorems -----

  // A command acts on the display at most once, and the commands that act do so in the order in
  // which they were published.
  lemma AtMostOnce(clock: int, deviceId: string, steps: seq<Step>, i: nat, j: nat)
    requires AllowedRun(Start(clock), deviceId, steps)
    requires i < j < |Run(Start(clock), deviceId, steps).process.History()|
    ensures
      var h := Run(Start(clock), deviceId, steps).process.History();
      h[i].Performed? && h[j].Performed? ==>
        && h[i].command.sequence < h[j].command.sequence
        && h[i].command.commandId != h[j].command.commandId
  {
    StartInv(clock, deviceId);
    InvRun(Start(clock), deviceId, steps);
    var s := Run(Start(clock), deviceId, steps);
    var h := s.process.History();
    assert h[i] in h && h[j] in h;
    assert D.Requested(h[i], deviceId, s.sent) && D.Requested(h[j], deviceId, s.sent);
  }

  // Nothing acts on the display but what was published for it, just as it was published, and never a
  // command that was published without parameters.
  lemma OnlyPublishedActs(clock: int, deviceId: string, steps: seq<Step>, e: RemoteControl.Event)
    requires AllowedRun(Start(clock), deviceId, steps)
    requires e in Run(Start(clock), deviceId, steps).process.History() && e.Performed?
    ensures
      var issued := Run(Start(clock), deviceId, steps).issued;
      && e.command.commandId in issued && issued[e.command.commandId] == e.command
      && e.command.deviceId == deviceId && !e.command.params.Absent?
  {
    StartInv(clock, deviceId);
    InvRun(Start(clock), deviceId, steps);
    var s := Run(Start(clock), deviceId, steps);
    assert D.Requested(e, deviceId, s.sent);
  }

  // Whenever the bus, in memory or in its file, says that a command was executed, the display has
  // done it: it acted on that very command, or, for a refresh, applied a snapshot newer than the
  // baseline it had taken when it accepted the command. So no command published without parameters
  // ever becomes executed.
  lemma ExecutedIsDone(clock: int, deviceId: string, steps: seq<Step>, e: Entry)
    requires AllowedRun(Start(clock), deviceId, steps)
    requires
      var img := Run(Start(clock), deviceId, steps).bus.img;
      e in img.mem.entries || e in img.disk.entries
    requires e.result.status == Executed && e.command.deviceId == deviceId
    ensures
      var s := Run(Start(clock), deviceId, steps);
      var id := e.command.commandId;
      && id in s.issued && !s.issued[id].params.Absent?
      && if e.command.kind == RefreshData then D.DidRefresh(s.process.History(), id)
         else RemoteControl.Performed(s.issued[id], true) in s.process.History()
  {
    StartInv(clock, deviceId);
    InvRun(Start(clock), deviceId, steps);
    var s := Run(Start(clock), deviceId, steps);
    var h, id := s.process.History(), e.command.commandId;
    assert EntryWell(s.issued, e) && EntrySound(h, deviceId, e);
    if D.DidPerform(h, id) {
      var x :| x in h && x.Performed? && x.done && x.command.commandId == id;
      assert D.Requested(x, deviceId, s.sent);
    } else {
      var i, j :| D.RefreshedBy(h, id, i, j);
      assert h[i] in h && D.Requested(h[i], deviceId, s.sent);
      var c :| c in s.sent && c.commandId == id && c.kind == RefreshData && ValidParams(c.kind, c.params);
      assert Wire(s.issued[id]) == c;
    }
  }

  // A refresh command triggers at most one collection, over restarts of the daemon as well.
  lemma CollectedOnce(clock: int, deviceId: string, steps: seq<Step>)
    requires AllowedRun(Start(clock), deviceId, steps)
    ensures B.NoDuplicates(Run(Start(clock), deviceId, steps).collections)
  {
    StartInv(clock, deviceId);
    InvRun(Start(clock), deviceId, steps);
  }
}
