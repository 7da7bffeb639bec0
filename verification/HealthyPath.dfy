/**
 The path on which nothing goes wrong: a published command travels to the display, is answered there,
 and the bus learns of it (internal/commandbus/bus.go, internal/nodeapi/stream.go,
 internal/remotecontrol/controller.go). It shows where the runs of the
 protocol can get with each request that the bus takes.
 */
module HealthyPath {
  import opened Wrappers
  import opened Protocol
  import opened CommandBus
  import opened CommandProtocol
  import B = BusRuns
  import D = DisplayRuns
  import RemoteControl
  import ResultStore
  import RouterModel
  import Rotation

  // One request, and the moment at which everything happens.
  datatype Case = Case(deviceId: string, request: CommandRequest, uuid: string, t: int, router: RouterModel.State) {
    ghost predicate Fine() {
      && ValidateRequest(request).None? && ValidUuid(uuid) && SafeId(deviceId) && t > ZERO_TIME && router.Valid()
    }

    function Command(): DisplayCommand {
      NewCommand(EMPTY, deviceId, request, uuid, t)
    }

    // What the display is sent.
    function Received(): DisplayCommand {
      Wire(Command())
    }

    function Accepted(): CommandResult {
      CommandResult(uuid, 1, Status.Accepted, "", t, None, 0)
    }

    function Executed(): CommandResult {
      CommandResult(uuid, 1, Status.Executed, "", t, Some(t), 0)
    }

    function Refused(): CommandResult {
      CommandResult(uuid, 1, Status.Rejected, "invalid_param", t, Some(t), 0)
    }

    function Now(): RemoteControl.Outcome {
      RemoteControl.Outcome(t, true)
    }
  }

  lemma Alone(e: Entry)
    ensures Trim([e]) == [e] && Find([e], e.command.commandId) == 0 && PendingCount([e]) == if e.Final() then 0 else 1
  {
    assert [e][..0] == [];
    assert Finals([e]) == if e.Final() then 1 else 0;
  }

  lemma NotDue(k: Case)
    requires k.Fine()
    ensures !Due(NewEntry(k.Command(), k.t), k.t)
  {
  }

  function Queue(e: Entry): Image {
    Image(State(1, [e]), State(1, [e]))
  }

  lemma Published(k: Case)
    requires k.Fine()
    ensures
      var step := B.Publish(k.deviceId, k.request, Some(k.uuid), k.t, k.t, true);
      && B.Allowed(B.Start(k.t), step) && B.Next(B.Start(k.t), step).img == Queue(NewEntry(k.Command(), k.t))
      && PublishedEntry(B.Start(k.t).img, step) == Some(NewEntry(k.Command(), k.t))
  {
    var e := NewEntry(k.Command(), k.t);
    Alone(e);
    assert [] + [e] == [e];
  }

  lemma OneSendable(e: Entry, deviceId: string)
    requires e.command.deviceId == deviceId && !e.Final()
    ensures SendableCommands([e], deviceId, {}) == [e.command]
  {
    assert [e][..0] == [];
    assert SendableCommands([], deviceId, {}) == [];
    assert [] + [e.command] == [e.command];
  }

  // A queue with one entry that is not due hands its command to the device.
  lemma HandedOut(e: Entry, deviceId: string, now: int)
    requires e.command.deviceId == deviceId && !e.Final() && !Due(e, now)
    ensures PendingSpec(Queue(e), deviceId, {}, now, true) == (Queue(e), Success([e.command]))
    ensures B.NextImage(Queue(e), B.Pending(deviceId, {}, now, true)) == Queue(e)
    ensures Wire(e.command) in Handed(Queue(e), deviceId, B.Pending(deviceId, {}, now, true))
  {
    assert Expire([e], now) == [e];
    OneSendable(e, deviceId);
    assert !AnyDue([e], now);
    var handed := Handed(Queue(e), deviceId, B.Pending(deviceId, {}, now, true));
    assert PendingSpec(Queue(e), deviceId, {}, now, true).1 == Success([e.command]);
    assert handed == set c <- [e.command] :: Wire(c);
    assert [e.command][0] == e.command;
    assert e.command in [e.command];
    assert Wire(e.command) in set c <- [e.command] :: Wire(c);
  }

  ghost predicate Issued(k: Case, s: System) {
    k.uuid in s.issued && s.issued[k.uuid] == k.Command() && s.collections == []
  }

  // The display after booting.
  ghost function Booted(k: Case): RemoteControl.Display {
    RemoteControl.Display(ResultStore.Image(ResultStore.EMPTY_LEDGER, ResultStore.EMPTY_LEDGER),
                          RemoteControl.Ui(k.router, None), "", 0, [])
  }

  // What the display files on accepting the command.
  function Filed(k: Case): ResultStore.Record {
    ResultStore.NewRecord(k.Command(), "", 0, k.t).(pendingRefresh := k.request.kind == RefreshData)
  }

  lemma Begins(k: Case)
    requires k.Fine() && !k.request.params.Absent?
    ensures
      var (d, begun) := RemoteControl.BeginSpec(Booted(k), k.deviceId, k.Command(), k.t, k.Now());
      && d.ledger.mem.records == [Filed(k)] && d.ui == Booted(k).ui
      && begun == if k.request.kind == RefreshData then RemoteControl.Waiting(k.Accepted()) else RemoteControl.Started(k.Accepted())
  {
    PublishedCommandValid(k.Command(), k.request, k.t);
    assert [] + [Filed(k)] == [Filed(k)];
  }

  lemma Refuses(k: Case)
    requires k.Fine() && k.request.params.Absent?
    ensures RemoteControl.BeginSpec(Booted(k), k.deviceId, k.Received(), k.t, k.Now()).1 == RemoteControl.Replied(k.Refused())
  {
    PublishedCommandValid(k.Command(), k.request, k.t);
  }

  lemma Finishes(k: Case, d: RemoteControl.Display)
    requires d.ledger.mem.records == [Filed(k)]
    ensures RemoteControl.FinishSpec(d, k.Command(), (Status.Executed, ""), k.Now(), k.t).1 == k.Executed()
  {
  }

  // The first snapshot answers a refresh that was accepted before there was any.
  lemma Refreshes(k: Case, d: RemoteControl.Display)
    requires d.ledger.mem.records == [Filed(k)] && k.request.kind == RefreshData
    ensures RemoteControl.SnapshotSpec(d, "epoch", 1, n => k.Now()).1 == [k.Executed()]
  {
    var rs := [Filed(k)];
    assert rs[..0] == [];
    assert ResultStore.PendingRefreshes(rs) == rs;
    assert ResultStore.Find(rs, k.uuid) == 0;
    assert RemoteControl.CompleteFirst(d.ledger, rs, 0, "epoch", 1, n => k.Now()) == (d.ledger, []);
  }

  lemma Recorded(k: Case, e: Entry, result: CommandResult)
    requires k.t > ZERO_TIME && !e.Final() && e.command == k.Command() && result in {k.Accepted(), k.Executed(), k.Refused()}
    ensures
      var step := B.Record(k.deviceId, result, k.t, true);
      var after := CommandBus.Recorded(e, result, k.t);
      && B.NextImage(Queue(e), step) == Queue(after) && after.result == result
      && Triggered(Queue(e), step) == if result == k.Accepted() && e.result.status != Status.Accepted && k.request.kind == RefreshData
                                         && Decode(RefreshData, k.request.params).Some? then [k.uuid] else []
  {
    var after := CommandBus.Recorded(e, result, k.t);
    Alone(e);
    Alone(after);
    assert [e][0 := after] == [after];
  }

  lemma Decodes(k: Case)
    requires k.Fine()
    ensures ValidResult(k.Accepted()) && ValidResult(k.Executed()) && ValidResult(k.Refused())
  {
    var code := "invalid_param";
    assert forall i :: 0 <= i < |code| ==> SafeChar(code[i]);
  }

  lemma {:induction false} Appended(s: System, deviceId: string, steps: seq<Step>, step: Step)
    requires s.process.Ready() && AllowedRun(s, deviceId, steps) && Allowed(Run(s, deviceId, steps), deviceId, step)
    ensures AllowedRun(s, deviceId, steps + [step])
    ensures Run(s, deviceId, steps + [step]) == Next(Run(s, deviceId, steps), deviceId, step)
    decreases |steps|
  {
    if steps == [] {
      assert [] + [step] == [step];
      assert [step][1..] == [];
    } else {
      assert (steps + [step])[1..] == steps[1..] + [step];
      Appended(Next(s, deviceId, steps[0]), deviceId, steps[1..], step);
    }
  }

  // The run up to the start of the display.
  lemma UpToBoot(k: Case) returns (steps: seq<Step>)
    requires k.Fine()
    ensures AllowedRun(Start(k.t), k.deviceId, steps)
    ensures
      var s := Run(Start(k.t), k.deviceId, steps);
      && s.bus.img == Queue(NewEntry(k.Command(), k.t)) && s.bus.clock == k.t && Issued(k, s)
      && k.Received() in s.sent && s.process == D.Up(Booted(k), D.Idle)
  {
    var s := Start(k.t);
    var publish := OnBus(B.Publish(k.deviceId, k.request, Some(k.uuid), k.t, k.t, true));
    var pending := OnBus(B.Pending(k.deviceId, {}, k.t, true));
    var boot := OnDisplay(D.Boot(k.t, true, k.router));
    steps := [];
    Published(k);
    Appended(s, k.deviceId, steps, publish);
    steps := steps + [publish];
    NotDue(k);
    HandedOut(NewEntry(k.Command(), k.t), k.deviceId, k.t);
    Appended(s, k.deviceId, steps, pending);
    steps := steps + [pending];
    Appended(s, k.deviceId, steps, boot);
    steps := steps + [boot];
  }

  lemma BeginStep(k: Case, s: System)
    requires k.Fine() && !k.request.params.Absent? && s.process == D.Up(Booted(k), D.Idle) && k.Received() in s.sent
    ensures
      var t := Next(s, k.deviceId, OnDisplay(D.Begin(k.Received(), k.t, k.Now(), k.t)));
      && t.bus == s.bus && t.issued == s.issued && t.collections == s.collections && t.process.Up? && t.process.display.ledger.mem.records == [Filed(k)]
      && if k.request.kind == RefreshData then t.process.pc == D.Idle && k.Accepted() in t.replies
         else t.process.pc == D.Begun(k.Command(), k.t, k.Accepted())
  {
    Begins(k);
  }

  lemma RefuseStep(k: Case, s: System)
    requires k.Fine() && k.request.params.Absent? && s.process == D.Up(Booted(k), D.Idle) && k.Received() in s.sent
    ensures
      var t := Next(s, k.deviceId, OnDisplay(D.Begin(k.Received(), k.t, k.Now(), k.t)));
      t.bus == s.bus && t.issued == s.issued && t.collections == s.collections && k.Refused() in t.replies
  {
    Refuses(k);
  }

  lemma PerformStep(k: Case, s: System)
    requires k.Fine() && s.process.Ready() && s.process.Up? && s.process.pc == D.Begun(k.Command(), k.t, k.Accepted())
    ensures
      var t := Next(s, k.deviceId, OnDisplay(D.Perform(Some(true))));
      && t.bus == s.bus && t.issued == s.issued && t.collections == s.collections && t.process.Up? && t.process.pc == D.ActedOn(k.Command(), (Status.Executed, ""), k.Accepted())
      && t.process.display.ledger == s.process.display.ledger
  {
  }

  lemma FinishStep(k: Case, s: System)
    requires k.Fine() && s.process.Ready() && s.process.Up?
    requires s.process.pc == D.ActedOn(k.Command(), (Status.Executed, ""), k.Accepted())
    requires s.process.display.ledger.mem.records == [Filed(k)]
    ensures
      var t := Next(s, k.deviceId, OnDisplay(D.Finish(k.Now(), k.t)));
      t.bus == s.bus && t.issued == s.issued && t.collections == s.collections && k.Accepted() in t.replies && k.Executed() in t.replies
  {
    Finishes(k, s.process.display);
  }

  lemma SnapshotStep(k: Case, s: System)
    requires k.Fine() && k.request.kind == RefreshData && s.process.Ready() && s.process.Up? && s.process.pc == D.Idle
    requires s.process.display.ledger.mem.records == [Filed(k)]
    ensures
      var t := Next(s, k.deviceId, OnDisplay(D.Snapshot("epoch", 1, n => k.Now())));
      t.bus == s.bus && t.issued == s.issued && t.collections == s.collections && s.replies <= t.replies && k.Executed() in t.replies
  {
    Refreshes(k, s.process.display);
    assert k.Executed() in [k.Executed()];
  }

  // The run up to the last reply of the display.
  lemma UpToReply(k: Case) returns (steps: seq<Step>)
    requires k.Fine() && !k.request.params.Absent?
    ensures AllowedRun(Start(k.t), k.deviceId, steps)
    ensures
      var s := Run(Start(k.t), k.deviceId, steps);
      && s.bus.img == Queue(NewEntry(k.Command(), k.t)) && s.bus.clock == k.t && Issued(k, s)
      && k.Accepted() in s.replies && k.Executed() in s.replies
  {
    var s := Start(k.t);
    var begin := OnDisplay(D.Begin(k.Received(), k.t, k.Now(), k.t));
    steps := UpToBoot(k);
    BeginStep(k, Run(s, k.deviceId, steps));
    Appended(s, k.deviceId, steps, begin);
    steps := steps + [begin];
    if k.request.kind == RefreshData {
      var snapshot := OnDisplay(D.Snapshot("epoch", 1, n => k.Now()));
      SnapshotStep(k, Run(s, k.deviceId, steps));
      Appended(s, k.deviceId, steps, snapshot);
      steps := steps + [snapshot];
    } else {
      steps := UpToFinish(k, steps);
    }
  }

  lemma UpToFinish(k: Case, begun: seq<Step>) returns (steps: seq<Step>)
    requires k.Fine() && AllowedRun(Start(k.t), k.deviceId, begun)
    requires
      var s := Run(Start(k.t), k.deviceId, begun);
      && s.bus.img == Queue(NewEntry(k.Command(), k.t)) && s.bus.clock == k.t && Issued(k, s) && s.process.Up?
      && s.process.pc == D.Begun(k.Command(), k.t, k.Accepted()) && s.process.display.ledger.mem.records == [Filed(k)]
    ensures AllowedRun(Start(k.t), k.deviceId, steps)
    ensures
      var s := Run(Start(k.t), k.deviceId, steps);
      && s.bus.img == Queue(NewEntry(k.Command(), k.t)) && s.bus.clock == k.t && Issued(k, s)
      && k.Accepted() in s.replies && k.Executed() in s.replies
  {
    var s := Start(k.t);
    var perform := OnDisplay(D.Perform(Some(true)));
    var finish := OnDisplay(D.Finish(k.Now(), k.t));
    steps := begun;
    PerformStep(k, Run(s, k.deviceId, steps));
    Appended(s, k.deviceId, steps, perform);
    steps := steps + [perform];
    FinishStep(k, Run(s, k.deviceId, steps));
    Appended(s, k.deviceId, steps, finish);
    steps := steps + [finish];
  }

  // With nothing going wrong, every valid request with parameters is executed, and a refresh makes the
  // daemon collect once.
  lemma PublishedGetsExecuted(k: Case) returns (steps: seq<Step>, e: Entry)
    requires k.Fine() && !k.request.params.Absent?
    ensures AllowedRun(Start(k.t), k.deviceId, steps)
    ensures
      var img := Run(Start(k.t), k.deviceId, steps).bus.img;
      && img.mem.entries == img.disk.entries == [e]
      && e.result.status == Status.Executed && e.command.(params := k.request.params) == k.Command()
      && IssuedOnly(k, Run(Start(k.t), k.deviceId, steps))
      && Run(Start(k.t), k.deviceId, steps).collections == if k.request.kind == RefreshData then [k.uuid] else []
  {
    var s := Start(k.t);
    steps := UpToReply(k);
    var published := NewEntry(k.Command(), k.t);
    var accepted := OnBus(B.Record(k.deviceId, k.Accepted(), k.t, true));
    var executed := OnBus(B.Record(k.deviceId, k.Executed(), k.t, true));
    Decodes(k);
    Recorded(k, published, k.Accepted());
    Appended(s, k.deviceId, steps, accepted);
    steps := steps + [accepted];
    var taken := CommandBus.Recorded(published, k.Accepted(), k.t);
    Recorded(k, taken, k.Executed());
    Appended(s, k.deviceId, steps, executed);
    steps := steps + [executed];
    e := CommandBus.Recorded(taken, k.Executed(), k.t);
  }

  // Without parameters the same run ends in a refusal, which is the most that such a request can get:
  // see ExecutedIsDone for the runs on which anything may happen.
  lemma AbsentGetsRefused(k: Case) returns (steps: seq<Step>, e: Entry)
    requires k.Fine() && k.request.params.Absent?
    ensures AllowedRun(Start(k.t), k.deviceId, steps)
    ensures
      var img := Run(Start(k.t), k.deviceId, steps).bus.img;
      && img.mem.entries == img.disk.entries == [e] && e.result == k.Refused() && e.command.commandId == k.uuid
  {
    var s := Start(k.t);
    var begin := OnDisplay(D.Begin(k.Received(), k.t, k.Now(), k.t));
    var refused := OnBus(B.Record(k.deviceId, k.Refused(), k.t, true));
    steps := UpToBoot(k);
    RefuseStep(k, Run(s, k.deviceId, steps));
    Appended(s, k.deviceId, steps, begin);
    steps := steps + [begin];
    Decodes(k);
    var published := NewEntry(k.Command(), k.t);
    Recorded(k, published, k.Refused());
    Appended(s, k.deviceId, steps, refused);
    steps := steps + [refused];
    e := CommandBus.Recorded(published, k.Refused(), k.t);
  }

  ghost predicate IssuedOnly(k: Case, s: System) {
    k.uuid in s.issued && s.issued[k.uuid] == k.Command()
  }

  // In this run the request became a command and the bus learned that it was executed.
  ghost predicate ExecutedIn(k: Case, steps: seq<Step>) {
    && AllowedRun(Start(k.t), k.deviceId, steps) && IssuedOnly(k, Run(Start(k.t), k.deviceId, steps))
    && exists e <- Run(Start(k.t), k.deviceId, steps).bus.img.mem.entries ::
         e.command.(params := k.request.params) == k.Command() && e.result.status == Status.Executed
  }

  // Which requests that the bus takes can ever be executed: exactly those that have parameters.
  lemma ExecutableIffParams(k: Case)
    requires k.Fine()
    ensures (exists steps :: ExecutedIn(k, steps)) <==> !k.request.params.Absent?
  {
    if !k.request.params.Absent? {
      var steps, e := PublishedGetsExecuted(k);
      assert [e][0] == e;
      assert ExecutedIn(k, steps);
    }
    forall steps | ExecutedIn(k, steps)
      ensures !k.request.params.Absent?
    {
      var e :| e in Run(Start(k.t), k.deviceId, steps).bus.img.mem.entries
               && e.command.(params := k.request.params) == k.Command() && e.result.status == Status.Executed;
      ExecutedIsDone(k.t, k.deviceId, steps, e);
    }
  }
}
