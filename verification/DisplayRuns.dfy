/**
 The display process over every run: commands are begun, acted on and finished, snapshots are
 applied, and the process may crash between any two of these steps and come back from its file
 (internal/remotecontrol/store.go, internal/remotecontrol/controller.go).
 */
module DisplayRuns {
  import opened Wrappers
  import opened Protocol
  import opened RemoteControl
  import Rotation
  import RouterModel
  import ResultStore

  // Where the process is within a call of Handle, with the replies it still owes.
  datatype Pc =
    | Idle
    | Begun(command: DisplayCommand, now: int, first: CommandResult)
    | ActedOn(command: DisplayCommand, verdict: (Status, string), first: CommandResult)

  // The history outlives the process: it says what has happened on the screen.
  datatype Process =
    | Down(file: Option<ResultStore.Ledger>, past: seq<Event>)
    | Up(display: Display, pc: Pc)
  {
    function History(): seq<Event> {
      if Down? then past else display.history
    }

    ghost predicate Ready() {
      Up? ==> display.ui.router.Valid() && (pc.Begun? ==> Performable(pc.command))
    }
  }

  datatype Step =
    | Begin(command: DisplayCommand, now: int, stamp: Outcome, failedAt: int)
    | Perform(brightness: Option<bool>)
    | Finish(stamp: Outcome, failedAt: int)
    | Snapshot(epoch: string, version: nat, outcomes: nat -> Outcome)
    | Tick(now: int, critical: set<Rotation.Page>)
    | Crash
    | Boot(now: int, saved: bool, router: RouterModel.State)

  function Elements(rs: seq<CommandResult>): set<CommandResult> {
    set r <- rs :: r
  }

  ghost function Booted(p: Process, now: int, saved: bool, router: RouterModel.State): (q: Process)
    requires p.Down? && router.Valid()
    ensures q.Ready()
  {
    match ResultStore.OpenSpec(p.file, now, saved)
    case None => p
    case Some(ledger) => Up(Display(ledger, Ui(router, None), "", 0, p.past), Idle)
  }

  ghost function Began(p: Process, deviceId: string, c: DisplayCommand, now: int, stamp: Outcome, failedAt: int)
    : (r: (Process, set<CommandResult>))
    requires p.Up? && p.Ready()
    ensures r.0.Ready()
  {
    var (d, begun) := BeginSpec(p.display, deviceId, c, now, stamp);
    match begun
    case Replied(result) => (Up(d, Idle), {result})
    case Waiting(result) => (Up(d, Idle), {result})
    case Unsaved => (Up(d, Idle), {TransientFailure(c, "state_unavailable", failedAt)})
    case Started(result) =>
      StartedPerformable(p.display, deviceId, c, now, stamp);
      (Up(d, Begun(c, now, result)), {})
  }

  // What a step makes of the process, and the replies that may leave it. A step that does not apply
  // changes nothing.
  ghost function Next(p: Process, deviceId: string, step: Step): (r: (Process, set<CommandResult>))
    requires p.Ready() && (step.Boot? ==> step.router.Valid())
    ensures r.0.Ready()
  {
    if p.Down? then
      (if step.Boot? then Booted(p, step.now, step.saved, step.router) else p, {})
    else
      match step
      case Boot(_, _, _) => (p, {})
      case Crash => (Down(Some(p.display.ledger.disk), p.display.history), {})
      case Tick(now, critical) =>
        var d := p.display;
        (Up(d.(ui := d.ui.(router := RouterModel.UpdateSpec(d.ui.router, now, critical))), p.pc), {})
      case Begin(c, now, stamp, failedAt) =>
        if p.pc.Idle? then Began(p, deviceId, c, now, stamp, failedAt) else (p, {})
      case Perform(brightness) =>
        if p.pc.Begun? then
          (Up(PerformSpec(p.display, p.pc.command, p.pc.now, brightness),
              ActedOn(p.pc.command, Verdict(p.pc.command, brightness), p.pc.first)), {})
        else (p, {})
      case Finish(stamp, failedAt) =>
        if p.pc.ActedOn? then
          var (d, last) := FinishSpec(p.display, p.pc.command, p.pc.verdict, stamp, failedAt);
          (Up(d, Idle), {p.pc.first, last})
        else (p, {})
      case Snapshot(epoch, version, outcomes) =>
        if p.pc.Idle? then
          var (d, results) := SnapshotSpec(p.display, epoch, version, outcomes);
          (Up(d, Idle), Elements(results))
        else (p, {})
  }

  // ----- what the history proves -----

  ghost predicate Increasing(h: seq<Event>) {
    forall i, j :: 0 <= i < j < |h| && h[i].Performed? && h[j].Performed? ==>
      h[i].command.sequence < h[j].command.sequence
  }

  ghost predicate Below(h: seq<Event>, bound: int) {
    forall e <- h :: e.Performed? ==> e.command.sequence <= bound
  }

  ghost predicate Requested(e: Event, deviceId: string, sent: set<DisplayCommand>) {
    match e
    case Performed(c, _) => c in sent && Performable(c) && c.deviceId == deviceId
    case Baseline(id, _, _) => exists c <- sent :: c.commandId == id && c.kind == RefreshData && ValidParams(c.kind, c.params)
    case Applied(_, _) => true
  }

  ghost predicate DidPerform(h: seq<Event>, id: string) {
    exists e <- h :: e.Performed? && e.done && e.command.commandId == id
  }

  ghost predicate RefreshedBy(h: seq<Event>, id: string, i: int, j: int) {
    && 0 <= i < j < |h| && h[i].Baseline? && h[i].commandId == id && h[j].Applied?
    && Advanced(h[j].epoch, h[j].version, h[i].epoch, h[i].version)
  }

  // After the baseline of the refresh was taken, a newer snapshot was applied.
  ghost predicate DidRefresh(h: seq<Event>, id: string) {
    exists i, j :: RefreshedBy(h, id, i, j)
  }

  ghost predicate Evidence(h: seq<Event>, id: string) {
    DidPerform(h, id) || DidRefresh(h, id)
  }

  lemma EvidenceGrows(h: seq<Event>, more: seq<Event>, id: string)
    requires Evidence(h, id)
    ensures Evidence(h + more, id)
  {
    if DidPerform(h, id) {
      var e :| e in h && e.Performed? && e.done && e.command.commandId == id;
      assert e in h + more;
    } else {
      var i, j :| RefreshedBy(h, id, i, j);
      assert RefreshedBy(h + more, id, i, j);
    }
  }

  ghost predicate JustifiedResult(h: seq<Event>, r: CommandResult) {
    r.status == Executed ==> Evidence(h, r.commandId)
  }

  ghost predicate JustifiedRecord(h: seq<Event>, r: ResultStore.Record) {
    && r.result.commandId == r.commandId && JustifiedResult(h, r.result)
    && (r.pendingRefresh ==> Baseline(r.commandId, r.baselineEpoch, r.baselineVersion) in h)
  }

  ghost predicate Justified(h: seq<Event>, l: ResultStore.Ledger) {
    |l.records| <= ResultStore.MAX_RECORDS && forall r <- l.records :: JustifiedRecord(h, r)
  }

  ghost predicate JustifiedAll(h: seq<Event>, rs: set<CommandResult>) {
    forall r <- rs :: JustifiedResult(h, r)
  }

  lemma JustificationGrows(h: seq<Event>, more: seq<Event>, l: ResultStore.Ledger)
    requires Justified(h, l)
    ensures Justified(h + more, l)
  {
    forall r <- l.records
      ensures JustifiedRecord(h + more, r)
    {
      assert JustifiedRecord(h, r);
      if r.result.status == Executed {
        EvidenceGrows(h, more, r.commandId);
      }
    }
  }

  lemma ResultsGrow(h: seq<Event>, more: seq<Event>, rs: set<CommandResult>)
    requires JustifiedAll(h, rs)
    ensures JustifiedAll(h + more, rs)
  {
    forall r <- rs
      ensures JustifiedResult(h + more, r)
    {
      if r.status == Executed {
        EvidenceGrows(h, more, r.commandId);
      }
    }
  }

  // ----- the ledger operations -----

  lemma AppendJustified(h: seq<Event>, l: ResultStore.Ledger, r: ResultStore.Record, high: nat)
    requires Justified(h, l) && JustifiedRecord(h, r)
    ensures Justified(h, ResultStore.Ledger(high, ResultStore.Append(l.records, r)))
  {
    forall x <- ResultStore.Append(l.records, r)
      ensures JustifiedRecord(h, x)
    {
      assert x in l.records + [r];
    }
  }

  lemma UpdateJustified(h: seq<Event>, l: ResultStore.Ledger, i: nat, r: ResultStore.Record)
    requires Justified(h, l) && i < |l.records| && JustifiedRecord(h, r)
    ensures Justified(h, l.(records := l.records[i := r]))
  {
  }

  ghost predicate JustifiedImage(h: seq<Event>, img: ResultStore.Image) {
    Justified(h, img.mem) && Justified(h, img.disk) && img.disk.high <= img.mem.high
  }

  lemma CompleteJustified(h: seq<Event>, img: ResultStore.Image, id: string, status: Status, code: string, stamp: Outcome)
    requires JustifiedImage(h, img) && (status == Executed ==> Evidence(h, id))
    ensures
      var (img', r) := ResultStore.CompleteSpec(img, id, status, code, stamp.now, stamp.saved);
      && JustifiedImage(h, img') && img'.disk.high >= img.disk.high
      && (r.Some? ==> JustifiedResult(h, r.value.result))
  {
    var rs := img.mem.records;
    var i := ResultStore.Find(rs, id);
    if i < |rs| {
      assert JustifiedRecord(h, rs[i]);
      if !rs[i].result.status.Final() {
        UpdateJustified(h, img.mem, i, ResultStore.Completed(rs[i], status, code, stamp.now));
      }
    }
  }

  lemma RejectJustified(h: seq<Event>, img: ResultStore.Image, c: DisplayCommand, status: Status, code: string, stamp: Outcome)
    requires JustifiedImage(h, img) && status != Executed
    ensures
      var (img', r) := ResultStore.RejectSpec(img, c, status, code, stamp.now, stamp.saved);
      JustifiedImage(h, img') && img'.disk.high >= img.disk.high && JustifiedResult(h, r.result)
  {
    var rs := img.mem.records;
    var i := ResultStore.Find(rs, c.commandId);
    if i == |rs| {
      AppendJustified(h, img.mem, ResultStore.RejectSpec(img, c, status, code, stamp.now, stamp.saved).1, img.mem.high);
    } else {
      assert JustifiedRecord(h, rs[i]);
    }
  }

  lemma AcceptJustified(h: seq<Event>, img: ResultStore.Image, c: DisplayCommand, epoch: string, version: nat, stamp: Outcome)
    requires JustifiedImage(h, img)
    requires ResultStore.Find(img.mem.records, c.commandId) == |img.mem.records|
    ensures
      var (img', a) := ResultStore.AcceptSpec(img, c, epoch, version, stamp.now, stamp.saved);
      var h' := Noted(h, a.record);
      JustifiedImage(h', img') && img'.disk.high >= img.disk.high && JustifiedResult(h', a.record.result)
  {
    var a := ResultStore.AcceptSpec(img, c, epoch, version, stamp.now, stamp.saved).1;
    var h' := Noted(h, a.record);
    var more := if a.record.pendingRefresh then [Baseline(c.commandId, epoch, version)] else [];
    assert h' == h + more;
    JustificationGrows(h, more, img.mem);
    JustificationGrows(h, more, img.disk);
    assert JustifiedRecord(h', a.record);
    AppendJustified(h', img.mem, a.record, if c.sequence <= img.mem.high then img.mem.high else c.sequence);
  }

  lemma OpenJustified(h: seq<Event>, file: Option<ResultStore.Ledger>, now: int, saved: bool)
    requires file.Some? ==> Justified(h, file.value)
    ensures
      var img := ResultStore.OpenSpec(file, now, saved);
      img.Some? ==> JustifiedImage(h, img.value) && (file.Some? ==> img.value.disk.high == file.value.high)
  {
    if file.Some? {
      forall r <- ResultStore.Recovered(file.value, now).records
        ensures JustifiedRecord(h, r)
      {
        var i :| 0 <= i < |file.value.records| && r == ResultStore.Interrupted(file.value.records[i], now);
        assert JustifiedRecord(h, file.value.records[i]);
      }
    }
  }

  // A waiting refresh whose baseline the last applied snapshot has passed.
  lemma RefreshEvidence(h: seq<Event>, r: ResultStore.Record, epoch: string, version: nat)
    requires JustifiedRecord(h, r) && r.pendingRefresh
    requires Advanced(epoch, version, r.baselineEpoch, r.baselineVersion)
    ensures Evidence(h + [Applied(epoch, version)], r.commandId)
  {
    var i :| 0 <= i < |h| && h[i] == Baseline(r.commandId, r.baselineEpoch, r.baselineVersion);
    assert RefreshedBy(h + [Applied(epoch, version)], r.commandId, i, |h|);
  }

  lemma {:induction false} CompleteFirstJustified(
    h: seq<Event>, img: ResultStore.Image, waiting: seq<ResultStore.Record>, n: nat,
    epoch: string, version: nat, outcomes: nat -> Outcome)
    requires n <= |waiting| && h != [] && h[|h| - 1] == Applied(epoch, version)
    requires forall r <- waiting :: JustifiedRecord(h[..|h| - 1], r) && r.pendingRefresh
    requires JustifiedImage(h, img)
    ensures
      var (img', results) := CompleteFirst(img, waiting, n, epoch, version, outcomes);
      JustifiedImage(h, img') && img'.disk.high >= img.disk.high && JustifiedAll(h, Elements(results))
    decreases n
  {
    if n > 0 {
      CompleteFirstJustified(h, img, waiting, n - 1, epoch, version, outcomes);
      var r := waiting[n - 1];
      if Advanced(epoch, version, r.baselineEpoch, r.baselineVersion) {
        assert h == h[..|h| - 1] + [Applied(epoch, version)];
        RefreshEvidence(h[..|h| - 1], r, epoch, version);
        var before := CompleteFirst(img, waiting, n - 1, epoch, version, outcomes).0;
        CompleteJustified(h, before, r.commandId, Executed, "", outcomes(n - 1));
      }
    }
  }

  // ----- the invariant -----

  ghost predicate AllRequested(h: seq<Event>, deviceId: string, sent: set<DisplayCommand>) {
    forall e <- h :: Requested(e, deviceId, sent)
  }

  // Every effect was requested, none came out of order, and no ledger forgets how far they came.
  ghost predicate HistoryInv(h: seq<Event>, deviceId: string, sent: set<DisplayCommand>) {
    Increasing(h) && AllRequested(h, deviceId, sent)
  }

  ghost predicate PcInv(p: Process, deviceId: string, sent: set<DisplayCommand>)
    requires p.Up?
  {
    match p.pc
    case Idle => true
    case Begun(c, _, first) =>
      && c in sent && Performable(c) && c.deviceId == deviceId && first.status == Accepted
      && Below(p.display.history, c.sequence - 1) && c.sequence <= p.display.ledger.disk.high
    case ActedOn(c, verdict, first) =>
      && first.status == Accepted && c.sequence <= p.display.ledger.disk.high
      && (verdict.0 == Executed ==> DidPerform(p.display.history, c.commandId))
  }

  ghost predicate Inv(p: Process, deviceId: string, sent: set<DisplayCommand>, replies: set<CommandResult>) {
    var h := p.History();
    && p.Ready() && HistoryInv(h, deviceId, sent) && JustifiedAll(h, replies)
    && match p
       case Down(file, _) =>
         if file.Some? then Justified(h, file.value) && Below(h, file.value.high) else Below(h, 0)
       case Up(d, _) => JustifiedImage(h, d.ledger) && Below(h, d.ledger.disk.high) && PcInv(p, deviceId, sent)
  }

  lemma MoreSent(p: Process, deviceId: string, sent: set<DisplayCommand>, more: set<DisplayCommand>, replies: set<CommandResult>)
    requires Inv(p, deviceId, sent, replies)
    ensures Inv(p, deviceId, sent + more, replies)
  {
    forall e <- p.History()
      ensures Requested(e, deviceId, sent + more)
    {
      assert Requested(e, deviceId, sent);
      if e.Baseline? {
        var c :| c in sent && c.commandId == e.commandId && c.kind == RefreshData && ValidParams(c.kind, c.params);
        assert c in sent + more;
      }
    }
  }

  lemma HistoryAppends(h: seq<Event>, e: Event, deviceId: string, sent: set<DisplayCommand>)
    requires HistoryInv(h, deviceId, sent) && Requested(e, deviceId, sent)
    requires e.Performed? ==> Below(h, e.command.sequence - 1)
    ensures HistoryInv(h + [e], deviceId, sent)
    ensures forall bound :: Below(h, bound) && (e.Performed? ==> e.command.sequence <= bound) ==> Below(h + [e], bound)
  {
    forall i | 0 <= i < |h| && h[i].Performed? && e.Performed?
      ensures h[i].command.sequence < e.command.sequence
    {
      assert h[i] in h;
    }
  }

  // The ledger of a display accounts for its history.
  ghost predicate Accounted(d: Display) {
    JustifiedImage(d.history, d.ledger) && Below(d.history, d.ledger.disk.high)
  }

  predicate Refused(d: Display, deviceId: string, c: DisplayCommand, now: int) {
    || ResultStore.Find(d.ledger.mem.records, c.commandId) < |d.ledger.mem.records|
    || Validate(c, now).Some? || c.deviceId != deviceId
  }

  lemma RefusalAccounted(d: Display, deviceId: string, c: DisplayCommand, now: int, stamp: Outcome)
    requires Accounted(d) && Refused(d, deviceId, c, now)
    ensures
      var (d', begun) := BeginSpec(d, deviceId, c, now, stamp);
      && d' == d.(ledger := d'.ledger) && Accounted(d')
      && begun.Replied? && JustifiedResult(d.history, begun.result)
  {
    var h, ledger := d.history, d.ledger;
    var i := ResultStore.Find(ledger.mem.records, c.commandId);
    if i < |ledger.mem.records| {
      assert JustifiedRecord(h, ledger.mem.records[i]);
    } else {
      var code := if Validate(c, now).Some? then Validate(c, now).value else "wrong_target";
      RejectJustified(h, ledger, c, if code == "expired" then Expired else Rejected, code, stamp);
    }
  }

  lemma BeginRefused(p: Process, deviceId: string, c: DisplayCommand, now: int, stamp: Outcome, failedAt: int,
                     sent: set<DisplayCommand>, replies: set<CommandResult>)
    requires Inv(p, deviceId, sent, replies) && p.Up? && p.pc.Idle? && Refused(p.display, deviceId, c, now)
    ensures
      var (q, more) := Began(p, deviceId, c, now, stamp, failedAt);
      Inv(q, deviceId, sent, replies + more)
  {
    RefusalAccounted(p.display, deviceId, c, now, stamp);
  }

  lemma AcceptanceAccounted(d: Display, deviceId: string, c: DisplayCommand, now: int, stamp: Outcome)
    requires Accounted(d) && !Refused(d, deviceId, c, now)
    ensures
      var (d', begun) := BeginSpec(d, deviceId, c, now, stamp);
      && d' == d.(ledger := d'.ledger, history := d'.history) && Accounted(d')
      && (d'.history == d.history
          || (c.kind == RefreshData && ValidParams(c.kind, c.params) && d'.history == d.history + [Baseline(c.commandId, d.lastEpoch, d.lastVersion)]))
      && (!begun.Unsaved? ==> begun.result.status != Executed)
      && (begun.Started? ==>
            && begun.result.status == Accepted && d'.history == d.history
            && d.ledger.disk.high < c.sequence <= d'.ledger.disk.high)
  {
    AcceptJustified(d.history, d.ledger, c, d.lastEpoch, d.lastVersion, stamp);
  }

  lemma BeginAccepted(p: Process, deviceId: string, c: DisplayCommand, now: int, stamp: Outcome, failedAt: int,
                      sent: set<DisplayCommand>, replies: set<CommandResult>)
    requires Inv(p, deviceId, sent, replies) && p.Up? && p.pc.Idle? && c in sent && !Refused(p.display, deviceId, c, now)
    ensures
      var (q, more) := Began(p, deviceId, c, now, stamp, failedAt);
      Inv(q, deviceId, sent, replies + more)
  {
    var d := p.display;
    AcceptanceAccounted(d, deviceId, c, now, stamp);
    var (d', begun) := BeginSpec(d, deviceId, c, now, stamp);
    if d'.history != d.history {
      var e := Baseline(c.commandId, d.lastEpoch, d.lastVersion);
      HistoryAppends(d.history, e, deviceId, sent);
      ResultsGrow(d.history, [e], replies);
    }
    if begun.Started? {
      StartedPerformable(d, deviceId, c, now, stamp);
    }
  }

  lemma PerformKeeps(p: Process, deviceId: string, brightness: Option<bool>,
                     sent: set<DisplayCommand>, replies: set<CommandResult>)
    requires Inv(p, deviceId, sent, replies) && p.Up? && p.pc.Begun?
    ensures Inv(Next(p, deviceId, Perform(brightness)).0, deviceId, sent, replies)
  {
    var c, h := p.pc.command, p.display.history;
    var more := Acted(c, brightness);
    JustificationGrows(h, more, p.display.ledger.mem);
    JustificationGrows(h, more, p.display.ledger.disk);
    ResultsGrow(h, more, replies);
    if more != [] {
      HistoryAppends(h, more[0], deviceId, sent);
      assert more[0] in h + more;
    } else {
      assert h + more == h;
    }
  }

  lemma FinishKeeps(p: Process, deviceId: string, stamp: Outcome, failedAt: int,
                    sent: set<DisplayCommand>, replies: set<CommandResult>)
    requires Inv(p, deviceId, sent, replies) && p.Up? && p.pc.ActedOn?
    ensures
      var (q, more) := Next(p, deviceId, Finish(stamp, failedAt));
      Inv(q, deviceId, sent, replies + more)
  {
    var (c, verdict) := (p.pc.command, p.pc.verdict);
    CompleteJustified(p.display.history, p.display.ledger, c.commandId, verdict.0, verdict.1, stamp);
  }

  lemma SnapshotKeeps(p: Process, deviceId: string, epoch: string, version: nat, outcomes: nat -> Outcome,
                      sent: set<DisplayCommand>, replies: set<CommandResult>)
    requires Inv(p, deviceId, sent, replies) && p.Up? && p.pc.Idle?
    ensures
      var (q, more) := Next(p, deviceId, Snapshot(epoch, version, outcomes));
      Inv(q, deviceId, sent, replies + more)
  {
    var d, e := p.display, Applied(epoch, version);
    var h := d.history + [e];
    var waiting := ResultStore.PendingRefreshes(d.ledger.mem.records);
    JustificationGrows(d.history, [e], d.ledger.mem);
    JustificationGrows(d.history, [e], d.ledger.disk);
    ResultsGrow(d.history, [e], replies);
    HistoryAppends(d.history, e, deviceId, sent);
    assert h[..|h| - 1] == d.history;
    CompleteFirstJustified(h, d.ledger, waiting, |waiting|, epoch, version, outcomes);
  }

  lemma BootKeeps(p: Process, deviceId: string, step: Step, sent: set<DisplayCommand>, replies: set<CommandResult>)
    requires Inv(p, deviceId, sent, replies) && p.Down? && step.Boot? && step.router.Valid()
    ensures Inv(Next(p, deviceId, step).0, deviceId, sent, replies)
  {
    OpenJustified(p.past, p.file, step.now, step.saved);
  }

  // Whatever the display does next, at any point of a call, keeps the invariant.
  lemma StepKeeps(p: Process, deviceId: string, step: Step, sent: set<DisplayCommand>, replies: set<CommandResult>)
    requires Inv(p, deviceId, sent, replies)
    requires step.Boot? ==> step.router.Valid()
    requires step.Begin? ==> step.command in sent
    ensures
      var (q, more) := Next(p, deviceId, step);
      Inv(q, deviceId, sent, replies + more)
  {
    assert replies + {} == replies;
    if p.Down? {
      if step.Boot? {
        BootKeeps(p, deviceId, step, sent, replies);
      }
    } else if step.Begin? && p.pc.Idle? {
      if Refused(p.display, deviceId, step.command, step.now) {
        BeginRefused(p, deviceId, step.command, step.now, step.stamp, step.failedAt, sent, replies);
      } else {
        BeginAccepted(p, deviceId, step.command, step.now, step.stamp, step.failedAt, sent, replies);
      }
    } else if step.Perform? && p.pc.Begun? {
      PerformKeeps(p, deviceId, step.brightness, sent, replies);
    } else if step.Finish? && p.pc.ActedOn? {
      FinishKeeps(p, deviceId, step.stamp, step.failedAt, sent, replies);
    } else if step.Snapshot? && p.pc.Idle? {
      SnapshotKeeps(p, deviceId, step.epoch, step.version, step.outcomes, sent, replies);
    }
  }

  lemma BeginGrows(d: Display, deviceId: string, c: DisplayCommand, now: int, stamp: Outcome)
    ensures d.history <= BeginSpec(d, deviceId, c, now, stamp).0.history
  {
  }

  // What has happened has happened, whether or not the process survives.
  lemma HistoryGrows(p: Process, deviceId: string, step: Step)
    requires p.Ready() && (step.Boot? ==> step.router.Valid())
    ensures p.History() <= Next(p, deviceId, step).0.History()
  {
    if p.Up? && step.Begin? {
      BeginGrows(p.display, deviceId, step.command, step.now, step.stamp);
    }
  }

  // One call of Handle that nothing interrupts.
  ghost function Handled(p: Process, deviceId: string, c: DisplayCommand, env: Environment): (r: (Process, set<CommandResult>))
    requires p.Ready()
    ensures r.0.Ready()
  {
    var (begun, first) := Next(p, deviceId, Begin(c, env.now, env.begin, env.failedAt));
    var (acted, second) := Next(begun, deviceId, Perform(env.brightness));
    var (done, third) := Next(acted, deviceId, Finish(env.end, env.failedAt));
    (done, first + second + third)
  }

  lemma UnstartedIsRun(d: Display, deviceId: string, c: DisplayCommand, env: Environment)
    requires d.ui.router.Valid() && !BeginSpec(d, deviceId, c, env.now, env.begin).1.Started?
    ensures
      var (d', results) := HandleSpec(d, deviceId, c, env);
      |results| == 1 && Handled(Up(d, Idle), deviceId, c, env) == (Up(d', Idle), {results[0]})
  {
    var (begun, first) := Began(Up(d, Idle), deviceId, c, env.now, env.begin, env.failedAt);
    assert begun.pc == Idle;
    assert Next(begun, deviceId, Perform(env.brightness)) == (begun, {});
    assert first + {} + {} == first;
  }

  lemma StartedIsRun(d: Display, deviceId: string, c: DisplayCommand, env: Environment)
    requires d.ui.router.Valid() && BeginSpec(d, deviceId, c, env.now, env.begin).1.Started?
    ensures
      var (d', results) := HandleSpec(d, deviceId, c, env);
      |results| == 2 && Handled(Up(d, Idle), deviceId, c, env) == (Up(d', Idle), {results[0], results[1]})
  {
    var (start, reply) := BeginSpec(d, deviceId, c, env.now, env.begin);
    StartedPerformable(d, deviceId, c, env.now, env.begin);
    var begun := Up(start, Begun(c, env.now, reply.result));
    assert Next(Up(d, Idle), deviceId, Begin(c, env.now, env.begin, env.failedAt)) == (begun, {});
    var acted := Up(PerformSpec(start, c, env.now, env.brightness), ActedOn(c, Verdict(c, env.brightness), reply.result));
    assert Next(begun, deviceId, Perform(env.brightness)) == (acted, {});
    var (done, last) := FinishSpec(acted.display, c, Verdict(c, env.brightness), env.end, env.failedAt);
    assert Next(acted, deviceId, Finish(env.end, env.failedAt)) == (Up(done, Idle), {reply.result, last});
    assert {} + {} + {reply.result, last} == {reply.result, last};
  }

  // What the code of Handle does is a run of the steps that may be interrupted: the same display
  // afterwards, and the same replies.
  lemma HandleIsRun(d: Display, deviceId: string, c: DisplayCommand, env: Environment)
    requires d.ui.router.Valid()
    ensures
      var (d', results) := HandleSpec(d, deviceId, c, env);
      Handled(Up(d, Idle), deviceId, c, env) == (Up(d', Idle), Elements(results))
  {
    ElementsOfFew(HandleSpec(d, deviceId, c, env).1);
    if BeginSpec(d, deviceId, c, env.now, env.begin).1.Started? {
      StartedIsRun(d, deviceId, c, env);
    } else {
      UnstartedIsRun(d, deviceId, c, env);
    }
  }

  lemma ElementsOfFew(rs: seq<CommandResult>)
    ensures |rs| == 1 ==> Elements(rs) == {rs[0]}
    ensures |rs| == 2 ==> Elements(rs) == {rs[0], rs[1]}
  {
    if 0 < |rs| <= 2 {
      assert rs[0] in rs && rs[|rs| - 1] in rs;
    }
  }
}
