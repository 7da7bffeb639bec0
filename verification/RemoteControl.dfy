/**
 The display's command controller (internal/remotecontrol/controller.go): it validates a command,
 accepts it in the ledger, acts on the user interface and completes it, and it completes refresh
 commands once a newer snapshot has been applied. Clock readings, the outcome of every write of the
 ledger and the brightness device are parameters. The history records what the display really did.
 */
module RemoteControl {
  import opened Wrappers
  import opened Protocol
  import opened Rotation
  import RouterModel
  import ResultStore

  const DEFAULT_PAGE_DURATION: int := 30 * SECOND
  const DEFAULT_ROTATION_DURATION: int := 300 * SECOND

  datatype Notice = Notice(text: string, severity: string, expires: int)

  datatype RemoteNotice = RemoteNotice(text: string, severity: string, source: string, returnIn: int)

  // What the commands act on, but for the brightness device.
  datatype Ui = Ui(router: RouterModel.State, notice: Option<Notice>)

  datatype Event =
    | Performed(command: DisplayCommand, done: bool)
    | Baseline(commandId: string, epoch: string, version: nat)
    | Applied(epoch: string, version: nat)

  datatype Display = Display(
    ledger: ResultStore.Image, ui: Ui, lastEpoch: string, lastVersion: nat, history: seq<Event>)

  // A clock reading and whether the following write succeeds.
  datatype Outcome = Outcome(now: int, saved: bool)

  function CommandDuration(seconds: int, fallback: int): int {
    if seconds == 0 then fallback else seconds * SECOND
  }

  function TransientFailure(c: DisplayCommand, code: string, now: int): CommandResult {
    CommandResult(c.commandId, c.sequence, Failed, code, now, Some(now), 0)
  }

  // ----- handling a command, in three stages -----

  datatype Begun =
    | Replied(result: CommandResult)
    | Waiting(result: CommandResult)
    | Started(result: CommandResult)
    | Unsaved

  function RejectWith(d: Display, c: DisplayCommand, status: Status, code: string, stamp: Outcome): (Display, Begun) {
    var (ledger, item) := ResultStore.RejectSpec(d.ledger, c, status, code, stamp.now, stamp.saved);
    (d.(ledger := ledger), Replied(item.result))
  }

  function Noted(history: seq<Event>, record: ResultStore.Record): seq<Event> {
    if record.pendingRefresh then history + [Baseline(record.commandId, record.baselineEpoch, record.baselineVersion)]
    else history
  }

  function AcceptNew(d: Display, c: DisplayCommand, stamp: Outcome): (Display, Begun) {
    var (ledger, a) :=
      ResultStore.AcceptSpec(d.ledger, c, d.lastEpoch, d.lastVersion, stamp.now, stamp.saved);
    var d' := d.(ledger := ledger, history := if a.duplicate then d.history else Noted(d.history, a.record));
    (d', if !a.saved then Unsaved
     else if a.duplicate || a.record.result.status.Final() then Replied(a.record.result)
     else if c.kind == RefreshData then Waiting(a.record.result)
     else Started(a.record.result))
  }

  function BeginSpec(d: Display, deviceId: string, c: DisplayCommand, now: int, stamp: Outcome): (Display, Begun) {
    var records := d.ledger.mem.records;
    var i := ResultStore.Find(records, c.commandId);
    if i < |records| then (d, Replied(records[i].result))
    else
      match Validate(c, now)
      case Some(code) => RejectWith(d, c, if code == "expired" then Expired else Rejected, code, stamp)
      case None =>
        if c.deviceId != deviceId then RejectWith(d, c, Rejected, "wrong_target", stamp)
        else AcceptNew(d, c, stamp)
  }

  // What a command that was started satisfies: its parameters are in range. Where they are missing,
  // the display acts on their zero value.
  predicate Performable(c: DisplayCommand) {
    ValidParams(c.kind, c.params) && !c.kind.RefreshData?
  }

  ghost function UiAfter(ui: Ui, c: DisplayCommand, now: int): (r: Ui)
    requires ui.router.Valid() && Performable(c)
    ensures r.router.Valid()
  {
    match (c.kind, Decode(c.kind, Given(c.params)).value)
    case (ShowPage, PageParams(pageId, seconds)) =>
      ValidPageParses(pageId);
      ui.(router := RouterModel.ShowPageSpec(ui.router, ParsePage(pageId).value,
                                             CommandDuration(seconds, DEFAULT_PAGE_DURATION), now))
    case (NextPage, StepParams(seconds)) =>
      ui.(router := RouterModel.StepPageSpec(ui.router, 1, CommandDuration(seconds, DEFAULT_PAGE_DURATION), now))
    case (PreviousPage, StepParams(seconds)) =>
      ui.(router := RouterModel.StepPageSpec(ui.router, -1, CommandDuration(seconds, DEFAULT_PAGE_DURATION), now))
    case (SetRotation, RotationParams(enabled, interval, seconds)) =>
      ui.(router := RouterModel.SetRotationSpec(ui.router, enabled, interval * SECOND,
                                                CommandDuration(seconds, DEFAULT_ROTATION_DURATION), now))
    case (ShowMessage, MessageParams(text, severity, seconds)) =>
      ui.(notice := Some(Notice(text, severity, now + CommandDuration(seconds, DEFAULT_PAGE_DURATION))))
    case _ => ui
  }

  // The brightness device, if there is one, and whether it obeys.
  function Verdict(c: DisplayCommand, brightness: Option<bool>): (Status, string) {
    if !c.kind.SetBrightness? then (Executed, "")
    else
      match brightness
      case None => (Failed, "unsupported_capability")
      case Some(obeys) => if obeys then (Executed, "") else (Failed, "brightness_failed")
  }

  function Acted(c: DisplayCommand, brightness: Option<bool>): seq<Event> {
    if c.kind.SetBrightness? && brightness.None? then []
    else [Performed(c, Verdict(c, brightness).0 == Executed)]
  }

  ghost function PerformSpec(d: Display, c: DisplayCommand, now: int, brightness: Option<bool>): (r: Display)
    requires d.ui.router.Valid() && Performable(c)
    ensures r.ui.router.Valid()
  {
    d.(ui := UiAfter(d.ui, c, now), history := d.history + Acted(c, brightness))
  }

  function FinishSpec(d: Display, c: DisplayCommand, verdict: (Status, string), stamp: Outcome, failedAt: int)
    : (Display, CommandResult)
  {
    var (ledger, completed) :=
      ResultStore.CompleteSpec(d.ledger, c.commandId, verdict.0, verdict.1, stamp.now, stamp.saved);
    (d.(ledger := ledger),
     if completed.Some? then completed.value.result else TransientFailure(c, "state_unavailable", failedAt))
  }

  // The readings and outcomes one call of Handle meets.
  datatype Environment = Environment(now: int, begin: Outcome, brightness: Option<bool>, end: Outcome, failedAt: int)

  ghost function HandleSpec(d: Display, deviceId: string, c: DisplayCommand, env: Environment)
    : (Display, seq<CommandResult>)
    requires d.ui.router.Valid()
  {
    var (begun, reply) := BeginSpec(d, deviceId, c, env.now, env.begin);
    match reply
    case Replied(result) => (begun, [result])
    case Waiting(result) => (begun, [result])
    case Unsaved => (begun, [TransientFailure(c, "state_unavailable", env.failedAt)])
    case Started(result) =>
      StartedPerformable(d, deviceId, c, env.now, env.begin);
      var acted := PerformSpec(begun, c, env.now, env.brightness);
      var (done, last) := FinishSpec(acted, c, Verdict(c, env.brightness), env.end, env.failedAt);
      (done, [result, last])
  }

  lemma StartedPerformable(d: Display, deviceId: string, c: DisplayCommand, now: int, stamp: Outcome)
    requires BeginSpec(d, deviceId, c, now, stamp).1.Started?
    ensures Performable(c) && BeginSpec(d, deviceId, c, now, stamp).0.ui == d.ui
  {
  }

  // ----- refresh commands -----

  predicate Advanced(epoch: string, version: nat, baseEpoch: string, baseVersion: nat) {
    epoch != baseEpoch || version > baseVersion
  }

  // Completes the first n of the waiting refreshes, as far as the snapshot is newer than theirs.
  function CompleteFirst(img: ResultStore.Image, waiting: seq<ResultStore.Record>, n: nat,
                         epoch: string, version: nat, outcomes: nat -> Outcome)
    : (ResultStore.Image, seq<CommandResult>)
    requires n <= |waiting|
  {
    if n == 0 then (img, [])
    else
      var (before, results) := CompleteFirst(img, waiting, n - 1, epoch, version, outcomes);
      var r := waiting[n - 1];
      if !Advanced(epoch, version, r.baselineEpoch, r.baselineVersion) then (before, results)
      else
        var o := outcomes(n - 1);
        var (after, completed) := ResultStore.CompleteSpec(before, r.commandId, Executed, "", o.now, o.saved);
        (after, results + if completed.Some? then [completed.value.result] else [])
  }

  function SnapshotSpec(d: Display, epoch: string, version: nat, outcomes: nat -> Outcome)
    : (Display, seq<CommandResult>)
  {
    var waiting := ResultStore.PendingRefreshes(d.ledger.mem.records);
    var (ledger, results) := CompleteFirst(d.ledger, waiting, |waiting|, epoch, version, outcomes);
    (d.(ledger := ledger, lastEpoch := epoch, lastVersion := version, history := d.history + [Applied(epoch, version)]),
     results)
  }

  // What is on show of a message at a time.
  function NoticeAt(notice: Option<Notice>, source: string, now: int): Option<RemoteNotice> {
    match notice
    case None => None
    case Some(n) => if now < n.expires then Some(RemoteNotice(n.text, n.severity, source, n.expires - now)) else None
  }

  // ----- the class -----

  class Controller {
    const deviceId: string
    const sourceNode: string
    const store: ResultStore.Store
    const router: RouterModel.Router
    var notice: Option<Notice>
    var lastEpoch: string
    var lastVersion: nat
    ghost var history: seq<Event>

    ghost predicate Valid()
      reads this, store, router
    {
      router.Valid()
    }

    ghost function View(): Display
      reads this, store, router
    {
      Display(store.View(), Ui(router.View(), notice), lastEpoch, lastVersion, history)
    }

    constructor (deviceId: string, sourceNode: string, store: ResultStore.Store, router: RouterModel.Router)
      requires router.Valid()
      ensures this.deviceId == deviceId && this.store == store && this.router == router && Valid()
      ensures View() == Display(store.View(), Ui(router.View(), None), "", 0, [])
    {
      this.deviceId, this.sourceNode, this.store, this.router := deviceId, sourceNode, store, router;
      notice, lastEpoch, lastVersion, history := None, "", 0, [];
    }

    method Begin(c: DisplayCommand, now: int, stamp: Outcome) returns (begun: Begun)
      requires Valid()
      modifies this`history, store
      ensures Valid() && (View(), begun) == BeginSpec(old(View()), deviceId, c, now, stamp)
    {
      var existing := store.Lookup(c.commandId);
      if existing.Some? {
        return Replied(existing.value.result);
      }
      var error := Validate(c, now);
      if error.Some? {
        var status := Rejected;
        if error.value == "expired" {
          status := Expired;
        }
        var item := store.Reject(c, status, error.value, stamp.now, stamp.saved);
        return Replied(item.result);
      }
      if c.deviceId != deviceId {
        var item := store.Reject(c, Rejected, "wrong_target", stamp.now, stamp.saved);
        return Replied(item.result);
      }
      var a := store.Accept(c, lastEpoch, lastVersion, stamp.now, stamp.saved);
      if !a.duplicate {
        history := Noted(history, a.record);
      }
      if !a.saved {
        return Unsaved;
      }
      if a.duplicate || a.record.result.status.Final() {
        return Replied(a.record.result);
      }
      if c.kind == RefreshData {
        return Waiting(a.record.result);
      }
      return Started(a.record.result);
    }

    ghost function UiView(): Ui
      reads this`notice, router
    {
      Ui(router.View(), notice)
    }

    method Act(c: DisplayCommand, now: int)
      requires Valid() && Performable(c)
      modifies this`notice, router
      ensures Valid() && UiView() == UiAfter(old(UiView()), c, now)
    {
      match (c.kind, Decode(c.kind, Given(c.params)).value) {
        case (ShowPage, PageParams(pageId, seconds)) =>
          ValidPageParses(pageId);
          var page := ParsePage(pageId).value;
          router.ShowPage(page, CommandDuration(seconds, DEFAULT_PAGE_DURATION), now);
        case (NextPage, StepParams(seconds)) =>
          router.ShowStep(1, CommandDuration(seconds, DEFAULT_PAGE_DURATION), now);
        case (PreviousPage, StepParams(seconds)) =>
          router.ShowStep(-1, CommandDuration(seconds, DEFAULT_PAGE_DURATION), now);
        case (SetRotation, RotationParams(enabled, interval, seconds)) =>
          router.SetRotation(enabled, interval * SECOND, CommandDuration(seconds, DEFAULT_ROTATION_DURATION), now);
        case (ShowMessage, MessageParams(text, severity, seconds)) =>
          notice := Some(Notice(text, severity, now + CommandDuration(seconds, DEFAULT_PAGE_DURATION)));
        case _ =>
      }
    }

    method Perform(c: DisplayCommand, now: int, brightness: Option<bool>) returns (status: Status, code: string)
      requires Valid() && Performable(c)
      modifies this`notice, this`history, router
      ensures Valid() && View() == PerformSpec(old(View()), c, now, brightness)
      ensures (status, code) == Verdict(c, brightness)
    {
      status, code := Executed, "";
      Act(c, now);
      if c.kind.SetBrightness? {
        if brightness.None? {
          status, code := Failed, "unsupported_capability";
        } else if !brightness.value {
          status, code := Failed, "brightness_failed";
        }
      }
      history := history + Acted(c, brightness);
    }

    method Finish(c: DisplayCommand, status: Status, code: string, stamp: Outcome, failedAt: int)
      returns (result: CommandResult)
      requires Valid()
      modifies store
      ensures Valid() && (View(), result) == FinishSpec(old(View()), c, (status, code), stamp, failedAt)
    {
      var completed := store.Complete(c.commandId, status, code, stamp.now, stamp.saved);
      if completed.None? {
        return TransientFailure(c, "state_unavailable", failedAt);
      }
      return completed.value.result;
    }

    method Handle(c: DisplayCommand, env: Environment) returns (results: seq<CommandResult>)
      requires Valid()
      modifies this, store, router
      ensures Valid() && (View(), results) == HandleSpec(old(View()), deviceId, c, env)
    {
      ghost var before := View();
      var begun := Begin(c, env.now, env.begin);
      match begun {
        case Replied(result) => return [result];
        case Waiting(result) => return [result];
        case Unsaved => return [TransientFailure(c, "state_unavailable", env.failedAt)];
        case Started(result) =>
          StartedPerformable(before, deviceId, c, env.now, env.begin);
          var status, code := Perform(c, env.now, env.brightness);
          var last := Finish(c, status, code, env.end, env.failedAt);
          return [result, last];
      }
    }

    method SnapshotApplied(epoch: string, version: nat, outcomes: nat -> Outcome) returns (results: seq<CommandResult>)
      requires Valid()
      modifies this, store
      ensures Valid() && (View(), results) == SnapshotSpec(old(View()), epoch, version, outcomes)
    {
      lastEpoch, lastVersion := epoch, version;
      history := history + [Applied(epoch, version)];
      var waiting := store.Refreshes();
      results := [];
      ghost var start := store.View();
      for n := 0 to |waiting|
        invariant (store.View(), results) == CompleteFirst(start, waiting, n, epoch, version, outcomes)
        invariant Valid() && router.View() == old(router.View())
        invariant View() == old(View()).(ledger := store.View(), lastEpoch := epoch, lastVersion := version,
                                         history := old(history) + [Applied(epoch, version)])
      {
        var r := waiting[n];
        var advanced := epoch != r.baselineEpoch || version > r.baselineVersion;
        if !advanced {
          continue;
        }
        var completed := store.Complete(r.commandId, Executed, "", outcomes(n).now, outcomes(n).saved);
        if completed.Some? {
          results := results + [completed.value.result];
        }
        assert results + [] == results;
      }
    }

    // The message on show, which is forgotten once its time is over.
    method CurrentNotice(now: int) returns (shown: Option<RemoteNotice>)
      modifies this`notice
      ensures shown == NoticeAt(old(notice), sourceNode, now)
      ensures notice == if shown.Some? then old(notice) else None
    {
      if notice.None? || now >= notice.value.expires {
        notice := None;
        return None;
      }
      return Some(RemoteNotice(notice.value.text, notice.value.severity, sourceNode, notice.value.expires - now));
    }
  }

  // ----- what a call of Handle can do -----

  // A command is started only when it was unknown, valid, addressed to the display and in order,
  // and after it was stored as accepted.
  lemma StartedOnlyIfNew(d: Display, deviceId: string, c: DisplayCommand, now: int, stamp: Outcome)
    ensures
      var (d', begun) := BeginSpec(d, deviceId, c, now, stamp);
      && d'.ui == d.ui
      && (forall e <- d'.history :: e in d.history || e.Baseline?)
      && (begun.Started? <==>
            && ResultStore.Find(d.ledger.mem.records, c.commandId) == |d.ledger.mem.records|
            && Validate(c, now).None? && c.deviceId == deviceId && stamp.saved && c.kind != RefreshData
            && d.ledger.mem.high < c.sequence)
      && (begun.Started? ==>
            && d'.history == d.history && d'.ledger.disk == d'.ledger.mem && d'.ledger.mem.high == c.sequence)
  {
  }

  lemma PerformanceLogged(d: Display, c: DisplayCommand, now: int, brightness: Option<bool>)
    requires d.ui.router.Valid() && Performable(c)
    ensures
      var d' := PerformSpec(d, c, now, brightness);
      d'.ui != d.ui ==> d'.history == d.history + [Performed(c, true)]
  {
  }

  // A call that leaves the history without a new performance leaves the user interface as it was.
  lemma ActsAreLogged(d: Display, deviceId: string, c: DisplayCommand, env: Environment)
    requires d.ui.router.Valid()
    ensures
      var d' := HandleSpec(d, deviceId, c, env).0;
      d'.ui != d.ui ==> d'.history == d.history + [Performed(c, true)]
  {
    var (begun, reply) := BeginSpec(d, deviceId, c, env.now, env.begin);
    StartedOnlyIfNew(d, deviceId, c, env.now, env.begin);
    if reply.Started? {
      StartedPerformable(d, deviceId, c, env.now, env.begin);
      PerformanceLogged(begun, c, env.now, env.brightness);
    }
  }

  lemma AppendedIsFound(rs: seq<ResultStore.Record>, r: ResultStore.Record)
    requires ResultStore.Find(rs, r.commandId) == |rs|
    ensures
      var rs' := ResultStore.Append(rs, r);
      ResultStore.Find(rs', r.commandId) == |rs'| - 1 && rs'[|rs'| - 1] == r
  {
    var rs' := ResultStore.Append(rs, r);
    assert rs'[|rs'| - 1] == r;
    forall k | 0 <= k < |rs'| - 1
      ensures rs'[k].commandId != r.commandId
    {
      var j := k + |rs| + 1 - |rs'|;
      assert rs'[k] == rs[j];
    }
  }

  // A command that was acted on is reported with its verdict exactly when the verdict was stored;
  // otherwise the daemon is told that it failed, although the display shows its effect.
  lemma ReportIsStored(d: Display, deviceId: string, c: DisplayCommand, env: Environment)
    requires d.ui.router.Valid() && BeginSpec(d, deviceId, c, env.now, env.begin).1.Started?
    ensures
      var (d', results) := HandleSpec(d, deviceId, c, env);
      var verdict := Verdict(c, env.brightness);
      && |results| == 2 && results[0].status == Accepted
      && (env.end.saved ==> (results[1].status, results[1].code) == verdict && results[1].completedAt == Some(env.end.now)
                            && d'.ledger.disk == d'.ledger.mem)
      && (!env.end.saved ==> results[1] == TransientFailure(c, "state_unavailable", env.failedAt))
      && d'.history == d.history + Acted(c, env.brightness)
  {
    var begun := BeginSpec(d, deviceId, c, env.now, env.begin).0;
    StartedOnlyIfNew(d, deviceId, c, env.now, env.begin);
    StartedPerformable(d, deviceId, c, env.now, env.begin);
    var r := ResultStore.AcceptedRecord(d.ledger.mem, c, d.lastEpoch, d.lastVersion, env.begin.now);
    AppendedIsFound(d.ledger.mem.records, r);
    assert begun.ledger.mem.records == ResultStore.Append(d.ledger.mem.records, r);
  }

  // How long a command lasts that names so many seconds, or none.
  predicate Lasts(duration: int, seconds: int, fallbackSeconds: int) {
    duration == (if seconds == 0 then fallbackSeconds else seconds) * SECOND
  }

  // A remote page is shown, critical pages aside, until its time is over, and then the page that was
  // up in the rotation when it came.
  lemma RemoteShownUntil(s: RouterModel.State, page: Page, duration: int, now: int, t: int, critical: set<Page>)
    requires s.Valid() && page in s.config.order && forall p <- s.config.order :: p !in critical
    ensures
      var frozen := RouterModel.Frozen(s, now).(remote := Some(RouterModel.Remote(page, now + duration)));
      var shown := RouterModel.UpdateSpec(frozen, t, critical).displayed;
      shown == if t < now + duration then page else RouterModel.Elapsed(s, now).page
  {
    var frozen := RouterModel.Frozen(s, now).(remote := Some(RouterModel.Remote(page, now + duration)));
    RouterModel.ShownPriority(frozen, t, critical);
    assert RouterModel.Elapsed(frozen, t) == frozen.(last := t);
  }

  lemma PageShownUntilExpiry(ui: Ui, c: DisplayCommand, duration: int, now: int, t: int, critical: set<Page>)
    requires ui.router.Valid() && Performable(c) && c.kind == ShowPage && c.params.PageParams?
    requires (forall p <- ui.router.config.order :: p !in critical) && Lasts(duration, c.params.pageSeconds, 30)
    ensures ParsePage(c.params.pageId).Some?
    ensures RouterModel.UpdateSpec(UiAfter(ui, c, now).router, t, critical).displayed
              == if t < now + duration then ParsePage(c.params.pageId).value else RouterModel.Elapsed(ui.router, now).page
  {
    ValidPageParses(c.params.pageId);
    var page := ParsePage(c.params.pageId).value;
    FiveDistinctAreAll(ui.router.config.order);
    PageKind(ui, c, duration, now);
    RemoteShownUntil(ui.router, page, duration, now, t, critical);
  }

  lemma PageKind(ui: Ui, c: DisplayCommand, duration: int, now: int)
    requires ui.router.Valid() && Performable(c) && c.kind == ShowPage && c.params.PageParams?
    requires Lasts(duration, c.params.pageSeconds, 30) && ParsePage(c.params.pageId).Some?
    ensures UiAfter(ui, c, now).router
            == RouterModel.Frozen(ui.router, now).(remote := Some(RouterModel.Remote(ParsePage(c.params.pageId).value, now + duration)))
  {
  }

  // The page that a step starts from: the remote page, as long as the router has not dropped it, or
  // the one up in the rotation.
  ghost function StepsFrom(ui: Ui, now: int): Page
    requires ui.router.Valid()
  {
    if ui.router.remote.Some? then ui.router.remote.value.page else RouterModel.Elapsed(ui.router, now).page
  }

  // next_page shows, as long as it lasts, the page right after that one in the order of the rotation,
  // previous_page the one right before it; the first page comes after the last.
  lemma StepShownUntilExpiry(ui: Ui, c: DisplayCommand, duration: int, now: int, t: int, critical: set<Page>)
    requires ui.router.Valid() && Performable(c) && c.kind in {NextPage, PreviousPage}
    requires (forall p <- ui.router.config.order :: p !in critical)
    requires Lasts(duration, if c.params.StepParams? then c.params.stepSeconds else 0, 30)
    ensures
      var order, shown := ui.router.config.order, RouterModel.UpdateSpec(UiAfter(ui, c, now).router, t, critical).displayed;
      if t < now + duration then
        exists i :: 0 <= i < 5 && order[i] == StepsFrom(ui, now)
                    && shown == order[if c.kind == NextPage then (i + 1) % 5 else (i + 4) % 5]
      else shown == RouterModel.Elapsed(ui.router, now).page
  {
    var i := StepStart(ui, now);
    StepSets(ui, c, duration, now);
    RemoteShownUntil(ui.router, StepsTo(ui, c, now), duration, now, t, critical);
  }

  ghost function StepStart(ui: Ui, now: int): (i: nat)
    requires ui.router.Valid()
    ensures i < 5 && ui.router.config.order[i] == StepsFrom(ui, now)
  {
    RouterModel.StepBase(RouterModel.Frozen(ui.router, now))
  }

  ghost function StepsTo(ui: Ui, c: DisplayCommand, now: int): Page
    requires ui.router.Valid()
  {
    var i := StepStart(ui, now);
    ui.router.config.order[if c.kind == NextPage then (i + 1) % 5 else (i + 4) % 5]
  }

  lemma StepSets(ui: Ui, c: DisplayCommand, duration: int, now: int)
    requires ui.router.Valid() && Performable(c) && c.kind in {NextPage, PreviousPage}
    requires Lasts(duration, if c.params.StepParams? then c.params.stepSeconds else 0, 30)
    ensures
      UiAfter(ui, c, now).router
      == RouterModel.Frozen(ui.router, now).(remote := Some(RouterModel.Remote(StepsTo(ui, c, now), now + duration)))
  {
    StepKind(ui, c, duration, now);
    RouterModel.StepSets(ui.router, if c.kind == NextPage then 1 else -1, duration, now);
  }

  lemma StepKind(ui: Ui, c: DisplayCommand, duration: int, now: int)
    requires ui.router.Valid() && Performable(c) && c.kind in {NextPage, PreviousPage}
    requires Lasts(duration, if c.params.StepParams? then c.params.stepSeconds else 0, 30)
    ensures UiAfter(ui, c, now).router
            == RouterModel.StepPageSpec(ui.router, if c.kind == NextPage then 1 else -1, duration, now)
  {
  }

  // Each kind of command changes its own part of the user interface and leaves the other alone.
  lemma OtherPartStays(ui: Ui, c: DisplayCommand, now: int)
    requires ui.router.Valid() && Performable(c)
    ensures c.kind != ShowMessage ==> UiAfter(ui, c, now).notice == ui.notice
    ensures c.kind in {ShowMessage, SetBrightness} ==> UiAfter(ui, c, now).router == ui.router
  {
  }

  // A message is on show with its text and severity for as long as it lasts.
  lemma MessageShownUntilExpiry(ui: Ui, c: DisplayCommand, duration: int, now: int, source: string, t: int)
    requires ui.router.Valid() && Performable(c) && c.kind == ShowMessage && c.params.MessageParams?
    requires Lasts(duration, c.params.messageSeconds, 30)
    ensures UiAfter(ui, c, now).router == ui.router
    ensures NoticeAt(UiAfter(ui, c, now).notice, source, t)
            == if t < now + duration then Some(RemoteNotice(c.params.text, c.params.severity, source, now + duration - t)) else None
  {
  }

  lemma RotationKind(ui: Ui, c: DisplayCommand, duration: int, now: int)
    requires ui.router.Valid() && Performable(c) && c.kind == SetRotation && c.params.RotationParams?
    requires Lasts(duration, c.params.rotationSeconds, 300)
    ensures c.params.intervalSeconds >= 0
    ensures UiAfter(ui, c, now).router
            == RouterModel.SetRotationSpec(ui.router, c.params.enabled, c.params.intervalSeconds * SECOND, duration, now)
  {
  }

  // A rotation command, with no remote page up, stops the rotation or gives every page its interval
  // or its own dwell, for as long as it lasts; five minutes if it does not say.
  lemma RotationObeyed(ui: Ui, c: DisplayCommand, duration: int, now: int, t: int, critical: set<Page>)
    requires ui.router.Valid() && Performable(c) && c.kind == SetRotation && c.params.RotationParams?
    requires ui.router.remote.None? && (forall p <- ui.router.config.order :: p !in critical)
    requires Lasts(duration, c.params.rotationSeconds, 300) && now <= t < now + duration
    ensures
      && c.params.intervalSeconds >= 0
      && RouterModel.UpdateSpec(UiAfter(ui, c, now).router, t, critical).displayed
         == RouterModel.OverridePage(ui.router, c.params.enabled, c.params.intervalSeconds * SECOND, now, t)
  {
    RotationKind(ui, c, duration, now);
    RouterModel.OverrideObeyed(ui.router, c.params.enabled, c.params.intervalSeconds * SECOND, duration, now, t, critical);
  }

  // With a remote page up, that page stays on show to its end, and the rotation where it was.
  lemma RotationWaits(ui: Ui, c: DisplayCommand, duration: int, now: int, t: int, critical: set<Page>)
    requires ui.router.Valid() && Performable(c) && c.kind == SetRotation && c.params.RotationParams?
    requires ui.router.remote.Some? && (forall p <- ui.router.config.order :: p !in critical)
    requires Lasts(duration, c.params.rotationSeconds, 300)
    ensures
      var start, end := RouterModel.Elapsed(ui.router, now), RouterModel.UpdateSpec(UiAfter(ui, c, now).router, t, critical);
      && end.page == start.page
      && end.displayed == (if t < ui.router.remote.value.until then ui.router.remote.value.page else start.page)
      && (end.paused <==> t < ui.router.remote.value.until || (t < now + duration && !c.params.enabled))
  {
    RotationKind(ui, c, duration, now);
    RouterModel.OverrideWaits(ui.router, c.params.enabled, c.params.intervalSeconds * SECOND, duration, now, t, critical);
  }

  // And when it is over the rotation runs again with the configured dwells.
  lemma RotationResumes(ui: Ui, c: DisplayCommand, duration: int, now: int, t: int, critical: set<Page>)
    requires ui.router.Valid() && Performable(c) && c.kind == SetRotation && c.params.RotationParams?
    requires ui.router.remote.None? && (forall p <- ui.router.config.order :: p !in critical)
    requires Lasts(duration, c.params.rotationSeconds, 300) && now <= t && now + duration <= t
    ensures
      var end := RouterModel.UpdateSpec(UiAfter(ui, c, now).router, t, critical);
      && !end.rotationOverride && !end.paused && end.displayed == end.page
      && RouterModel.Dwells(end) == RouterModel.ConfiguredDwells(ui.router.config)
      && (!c.params.enabled ==> end.page == RouterModel.Elapsed(ui.router, now).page)
  {
    RotationKind(ui, c, duration, now);
    RouterModel.OverrideEnds(ui.router, c.params.enabled, c.params.intervalSeconds * SECOND, duration, now, t, critical);
  }
}
