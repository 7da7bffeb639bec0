/**
 What the display answers and what it knows after a restart, said without the functions that compute
 it (internal/remotecontrol/controller.go:73-177, internal/remotecontrol/store.go:65-136).
 */
module DisplayOutcomes {
  import opened Wrappers
  import opened Protocol
  import opened RemoteControl
  import D = DisplayRuns
  import Rotation
  import ResultStore
  import RouterModel

  // ----- the answers of Handle -----

  function Answer(c: DisplayCommand, status: Status, code: string, now: int): CommandResult {
    CommandResult(c.commandId, c.sequence, status, code, now, Some(now), 0)
  }

  // How a command ends that was acted on: only brightness can fail, without a device or by it.
  predicate Ending(c: DisplayCommand, brightness: Option<bool>, status: Status, code: string) {
    if c.kind == SetBrightness && brightness == None then status == Failed && code == "unsupported_capability"
    else if c.kind == SetBrightness && brightness == Some(false) then status == Failed && code == "brightness_failed"
    else status == Executed && code == ""
  }

  predicate Ended(last: CommandResult, c: DisplayCommand, env: Environment) {
    if !env.end.saved then last == Answer(c, Failed, "state_unavailable", env.failedAt)
    else
      && last.commandId == c.commandId && last.sequence == c.sequence && Ending(c, env.brightness, last.status, last.code)
      && last.receivedAt == env.begin.now && last.completedAt == Some(env.end.now)
      && last.durationMs == Milliseconds(env.end.now - env.begin.now)
  }

  // A known command gets the answer it got; an invalid one, one for another display, or one that comes
  // after a later one is rejected; one that cannot be stored fails for now; a refresh is accepted and
  // waits; and anything else is accepted and answered again when it has been acted on.
  lemma HandleAnswers(d: Display, deviceId: string, c: DisplayCommand, env: Environment)
    requires d.ui.router.Valid()
    ensures
      var results, rs := HandleSpec(d, deviceId, c, env).1, d.ledger.mem.records;
      if exists i :: 0 <= i < |rs| && rs[i].commandId == c.commandId then
        exists i :: 0 <= i < |rs| && rs[i].commandId == c.commandId && (forall k :: 0 <= k < i ==> rs[k].commandId != c.commandId)
                    && results == [rs[i].result] && HandleSpec(d, deviceId, c, env).0 == d
      else if Validate(c, env.now).Some? then
        var code := Validate(c, env.now).value;
        results == [Answer(c, if code == "expired" then Expired else Rejected, code, env.begin.now)]
      else if c.deviceId != deviceId then results == [Answer(c, Rejected, "wrong_target", env.begin.now)]
      else if !env.begin.saved then results == [Answer(c, Failed, "state_unavailable", env.failedAt)]
      else if c.sequence <= d.ledger.mem.high then results == [Answer(c, Rejected, "out_of_order", env.begin.now)]
      else
        var accepted := CommandResult(c.commandId, c.sequence, Accepted, "", env.begin.now, None, 0);
        if c.kind == RefreshData then results == [accepted]
        else |results| == 2 && results[0] == accepted && Ended(results[1], c, env)
  {
    var rs := d.ledger.mem.records;
    var i := ResultStore.Find(rs, c.commandId);
    var begun := BeginSpec(d, deviceId, c, env.now, env.begin);
    if begun.1.Started? {
      StartedAnswers(d, deviceId, c, env);
    }
  }

  lemma StartedAnswers(d: Display, deviceId: string, c: DisplayCommand, env: Environment)
    requires d.ui.router.Valid() && BeginSpec(d, deviceId, c, env.now, env.begin).1.Started?
    ensures
      var results := HandleSpec(d, deviceId, c, env).1;
      && |results| == 2 && results[0] == CommandResult(c.commandId, c.sequence, Accepted, "", env.begin.now, None, 0)
      && Ended(results[1], c, env)
  {
    var begun := BeginSpec(d, deviceId, c, env.now, env.begin).0;
    StartedOnlyIfNew(d, deviceId, c, env.now, env.begin);
    StartedPerformable(d, deviceId, c, env.now, env.begin);
    ReportIsStored(d, deviceId, c, env);
    var r := ResultStore.AcceptedRecord(d.ledger.mem, c, d.lastEpoch, d.lastVersion, env.begin.now);
    AppendedIsFound(d.ledger.mem.records, r);
    assert begun.ledger.mem.records == ResultStore.Append(d.ledger.mem.records, r);
  }

  // ----- what the ledger says of a command -----

  // The record of a new command names it and, while the command waits, the snapshot it saw.
  lemma AcceptAnswer(img: ResultStore.Image, c: DisplayCommand, epoch: string, version: nat, now: int, saved: bool)
    requires forall i :: 0 <= i < |img.mem.records| ==> img.mem.records[i].commandId != c.commandId
    ensures
      var (after, a) := ResultStore.AcceptSpec(img, c, epoch, version, now, saved);
      && !a.duplicate && a.saved == saved && after.mem.records != [] && after.mem.records[|after.mem.records| - 1] == a.record
      && after.mem.high == (if c.sequence > img.mem.high then c.sequence else img.mem.high)
      && after.disk == (if saved then after.mem else img.disk)
      && (a.record.commandId, a.record.sequence, a.record.kind, a.record.issuedAt) == (c.commandId, c.sequence, c.kind, c.issuedAt)
      && (a.record.baselineEpoch, a.record.baselineVersion) == (epoch, version)
      && a.record.pendingRefresh == (c.kind == RefreshData && c.sequence > img.mem.high)
      && a.record.result
         == if c.sequence > img.mem.high then CommandResult(c.commandId, c.sequence, Accepted, "", now, None, 0)
            else Answer(c, Rejected, "out_of_order", now)
  {
    assert ResultStore.Find(img.mem.records, c.commandId) == |img.mem.records|;
  }

  // A final record stays as it is and is answered again, any other gets its end; one of an unknown
  // command cannot.
  lemma CompleteAnswer(img: ResultStore.Image, id: string, status: Status, code: string, now: int, saved: bool, i: nat)
    requires NoTwice(img.mem.records) && i < |img.mem.records| && img.mem.records[i].commandId == id
    ensures
      var (after, done) := ResultStore.CompleteSpec(img, id, status, code, now, saved);
      var r := img.mem.records[i];
      if r.result.status in {Executed, Rejected, Expired, Failed} then after == img && done == Some(r)
      else
        var end := ResultStore.Record(r.commandId, r.sequence, r.kind, r.issuedAt,
                     CommandResult(r.result.commandId, r.result.sequence, status, code, r.result.receivedAt, Some(now),
                                   Milliseconds(now - r.result.receivedAt)),
                     false, r.baselineEpoch, r.baselineVersion);
        && after.mem == img.mem.(records := img.mem.records[i := end]) && after.disk == (if saved then after.mem else img.disk)
        && done == if saved then Some(end) else None
  {
    assert ResultStore.Find(img.mem.records, id) == i;
  }

  // ----- what a restart makes of the ledger -----

  // An execution that was cut short.
  predicate CutShort(r: ResultStore.Record) {
    r.result.status == Accepted && !r.pendingRefresh
  }

  predicate MarkedFailed(r: ResultStore.Record, after: ResultStore.Record, now: int) {
    after == r.(result := CommandResult(r.result.commandId, r.result.sequence, Failed, "interrupted", r.result.receivedAt,
                                        Some(now), Milliseconds(now - r.result.receivedAt)))
  }

  // A restart fails exactly the executions that were cut short, in the ledger and in its file, and keeps
  // everything else; it does not start if it has to write and cannot.
  lemma RestartFailsCutShort(l: ResultStore.Ledger, now: int, saved: bool)
    ensures
      var img, rs := ResultStore.OpenSpec(Some(l), now, saved), l.records;
      && (img.None? <==> !saved && exists i :: 0 <= i < |rs| && CutShort(rs[i]))
      && (img.Some? ==>
            && img.value.mem == img.value.disk && img.value.mem.high == l.high && |img.value.mem.records| == |rs|
            && forall i :: 0 <= i < |rs| ==>
                 if CutShort(rs[i]) then MarkedFailed(rs[i], img.value.mem.records[i], now)
                 else img.value.mem.records[i] == rs[i])
  {
    var rs := l.records;
    assert ResultStore.AnyInterruptible(l) <==> exists i :: 0 <= i < |rs| && CutShort(rs[i]) by {
      if i :| 0 <= i < |rs| && CutShort(rs[i]) {
        assert ResultStore.Interruptible(rs[i]);
      }
      if ResultStore.AnyInterruptible(l) {
        var i :| 0 <= i < |rs| && ResultStore.Interruptible(rs[i]);
        assert CutShort(rs[i]);
      }
    }
  }

  // A process that is stopped between storing a command as accepted and storing its end answers, once
  // it is back, that the command was interrupted, whether or not it had acted; and does not act again.
  lemma InterruptedIsReported(d: Display, deviceId: string, c: DisplayCommand, now: int, stamp: Outcome, at: int,
                              router: RouterModel.State, env: Environment)
    requires d.ui.router.Valid() && router.Valid() && BeginSpec(d, deviceId, c, now, stamp).1.Started?
    ensures
      var begun := BeginSpec(d, deviceId, c, now, stamp).0;
      var booted := D.Booted(D.Down(Some(begun.ledger.disk), begun.history), at, true, router);
      && booted.Up?
      && var (after, results) := HandleSpec(booted.display, deviceId, c, env);
         && after == booted.display && |results| == 1
         && results[0] == CommandResult(c.commandId, c.sequence, Failed, "interrupted", stamp.now, Some(at),
                                        Milliseconds(at - stamp.now))
  {
    var begun := BeginSpec(d, deviceId, c, now, stamp).0;
    var r := StartedIsFiled(d, deviceId, c, now, stamp);
    RestartFailsCutShort(begun.ledger.disk, at, true);
    LastIsFound(begun.ledger.disk.records, ResultStore.OpenSpec(Some(begun.ledger.disk), at, true).value.mem.records, c.commandId);
  }

  lemma StartedIsFiled(d: Display, deviceId: string, c: DisplayCommand, now: int, stamp: Outcome) returns (r: ResultStore.Record)
    requires d.ui.router.Valid() && BeginSpec(d, deviceId, c, now, stamp).1.Started?
    ensures
      var rs := BeginSpec(d, deviceId, c, now, stamp).0.ledger.disk.records;
      && rs != [] && ResultStore.Find(rs, c.commandId) == |rs| - 1 && rs[|rs| - 1] == r
      && r.commandId == c.commandId && CutShort(r)
      && r.result == CommandResult(c.commandId, c.sequence, Accepted, "", stamp.now, None, 0)
  {
    StartedOnlyIfNew(d, deviceId, c, now, stamp);
    r := ResultStore.AcceptedRecord(d.ledger.mem, c, d.lastEpoch, d.lastVersion, stamp.now);
    AppendedIsFound(d.ledger.mem.records, r);
    assert BeginSpec(d, deviceId, c, now, stamp).0.ledger.disk.records == ResultStore.Append(d.ledger.mem.records, r);
  }

  lemma LastIsFound(rs: seq<ResultStore.Record>, after: seq<ResultStore.Record>, id: string)
    requires |rs| == |after| > 0 && (forall i :: 0 <= i < |rs| ==> after[i].commandId == rs[i].commandId)
    requires ResultStore.Find(rs, id) == |rs| - 1
    ensures ResultStore.Find(after, id) == |rs| - 1
  {
    assert forall k :: 0 <= k < |rs| - 1 ==> after[k].commandId != id;
    assert after[|rs| - 1].commandId == id;
  }

  // ----- what a snapshot answers -----

  ghost predicate NoTwice(rs: seq<ResultStore.Record>) {
    forall i, j :: 0 <= i < j < |rs| ==> rs[i].commandId != rs[j].commandId
  }

  // A refresh that was accepted and has seen no newer snapshot yet.
  predicate Answers(r: ResultStore.Record, epoch: string, version: nat) {
    && r.pendingRefresh && r.result.status == Accepted
    && (epoch != r.baselineEpoch || version > r.baselineVersion)
  }

  predicate AnsweredBy(r: ResultStore.Record, after: ResultStore.Record) {
    && after.commandId == r.commandId && !after.pendingRefresh
    && after.result.status == Executed && after.result.code == "" && after.result.completedAt.Some?
  }

  lemma {:induction false} WaitingAreRecords(rs: seq<ResultStore.Record>, i: nat)
    requires i < |rs|
    ensures rs[i].pendingRefresh && rs[i].result.status == Accepted <==> rs[i] in ResultStore.PendingRefreshes(rs)
    decreases |rs|
  {
    var front := rs[..|rs| - 1];
    if i < |front| {
      WaitingAreRecords(front, i);
    }
  }

  // The records after the first n waiting ones were looked at.
  ghost predicate LookedAt(rs: seq<ResultStore.Record>, after: seq<ResultStore.Record>, waiting: seq<ResultStore.Record>, n: nat,
                           epoch: string, version: nat)
    requires n <= |waiting|
  {
    && |after| == |rs|
    && forall i :: 0 <= i < |rs| ==>
         if rs[i] in waiting[..n] && Answers(rs[i], epoch, version) then AnsweredBy(rs[i], after[i]) else after[i] == rs[i]
  }

  lemma LookAtOne(rs: seq<ResultStore.Record>, img: ResultStore.Image, waiting: seq<ResultStore.Record>, n: nat,
                  epoch: string, version: nat, o: Outcome)
    requires NoTwice(rs) && n < |waiting| && (forall r <- waiting :: r in rs)
    requires LookedAt(rs, img.mem.records, waiting, n, epoch, version)
    requires NoTwice(waiting) && Answers(waiting[n], epoch, version)
    ensures
      var after := ResultStore.CompleteSpec(img, waiting[n].commandId, Executed, "", o.now, o.saved).0;
      LookedAt(rs, after.mem.records, waiting, n + 1, epoch, version)
  {
    var r, xs := waiting[n], img.mem.records;
    assert r in waiting;
    var k :| 0 <= k < |rs| && rs[k] == r;
    assert waiting[..n + 1] == waiting[..n] + [r] && r !in waiting[..n];
    assert xs[k] == r;
    forall i | 0 <= i < |xs|
      ensures xs[i].commandId == rs[i].commandId
    {
    }
    assert ResultStore.Find(xs, r.commandId) == k;
  }

  lemma LookPast(rs: seq<ResultStore.Record>, after: seq<ResultStore.Record>, waiting: seq<ResultStore.Record>, n: nat,
                 epoch: string, version: nat)
    requires n < |waiting| && LookedAt(rs, after, waiting, n, epoch, version) && !Answers(waiting[n], epoch, version)
    ensures LookedAt(rs, after, waiting, n + 1, epoch, version)
  {
    assert waiting[..n + 1] == waiting[..n] + [waiting[n]];
  }

  lemma {:induction false} CompletedFirst(rs: seq<ResultStore.Record>, img: ResultStore.Image, waiting: seq<ResultStore.Record>, n: nat,
                                          epoch: string, version: nat, outcomes: nat -> Outcome)
    requires NoTwice(rs) && n <= |waiting| && (forall r <- waiting :: r in rs && ResultStore.Waiting(r))
    requires NoTwice(waiting) && img.mem.records == rs
    ensures LookedAt(rs, CompleteFirst(img, waiting, n, epoch, version, outcomes).0.mem.records, waiting, n, epoch, version)
    decreases n
  {
    if n > 0 {
      CompletedFirst(rs, img, waiting, n - 1, epoch, version, outcomes);
      var before := CompleteFirst(img, waiting, n - 1, epoch, version, outcomes).0;
      assert waiting[n - 1] in waiting;
      if Answers(waiting[n - 1], epoch, version) {
        LookAtOne(rs, before, waiting, n - 1, epoch, version, outcomes(n - 1));
      } else {
        LookPast(rs, before.mem.records, waiting, n - 1, epoch, version);
      }
    }
  }

  lemma {:induction false} WaitingAreDistinct(rs: seq<ResultStore.Record>)
    requires NoTwice(rs)
    ensures NoTwice(ResultStore.PendingRefreshes(rs))
  {
    if rs != [] {
      var front, last := rs[..|rs| - 1], rs[|rs| - 1];
      var ps := ResultStore.PendingRefreshes(front);
      assert NoTwice(front);
      WaitingAreDistinct(front);
      forall i | 0 <= i < |ps|
        ensures ps[i].commandId != last.commandId
      {
        assert ps[i] in ps;
        var k :| 0 <= k < |front| && front[k] == ps[i];
        assert rs[k] == ps[i] && rs[|rs| - 1] == last;
      }
      AppendNoTwice(ps, last);
    }
  }

  lemma AppendNoTwice(ps: seq<ResultStore.Record>, last: ResultStore.Record)
    requires NoTwice(ps) && forall i :: 0 <= i < |ps| ==> ps[i].commandId != last.commandId
    ensures NoTwice(ps + [last])
  {
  }

  // An applied snapshot answers exactly the refreshes that wait for a newer one than they had seen,
  // whether or not the ledger can be written, and leaves every other record as it is.
  lemma SnapshotAnswers(d: Display, epoch: string, version: nat, outcomes: nat -> Outcome)
    requires NoTwice(d.ledger.mem.records)
    ensures
      var d' := SnapshotSpec(d, epoch, version, outcomes).0;
      var rs, rs' := d.ledger.mem.records, d'.ledger.mem.records;
      && |rs'| == |rs| && d'.ui == d.ui && d'.lastEpoch == epoch && d'.lastVersion == version
      && forall i :: 0 <= i < |rs| ==>
           if Answers(rs[i], epoch, version) then AnsweredBy(rs[i], rs'[i]) else rs'[i] == rs[i]
  {
    var rs := d.ledger.mem.records;
    var waiting := ResultStore.PendingRefreshes(rs);
    WaitingAreDistinct(rs);
    CompletedFirst(rs, d.ledger, waiting, |waiting|, epoch, version, outcomes);
    assert waiting[..|waiting|] == waiting;
    forall i | 0 <= i < |rs|
      ensures Answers(rs[i], epoch, version) ==> rs[i] in waiting
    {
      WaitingAreRecords(rs, i);
    }
  }

  // ----- one record for each command -----

  ghost predicate OneEach(img: ResultStore.Image) {
    NoTwice(img.mem.records) && NoTwice(img.disk.records)
  }

  ghost predicate LedgersOneEach(p: D.Process) {
    match p
    case Down(file, _) => file.Some? ==> NoTwice(file.value.records)
    case Up(d, _) => OneEach(d.ledger)
  }

  lemma AppendOneEach(rs: seq<ResultStore.Record>, r: ResultStore.Record)
    requires NoTwice(rs) && ResultStore.Find(rs, r.commandId) == |rs|
    ensures NoTwice(ResultStore.Append(rs, r))
  {
    assert forall i :: 0 <= i < |rs| ==> rs[i].commandId != r.commandId;
    AppendNoTwice(rs, r);
  }

  lemma SameIdsOneEach(rs: seq<ResultStore.Record>, rs': seq<ResultStore.Record>)
    requires NoTwice(rs) && |rs'| == |rs| && forall i :: 0 <= i < |rs| ==> rs'[i].commandId == rs[i].commandId
    ensures NoTwice(rs')
  {
  }

  lemma CompleteOneEach(img: ResultStore.Image, id: string, status: Status, code: string, now: int, saved: bool)
    requires OneEach(img)
    ensures OneEach(ResultStore.CompleteSpec(img, id, status, code, now, saved).0)
  {
    SameIdsOneEach(img.mem.records, ResultStore.CompleteSpec(img, id, status, code, now, saved).0.mem.records);
  }

  lemma {:induction false} CompleteFirstOneEach(img: ResultStore.Image, waiting: seq<ResultStore.Record>, n: nat,
                                                epoch: string, version: nat, outcomes: nat -> Outcome)
    requires OneEach(img) && n <= |waiting|
    ensures OneEach(CompleteFirst(img, waiting, n, epoch, version, outcomes).0)
    decreases n
  {
    if n > 0 {
      CompleteFirstOneEach(img, waiting, n - 1, epoch, version, outcomes);
      var before, o := CompleteFirst(img, waiting, n - 1, epoch, version, outcomes).0, outcomes(n - 1);
      CompleteOneEach(before, waiting[n - 1].commandId, Executed, "", o.now, o.saved);
    }
  }

  lemma BeginOneEach(d: Display, deviceId: string, c: DisplayCommand, now: int, stamp: Outcome)
    requires OneEach(d.ledger)
    ensures OneEach(BeginSpec(d, deviceId, c, now, stamp).0.ledger)
  {
    var rs := d.ledger.mem.records;
    if ResultStore.Find(rs, c.commandId) == |rs| {
      forall r: ResultStore.Record | r.commandId == c.commandId
        ensures NoTwice(ResultStore.Append(rs, r))
      {
        AppendOneEach(rs, r);
      }
    }
  }

  // A ledger never comes to hold two records of a command, in memory or in its file.
  lemma StepKeepsOneEach(p: D.Process, deviceId: string, step: D.Step)
    requires p.Ready() && (step.Boot? ==> step.router.Valid()) && LedgersOneEach(p)
    ensures LedgersOneEach(D.Next(p, deviceId, step).0)
  {
    if p.Down? {
      if step.Boot? && p.file.Some? {
        var l := p.file.value;
        SameIdsOneEach(l.records, ResultStore.Recovered(l, step.now).records);
      }
    } else if step.Begin? {
      BeginOneEach(p.display, deviceId, step.command, step.now, step.stamp);
    } else if step.Finish? && p.pc.ActedOn? {
      CompleteOneEach(p.display.ledger, p.pc.command.commandId, p.pc.verdict.0, p.pc.verdict.1, step.stamp.now, step.stamp.saved);
    } else if step.Snapshot? {
      var waiting := ResultStore.PendingRefreshes(p.display.ledger.mem.records);
      CompleteFirstOneEach(p.display.ledger, waiting, |waiting|, step.epoch, step.version, step.outcomes);
    }
  }
}
