/**
 What the operations of the bus answer, said without the functions that compute it: which requests are
 queued and what that does to the others, which results are recorded, and what no longer waits
 (internal/commandbus/bus.go:84-206).
 */
module BusOutcomes {
  import opened Wrappers
  import opened Protocol
  import opened CommandBus
  import opened BusRuns
  import Rotation
  import P = CommandProtocol

  // ----- Publish -----

  function Pendings(es: seq<Entry>): seq<Entry> {
    Select(es, false)
  }

  predicate Evicts(e: Entry) {
    e.command.priority == Normal && e.result.status == Published
  }

  // The new entry: the request under a fresh ID and the next number, with its lifetime from now on.
  predicate Queued(e: Entry, deviceId: string, request: CommandRequest, uuid: string, now: int, sequence: nat) {
    && e.command == DisplayCommand(1, uuid, deviceId, request.kind, request.params, now,
                                   now + request.ttlSeconds * Rotation.SECOND, request.priority, sequence)
    && e.result == CommandResult(uuid, sequence, Published, "", now, None, 0)
  }

  // A request is queued if and only if it is valid, there is room or can be made, it gets an ID, and
  // the queue can be written; and the first of these that is missing is the error.
  lemma PublishAnswer(img: Image, step: Step)
    requires step.Publish?
    ensures
      var r := PublishSpec(img, step.deviceId, step.request, step.uuid, step.evictedAt, step.now, step.persisted).1;
      var full := PendingCount(img.mem.entries) >= 64 && forall e <- img.mem.entries :: !Evicts(e);
      match ValidateRequest(step.request)
      case Some(code) => r == Failure(InvalidRequest(code))
      case None =>
        if full then r == Failure(QueueFull)
        else if step.uuid.None? then r == Failure(NoUuid)
        else if !step.persisted then r == Failure(PersistFailed)
        else r.Success? && Queued(r.value, step.deviceId, step.request, step.uuid.value, step.now, img.mem.sequence + 1)
  {
    var es := img.mem.entries;
    var i := FirstEvictable(es);
    assert Full(es) <==> PendingCount(es) >= 64 && forall e <- es :: !Evicts(e) by {
      if i < |es| {
        assert es[i] in es;
      }
    }
  }

  lemma {:induction false} SelectConcat(a: seq<Entry>, b: seq<Entry>, final: bool)
    ensures Select(a + b, final) == Select(a, final) + Select(b, final)
  {
    if a == [] {
      assert a + b == b;
    } else {
      assert (a + b)[1..] == a[1..] + b;
      SelectConcat(a[1..], b, final);
    }
  }

  lemma SelectAround(es: seq<Entry>, i: nat, final: bool)
    requires i < |es|
    ensures Select(es, final)
            == Select(es[..i], final) + (if es[i].Final() == final then [es[i]] else []) + Select(es[i + 1..], final)
  {
    assert es == es[..i] + ([es[i]] + es[i + 1..]);
    SelectConcat(es[..i], [es[i]] + es[i + 1..], final);
    SelectHead(es[i], es[i + 1..], final);
  }

  lemma {:induction false} SelectKeeps(es: seq<Entry>, keep: Entry -> bool)
    requires forall e <- es :: keep(e)
    ensures forall e <- Select(es, false) :: keep(e)
  {
    if es != [] {
      SelectKeeps(es[1..], keep);
    }
  }

  // What is pending after eviction: everything but the first published entry of normal priority.
  lemma EvictedPendings(es: seq<Entry>, now: int) returns (i: nat)
    requires exists e <- es :: Evicts(e)
    ensures
      var ps := Pendings(es);
      && i < |ps| && Evicts(ps[i]) && (forall k :: 0 <= k < i ==> !Evicts(ps[k]))
      && Pendings(Evict(es, now)) == ps[..i] + ps[i + 1..]
  {
    var j := FirstEvictable(es);
    assert j < |es| by {
      var e :| e in es && Evicts(e);
      var k :| 0 <= k < |es| && es[k] == e;
    }
    var xs := Evict(es, now);
    SelectAround(es, j, false);
    SelectAround(xs, j, false);
    assert xs[..j] == es[..j] && xs[j + 1..] == es[j + 1..];
    i := |Pendings(es[..j])|;
    SelectKeeps(es[..j], e => !Evicts(e));
    forall k | 0 <= k < i
      ensures !Evicts(Pendings(es)[k])
    {
      assert Pendings(es)[k] == Pendings(es[..j])[k] && Pendings(es[..j])[k] in Pendings(es[..j]);
    }
  }

  lemma PublishedLast(img: Image, step: Step)
    requires step.Publish?
    requires PublishSpec(img, step.deviceId, step.request, step.uuid, step.evictedAt, step.now, step.persisted).1.Success?
    ensures
      var e := PublishSpec(img, step.deviceId, step.request, step.uuid, step.evictedAt, step.now, step.persisted).1.value;
      Pendings(NextImage(img, step).mem.entries) == Pendings(MakeRoom(img.mem.entries, step.evictedAt)) + [e]
  {
    PublishCases(img, step);
    TrimmedPendings(MakeRoom(img.mem.entries, step.evictedAt), PublishedBy(img.mem, step));
  }

  lemma TrimmedPendings(room: seq<Entry>, e: Entry)
    requires !e.Final()
    ensures Pendings(Trim(room + [e])) == Pendings(room) + [e]
  {
    TrimKeepsNewestFinals(room + [e]);
    SelectConcat(room, [e], false);
    assert [e][1..] == [] && Select([e], false) == [e];
  }

  // A queued request takes its place behind all that is pending; only in a queue with 64 pending
  // commands does one of them make room for it.
  lemma PublishedBehind(img: Image, step: Step)
    requires step.Publish?
    requires PublishSpec(img, step.deviceId, step.request, step.uuid, step.evictedAt, step.now, step.persisted).1.Success?
    ensures
      var e := PublishSpec(img, step.deviceId, step.request, step.uuid, step.evictedAt, step.now, step.persisted).1.value;
      var ps, ps' := Pendings(img.mem.entries), Pendings(NextImage(img, step).mem.entries);
      if |ps| < 64 then ps' == ps + [e]
      else exists i :: 0 <= i < |ps| && Evicts(ps[i]) && (forall k :: 0 <= k < i ==> !Evicts(ps[k]))
                       && ps' == ps[..i] + ps[i + 1..] + [e]
  {
    PublishedLast(img, step);
    SelectCounts(img.mem.entries);
    if PendingCount(img.mem.entries) >= 64 {
      PublishAnswer(img, step);
      var i := EvictedPendings(img.mem.entries, step.evictedAt);
    }
  }

  // ----- Record -----

  // A result is recorded if and only if it is for a command of its device, under its number, that still
  // waits for one, and the queue can be written; a final command keeps the result it has.
  lemma RecordAnswer(img: Image, step: Step, e: Entry)
    requires step.Record? && Shape(img.mem) && e in img.mem.entries && e.command.commandId == step.result.commandId
    ensures
      var (img', r) := RecordSpec(img, step.deviceId, step.result, step.now, step.persisted);
      if step.deviceId != e.command.deviceId then r == Failure(DeviceMismatch)
      else if step.result.sequence != e.command.sequence then r == Failure(SequenceMismatch)
      else if e.Final() then r == Success((e, false)) && img' == img
      else if step.result.status != Accepted && !step.result.status.Final() then r == Failure(InvalidStatus)
      else if !step.persisted then r == Failure(PersistFailed)
      else
        && r.Success? && P.Answered(e, r.value.0, step.deviceId, step.result, step.now) && Advances(e, r.value.0)
        && (r.value.1 <==> step.result.status == Accepted && e.result.status != Accepted)
  {
    var es := img.mem.entries;
    var i := Find(es, step.result.commandId);
    var k :| 0 <= k < |es| && es[k] == e;
    assert i == k;
    if RecordError(e, step.deviceId, step.result).None? && !e.Final() {
      RecordedAdvances(e, step.result, step.now);
    }
  }

  lemma RecordUnknown(img: Image, step: Step)
    requires step.Record? && forall e <- img.mem.entries :: e.command.commandId != step.result.commandId
    ensures RecordSpec(img, step.deviceId, step.result, step.now, step.persisted) == (img, Failure(NotFound))
  {
    var es := img.mem.entries;
    assert forall i :: 0 <= i < |es| ==> es[i] in es;
    assert Find(es, step.result.commandId) == |es|;
  }

  // ----- expiry -----

  // Past its time while nobody has accepted it, or without a final result for five minutes since.
  predicate Overdue(e: Entry, now: int) {
    || (e.result.status == Published && now >= e.command.expiresAt)
    || (e.result.status == Accepted && now - e.result.receivedAt >= 300 * Rotation.SECOND)
  }

  // After a successful look at the queue nothing in it is overdue, and what was not is as it was.
  lemma NothingOverdue(img: Image, step: Step)
    requires (step.Pending? || step.Get?) && !Fails(img, step)
    ensures
      var es, es' := img.mem.entries, NextImage(img, step).mem.entries;
      && |es'| == |es| && (forall i :: 0 <= i < |es| ==> !Overdue(es'[i], step.now))
      && (forall i :: 0 <= i < |es| && !Overdue(es[i], step.now) ==> es'[i] == es[i])
      && (es' != es ==> NextImage(img, step).disk == NextImage(img, step).mem)
  {
    var es := img.mem.entries;
    forall i | 0 <= i < |es|
      ensures !Overdue(ExpireEntry(es[i], step.now), step.now)
      ensures !Overdue(es[i], step.now) ==> ExpireEntry(es[i], step.now) == es[i]
    {
    }
    if !AnyDue(es, step.now) {
      NothingDue(es, step.now);
    }
  }

  // A lookup finds the command if and only if it is in the queue.
  lemma GetAnswer(img: Image, step: Step)
    requires step.Get? && (step.persisted || !AnyDue(img.mem.entries, step.now))
    ensures
      var r := GetSpec(img, step.id, step.now, step.persisted).1;
      if exists e <- img.mem.entries :: e.command.commandId == step.id
      then r.Success? && r.value in NextImage(img, step).mem.entries && r.value.command.commandId == step.id
      else r == Failure(NotFound)
  {
    var es := img.mem.entries;
    FindIgnoresExpiry(es, step.id, step.now);
    if !AnyDue(es, step.now) {
      NothingDue(es, step.now);
    }
    var i := Find(es, step.id);
    if i < |es| {
      assert es[i] in es && Expire(es, step.now)[i] in Expire(es, step.now);
    }
  }
}
