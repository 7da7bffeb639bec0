/**
 The display's ledger of handled commands with its high-water sequence number
 (internal/remotecontrol/store.go). As for the bus, the file is one value, replaced atomically.
 */
module ResultStore {
  import opened Wrappers
  import opened Protocol

  const MAX_RECORDS := 256

  datatype Record = Record(
    commandId: string, sequence: nat, kind: Kind, issuedAt: int, result: CommandResult,
    pendingRefresh: bool, baselineEpoch: string, baselineVersion: nat)

  datatype Ledger = Ledger(high: nat, records: seq<Record>)

  datatype Image = Image(mem: Ledger, disk: Ledger)

  const EMPTY_LEDGER := Ledger(0, [])

  // ----- the functions the operations compute -----

  // The index of the first record with the ID, or the length.
  function Find(rs: seq<Record>, id: string): (i: nat)
    ensures i <= |rs| && (i < |rs| ==> rs[i].commandId == id)
    ensures forall k :: 0 <= k < i ==> rs[k].commandId != id
  {
    if rs == [] || rs[0].commandId == id then 0
    else
      var rest := Find(rs[1..], id);
      assert forall k :: 0 < k <= rest ==> rs[k] == rs[1..][k - 1] || k == |rs|;
      1 + rest
  }

  // The newest 256 records.
  function Append(rs: seq<Record>, r: Record): (rs': seq<Record>)
    ensures |rs| <= MAX_RECORDS ==> |rs'| <= MAX_RECORDS
  {
    var all := rs + [r];
    if |all| > MAX_RECORDS then all[|all| - MAX_RECORDS..] else all
  }

  function Saved(img: Image, next: Ledger, saved: bool): Image {
    Image(next, if saved then next else img.disk)
  }

  predicate Interruptible(r: Record) {
    r.result.status == Accepted && !r.pendingRefresh
  }

  function Interrupted(r: Record, now: int): Record {
    if !Interruptible(r) then r
    else
      r.(result := r.result.(status := Failed, code := "interrupted", completedAt := Some(now),
                             durationMs := Milliseconds(now - r.result.receivedAt)))
  }

  function Recovered(l: Ledger, now: int): Ledger {
    l.(records := seq(|l.records|, i requires 0 <= i < |l.records| => Interrupted(l.records[i], now)))
  }

  predicate AnyInterruptible(l: Ledger) {
    exists i :: 0 <= i < |l.records| && Interruptible(l.records[i])
  }

  // A starting process: no file is an empty ledger, and executions cut short are failed. It does
  // not start when the file had to change and could not be written.
  function OpenSpec(file: Option<Ledger>, now: int, saved: bool): Option<Image> {
    match file
    case None => if saved then Some(Image(EMPTY_LEDGER, EMPTY_LEDGER)) else None
    case Some(l) =>
      var next := Recovered(l, now);
      if AnyInterruptible(l) && !saved then None else Some(Image(next, next))
  }

  function NewRecord(c: DisplayCommand, epoch: string, version: nat, now: int): Record {
    Record(c.commandId, c.sequence, c.kind, c.issuedAt,
           CommandResult(c.commandId, c.sequence, Accepted, "", now, None, 0), false, epoch, version)
  }

  function AcceptedRecord(l: Ledger, c: DisplayCommand, epoch: string, version: nat, now: int): Record {
    var r := NewRecord(c, epoch, version, now);
    if c.sequence <= l.high then
      r.(result := r.result.(status := Rejected, code := "out_of_order", completedAt := Some(now)))
    else r.(pendingRefresh := c.kind == RefreshData)
  }

  datatype Acceptance = Acceptance(record: Record, duplicate: bool, saved: bool)

  function AcceptSpec(img: Image, c: DisplayCommand, epoch: string, version: nat, now: int, saved: bool)
    : (Image, Acceptance)
  {
    var i := Find(img.mem.records, c.commandId);
    if i < |img.mem.records| then (img, Acceptance(img.mem.records[i], true, true))
    else
      var r := AcceptedRecord(img.mem, c, epoch, version, now);
      var high := if c.sequence <= img.mem.high then img.mem.high else c.sequence;
      (Saved(img, Ledger(high, Append(img.mem.records, r)), saved), Acceptance(r, false, saved))
  }

  function RejectSpec(img: Image, c: DisplayCommand, status: Status, code: string, now: int, saved: bool)
    : (Image, Record)
  {
    var i := Find(img.mem.records, c.commandId);
    if i < |img.mem.records| then (img, img.mem.records[i])
    else
      var r := Record(c.commandId, c.sequence, c.kind, c.issuedAt,
                      CommandResult(c.commandId, c.sequence, status, code, now, Some(now), 0), false, "", 0);
      (Saved(img, img.mem.(records := Append(img.mem.records, r)), saved), r)
  }

  function Completed(r: Record, status: Status, code: string, now: int): Record {
    r.(result := r.result.(status := status, code := code, completedAt := Some(now),
                           durationMs := Milliseconds(now - r.result.receivedAt)),
       pendingRefresh := false)
  }

  function CompleteSpec(img: Image, id: string, status: Status, code: string, now: int, saved: bool)
    : (Image, Option<Record>)
  {
    var rs := img.mem.records;
    var i := Find(rs, id);
    if i == |rs| then (img, None)
    else if rs[i].result.status.Final() then (img, Some(rs[i]))
    else
      var r := Completed(rs[i], status, code, now);
      (Saved(img, img.mem.(records := rs[i := r]), saved), if saved then Some(r) else None)
  }

  predicate Waiting(r: Record) {
    r.pendingRefresh && r.result.status == Accepted
  }

  function PendingRefreshes(rs: seq<Record>): (ps: seq<Record>)
    ensures forall p <- ps :: p in rs && Waiting(p)
  {
    if rs == [] then []
    else PendingRefreshes(rs[..|rs| - 1]) + if Waiting(rs[|rs| - 1]) then [rs[|rs| - 1]] else []
  }

  // ----- the class -----

  class Store {
    var high: nat
    var records: seq<Record>
    var disk: Ledger

    ghost function View(): Image
      reads this
    {
      Image(Ledger(high, records), disk)
    }

    constructor Open(file: Option<Ledger>, now: int, canSave: bool)
      requires file.Some? ==> |file.value.records| <= MAX_RECORDS
      requires OpenSpec(file, now, canSave).Some?
      ensures View() == OpenSpec(file, now, canSave).value
    {
      var l := if file.Some? then file.value else EMPTY_LEDGER;
      var rs := l.records;
      for i := 0 to |rs|
        invariant |rs| == |l.records|
        invariant forall k :: 0 <= k < i ==> rs[k] == Interrupted(l.records[k], now)
        invariant forall k :: i <= k < |rs| ==> rs[k] == l.records[k]
      {
        var item := rs[i];
        if item.result.status == Accepted && !item.pendingRefresh {
          var result := item.result.(status := Failed, code := "interrupted", completedAt := Some(now),
                                     durationMs := Milliseconds(now - item.result.receivedAt));
          rs := rs[i := item.(result := result)];
        }
      }
      high, records, disk := l.high, rs, Ledger(l.high, rs);
      assert rs == Recovered(l, now).records;
    }

    method Persist(ok: bool)
      modifies this`disk
      ensures disk == if ok then Ledger(high, records) else old(disk)
    {
      if ok {
        disk := Ledger(high, records);
      }
    }

    method Lookup(id: string) returns (found: Option<Record>)
      ensures found == if Find(records, id) < |records| then Some(records[Find(records, id)]) else None
    {
      for i := 0 to |records|
        invariant forall k :: 0 <= k < i ==> records[k].commandId != id
      {
        if records[i].commandId == id {
          assert Find(records, id) == i;
          return Some(records[i]);
        }
      }
      return None;
    }

    method AppendRecord(item: Record)
      modifies this`records
      ensures records == Append(old(records), item)
    {
      records := records + [item];
      if |records| > MAX_RECORDS {
        records := records[|records| - MAX_RECORDS..];
      }
    }

    // Memory keeps the acceptance even when it could not be saved.
    method Accept(c: DisplayCommand, epoch: string, version: nat, now: int, canSave: bool) returns (a: Acceptance)
      modifies this
      ensures (View(), a) == AcceptSpec(old(View()), c, epoch, version, now, canSave)
    {
      var existing := Lookup(c.commandId);
      if existing.Some? {
        return Acceptance(existing.value, true, true);
      }
      var item := NewRecord(c, epoch, version, now);
      if c.sequence <= high {
        item := item.(result := item.result.(status := Rejected, code := "out_of_order", completedAt := Some(now)));
        AppendRecord(item);
        Persist(canSave);
        return Acceptance(item, false, canSave);
      }
      high := c.sequence;
      item := item.(pendingRefresh := c.kind == RefreshData);
      AppendRecord(item);
      Persist(canSave);
      return Acceptance(item, false, canSave);
    }

    method Reject(c: DisplayCommand, status: Status, code: string, now: int, canSave: bool) returns (item: Record)
      modifies this`records, this`disk
      ensures (View(), item) == RejectSpec(old(View()), c, status, code, now, canSave)
    {
      var existing := Lookup(c.commandId);
      if existing.Some? {
        return existing.value;
      }
      item := Record(c.commandId, c.sequence, c.kind, c.issuedAt,
                     CommandResult(c.commandId, c.sequence, status, code, now, Some(now), 0), false, "", 0);
      AppendRecord(item);
      Persist(canSave);
    }

    method Complete(id: string, status: Status, code: string, now: int, canSave: bool) returns (r: Option<Record>)
      modifies this`records, this`disk
      ensures (View(), r) == CompleteSpec(old(View()), id, status, code, now, canSave)
    {
      for i := 0 to |records|
        invariant forall k :: 0 <= k < i ==> records[k].commandId != id
      {
        var item := records[i];
        if item.commandId != id {
          continue;
        }
        assert Find(records, id) == i;
        if item.result.status.Final() {
          return Some(item);
        }
        item := Completed(item, status, code, now);
        records := records[i := item];
        Persist(canSave);
        return if canSave then Some(item) else None;
      }
      return None;
    }

    method Refreshes() returns (ps: seq<Record>)
      ensures ps == PendingRefreshes(records)
    {
      ps := [];
      for i := 0 to |records|
        invariant ps == PendingRefreshes(records[..i])
      {
        assert records[..i + 1][..i] == records[..i];
        if records[i].pendingRefresh && records[i].result.status == Accepted {
          ps := ps + [records[i]];
        }
      }
      assert records[..|records|] == records;
    }
  }
}
