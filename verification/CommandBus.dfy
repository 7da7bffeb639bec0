/**
 The daemon's bounded, persisted command queue (internal/commandbus/bus.go). The state file is
 one value that is replaced atomically; a failing write leaves it as it was. Clock readings, fresh
 UUIDs and the outcome of a write are parameters.
 */
module CommandBus {
  import opened Wrappers
  import opened Arithmetic
  import opened Protocol
  import opened Rotation

  const MAX_PENDING := 64
  const MAX_RESULTS := 256

  datatype Entry = Entry(command: DisplayCommand, result: CommandResult) {
    predicate Final() {
      result.status.Final()
    }
  }

  datatype State = State(sequence: nat, entries: seq<Entry>)

  // What the process holds and what it has written to its file.
  datatype Image = Image(mem: State, disk: State)

  datatype BusError =
    | InvalidRequest(code: string) | QueueFull | NoUuid | PersistFailed
    | DeviceMismatch | SequenceMismatch | InvalidStatus | NotFound

  const EMPTY := State(0, [])

  // The state as a process reads it back from its file.
  function Loaded(s: State): (r: State)
    ensures r.sequence == s.sequence && |r.entries| == |s.entries|
    ensures forall i :: 0 <= i < |s.entries| ==> r.entries[i] == s.entries[i].(command := Wire(s.entries[i].command))
  {
    s.(entries := seq(|s.entries|, i requires 0 <= i < |s.entries| => s.entries[i].(command := Wire(s.entries[i].command))))
  }

  // ----- the functions the operations compute -----

  function Finals(es: seq<Entry>): (n: nat)
    ensures n <= |es|
  {
    if es == [] then 0 else Finals(es[..|es| - 1]) + if es[|es| - 1].Final() then 1 else 0
  }

  function PendingCount(es: seq<Entry>): nat {
    |es| - Finals(es)
  }

  predicate Evictable(e: Entry) {
    e.command.priority == Normal && e.result.status == Published
  }

  // The index of the oldest evictable entry, or the length.
  function FirstEvictable(es: seq<Entry>): (i: nat)
    ensures i <= |es| && (i < |es| ==> Evictable(es[i]))
    ensures forall k :: 0 <= k < i ==> !Evictable(es[k])
  {
    if es == [] || Evictable(es[0]) then 0
    else
      var rest := FirstEvictable(es[1..]);
      assert forall k :: 0 < k <= rest ==> es[k] == es[1..][k - 1] || k == |es|;
      1 + rest
  }

  function Evicted(e: Entry, now: int): Entry {
    Entry(e.command.(params := Redact(e.command)),
          e.result.(status := Failed, code := "overflow", completedAt := Some(now)))
  }

  function Evict(es: seq<Entry>, now: int): seq<Entry> {
    var i := FirstEvictable(es);
    if i < |es| then es[i := Evicted(es[i], now)] else es
  }

  predicate Due(e: Entry, now: int) {
    || (e.result.status == Published && now >= e.command.expiresAt)
    || (e.result.status == Accepted && now - e.result.receivedAt >= MAX_COMMAND_TTL)
  }

  function ExpireEntry(e: Entry, now: int): Entry {
    if !Due(e, now) then e
    else
      Entry(e.command.(params := Redact(e.command)),
            e.result.(status := if e.result.status == Published then Expired else Failed,
                      code := if e.result.status == Published then "expired" else "execution_timeout",
                      completedAt := Some(now),
                      durationMs := Milliseconds(now - e.result.receivedAt)))
  }

  function Expire(es: seq<Entry>, now: int): (r: seq<Entry>)
    ensures |r| == |es| && forall i :: 0 <= i < |es| ==> r[i] == ExpireEntry(es[i], now)
  {
    seq(|es|, i requires 0 <= i < |es| => ExpireEntry(es[i], now))
  }

  predicate AnyDue(es: seq<Entry>, now: int) {
    exists i :: 0 <= i < |es| && Due(es[i], now)
  }

  // Without the first k final entries.
  function DropFinals(es: seq<Entry>, k: nat): seq<Entry> {
    if k == 0 || es == [] then es
    else if es[0].Final() then DropFinals(es[1..], k - 1)
    else [es[0]] + DropFinals(es[1..], k)
  }

  function Trim(es: seq<Entry>): seq<Entry> {
    DropFinals(es, if Finals(es) > MAX_RESULTS then Finals(es) - MAX_RESULTS else 0)
  }

  function NewCommand(s: State, deviceId: string, request: CommandRequest, uuid: string, now: int): DisplayCommand {
    DisplayCommand(COMMAND_SCHEMA_MAJOR, uuid, deviceId, request.kind, request.params,
                   now, now + request.ttlSeconds * SECOND, request.priority, s.sequence + 1)
  }

  function NewEntry(c: DisplayCommand, now: int): Entry {
    Entry(c, CommandResult(c.commandId, c.sequence, Published, "", now, None, 0))
  }

  // The queue with room for one more pending entry, if eviction can make it.
  function MakeRoom(es: seq<Entry>, evictedAt: int): seq<Entry> {
    if PendingCount(es) >= MAX_PENDING then Evict(es, evictedAt) else es
  }

  predicate Full(es: seq<Entry>) {
    PendingCount(es) >= MAX_PENDING && FirstEvictable(es) == |es|
  }

  // Memory after a change that is kept only if it could be written.
  function Commit(img: Image, next: State, persisted: bool): Image {
    if persisted then Image(next, next) else img
  }

  function PublishSpec(img: Image, deviceId: string, request: CommandRequest,
                       uuid: Option<string>, evictedAt: int, now: int, persisted: bool)
    : (Image, Result<Entry, BusError>)
  {
    if ValidateRequest(request).Some? then (img, Failure(InvalidRequest(ValidateRequest(request).value)))
    else if Full(img.mem.entries) then (img, Failure(QueueFull))
    else
      var entries := MakeRoom(img.mem.entries, evictedAt);
      match uuid
      case None => (img.(mem := img.mem.(entries := entries)), Failure(NoUuid))
      case Some(id) =>
        var entry := NewEntry(NewCommand(img.mem, deviceId, request, id, now), now);
        var next := State(img.mem.sequence + 1, Trim(entries + [entry]));
        (Commit(img, next, persisted), if persisted then Success(entry) else Failure(PersistFailed))
  }

  predicate Sendable(e: Entry, deviceId: string, sent: set<string>) {
    e.command.deviceId == deviceId && !e.Final() && e.command.commandId !in sent
  }

  function SendableCommands(es: seq<Entry>, deviceId: string, sent: set<string>): seq<DisplayCommand> {
    if es == [] then []
    else
      var last := es[|es| - 1];
      SendableCommands(es[..|es| - 1], deviceId, sent) + if Sendable(last, deviceId, sent) then [last.command] else []
  }

  // Memory after expiring, written only when something changed.
  function ExpireImage(img: Image, now: int, persisted: bool): Image {
    if AnyDue(img.mem.entries, now) then Commit(img, img.mem.(entries := Expire(img.mem.entries, now)), persisted) else img
  }

  function PendingSpec(img: Image, deviceId: string, sent: set<string>, now: int, persisted: bool)
    : (Image, Result<seq<DisplayCommand>, BusError>)
  {
    (ExpireImage(img, now, persisted),
     if AnyDue(img.mem.entries, now) && !persisted then Failure(PersistFailed)
     else Success(SendableCommands(Expire(img.mem.entries, now), deviceId, sent)))
  }

  // The index of the first entry with the ID, or the length.
  function Find(es: seq<Entry>, id: string): (i: nat)
    ensures i <= |es| && (i < |es| ==> es[i].command.commandId == id)
    ensures forall k :: 0 <= k < i ==> es[k].command.commandId != id
  {
    if es == [] || es[0].command.commandId == id then 0
    else
      var rest := Find(es[1..], id);
      assert forall k :: 0 < k <= rest ==> es[k] == es[1..][k - 1] || k == |es|;
      1 + rest
  }

  function Recorded(e: Entry, result: CommandResult, now: int): Entry {
    Entry(if result.status.Final() then e.command.(params := Redact(e.command)) else e.command,
          if result.receivedAt == ZERO_TIME then result.(receivedAt := now) else result)
  }

  // Why Record refuses a result for entry e, if it does.
  function RecordError(e: Entry, deviceId: string, result: CommandResult): Option<BusError> {
    if e.command.deviceId != deviceId then Some(DeviceMismatch)
    else if result.sequence != e.command.sequence then Some(SequenceMismatch)
    else if e.Final() then None
    else if result.status != Accepted && !result.status.Final() then Some(InvalidStatus)
    else None
  }

  function RecordSpec(img: Image, deviceId: string, result: CommandResult, now: int, persisted: bool)
    : (Image, Result<(Entry, bool), BusError>)
  {
    var es := img.mem.entries;
    var i := Find(es, result.commandId);
    if i == |es| then (img, Failure(NotFound))
    else
      match RecordError(es[i], deviceId, result)
      case Some(error) => (img, Failure(error))
      case None =>
        if es[i].Final() then (img, Success((es[i], false)))
        else
          var entry := Recorded(es[i], result, now);
          var next := img.mem.(entries := Trim(es[i := entry]));
          var firstAccepted := result.status == Accepted && es[i].result.status != Accepted;
          (Commit(img, next, persisted), if persisted then Success((entry, firstAccepted)) else Failure(PersistFailed))
  }

  function GetSpec(img: Image, id: string, now: int, persisted: bool): (Image, Result<Entry, BusError>) {
    var es := Expire(img.mem.entries, now);
    var i := Find(es, id);
    if i == |es| then (img.(mem := img.mem.(entries := es)), Failure(NotFound))
    else
      (ExpireImage(img, now, persisted),
       if AnyDue(img.mem.entries, now) && !persisted then Failure(PersistFailed) else Success(es[i]))
  }

  // ----- lemmas the loops need -----

  lemma {:induction false} FinalsConcat(a: seq<Entry>, b: seq<Entry>)
    ensures Finals(a + b) == Finals(a) + Finals(b)
  {
    if b == [] {
      assert a + b == a;
    } else {
      FinalsConcat(a, b[..|b| - 1]);
      assert (a + b)[..|a + b| - 1] == a + b[..|b| - 1];
    }
  }

  lemma FinalsUpdate(es: seq<Entry>, i: nat, e: Entry)
    requires i < |es|
    ensures Finals(es[i := e]) == Finals(es) - (if es[i].Final() then 1 else 0) + if e.Final() then 1 else 0
  {
    assert es == es[..i] + [es[i]] + es[i + 1..];
    assert es[i := e] == es[..i] + [e] + es[i + 1..];
    FinalsConcat(es[..i] + [es[i]], es[i + 1..]);
    FinalsConcat(es[..i] + [e], es[i + 1..]);
    FinalsConcat(es[..i], [es[i]]);
    FinalsConcat(es[..i], [e]);
  }

  lemma RemoveFinal(es: seq<Entry>, i: nat)
    requires i < |es| && es[i].Final()
    ensures Finals(es[..i] + es[i + 1..]) == Finals(es) - 1
  {
    assert es == es[..i] + ([es[i]] + es[i + 1..]);
    FinalsConcat(es[..i], [es[i]] + es[i + 1..]);
    FinalsConcat([es[i]], es[i + 1..]);
    FinalsConcat(es[..i], es[i + 1..]);
  }

  // Removing the first final entry and then k - 1 more is removing k.
  lemma {:induction false} DropOneFinal(es: seq<Entry>, i: nat, k: nat)
    requires i < |es| && es[i].Final() && forall j :: 0 <= j < i ==> !es[j].Final()
    requires k > 0
    ensures DropFinals(es, k) == DropFinals(es[..i] + es[i + 1..], k - 1)
  {
    var cut := es[..i] + es[i + 1..];
    if i == 0 {
      assert cut == es[1..];
    } else {
      assert es[1..][..i - 1] + es[1..][i..] == cut[1..];
      DropOneFinal(es[1..], i - 1, k);
      DropFinalsHead(cut, k - 1);
    }
  }

  lemma DropFinalsHead(es: seq<Entry>, k: nat)
    requires es != [] && !es[0].Final()
    ensures DropFinals(es, k) == [es[0]] + DropFinals(es[1..], k)
  {
  }

  lemma {:induction false} SomeFinal(es: seq<Entry>)
    requires Finals(es) > 0
    ensures exists i :: 0 <= i < |es| && es[i].Final()
  {
    if !es[|es| - 1].Final() {
      SomeFinal(es[..|es| - 1]);
      var i :| 0 <= i < |es| - 1 && es[..|es| - 1][i].Final();
      assert es[i].Final();
    }
  }

  // ----- the class -----

  class Bus {
    var sequence: nat
    var entries: seq<Entry>
    var disk: State
    // One wake-up slot per subscribed device.
    var notify: map<string, bool>

    ghost function View(): Image
      reads this
    {
      Image(State(sequence, entries), disk)
    }

    // Open with no state file, or with the one a bus wrote.
    constructor (file: Option<State>)
      requires file.Some? ==> |file.value.entries| <= MAX_PENDING + MAX_RESULTS
      ensures View() == (if file.Some? then Image(Loaded(file.value), Loaded(file.value)) else Image(EMPTY, EMPTY))
      ensures notify == map[]
    {
      var state := if file.Some? then Loaded(file.value) else EMPTY;
      sequence, entries, disk, notify := state.sequence, state.entries, state, map[];
    }

    method Persist(ok: bool) returns (done: bool)
      modifies this`disk
      ensures done == ok && disk == if ok then State(sequence, entries) else old(disk)
    {
      if ok {
        disk := State(sequence, entries);
      }
      return ok;
    }

    method CountPending() returns (count: nat)
      ensures count == PendingCount(entries)
    {
      count := 0;
      for i := 0 to |entries|
        invariant count == PendingCount(entries[..i])
      {
        assert entries[..i + 1][..i] == entries[..i];
        if !entries[i].Final() {
          count := count + 1;
        }
      }
      assert entries[..|entries|] == entries;
    }

    method DropOldestNormal(now: int) returns (dropped: bool)
      modifies this`entries
      ensures dropped == (FirstEvictable(old(entries)) < |old(entries)|)
      ensures entries == Evict(old(entries), now)
    {
      for i := 0 to |entries|
        invariant entries == old(entries)
        invariant forall k :: 0 <= k < i ==> !Evictable(entries[k])
      {
        var entry := entries[i];
        if entry.command.priority != Normal || entry.result.status != Published {
          continue;
        }
        entries := entries[i := Evicted(entry, now)];
        return true;
      }
      return false;
    }

    method EnsureRoom(evictedAt: int) returns (ok: bool)
      modifies this`entries
      ensures ok == !Full(old(entries)) && entries == MakeRoom(old(entries), evictedAt)
    {
      var pending := CountPending();
      if pending >= MAX_PENDING {
        ok := DropOldestNormal(evictedAt);
      } else {
        ok := true;
      }
    }

    method ExpireOne(entry: Entry, now: int) returns (updated: Entry, due: bool)
      ensures updated == ExpireEntry(entry, now) && due == Due(entry, now)
    {
      updated, due := entry, false;
      if entry.Final() {
        return;
      }
      var status, code := entry.result.status, entry.result.code;
      if status == Published && now >= entry.command.expiresAt {
        status, code := Expired, "expired";
      } else if status == Accepted && now - entry.result.receivedAt >= MAX_COMMAND_TTL {
        status, code := Failed, "execution_timeout";
      } else {
        return;
      }
      var result := entry.result.(status := status, code := code, completedAt := Some(now),
                                  durationMs := Milliseconds(now - entry.result.receivedAt));
      return Entry(entry.command.(params := Redact(entry.command)), result), true;
    }

    method ExpireAll(now: int) returns (changed: bool)
      modifies this`entries
      ensures entries == Expire(old(entries), now) && changed == AnyDue(old(entries), now)
    {
      changed := false;
      ghost var before := entries;
      for i := 0 to |entries|
        invariant |entries| == |before|
        invariant forall k :: 0 <= k < i ==> entries[k] == ExpireEntry(before[k], now)
        invariant forall k :: i <= k < |before| ==> entries[k] == before[k]
        invariant changed == exists k :: 0 <= k < i && Due(before[k], now)
      {
        var updated, due := ExpireOne(entries[i], now);
        if due {
          entries := entries[i := updated];
          changed := true;
        }
      }
    }

    method FirstFinal() returns (i: nat)
      requires Finals(entries) > 0
      ensures i < |entries| && entries[i].Final() && forall j :: 0 <= j < i ==> !entries[j].Final()
    {
      SomeFinal(entries);
      i := 0;
      while !entries[i].Final()
        invariant i < |entries| && forall j :: 0 <= j < i ==> !entries[j].Final()
        decreases |entries| - i
      {
        i := i + 1;
      }
    }

    method TrimFinals()
      modifies this`entries
      ensures entries == Trim(old(entries))
    {
      var finals := 0;
      for i := 0 to |entries|
        invariant finals == Finals(entries[..i])
      {
        assert entries[..i + 1][..i] == entries[..i];
        if entries[i].Final() {
          finals := finals + 1;
        }
      }
      assert entries[..|entries|] == entries;
      while finals > MAX_RESULTS
        invariant finals == Finals(entries)
        invariant DropFinals(entries, if finals > MAX_RESULTS then finals - MAX_RESULTS else 0) == Trim(old(entries))
        decreases finals
      {
        var i := FirstFinal();
        DropOneFinal(entries, i, finals - MAX_RESULTS);
        RemoveFinal(entries, i);
        entries := entries[..i] + entries[i + 1..];
        finals := finals - 1;
      }
    }

    method Signal(deviceId: string)
      modifies this`notify
      ensures notify == if deviceId in old(notify) then old(notify)[deviceId := true] else old(notify)
    {
      if deviceId in notify {
        notify := notify[deviceId := true];
      }
    }

    // Writes the state, or puts the previous one back; a stored change wakes the device's stream.
    method PersistOrRestore(previous: State, deviceId: string, ok: bool) returns (done: bool)
      modifies this
      ensures done == ok
      ensures View() == (var now := old(View()).mem;
                         if ok then Image(now, now) else Image(previous, old(disk)))
      ensures notify == if ok && deviceId in old(notify) then old(notify)[deviceId := true] else old(notify)
    {
      done := Persist(ok);
      if done {
        Signal(deviceId);
      } else {
        sequence, entries := previous.sequence, previous.entries;
      }
    }

    // The channel a connection waits on; a second call joins the first.
    method Subscribe(deviceId: string)
      modifies this`notify
      ensures notify == if deviceId in old(notify) then old(notify) else old(notify)[deviceId := false]
    {
      if deviceId !in notify {
        notify := notify[deviceId := false];
      }
    }

    // Adds an entry to the queue and stores it, or puts the previous state back.
    method Enqueue(previous: State, entry: Entry, deviceId: string, persisted: bool) returns (done: bool)
      modifies this
      ensures done == persisted
      ensures View() == (var next := State(old(sequence) + 1, Trim(old(entries) + [entry]));
                         if persisted then Image(next, next) else Image(previous, old(disk)))
      ensures notify == if persisted && deviceId in old(notify) then old(notify)[deviceId := true] else old(notify)
    {
      sequence := sequence + 1;
      entries := entries + [entry];
      TrimFinals();
      done := PersistOrRestore(previous, deviceId, persisted);
    }

    method Publish(deviceId: string, request: CommandRequest,
                   uuid: Option<string>, evictedAt: int, now: int, persisted: bool)
      returns (r: Result<Entry, BusError>)
      modifies this
      ensures (View(), r) == PublishSpec(old(View()), deviceId, request, uuid, evictedAt, now, persisted)
      ensures deviceId in old(notify) && r.Success? ==> notify == old(notify)[deviceId := true]
      ensures deviceId !in old(notify) || r.Failure? ==> notify == old(notify)
    {
      var code := ValidateRequest(request);
      if code.Some? {
        return Failure(InvalidRequest(code.value));
      }
      var previous := State(sequence, entries);
      var roomy := EnsureRoom(evictedAt);
      if !roomy {
        return Failure(QueueFull);
      }
      if uuid.None? {
        return Failure(NoUuid);
      }
      var entry := NewEntry(NewCommand(previous, deviceId, request, uuid.value, now), now);
      var done := Enqueue(previous, entry, deviceId, persisted);
      if !done {
        return Failure(PersistFailed);
      }
      return Success(entry);
    }

    method Pending(deviceId: string, sent: set<string>, now: int, persisted: bool)
      returns (r: Result<seq<DisplayCommand>, BusError>)
      modifies this`entries, this`disk
      ensures (View(), r) == PendingSpec(old(View()), deviceId, sent, now, persisted)
    {
      var previous := entries;
      var changed := ExpireAll(now);
      var commands: seq<DisplayCommand> := [];
      for i := 0 to |entries|
        invariant commands == SendableCommands(entries[..i], deviceId, sent)
      {
        assert entries[..i + 1][..i] == entries[..i];
        var entry := entries[i];
        if entry.command.deviceId == deviceId && !entry.Final() && entry.command.commandId !in sent {
          commands := commands + [entry.command];
        }
      }
      assert entries[..|entries|] == entries;
      NothingDue(previous, now);
      if changed {
        var done := Persist(persisted);
        if !done {
          entries := previous;
          return Failure(PersistFailed);
        }
      }
      return Success(commands);
    }

    method Record(deviceId: string, result: CommandResult, now: int, persisted: bool)
      returns (r: Result<(Entry, bool), BusError>)
      modifies this
      ensures (View(), r) == RecordSpec(old(View()), deviceId, result, now, persisted)
      ensures r.Failure? ==> notify == old(notify)
      ensures View() != old(View()) && deviceId in old(notify) ==> notify == old(notify)[deviceId := true]
    {
      var previous := State(sequence, entries);
      for i := 0 to |entries|
        invariant forall k :: 0 <= k < i ==> entries[k].command.commandId != result.commandId
      {
        var entry := entries[i];
        if entry.command.commandId != result.commandId {
          continue;
        }
        assert Find(entries, result.commandId) == i;
        if entry.command.deviceId != deviceId {
          return Failure(DeviceMismatch);
        }
        if result.sequence != entry.command.sequence {
          return Failure(SequenceMismatch);
        }
        if entry.Final() {
          return Success((entry, false));
        }
        if result.status != Accepted && !result.status.Final() {
          return Failure(InvalidStatus);
        }
        var firstAccepted := result.status == Accepted && entry.result.status != Accepted;
        var updated := Recorded(entry, result, now);
        entries := entries[i := updated];
        TrimFinals();
        var done := PersistOrRestore(previous, deviceId, persisted);
        if !done {
          return Failure(PersistFailed);
        }
        return Success((updated, firstAccepted));
      }
      return Failure(NotFound);
    }

    method FindEntry(id: string) returns (i: nat)
      ensures i == Find(entries, id)
    {
      i := 0;
      while i < |entries| && entries[i].command.commandId != id
        invariant i <= |entries| && forall k :: 0 <= k < i ==> entries[k].command.commandId != id
      {
        i := i + 1;
      }
    }

    method Get(id: string, now: int, persisted: bool) returns (r: Result<Entry, BusError>)
      modifies this`entries, this`disk
      ensures (View(), r) == GetSpec(old(View()), id, now, persisted)
    {
      var previous := entries;
      var changed := ExpireAll(now);
      NothingDue(previous, now);
      var i := FindEntry(id);
      if i == |entries| {
        return Failure(NotFound);
      }
      if changed {
        var done := Persist(persisted);
        if !done {
          entries := previous;
          return Failure(PersistFailed);
        }
      }
      return Success(entries[i]);
    }
  }

  lemma NothingDue(es: seq<Entry>, now: int)
    ensures !AnyDue(es, now) ==> Expire(es, now) == es
  {
  }
}
