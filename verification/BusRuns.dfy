/**
 What holds of the command bus over every run of its operations, including failed writes,
 missing UUIDs and restarts (internal/commandbus/bus.go:44-293).
 */
module BusRuns {
  import opened Wrappers
  import opened Protocol
  import opened CommandBus

  datatype Step =
    | Publish(deviceId: string, request: CommandRequest, uuid: Option<string>, evictedAt: int, now: int, persisted: bool)
    | Pending(deviceId: string, sent: set<string>, now: int, persisted: bool)
    | Record(deviceId: string, result: CommandResult, now: int, persisted: bool)
    | Get(id: string, now: int, persisted: bool)
    | Restart(now: int)

  function NextImage(img: Image, step: Step): Image {
    match step
    case Publish(device, request, uuid, evictedAt, now, persisted) =>
      PublishSpec(img, device, request, uuid, evictedAt, now, persisted).0
    case Pending(device, sent, now, persisted) => PendingSpec(img, device, sent, now, persisted).0
    case Record(device, result, now, persisted) => RecordSpec(img, device, result, now, persisted).0
    case Get(id, now, persisted) => GetSpec(img, id, now, persisted).0
    case Restart(_) => Image(Loaded(img.disk), Loaded(img.disk))
  }

  // A bus with the history that its invariants speak of: the UUIDs drawn so far, the latest clock
  // reading, and the commands for which Record reported a first acceptance.
  datatype World = World(img: Image, used: set<string>, clock: int, accepted: seq<string>)

  function FirstAccepted(img: Image, step: Step): seq<string> {
    if !step.Record? then []
    else
      match RecordSpec(img, step.deviceId, step.result, step.now, step.persisted).1
      case Success((entry, true)) => [entry.command.commandId]
      case _ => []
  }

  function Next(w: World, step: Step): World {
    World(NextImage(w.img, step),
          if step.Publish? && step.uuid.Some? then w.used + {step.uuid.value} else w.used,
          step.now,
          w.accepted + FirstAccepted(w.img, step))
  }

  // Version 4 UUIDs are never drawn twice, and the clock does not run backwards.
  ghost predicate Allowed(w: World, step: Step) {
    && (step.Publish? && step.uuid.Some? ==> step.uuid.value !in w.used)
    && (if step.Publish? then w.clock <= step.evictedAt <= step.now else w.clock <= step.now)
  }

  ghost predicate AllowedRun(w: World, steps: seq<Step>)
    decreases |steps|
  {
    steps != [] ==> Allowed(w, steps[0]) && AllowedRun(Next(w, steps[0]), steps[1..])
  }

  function Run(w: World, steps: seq<Step>): World
    decreases |steps|
  {
    if steps == [] then w else Run(Next(w, steps[0]), steps[1..])
  }

  function Start(clock: int): World {
    World(Image(EMPTY, EMPTY), {}, clock, [])
  }

  // ----- the shape of a queue -----

  ghost predicate Ascending(es: seq<Entry>) {
    forall i, j :: 0 <= i < j < |es| ==> es[i].command.sequence < es[j].command.sequence
  }

  ghost predicate DistinctIds(es: seq<Entry>) {
    forall i, j :: 0 <= i < j < |es| ==> es[i].command.commandId != es[j].command.commandId
  }

  ghost predicate Consistent(e: Entry, sequence: nat) {
    && 1 <= e.command.sequence <= sequence
    && e.result.commandId == e.command.commandId && e.result.sequence == e.command.sequence
    && !e.result.status.UnknownStatus?
  }

  ghost predicate Shape(s: State) {
    && Ascending(s.entries) && DistinctIds(s.entries)
    && (forall e <- s.entries :: Consistent(e, s.sequence))
    && PendingCount(s.entries) <= MAX_PENDING
    && |s.entries| <= MAX_PENDING + MAX_RESULTS
  }

  // The same command, but for what is left of its parameters.
  ghost predicate SameIdentity(a: Entry, b: Entry) {
    && b.command.(params := a.command.params) == a.command
    && b.result.commandId == a.result.commandId && b.result.sequence == a.result.sequence
  }

  // b is what became of a: its rank did not fall, and a final entry did not change at all.
  ghost predicate Advances(a: Entry, b: Entry) {
    && SameIdentity(a, b)
    && b.result.status.Rank() >= a.result.status.Rank()
    && (a.Final() ==> b == a)
    && (!a.Final() && b.Final() ==> OnlyAudit(a.command, b.command.params))
    && (!b.Final() ==> b.command == a.command)
    && (a.result.status.UnknownStatus? || !b.result.status.UnknownStatus?)
  }

  ghost predicate ComesFrom(b: Entry, es: seq<Entry>) {
    exists a <- es :: Advances(a, b)
  }

  ghost predicate Descends(es: seq<Entry>, es': seq<Entry>) {
    forall b <- es' :: ComesFrom(b, es)
  }

  lemma DescendsTransitive(a: seq<Entry>, b: seq<Entry>, c: seq<Entry>)
    requires Descends(a, b) && Descends(b, c)
    ensures Descends(a, c)
  {
    forall z <- c
      ensures ComesFrom(z, a)
    {
      var y :| y in b && Advances(y, z);
      var x :| x in a && Advances(x, y);
      assert Advances(x, z);
    }
  }

  // ----- expiry -----

  lemma {:induction false} FinalsGrow(es: seq<Entry>, es': seq<Entry>)
    requires |es| == |es'| && forall i :: 0 <= i < |es| && es[i].Final() ==> es'[i].Final()
    ensures Finals(es') >= Finals(es)
  {
    if es != [] {
      FinalsGrow(es[..|es| - 1], es'[..|es| - 1]);
    }
  }

  lemma ExpireAdvances(e: Entry, now: int)
    ensures Advances(e, ExpireEntry(e, now))
  {
  }

  lemma ExpireDescends(es: seq<Entry>, now: int)
    ensures Descends(es, Expire(es, now))
    ensures PendingCount(Expire(es, now)) <= PendingCount(es)
    ensures Ascending(es) ==> Ascending(Expire(es, now))
    ensures DistinctIds(es) ==> DistinctIds(Expire(es, now))
  {
    forall i | 0 <= i < |es|
      ensures Advances(es[i], Expire(es, now)[i])
    {
      ExpireAdvances(es[i], now);
    }
    FinalsGrow(es, Expire(es, now));
    forall b <- Expire(es, now)
      ensures ComesFrom(b, es)
    {
      var i :| 0 <= i < |es| && b == Expire(es, now)[i];
      assert es[i] in es;
    }
  }

  // ----- eviction -----

  // Eviction hits the oldest published normal-priority entry and nothing else.
  lemma EvictOldest(es: seq<Entry>, now: int)
    ensures
      var i := FirstEvictable(es);
      && (i == |es| ==> Evict(es, now) == es && forall e <- es :: !Evictable(e))
      && (i < |es| ==>
            && Evictable(es[i]) && Evict(es, now)[i].result.status == Failed && Evict(es, now)[i].result.code == "overflow"
            && (forall k :: 0 <= k < i ==> !Evictable(es[k]))
            && (forall k :: 0 <= k < |es| && k != i ==> Evict(es, now)[k] == es[k])
            && PendingCount(Evict(es, now)) == PendingCount(es) - 1)
  {
    var i := FirstEvictable(es);
    if i < |es| {
      FinalsUpdate(es, i, Evicted(es[i], now));
    }
  }

  lemma UpdateDescends(es: seq<Entry>, i: nat, e: Entry)
    requires i < |es| && Advances(es[i], e)
    ensures Descends(es, es[i := e])
    ensures Ascending(es) ==> Ascending(es[i := e])
    ensures DistinctIds(es) ==> DistinctIds(es[i := e])
  {
    forall b <- es[i := e]
      ensures ComesFrom(b, es)
    {
      if b in es {
        assert Advances(b, b);
      } else {
        assert es[i] in es;
      }
    }
  }

  lemma EvictDescends(es: seq<Entry>, now: int)
    ensures Descends(es, Evict(es, now))
    ensures Ascending(es) ==> Ascending(Evict(es, now))
    ensures DistinctIds(es) ==> DistinctIds(Evict(es, now))
  {
    var i := FirstEvictable(es);
    if i < |es| {
      UpdateDescends(es, i, Evicted(es[i], now));
    } else {
      DescendsReflexive(es);
    }
  }

  lemma DescendsReflexive(es: seq<Entry>)
    ensures Descends(es, es)
  {
    forall b <- es
      ensures ComesFrom(b, es)
    {
      assert Advances(b, b);
    }
  }

  // ----- trimming -----

  function Select(es: seq<Entry>, final: bool): seq<Entry> {
    if es == [] then []
    else (if es[0].Final() == final then [es[0]] else []) + Select(es[1..], final)
  }

  lemma {:induction false} SelectCounts(es: seq<Entry>)
    ensures |Select(es, true)| == Finals(es) && |Select(es, false)| == PendingCount(es)
  {
    if es != [] {
      SelectCounts(es[1..]);
      assert es == [es[0]] + es[1..];
      FinalsConcat([es[0]], es[1..]);
    }
  }

  lemma SelectHead(e: Entry, es: seq<Entry>, final: bool)
    ensures Select([e] + es, final) == (if e.Final() == final then [e] else []) + Select(es, final)
    ensures Finals([e] + es) == (if e.Final() then 1 else 0) + Finals(es)
  {
    assert ([e] + es)[1..] == es;
    FinalsConcat([e], es);
  }

  lemma {:induction false} DropFinalsSelects(es: seq<Entry>, k: nat)
    requires k <= Finals(es)
    ensures |Select(es, true)| == Finals(es)
    ensures Select(DropFinals(es, k), false) == Select(es, false)
    ensures Select(DropFinals(es, k), true) == Select(es, true)[k..]
  {
    SelectCounts(es);
    if k > 0 {
      var e, rest := es[0], es[1..];
      assert es == [e] + rest;
      SelectHead(e, rest, true);
      SelectHead(e, rest, false);
      if e.Final() {
        DropFinalsSelects(rest, k - 1);
      } else {
        DropFinalsSelects(rest, k);
        SelectHead(e, DropFinals(rest, k), true);
        SelectHead(e, DropFinals(rest, k), false);
      }
    }
  }

  // Trimming keeps every pending entry and the newest 256 final ones, by place in the queue.
  lemma TrimKeepsNewestFinals(es: seq<Entry>)
    ensures Select(Trim(es), false) == Select(es, false)
    ensures
      var finals := Select(es, true);
      Select(Trim(es), true) == if |finals| > MAX_RESULTS then finals[|finals| - MAX_RESULTS..] else finals
    ensures PendingCount(Trim(es)) == PendingCount(es)
    ensures Finals(Trim(es)) <= MAX_RESULTS && Finals(Trim(es)) <= Finals(es)
  {
    SelectCounts(es);
    SelectCounts(Trim(es));
    DropFinalsSelects(es, if Finals(es) > MAX_RESULTS then Finals(es) - MAX_RESULTS else 0);
  }

  // Removing final entries leaves the others in their order.
  lemma {:induction false} DropFinalsOrder(es: seq<Entry>, k: nat)
    ensures forall e <- DropFinals(es, k) :: e in es
    ensures Ascending(es) ==> Ascending(DropFinals(es, k))
    ensures DistinctIds(es) ==> DistinctIds(DropFinals(es, k))
  {
    if k > 0 && es != [] {
      var k' := if es[0].Final() then k - 1 else k;
      DropFinalsOrder(es[1..], k');
      assert Ascending(es) ==> Ascending(es[1..]);
      assert DistinctIds(es) ==> DistinctIds(es[1..]);
      if !es[0].Final() {
        var rest := DropFinals(es[1..], k);
        forall j | 0 <= j < |rest|
          ensures Ascending(es) ==> es[0].command.sequence < rest[j].command.sequence
          ensures DistinctIds(es) ==> es[0].command.commandId != rest[j].command.commandId
        {
          assert rest[j] in es[1..];
        }
      }
    }
  }

  lemma TrimDescends(es: seq<Entry>)
    ensures Descends(es, Trim(es)) && forall e <- Trim(es) :: e in es
    ensures Ascending(es) ==> Ascending(Trim(es))
    ensures DistinctIds(es) ==> DistinctIds(Trim(es))
  {
    DropFinalsOrder(es, if Finals(es) > MAX_RESULTS then Finals(es) - MAX_RESULTS else 0);
    forall e <- Trim(es)
      ensures ComesFrom(e, es)
    {
      assert Advances(e, e);
    }
  }

  // ----- every operation keeps the shape -----

  lemma DescendsConsistent(es: seq<Entry>, es': seq<Entry>, s: nat, s': nat)
    requires Descends(es, es') && s <= s' && forall e <- es :: Consistent(e, s)
    ensures forall e <- es' :: Consistent(e, s')
  {
    forall b <- es'
      ensures Consistent(b, s')
    {
      var a :| a in es && Advances(a, b);
    }
  }

  lemma RoomShape(s: State, evictedAt: int)
    requires Shape(s) && !Full(s.entries)
    ensures
      var room := MakeRoom(s.entries, evictedAt);
      && Shape(s.(entries := room)) && PendingCount(room) < MAX_PENDING && Descends(s.entries, room)
  {
    var room := MakeRoom(s.entries, evictedAt);
    EvictDescends(s.entries, evictedAt);
    EvictOldest(s.entries, evictedAt);
    DescendsReflexive(s.entries);
    DescendsConsistent(s.entries, room, s.sequence, s.sequence);
  }

  lemma AppendShape(s: State, entry: Entry)
    requires Shape(s) && PendingCount(s.entries) < MAX_PENDING
    requires !entry.Final() && Consistent(entry, s.sequence + 1) && entry.command.sequence == s.sequence + 1
    requires forall e <- s.entries :: e.command.commandId != entry.command.commandId
    ensures Ascending(s.entries + [entry]) && DistinctIds(s.entries + [entry])
    ensures forall e <- s.entries + [entry] :: Consistent(e, s.sequence + 1)
    ensures PendingCount(s.entries + [entry]) <= MAX_PENDING
  {
    var longer := s.entries + [entry];
    forall i | 0 <= i < |s.entries|
      ensures longer[i].command.sequence < entry.command.sequence
      ensures longer[i].command.commandId != entry.command.commandId
    {
      assert s.entries[i] in s.entries;
    }
    FinalsConcat(s.entries, [entry]);
    assert Finals([entry]) == 0;
  }

  lemma PublishShape(s: State, entry: Entry, evictedAt: int)
    requires Shape(s) && !Full(s.entries)
    requires !entry.Final() && Consistent(entry, s.sequence + 1) && entry.command.sequence == s.sequence + 1
    requires forall e <- s.entries :: e.command.commandId != entry.command.commandId
    ensures Shape(State(s.sequence + 1, Trim(MakeRoom(s.entries, evictedAt) + [entry])))
  {
    var room := MakeRoom(s.entries, evictedAt);
    RoomShape(s, evictedAt);
    forall e <- room
      ensures e.command.commandId != entry.command.commandId
    {
      var a :| a in s.entries && Advances(a, e);
    }
    AppendShape(s.(entries := room), entry);
    TrimShape(room + [entry], s.sequence + 1);
  }

  lemma TrimShape(es: seq<Entry>, sequence: nat)
    requires Ascending(es) && DistinctIds(es) && PendingCount(es) <= MAX_PENDING
    requires forall e <- es :: Consistent(e, sequence)
    ensures Shape(State(sequence, Trim(es)))
  {
    TrimDescends(es);
    TrimKeepsNewestFinals(es);
  }

  lemma RecordedAdvances(e: Entry, result: CommandResult, now: int)
    requires !e.Final() && result.commandId == e.command.commandId && result.sequence == e.command.sequence
    requires result.commandId == e.result.commandId && result.sequence == e.result.sequence
    requires result.status == Accepted || result.status.Final()
    ensures Advances(e, Recorded(e, result, now))
  {
  }

  lemma RecordShape(s: State, i: nat, entry: Entry)
    requires Shape(s) && i < |s.entries| && !s.entries[i].Final() && Advances(s.entries[i], entry)
    ensures Shape(s.(entries := Trim(s.entries[i := entry])))
    ensures Descends(s.entries, Trim(s.entries[i := entry]))
  {
    var es := s.entries[i := entry];
    UpdateDescends(s.entries, i, entry);
    FinalsUpdate(s.entries, i, entry);
    DescendsConsistent(s.entries, es, s.sequence, s.sequence);
    TrimShape(es, s.sequence);
    TrimDescends(es);
    DescendsTransitive(s.entries, es, Trim(es));
  }

  lemma ExpireShape(s: State, now: int)
    requires Shape(s)
    ensures Shape(s.(entries := Expire(s.entries, now)))
    ensures Descends(s.entries, Expire(s.entries, now))
  {
    ExpireDescends(s.entries, now);
    DescendsConsistent(s.entries, Expire(s.entries, now), s.sequence, s.sequence);
  }

  // What became of one state: entries known before come from entries before, and no ID returns.
  ghost predicate Progress(s: State, s': State, known: set<string>) {
    && s.sequence <= s'.sequence
    && forall b <- s'.entries :: b.command.commandId in known ==> ComesFrom(b, s.entries)
  }

  ghost predicate Known(s: State, used: set<string>) {
    forall e <- s.entries :: e.command.commandId in used
  }

  lemma PublishStep(img: Image, step: Step, used: set<string>)
    requires step.Publish? && Shape(img.mem) && Known(img.mem, used)
    requires step.uuid.Some? ==> step.uuid.value !in used
    ensures
      var img' := NextImage(img, step);
      && Shape(img'.mem) && Progress(img.mem, img'.mem, used)
      && Known(img'.mem, used + if step.uuid.Some? then {step.uuid.value} else {})
      && (img'.disk == img.disk || img'.disk == img'.mem)
  {
    PublishCases(img, step);
    DescendsReflexive(img.mem.entries);
    if NextImage(img, step) != img {
      RoomShape(img.mem, step.evictedAt);
      KnownDescends(img.mem.entries, MakeRoom(img.mem.entries, step.evictedAt), used);
      if step.uuid.Some? {
        PublishedState(img.mem, PublishedBy(img.mem, step), step.evictedAt, used);
      }
    }
  }

  function PublishedBy(s: State, step: Step): Entry
    requires step.Publish? && step.uuid.Some?
  {
    NewEntry(NewCommand(s, step.deviceId, step.request, step.uuid.value, step.now), step.now)
  }

  // Publish changes nothing, or makes room and gets no UUID, or stores the queue with the new entry.
  lemma PublishCases(img: Image, step: Step)
    requires step.Publish?
    ensures
      var es, img' := img.mem.entries, NextImage(img, step);
      var room := MakeRoom(es, step.evictedAt);
      if ValidateRequest(step.request).Some? || Full(es) || (step.uuid.Some? && !step.persisted) then img' == img
      else if step.uuid.None? then img' == img.(mem := img.mem.(entries := room))
      else
        && img'.mem == State(img.mem.sequence + 1, Trim(room + [PublishedBy(img.mem, step)]))
        && img'.disk == img'.mem
  {
  }

  lemma PublishedState(s: State, entry: Entry, evictedAt: int, used: set<string>)
    requires Shape(s) && !Full(s.entries) && Known(s, used) && entry.command.commandId !in used
    requires !entry.Final() && Consistent(entry, s.sequence + 1) && entry.command.sequence == s.sequence + 1
    ensures
      var t := State(s.sequence + 1, Trim(MakeRoom(s.entries, evictedAt) + [entry]));
      Shape(t) && Progress(s, t, used) && Known(t, used + {entry.command.commandId})
  {
    var room := MakeRoom(s.entries, evictedAt);
    RoomShape(s, evictedAt);
    KnownDescends(s.entries, room, used);
    PublishShape(s, entry, evictedAt);
    AppendedProgress(s.entries, room, entry, used);
  }

  lemma AppendedProgress(es: seq<Entry>, room: seq<Entry>, entry: Entry, used: set<string>)
    requires Descends(es, room) && (forall e <- room :: e.command.commandId in used) && entry.command.commandId !in used
    ensures forall b <- Trim(room + [entry]) :: b.command.commandId in used + {entry.command.commandId}
    ensures forall b <- Trim(room + [entry]) :: b.command.commandId in used ==> ComesFrom(b, es)
  {
    TrimDescends(room + [entry]);
    forall b <- Trim(room + [entry])
      ensures b in room || b == entry
    {
      assert b in room + [entry];
    }
  }

  lemma KnownDescends(es: seq<Entry>, es': seq<Entry>, used: set<string>)
    requires Descends(es, es') && forall e <- es :: e.command.commandId in used
    ensures forall e <- es' :: e.command.commandId in used
  {
    forall b <- es'
      ensures b.command.commandId in used
    {
      var a :| a in es && Advances(a, b);
    }
  }

  // Record changes nothing, or replaces one pending entry and stores what is left after trimming.
  lemma RecordCases(img: Image, step: Step)
    requires step.Record?
    ensures
      var es, img' := img.mem.entries, NextImage(img, step);
      var i := Find(es, step.result.commandId);
      || img' == img
      || (&& i < |es| && !es[i].Final() && RecordError(es[i], step.deviceId, step.result).None?
          && img'.mem == img.mem.(entries := Trim(es[i := Recorded(es[i], step.result, step.now)]))
          && img'.disk == img'.mem)
  {
  }

  lemma RecordStep(img: Image, step: Step, used: set<string>)
    requires step.Record? && Shape(img.mem) && Known(img.mem, used)
    ensures
      var img' := NextImage(img, step);
      && Shape(img'.mem) && Progress(img.mem, img'.mem, used) && Known(img'.mem, used)
      && (img'.disk == img.disk || img'.disk == img'.mem)
  {
    var es := img.mem.entries;
    RecordCases(img, step);
    if NextImage(img, step) == img {
      DescendsReflexive(es);
    } else {
      var i := Find(es, step.result.commandId);
      var entry := Recorded(es[i], step.result, step.now);
      assert es[i] in es;
      RecordedAdvances(es[i], step.result, step.now);
      RecordShape(img.mem, i, entry);
      KnownDescends(es, Trim(es[i := entry]), used);
    }
  }

  lemma ExpiryStep(img: Image, step: Step, used: set<string>)
    requires (step.Pending? || step.Get?) && Shape(img.mem) && Known(img.mem, used)
    ensures
      var img' := NextImage(img, step);
      && Shape(img'.mem) && Progress(img.mem, img'.mem, used) && Known(img'.mem, used)
      && (img'.disk == img.disk || img'.disk == img'.mem)
  {
    var es, expired := img.mem.entries, img.mem.(entries := Expire(img.mem.entries, step.now));
    assert NextImage(img, step) in {img, img.(mem := expired), Image(expired, expired)};
    DescendsReflexive(es);
    ExpireShape(img.mem, step.now);
    KnownDescends(es, expired.entries, used);
  }

  // No operation but a restart loses progress, and every write stores exactly the memory.
  lemma StepProgress(img: Image, step: Step, used: set<string>)
    requires !step.Restart? && Shape(img.mem) && Known(img.mem, used)
    requires step.Publish? && step.uuid.Some? ==> step.uuid.value !in used
    ensures
      var img' := NextImage(img, step);
      && Shape(img'.mem) && Progress(img.mem, img'.mem, used)
      && Known(img'.mem, used + if step.Publish? && step.uuid.Some? then {step.uuid.value} else {})
      && (img'.disk == img.disk || img'.disk == img'.mem)
  {
    if step.Publish? {
      PublishStep(img, step, used);
    } else if step.Record? {
      RecordStep(img, step, used);
    } else {
      ExpiryStep(img, step, used);
    }
  }

  // ----- over whole runs -----

  ghost predicate NoDuplicates(ids: seq<string>) {
    forall i, j :: 0 <= i < j < |ids| ==> ids[i] != ids[j]
  }

  ghost predicate PastPublished(s: State, id: string) {
    forall e <- s.entries :: e.command.commandId == id ==> e.result.status.Rank() >= 1
  }

  ghost predicate Inv(w: World) {
    && Shape(w.img.mem) && Shape(w.img.disk) && w.img.mem.sequence == w.img.disk.sequence
    && Known(w.img.mem, w.used) && Known(w.img.disk, w.used)
    && NoDuplicates(w.accepted)
    && forall id <- w.accepted :: id in w.used && PastPublished(w.img.mem, id) && PastPublished(w.img.disk, id)
  }

  lemma StartInv(clock: int)
    ensures Inv(Start(clock))
  {
  }

  lemma ProgressPastPublished(s: State, s': State, known: set<string>, id: string)
    requires Progress(s, s', known) && id in known && PastPublished(s, id)
    ensures PastPublished(s', id)
  {
    forall b <- s'.entries | b.command.commandId == id
      ensures b.result.status.Rank() >= 1
    {
      var a :| a in s.entries && Advances(a, b);
    }
  }

  lemma SameSequence(img: Image, step: Step)
    requires img.mem.sequence == img.disk.sequence
    ensures NextImage(img, step).mem.sequence == NextImage(img, step).disk.sequence
  {
  }

  // Reading the file back changes no entry but for its parameters.
  ghost predicate Reread(es: seq<Entry>, xs: seq<Entry>) {
    |xs| == |es| && forall i :: 0 <= i < |es| ==> SameIdentity(es[i], xs[i]) && xs[i].result == es[i].result
  }

  lemma LoadedIsReread(s: State)
    ensures Reread(s.entries, Loaded(s).entries)
  {
  }

  lemma RereadCount(es: seq<Entry>, xs: seq<Entry>)
    requires Reread(es, xs)
    ensures PendingCount(xs) <= PendingCount(es)
  {
    forall i | 0 <= i < |es| && es[i].Final()
      ensures xs[i].Final()
    {
      assert SameIdentity(es[i], xs[i]);
    }
    FinalsGrow(es, xs);
  }

  lemma RereadShape(s: State, t: State)
    requires Shape(s) && t.sequence == s.sequence && Reread(s.entries, t.entries)
    ensures Shape(t)
  {
    var es, xs := s.entries, t.entries;
    RereadCount(es, xs);
    forall x <- xs
      ensures Consistent(x, t.sequence)
    {
      var i :| 0 <= i < |xs| && xs[i] == x;
      assert SameIdentity(es[i], x) && es[i] in es;
    }
    forall i, j | 0 <= i < j < |xs|
      ensures xs[i].command.sequence < xs[j].command.sequence && xs[i].command.commandId != xs[j].command.commandId
    {
      assert SameIdentity(es[i], xs[i]) && SameIdentity(es[j], xs[j]);
    }
  }

  lemma RereadKnown(s: State, t: State, used: set<string>)
    requires Reread(s.entries, t.entries) && Known(s, used)
    ensures Known(t, used)
  {
    forall x <- t.entries
      ensures x.command.commandId in used
    {
      var i :| 0 <= i < |t.entries| && t.entries[i] == x;
      assert SameIdentity(s.entries[i], x) && s.entries[i] in s.entries;
    }
  }

  lemma RereadPast(s: State, t: State, id: string)
    requires Reread(s.entries, t.entries) && PastPublished(s, id)
    ensures PastPublished(t, id)
  {
    forall x <- t.entries | x.command.commandId == id
      ensures x.result.status.Rank() >= 1
    {
      var i :| 0 <= i < |t.entries| && t.entries[i] == x;
      assert SameIdentity(s.entries[i], x) && s.entries[i] in s.entries;
    }
  }

  lemma RestartStep(w: World, now: int)
    requires Inv(w)
    ensures Inv(Next(w, Restart(now)))
  {
    var disk, loaded := w.img.disk, Loaded(w.img.disk);
    LoadedIsReread(disk);
    RereadShape(disk, loaded);
    RereadKnown(disk, loaded, w.used);
    forall id <- w.accepted
      ensures PastPublished(loaded, id)
    {
      RereadPast(disk, loaded, id);
    }
  }

  // A first acceptance is of a published entry, and leaves it accepted in memory and on disk.
  lemma AcceptanceStep(img: Image, step: Step, id: string)
    requires Shape(img.mem) && FirstAccepted(img, step) == [id]
    ensures !PastPublished(img.mem, id) && exists e <- img.mem.entries :: e.command.commandId == id
    ensures NextImage(img, step).disk == NextImage(img, step).mem
    ensures PastPublished(NextImage(img, step).mem, id)
  {
    var es := img.mem.entries;
    var i := Find(es, step.result.commandId);
    var entry := Recorded(es[i], step.result, step.now);
    assert es[i] in es;
    var es' := es[i := entry];
    TrimDescends(es');
    forall e <- Trim(es') | e.command.commandId == id
      ensures e.result.status.Rank() >= 1
    {
      assert e in es';
      var k :| 0 <= k < |es'| && es'[k] == e;
      assert k == i;
    }
  }

  lemma FirstAcceptedCases(img: Image, step: Step)
    ensures FirstAccepted(img, step) == [] || exists id :: FirstAccepted(img, step) == [id]
  {
    if FirstAccepted(img, step) != [] {
      assert FirstAccepted(img, step) == [FirstAccepted(img, step)[0]];
    }
  }

  lemma InvStep(w: World, step: Step)
    requires Inv(w) && Allowed(w, step)
    ensures Inv(Next(w, step))
  {
    var w' := Next(w, step);
    if step.Restart? {
      RestartStep(w, step.now);
      return;
    }
    SameSequence(w.img, step);
    StepProgress(w.img, step, w.used);
    forall id <- w.accepted
      ensures PastPublished(w'.img.mem, id) && PastPublished(w'.img.disk, id)
    {
      ProgressPastPublished(w.img.mem, w'.img.mem, w.used, id);
    }
    FirstAcceptedCases(w.img, step);
    if FirstAccepted(w.img, step) != [] {
      var id := FirstAccepted(w.img, step)[0];
      AcceptanceStep(w.img, step, id);
      assert id !in w.accepted;
    }
  }

  lemma {:induction false} InvRun(w: World, steps: seq<Step>)
    requires Inv(w) && AllowedRun(w, steps)
    ensures Inv(Run(w, steps))
    decreases |steps|
  {
    if steps != [] {
      InvStep(w, steps[0]);
      InvRun(Next(w, steps[0]), steps[1..]);
    }
  }

  // From an empty file the queue stays within its bounds for ever, in memory and on disk, so a
  // restarted process never takes its own file for a corrupt one.
  lemma QueueBounded(clock: int, steps: seq<Step>)
    requires AllowedRun(Start(clock), steps)
    ensures
      var img := Run(Start(clock), steps).img;
      && Shape(img.mem) && Shape(img.disk)
      && |img.disk.entries| <= MAX_PENDING + MAX_RESULTS
      && PendingCount(img.mem.entries) <= MAX_PENDING
  {
    StartInv(clock);
    InvRun(Start(clock), steps);
  }

  // Over the whole history, restarts included, a command is reported as first accepted at most once.
  lemma FirstAcceptedOnce(clock: int, steps: seq<Step>)
    requires AllowedRun(Start(clock), steps)
    ensures NoDuplicates(Run(Start(clock), steps).accepted)
  {
    StartInv(clock);
    InvRun(Start(clock), steps);
  }

  // Within one process, whatever is left of a command never went backwards, a final entry is
  // unchanged with its result and redacted parameters, and a trimmed command does not come back.
  lemma {:induction false} ProcessProgress(w: World, steps: seq<Step>, b: Entry)
    requires Inv(w) && AllowedRun(w, steps) && forall s <- steps :: !s.Restart?
    requires b in Run(w, steps).img.mem.entries && b.command.commandId in w.used
    ensures ComesFrom(b, w.img.mem.entries)
    decreases |steps|
  {
    if steps == [] {
      DescendsReflexive(w.img.mem.entries);
    } else {
      var next := Next(w, steps[0]);
      InvStep(w, steps[0]);
      StepProgress(w.img, steps[0], w.used);
      ProcessProgress(next, steps[1..], b);
      var a :| a in next.img.mem.entries && Advances(a, b);
      var z :| z in w.img.mem.entries && Advances(z, a);
      assert Advances(z, b);
    }
  }

  // ----- what Pending hands out -----

  ghost predicate Offered(c: DisplayCommand, es: seq<Entry>, deviceId: string, sent: set<string>) {
    exists e <- es :: Sendable(e, deviceId, sent) && e.command == c
  }

  lemma OfferedAppend(c: DisplayCommand, front: seq<Entry>, last: Entry, deviceId: string, sent: set<string>)
    ensures Offered(c, front + [last], deviceId, sent)
            <==> Offered(c, front, deviceId, sent) || (Sendable(last, deviceId, sent) && last.command == c)
  {
    if Offered(c, front, deviceId, sent) {
      var e :| e in front && Sendable(e, deviceId, sent) && e.command == c;
      assert e in front + [last];
    }
    if Sendable(last, deviceId, sent) && last.command == c {
      assert last in front + [last];
    }
  }

  // Exactly the live, unsent commands of the device.
  lemma {:induction false} SendableExactly(es: seq<Entry>, deviceId: string, sent: set<string>)
    ensures forall c :: c in SendableCommands(es, deviceId, sent) <==> Offered(c, es, deviceId, sent)
  {
    if es != [] {
      var front, last := es[..|es| - 1], es[|es| - 1];
      assert es == front + [last];
      SendableExactly(front, deviceId, sent);
      forall c
        ensures c in SendableCommands(es, deviceId, sent) <==> Offered(c, es, deviceId, sent)
      {
        OfferedAppend(c, front, last, deviceId, sent);
      }
    }
  }

  ghost predicate AscendingCommands(cs: seq<DisplayCommand>) {
    forall i, j :: 0 <= i < j < |cs| ==> cs[i].sequence < cs[j].sequence
  }

  lemma AscendingAppend(cs: seq<DisplayCommand>, c: DisplayCommand)
    requires AscendingCommands(cs) && forall x <- cs :: x.sequence < c.sequence
    ensures AscendingCommands(cs + [c])
  {
  }

  lemma {:induction false} SendableAscends(es: seq<Entry>, deviceId: string, sent: set<string>)
    requires Ascending(es)
    ensures AscendingCommands(SendableCommands(es, deviceId, sent))
  {
    if es != [] {
      var front, last := es[..|es| - 1], es[|es| - 1];
      SendableAscends(front, deviceId, sent);
      SendableExactly(front, deviceId, sent);
      forall c <- SendableCommands(front, deviceId, sent)
        ensures c.sequence < last.command.sequence
      {
        assert Offered(c, front, deviceId, sent);
        var e :| e in front && e.command == c;
        var i :| 0 <= i < |front| && front[i] == e;
        assert es[i] == e;
      }
      AscendingAppend(SendableCommands(front, deviceId, sent), last.command);
    }
  }

  ghost predicate Live(c: DisplayCommand, es: seq<Entry>, now: int) {
    exists e <- es :: e.command == c && !e.Final() && !Due(e, now)
  }

  lemma OfferedIsLive(c: DisplayCommand, es: seq<Entry>, deviceId: string, sent: set<string>, now: int)
    requires Offered(c, Expire(es, now), deviceId, sent)
    ensures c.deviceId == deviceId && c.commandId !in sent && Live(c, es, now)
  {
    var xs := Expire(es, now);
    var e :| e in xs && Sendable(e, deviceId, sent) && e.command == c;
    var i :| 0 <= i < |xs| && xs[i] == e;
    assert es[i] in es && e == ExpireEntry(es[i], now);
  }

  // What Pending hands out is for the device, unsent, ascending, and not yet past its time; and
  // everything of that kind is handed out.
  lemma PendingIsLive(img: Image, deviceId: string, sent: set<string>, now: int, persisted: bool)
    requires Shape(img.mem) && PendingSpec(img, deviceId, sent, now, persisted).1.Success?
    ensures
      var cs := PendingSpec(img, deviceId, sent, now, persisted).1.value;
      && AscendingCommands(cs)
      && (forall c :: c in cs <==> c.deviceId == deviceId && c.commandId !in sent && Live(c, img.mem.entries, now))
  {
    var es := img.mem.entries;
    ExpireDescends(es, now);
    SendableAscends(Expire(es, now), deviceId, sent);
    SendableExactly(Expire(es, now), deviceId, sent);
    forall c
      ensures Offered(c, Expire(es, now), deviceId, sent)
              <==> c.deviceId == deviceId && c.commandId !in sent && Live(c, es, now)
    {
      if Offered(c, Expire(es, now), deviceId, sent) {
        OfferedIsLive(c, es, deviceId, sent, now);
      }
      if c.deviceId == deviceId && c.commandId !in sent && Live(c, es, now) {
        var e :| e in es && e.command == c && !e.Final() && !Due(e, now);
        var i :| 0 <= i < |es| && es[i] == e;
        assert Expire(es, now)[i] == e;
        assert e in Expire(es, now) && Sendable(e, deviceId, sent);
      }
    }
  }

  // ----- failures -----

  function Fails(img: Image, step: Step): bool {
    match step
    case Publish(device, request, uuid, evictedAt, now, persisted) =>
      PublishSpec(img, device, request, uuid, evictedAt, now, persisted).1.Failure?
    case Pending(device, sent, now, persisted) => PendingSpec(img, device, sent, now, persisted).1.Failure?
    case Record(device, result, now, persisted) => RecordSpec(img, device, result, now, persisted).1.Failure?
    case Get(id, now, persisted) => GetSpec(img, id, now, persisted).1.Failure?
    case Restart(_) => false
  }

  // An eviction made for a command that then got no UUID.
  predicate LostEviction(img: Image, step: Step) {
    && step.Publish? && step.uuid.None? && ValidateRequest(step.request).None?
    && !Full(img.mem.entries) && PendingCount(img.mem.entries) >= MAX_PENDING
  }

  // A lookup that expired entries and then did not find its command.
  predicate UnsavedExpiry(img: Image, step: Step) {
    step.Get? && AnyDue(img.mem.entries, step.now) && Find(img.mem.entries, step.id) == |img.mem.entries|
  }

  lemma FindIgnoresExpiry(es: seq<Entry>, id: string, now: int)
    ensures Find(Expire(es, now), id) == Find(es, id)
  {
    var xs := Expire(es, now);
    var i, j := Find(es, id), Find(xs, id);
    assert forall k :: 0 <= k < |es| ==> xs[k].command.commandId == es[k].command.commandId;
    if i < |es| {
      assert xs[i].command.commandId == id;
    }
    if j < |es| {
      assert es[j].command.commandId == id;
    }
  }

  lemma DueChanges(es: seq<Entry>, now: int)
    ensures Expire(es, now) != es <==> AnyDue(es, now)
  {
    if AnyDue(es, now) {
      var i :| 0 <= i < |es| && Due(es[i], now);
      assert Expire(es, now)[i].result.status != es[i].result.status;
    } else {
      NothingDue(es, now);
    }
  }

  // A failing operation, a failed write among them, leaves memory and file exactly as they were,
  // but for the two ways in which the queue can be changed before the failure.
  lemma FailureChangesNothing(img: Image, step: Step)
    requires Fails(img, step)
    ensures NextImage(img, step) == img <==> !LostEviction(img, step) && !UnsavedExpiry(img, step)
    ensures NextImage(img, step).disk == img.disk
  {
    var es := img.mem.entries;
    if step.Get? {
      FindIgnoresExpiry(es, step.id, step.now);
      DueChanges(es, step.now);
    } else if LostEviction(img, step) {
      EvictOldest(es, step.evictedAt);
    }
  }

  // ----- crash recovery -----

  // An entry as a reader at time t sees it, but for the completion time and the duration.
  function Settle(e: Entry, t: int): Entry {
    var x := ExpireEntry(e, t);
    x.(result := x.result.(completedAt := None, durationMs := 0))
  }

  function Settled(es: seq<Entry>, t: int): (r: seq<Entry>)
    ensures |r| == |es| && forall i :: 0 <= i < |es| ==> r[i] == Settle(es[i], t)
  {
    seq(|es|, i requires 0 <= i < |es| => Settle(es[i], t))
  }

  // From now on, expiring the file and expiring the memory give the same entries.
  ghost predicate Recoverable(img: Image, clock: int) {
    && img.mem.sequence == img.disk.sequence
    && forall t :: clock <= t ==> Settled(img.mem.entries, t) == Settled(img.disk.entries, t)
  }

  lemma ExpireThenSettle(es: seq<Entry>, now: int, t: int)
    requires now <= t
    ensures Settled(Expire(es, now), t) == Settled(es, t)
  {
    forall i | 0 <= i < |es|
      ensures Settle(ExpireEntry(es[i], now), t) == Settle(es[i], t)
    {
    }
  }

  lemma EvictedSettles(e: Entry, now: int, t: int)
    requires Evictable(e)
    ensures Settle(Evicted(e, now), t).result.status == Failed && Settle(e, t).result.status != Failed
  {
  }

  lemma EvictionSettles(es: seq<Entry>, now: int, t: int)
    requires FirstEvictable(es) < |es|
    ensures Settled(Evict(es, now), t) != Settled(es, t)
  {
    var i := FirstEvictable(es);
    EvictedSettles(es[i], now, t);
    var after, before := Settled(Evict(es, now), t), Settled(es, t);
    assert after[i] == Settle(Evicted(es[i], now), t);
    assert before[i] == Settle(es[i], t);
  }

  // Every step but a lost eviction keeps memory and file equivalent, and a lost eviction never does.
  lemma RecoverableStep(img: Image, step: Step, clock: int)
    requires Recoverable(img, clock) && clock <= step.now
    ensures Recoverable(NextImage(img, step), step.now) <==> !LostEviction(img, step)
  {
    var img' := NextImage(img, step);
    if LostEviction(img, step) {
      EvictionSettles(img.mem.entries, step.evictedAt, step.now);
      assert Settled(img.mem.entries, step.now) == Settled(img.disk.entries, step.now);
    } else if step.Get? {
      forall t | step.now <= t
        ensures Settled(img'.mem.entries, t) == Settled(img'.disk.entries, t)
      {
        ExpireThenSettle(img.mem.entries, step.now, t);
      }
    }
  }

  ghost predicate EvictionsKept(w: World, steps: seq<Step>)
    decreases |steps|
  {
    steps != [] ==> !LostEviction(w.img, steps[0]) && EvictionsKept(Next(w, steps[0]), steps[1..])
  }

  // In every reachable state a crash loses nothing that the clock does not settle again.
  lemma {:induction false} CrashRecovery(w: World, steps: seq<Step>)
    requires Recoverable(w.img, w.clock) && AllowedRun(w, steps) && EvictionsKept(w, steps)
    ensures Recoverable(Run(w, steps).img, Run(w, steps).clock)
    decreases |steps|
  {
    if steps != [] {
      RecoverableStep(w.img, steps[0], w.clock);
      CrashRecovery(Next(w, steps[0]), steps[1..]);
    }
  }

  lemma RereadEntrySettles(e: Entry, x: Entry, t: int)
    requires SameIdentity(e, x) && x.result == e.result
    ensures SameIdentity(Settle(e, t), Settle(x, t)) && Settle(x, t).result == Settle(e, t).result
  {
    assert Due(x, t) == Due(e, t);
  }

  lemma RereadSettles(es: seq<Entry>, xs: seq<Entry>, t: int)
    requires Reread(es, xs)
    ensures Reread(Settled(es, t), Settled(xs, t))
  {
    forall i | 0 <= i < |es|
      ensures SameIdentity(Settled(es, t)[i], Settled(xs, t)[i]) && Settled(xs, t)[i].result == Settled(es, t)[i].result
    {
      RereadEntrySettles(es[i], xs[i], t);
    }
  }

  lemma ImageRestarts(img: Image, clock: int, t: int)
    requires Recoverable(img, clock) && clock <= t
    ensures Reread(Settled(img.mem.entries, t), Settled(NextImage(img, Restart(t)).mem.entries, t))
  {
    LoadedIsReread(img.disk);
    RereadSettles(img.disk.entries, Loaded(img.disk).entries, t);
  }

  // What a restarted process finds agrees with the memory that was lost: at any later time it has the
  // same commands with the same statuses and codes.
  lemma RestartAgrees(w: World, steps: seq<Step>, t: int)
    requires Recoverable(w.img, w.clock) && AllowedRun(w, steps) && EvictionsKept(w, steps)
    requires Run(w, steps).clock <= t
    ensures
      var img := Run(w, steps).img;
      Reread(Settled(img.mem.entries, t), Settled(NextImage(img, Restart(t)).mem.entries, t))
  {
    CrashRecovery(w, steps);
    var end := Run(w, steps);
    ImageRestarts(end.img, end.clock, t);
  }
}
