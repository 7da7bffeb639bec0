/**
 The two ways in which a failing operation of the bus leaves memory and file apart, each at the end
 of a run from the empty file (internal/commandbus/bus.go:84-98, 189-206).
 */
module BusFailures {
  import opened Wrappers
  import opened Protocol
  import opened CommandBus
  import opened BusRuns

  // A run from the empty file that leaves n pending commands, each with its own UUID.
  function Uuid(n: nat): string {
    seq(n, i => 'a')
  }

  lemma {:induction false} Filled(request: CommandRequest, n: nat, clock: int) returns (steps: seq<Step>)
    requires ValidateRequest(request).None? && request.priority == Normal && n <= MAX_PENDING
    ensures AllowedRun(Start(clock), steps)
    ensures
      var w := Run(Start(clock), steps);
      && w.clock == clock && PendingCount(w.img.mem.entries) == n && w.img.mem == w.img.disk
      && (forall e <- w.img.mem.entries :: Evictable(e) && e.command.expiresAt > clock) && |w.img.mem.entries| == n
      && (forall id <- w.used :: |id| < n)
  {
    if n == 0 {
      return [];
    }
    steps := Filled(request, n - 1, clock);
    var w := Run(Start(clock), steps);
    var step := Publish("display", request, Some(Uuid(n - 1)), clock, clock, true);
    PublishedOne(w, request, Uuid(n - 1), clock);
    RunAppend(Start(clock), steps, step);
    steps := steps + [step];
  }

  lemma Roomy(es: seq<Entry>, entry: Entry)
    requires PendingCount(es) < MAX_PENDING && (forall e <- es :: Evictable(e)) && !entry.Final()
    ensures Trim(es + [entry]) == es + [entry] && !Full(es) && forall now :: MakeRoom(es, now) == es
    ensures PendingCount(es + [entry]) == PendingCount(es) + 1
  {
    FinalsConcat(es, [entry]);
    assert Finals([entry]) == 0;
    NoFinals(es);
  }

  lemma PublishedMemory(w: World, request: CommandRequest, uuid: string, clock: int, entry: Entry)
    requires ValidateRequest(request).None? && PendingCount(w.img.mem.entries) < MAX_PENDING
    requires forall e <- w.img.mem.entries :: Evictable(e)
    requires entry == NewEntry(NewCommand(w.img.mem, "display", request, uuid, clock), clock)
    ensures
      var img := NextImage(w.img, Publish("display", request, Some(uuid), clock, clock, true));
      && img.mem == img.disk && img.mem.entries == w.img.mem.entries + [entry]
      && PendingCount(img.mem.entries) == PendingCount(w.img.mem.entries) + 1
  {
    Roomy(w.img.mem.entries, entry);
    PublishCases(w.img, Publish("display", request, Some(uuid), clock, clock, true));
  }

  lemma PublishedOne(w: World, request: CommandRequest, uuid: string, clock: int)
    requires ValidateRequest(request).None? && request.priority == Normal && PendingCount(w.img.mem.entries) < MAX_PENDING
    requires (forall e <- w.img.mem.entries :: Evictable(e))
    ensures
      var step := Publish("display", request, Some(uuid), clock, clock, true);
      var entry := NewEntry(NewCommand(w.img.mem, "display", request, uuid, clock), clock);
      var w' := Next(w, step);
      && Evictable(entry) && entry.command.expiresAt > clock && w'.img.mem == w'.img.disk && w'.clock == clock
      && w'.img.mem.entries == w.img.mem.entries + [entry] && w'.used == w.used + {uuid}
      && PendingCount(w'.img.mem.entries) == PendingCount(w.img.mem.entries) + 1
  {
    PublishedMemory(w, request, uuid, clock, NewEntry(NewCommand(w.img.mem, "display", request, uuid, clock), clock));
  }

  lemma {:induction false} NoFinals(es: seq<Entry>)
    requires forall e <- es :: Evictable(e)
    ensures Finals(es) == 0
  {
    if es != [] {
      NoFinals(es[..|es| - 1]);
      assert es[|es| - 1] in es;
    }
  }

  lemma {:induction false} RunAppend(w: World, steps: seq<Step>, step: Step)
    requires AllowedRun(w, steps) && Allowed(Run(w, steps), step)
    ensures AllowedRun(w, steps + [step]) && Run(w, steps + [step]) == Next(Run(w, steps), step)
    decreases |steps|
  {
    if steps == [] {
      assert [] + [step] == [step] && [step][1..] == [];
    } else {
      assert (steps + [step])[1..] == steps[1..] + [step];
      RunAppend(Next(w, steps[0]), steps[1..], step);
    }
  }

  // With 64 commands pending, one more that gets no UUID costs the oldest of them.
  lemma EvictionGetsLost(request: CommandRequest, clock: int) returns (steps: seq<Step>)
    requires ValidateRequest(request).None? && request.priority == Normal
    ensures AllowedRun(Start(clock), steps)
    ensures
      var img := Run(Start(clock), steps).img;
      var step := Publish("display", request, None, clock, clock, true);
      && img.mem == img.disk && Fails(img, step) && LostEviction(img, step)
      && PendingCount(NextImage(img, step).mem.entries) == MAX_PENDING - 1 && NextImage(img, step).disk == img.disk
  {
    steps := Filled(request, MAX_PENDING, clock);
    var es := Run(Start(clock), steps).img.mem.entries;
    assert es[0] in es && FirstEvictable(es) == 0;
    EvictOldest(es, clock);
  }

  // A lookup of an unknown command finds one that has expired, and the file does not learn of it.
  lemma ExpiryGetsUnsaved(request: CommandRequest, clock: int, id: string) returns (steps: seq<Step>, now: int)
    requires ValidateRequest(request).None? && request.priority == Normal && id != Uuid(0)
    ensures AllowedRun(Start(clock), steps)
    ensures
      var img := Run(Start(clock), steps).img;
      var step := Get(id, now, true);
      && img.mem == img.disk && Fails(img, step) && UnsavedExpiry(img, step)
      && NextImage(img, step).mem != img.mem && NextImage(img, step).disk == img.disk
  {
    var step := Publish("display", request, Some(Uuid(0)), clock, clock, true);
    PublishedOne(Start(clock), request, Uuid(0), clock);
    RunAppend(Start(clock), [], step);
    steps := [] + [step];
    var e := NewEntry(NewCommand(EMPTY, "display", request, Uuid(0), clock), clock);
    assert [] + [e] == [e];
    now := e.command.expiresAt;
    UnsavedLookup(Run(Start(clock), steps).img, e, id, now);
  }

  lemma UnsavedLookup(img: Image, e: Entry, id: string, now: int)
    requires img.mem.entries == [e] && Due(e, now) && e.command.commandId != id
    ensures
      var step := Get(id, now, true);
      && Fails(img, step) && UnsavedExpiry(img, step)
      && NextImage(img, step).mem != img.mem && NextImage(img, step).disk == img.disk
  {
    FindIgnoresExpiry([e], id, now);
    DueChanges([e], now);
    assert [e][0] == e && Find([e], id) == 1;
  }
}
