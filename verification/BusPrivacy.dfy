/**
 What the queue keeps of a finished command, over every run of the bus with failed writes and
 restarts (internal/commandbus/bus.go:162-176, 229-270, 340-354): no text of a message stays in
 memory or in the file once its command is final.
 */
module BusPrivacy {
  import opened Wrappers
  import opened Protocol
  import opened CommandBus
  import opened BusRuns
  import P = CommandProtocol

  // The commands that Publish has returned, by their IDs.
  function Issued(issued: map<string, DisplayCommand>, img: Image, step: Step): map<string, DisplayCommand> {
    match P.PublishedEntry(img, step)
    case Some(e) => issued[e.command.commandId := e.command]
    case None => issued
  }

  function IssuedBy(issued: map<string, DisplayCommand>, w: World, steps: seq<Step>): map<string, DisplayCommand>
    decreases |steps|
  {
    if steps == [] then issued else IssuedBy(Issued(issued, w.img, steps[0]), Next(w, steps[0]), steps[1..])
  }

  // A pending entry is as published; a final one keeps the length, severity and duration of a message,
  // and of any other command nothing.
  ghost predicate Discreet(c: DisplayCommand, e: Entry) {
    && e.command.(params := c.params) == c
    && if !e.Final() then Wire(e.command) == Wire(c)
       else if c.kind == ShowMessage then
         c.params.MessageParams?
         && e.command.params == MessageAudit(|c.params.text|, c.params.severity, c.params.messageSeconds)
       else e.command.params == EmptyObject
  }

  ghost predicate DiscreetEntry(issued: map<string, DisplayCommand>, e: Entry) {
    e.command.commandId in issued && Discreet(issued[e.command.commandId], e)
  }

  ghost predicate AllDiscreet(issued: map<string, DisplayCommand>, s: State) {
    forall e <- s.entries :: DiscreetEntry(issued, e)
  }

  ghost predicate IssuedWell(issued: map<string, DisplayCommand>, w: World) {
    forall id <- issued :: id in w.used && issued[id].commandId == id && ValidParams(issued[id].kind, issued[id].params)
  }

  ghost predicate PrivacyInv(w: World, issued: map<string, DisplayCommand>) {
    Inv(w) && IssuedWell(issued, w) && AllDiscreet(issued, w.img.mem) && AllDiscreet(issued, w.img.disk)
  }

  lemma ValidMessageIsPlain(c: DisplayCommand)
    requires c.kind == ShowMessage && ValidParams(c.kind, c.params)
    ensures c.params.MessageParams?
  {
  }

  lemma PublishedFresh(w: World, issued: map<string, DisplayCommand>, step: Step)
    requires PrivacyInv(w, issued) && Allowed(w, step) && P.PublishedEntry(w.img, step).Some?
    ensures
      var e := P.PublishedEntry(w.img, step).value;
      && e.command.commandId !in issued && e.command.commandId in Next(w, step).used && !e.Final()
      && ValidParams(e.command.kind, e.command.params)
  {
  }

  // What became of a discreet entry is discreet.
  lemma AdvanceIsDiscreet(c: DisplayCommand, a: Entry, b: Entry)
    requires Discreet(c, a) && Advances(a, b) && ValidParams(c.kind, c.params)
    ensures Discreet(c, b)
  {
    if c.kind == ShowMessage {
      ValidMessageIsPlain(c);
    }
  }

  lemma IssuedGrows(w: World, issued: map<string, DisplayCommand>, step: Step)
    requires PrivacyInv(w, issued) && Allowed(w, step)
    ensures IssuedWell(Issued(issued, w.img, step), Next(w, step))
    ensures forall id <- issued :: id in Issued(issued, w.img, step) && Issued(issued, w.img, step)[id] == issued[id]
  {
    if P.PublishedEntry(w.img, step).Some? {
      PublishedFresh(w, issued, step);
    }
  }

  lemma DiscreetMemory(w: World, issued: map<string, DisplayCommand>, step: Step)
    requires PrivacyInv(w, issued) && Allowed(w, step) && !step.Restart?
    ensures AllDiscreet(Issued(issued, w.img, step), Next(w, step).img.mem)
  {
    IssuedGrows(w, issued, step);
    forall b <- Next(w, step).img.mem.entries
      ensures DiscreetEntry(Issued(issued, w.img, step), b)
    {
      P.EntryOrigin(w.img, step, b);
      if P.PublishedEntry(w.img, step) == Some(b) {
        PublishedFresh(w, issued, step);
      } else {
        var a :| a in w.img.mem.entries && Advances(a, b);
        assert DiscreetEntry(issued, a);
        AdvanceIsDiscreet(issued[a.command.commandId], a, b);
      }
    }
  }

  lemma LaterIssued(issued: map<string, DisplayCommand>, later: map<string, DisplayCommand>, s: State)
    requires AllDiscreet(issued, s) && forall id <- issued :: id in later && later[id] == issued[id]
    ensures AllDiscreet(later, s)
  {
    forall e <- s.entries
      ensures DiscreetEntry(later, e)
    {
      assert DiscreetEntry(issued, e);
    }
  }

  lemma LoadedDiscreet(issued: map<string, DisplayCommand>, s: State)
    requires AllDiscreet(issued, s)
    ensures AllDiscreet(issued, Loaded(s))
  {
    forall x <- Loaded(s).entries
      ensures DiscreetEntry(issued, x)
    {
      var i :| 0 <= i < |s.entries| && x == s.entries[i].(command := Wire(s.entries[i].command));
      assert DiscreetEntry(issued, s.entries[i]);
    }
  }

  lemma PrivacyStep(w: World, issued: map<string, DisplayCommand>, step: Step)
    requires PrivacyInv(w, issued) && Allowed(w, step)
    ensures PrivacyInv(Next(w, step), Issued(issued, w.img, step))
  {
    InvStep(w, step);
    IssuedGrows(w, issued, step);
    LaterIssued(issued, Issued(issued, w.img, step), w.img.disk);
    if step.Restart? {
      LoadedDiscreet(issued, w.img.disk);
    } else {
      DiscreetMemory(w, issued, step);
      StepProgress(w.img, step, w.used);
    }
  }

  lemma {:induction false} PrivacyRun(w: World, issued: map<string, DisplayCommand>, steps: seq<Step>)
    requires PrivacyInv(w, issued) && AllowedRun(w, steps)
    ensures PrivacyInv(Run(w, steps), IssuedBy(issued, w, steps))
    decreases |steps|
  {
    if steps != [] {
      PrivacyStep(w, issued, steps[0]);
      PrivacyRun(Next(w, steps[0]), Issued(issued, w.img, steps[0]), steps[1..]);
    }
  }

  // Over every run from the empty file, in memory and in the file alike: every entry is a published
  // command, with its parameters as long as it is pending, and from then on, of a message, with its
  // length, severity and duration only, and of any other command with none.
  lemma FinalEntriesKeepNoText(clock: int, steps: seq<Step>, e: Entry)
    requires AllowedRun(Start(clock), steps)
    requires e in Run(Start(clock), steps).img.mem.entries || e in Run(Start(clock), steps).img.disk.entries
    ensures
      var issued := IssuedBy(map[], Start(clock), steps);
      e.command.commandId in issued && Discreet(issued[e.command.commandId], e)
    ensures e.Final() ==> !e.command.params.MessageParams?
  {
    StartInv(clock);
    PrivacyRun(Start(clock), map[], steps);
    assert DiscreetEntry(IssuedBy(map[], Start(clock), steps), e);
  }
}
