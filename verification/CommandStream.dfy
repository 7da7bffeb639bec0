/**
 How one connection moves commands and results between the bus and the wire
 (internal/nodeapi/stream.go:100-195). Writes may fail, which ends the connection.
 */
module CommandStream {
  import opened Wrappers
  import opened Protocol
  import opened CommandBus
  import B = BusRuns
  import P = CommandProtocol

  function Ids(cs: seq<DisplayCommand>): set<string> {
    set c <- cs :: c.commandId
  }

  // The connectors that a refresh names; none stands for all of them.
  predicate AsksFor(c: DisplayCommand, ids: seq<string>) {
    c.kind == RefreshData && (c.params == RefreshParams(ids) || (c.params in {EmptyObject, Null} && ids == []))
  }

  // What the display gets of the commands.
  function Wires(cs: seq<DisplayCommand>): (r: seq<DisplayCommand>)
    ensures |r| == |cs| && forall i :: 0 <= i < |cs| ==> r[i] == Wire(cs[i])
  {
    seq(|cs|, i requires 0 <= i < |cs| => Wire(cs[i]))
  }

  class Connection {
    const device: string
    const bus: Bus
    var sentCommands: set<string>

    constructor (device: string, bus: Bus)
      modifies bus`notify
      ensures this.device == device && this.bus == bus && sentCommands == {}
      ensures device in bus.notify
    {
      this.device, this.bus, sentCommands := device, bus, {};
      new;
      bus.Subscribe(device);
    }

    // Sends what is pending until `writes` writes have succeeded and the next one fails. A queue that
    // cannot be read is skipped.
    method PumpCommands(now: int, persisted: bool, writes: nat) returns (sent: seq<DisplayCommand>, open: bool)
      modifies this`sentCommands, bus`entries, bus`disk
      ensures bus.View() == PendingSpec(old(bus.View()), device, old(sentCommands), now, persisted).0
      ensures sentCommands == old(sentCommands) + Ids(sent)
      ensures
        match PendingSpec(old(bus.View()), device, old(sentCommands), now, persisted).1
        case Failure(_) => sent == [] && open
        case Success(commands) =>
          sent == Wires(if writes < |commands| then commands[..writes] else commands) && open == (|commands| <= writes)
    {
      sent, open := [], true;
      var pending := bus.Pending(device, sentCommands, now, persisted);
      if pending.Failure? {
        return;
      }
      var commands := pending.value;
      ghost var stored := bus.View();
      for i := 0 to |commands|
        invariant i <= writes && sent == Wires(commands[..i]) && open
        invariant sentCommands == old(sentCommands) + Ids(sent) && bus.View() == stored
      {
        if i == writes {
          return sent, false;
        }
        assert commands[..i + 1] == commands[..i] + [commands[i]];
        IdsAppend(sent, Wire(commands[i]));
        sent := sent + [Wire(commands[i])];
        sentCommands := sentCommands + {commands[i].commandId};
      }
    }

    // Records a result that came in, and asks for a collection when it is the first acceptance of a
    // refresh command.
    method Drain(result: CommandResult, now: int, persisted: bool) returns (refresh: Option<seq<string>>)
      modifies bus
      ensures bus.View() == if ValidResult(result) then RecordSpec(old(bus.View()), device, result, now, persisted).0
                            else old(bus.View())
      ensures refresh.Some? ==> exists e <- old(bus.View()).mem.entries :: e.command.commandId == result.commandId
                                                                           && AsksFor(e.command, refresh.value)
      ensures refresh.Some? <==> ValidResult(result)
                                 && P.Triggered(old(bus.View()), B.Record(device, result, now, persisted)) == [result.commandId]
    {
      if !ValidResult(result) {
        return None;
      }
      ghost var before := bus.View();
      var recorded := bus.Record(device, result, now, persisted);
      TriggeredCommand(before, device, result, now, persisted);
      if recorded.Failure? {
        return None;
      }
      var (entry, firstAccepted) := recorded.value;
      if firstAccepted && entry.command.kind == RefreshData {
        var params := Decode(RefreshData, entry.command.params);
        if params.Some? {
          return Some(params.value.connectorIds);
        }
      }
      return None;
    }
  }

  lemma IdsAppend(cs: seq<DisplayCommand>, c: DisplayCommand)
    ensures Ids(cs + [c]) == Ids(cs) + {c.commandId}
  {
  }

  lemma TriggeredCommand(img: Image, device: string, result: CommandResult, now: int, persisted: bool)
    ensures
      match RecordSpec(img, device, result, now, persisted).1
      case Success((entry, first)) =>
        && entry.command.commandId == result.commandId
        && (first ==> exists e <- img.mem.entries :: e.command == entry.command)
      case Failure(_) => P.Triggered(img, B.Record(device, result, now, persisted)) == []
  {
    var es := img.mem.entries;
    var i := Find(es, result.commandId);
    if i < |es| {
      assert es[i] in es;
    }
  }

  // One connection sends a command at most once; the next connection starts over with every command
  // that is not final.
  lemma SentOncePerConnection(img: Image, device: string, sent: set<string>, now: int, persisted: bool)
    requires B.Shape(img.mem) && PendingSpec(img, device, sent, now, persisted).1.Success?
    ensures
      var cs := PendingSpec(img, device, sent, now, persisted).1.value;
      && (forall c <- cs :: c.commandId !in sent)
      && (forall i, j :: 0 <= i < j < |cs| ==> cs[i] != cs[j])
      && (forall e <- img.mem.entries :: e.command.deviceId == device && !e.Final() && !Due(e, now) && e.command.commandId !in sent ==>
            e.command in cs)
  {
    B.PendingIsLive(img, device, sent, now, persisted);
    var cs := PendingSpec(img, device, sent, now, persisted).1.value;
    forall e <- img.mem.entries | e.command.deviceId == device && !e.Final() && !Due(e, now) && e.command.commandId !in sent
      ensures e.command in cs
    {
      assert B.Live(e.command, img.mem.entries, now);
    }
  }
}
