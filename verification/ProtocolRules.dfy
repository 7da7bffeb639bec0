/**
 The checks on commands and results as tables: which inputs pass, and what the first failing check
 answers (internal/protocol/remote.go:174-199, 219-327).
 */
module ProtocolRules {
  import opened Wrappers
  import opened Text
  import opened Rotation
  import opened Protocol

  // The code of a check that does not hold, or else what the later checks answer.
  function Unless(holds: bool, code: string, later: Option<string>): Option<string> {
    if holds then later else Some(code)
  }

  // ----- parameters -----

  // Seconds that a command may give for how long it lasts.
  predicate Seconds(n: int) {
    n == 0 || 5 <= n <= 300
  }

  predicate NoneGiven(params: Params) {
    params in {EmptyObject, Absent}
  }

  // What each kind of command may say, and whether it has to say anything.
  ghost predicate Allowed(kind: Kind, params: Params) {
    match kind
    case ShowPage => params.PageParams? && Seconds(params.pageSeconds) && exists p: Page :: ToUpper(params.pageId) == PageName(p)
    case NextPage => NoneGiven(params) || (params.StepParams? && Seconds(params.stepSeconds))
    case PreviousPage => NoneGiven(params) || (params.StepParams? && Seconds(params.stepSeconds))
    case SetRotation => NoneGiven(params) || (params.RotationParams? && Seconds(params.rotationSeconds) && Seconds(params.intervalSeconds))
    case RefreshData =>
      NoneGiven(params) || (&& params.RefreshParams? && |params.connectorIds| <= 16
                            && (forall i :: 0 <= i < |params.connectorIds| ==> SafeId(params.connectorIds[i]))
                            && (forall i, j :: 0 <= i < j < |params.connectorIds| ==> params.connectorIds[i] != params.connectorIds[j]))
    case ShowMessage =>
      && params.MessageParams? && Seconds(params.messageSeconds) && params.severity in {"info", "warning", "critical"}
      && 1 <= |params.text| <= 116 && forall i :: 0 <= i < |params.text| ==> ' ' <= params.text[i] <= '~'
    case SetBrightness => NoneGiven(params) || (params.BrightnessParams? && 0 <= params.level <= 100)
    case UnknownKind(_) => false
  }

  lemma PageNameExists(pageId: string)
    ensures PageNamed(pageId).Some? <==> exists p: Page :: pageId == PageName(p)
  {
    if PageNamed(pageId).Some? {
      assert pageId == PageName(PageNamed(pageId).value);
    }
  }

  lemma PageAllowed(params: Params)
    ensures ValidParams(ShowPage, params) <==> Allowed(ShowPage, params)
  {
    assert ToUpper("") == "" && PageNamed("").None?;
    if params.PageParams? {
      PageNameExists(ToUpper(params.pageId));
    }
  }

  lemma MessageAllowed(params: Params)
    ensures ValidParams(ShowMessage, params) <==> Allowed(ShowMessage, params)
  {
  }

  lemma RefreshAllowed(params: Params)
    ensures ValidParams(RefreshData, params) <==> Allowed(RefreshData, params)
  {
  }

  lemma ParamsAllowed(kind: Kind, params: Params)
    ensures ValidParams(kind, params) <==> Allowed(kind, params)
  {
    match kind {
      case ShowPage => PageAllowed(params);
      case ShowMessage => MessageAllowed(params);
      case RefreshData => RefreshAllowed(params);
      case _ =>
    }
  }

  // ----- commands -----

  predicate FittingPriority(kind: Kind, priority: Priority) {
    if kind == ShowMessage then priority == High else priority == Normal
  }

  // Which requests the daemon takes, and its answer to any other.
  lemma RequestTable(r: CommandRequest)
    ensures ValidateRequest(r)
            == Unless(!r.kind.UnknownKind?, "unknown_command",
               Unless(FittingPriority(r.kind, r.priority), "invalid_priority",
               Unless(5 <= r.ttlSeconds <= 300, "invalid_ttl",
               Unless(Allowed(r.kind, r.params), "invalid_param", None))))
  {
    ParamsAllowed(r.kind, r.params);
  }

  // Which commands the display takes, and its answer to any other: what they are comes before when they
  // are, with thirty seconds to spare for a clock that is behind, and what they say comes last.
  lemma CommandTable(c: DisplayCommand, now: int)
    ensures Validate(c, now)
            == Unless(c.schemaMajor == 1, "schema_unsupported",
               Unless(ValidUuid(c.commandId), "invalid_command_id",
               Unless(SafeId(c.deviceId), "wrong_target",
               Unless(c.sequence > 0, "invalid_sequence",
               Unless(!c.kind.UnknownKind?, "unknown_command",
               Unless(FittingPriority(c.kind, c.priority), "invalid_priority",
               Unless(c.issuedAt != 0 && c.expiresAt != 0 && 0 < c.expiresAt - c.issuedAt <= 300 * SECOND, "invalid_time",
               Unless(c.issuedAt <= now + 30 * SECOND, "issued_in_future",
               Unless(now < c.expiresAt, "expired",
               Unless(Allowed(c.kind, c.params), "invalid_param", None))))))))))
  {
    ParamsAllowed(c.kind, c.params);
  }

  // A command ID is a version 4 UUID of the standard variant, in lower case (RFC 9562 section 5.4).
  lemma CommandIdShape(s: string)
    ensures ValidUuid(s) <==>
              && |s| == 36 && s[14] == '4' && s[19] in "89ab"
              && forall i :: 0 <= i < 36 ==> if i in {8, 13, 18, 23} then s[i] == '-' else s[i] in "0123456789abcdef"
  {
    forall c: char
      ensures c in "0123456789abcdef" <==> HexLower(c)
      ensures c in "89ab" <==> c == '8' || c == '9' || c == 'a' || c == 'b'
    {
    }
  }

  // ----- results -----

  // A result is refused as a whole: for its command, its status, a final one without its end or with an
  // end before its start, more than five minutes of it, or an unreadable code.
  lemma ResultRefused(r: CommandResult)
    ensures !ValidResult(r) <==>
              || !ValidUuid(r.commandId) || r.sequence == 0 || r.receivedAt == 0
              || r.status in {Published} || r.status.UnknownStatus?
              || (r.status in {Executed, Rejected, Expired, Failed} && r.completedAt == None)
              || (r.completedAt.Some? && r.completedAt.value < r.receivedAt)
              || r.durationMs < 0 || r.durationMs > 300_000
              || |r.code| > 64 || exists i :: 0 <= i < |r.code| && !SafeChar(r.code[i])
  {
  }
}
