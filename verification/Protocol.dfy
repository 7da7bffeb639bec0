/**
 Display commands and their results (internal/protocol/remote.go). Times are nanoseconds since
 Go's zero time, so the zero time itself is 0. JSON text is represented by what it decodes to.
 */
module Protocol {
  import opened Wrappers
  import opened Arithmetic
  import opened Text
  import opened Rotation

  const COMMAND_SCHEMA_MAJOR := 1
  const MAX_COMMAND_TTL: int := 300 * SECOND
  const MAX_CLOCK_SKEW: int := 30 * SECOND
  const MAX_CONNECTOR_IDS := 16
  const MAX_MESSAGE_LENGTH := 116
  const ZERO_TIME: int := 0

  datatype Kind =
    | ShowPage | NextPage | PreviousPage | SetRotation | RefreshData | ShowMessage | SetBrightness
    | UnknownKind(name: string)

  datatype Priority = Normal | High | Emergency | UnknownPriority(name: string)

  datatype Status = Published | Accepted | Executed | Rejected | Expired | Failed | UnknownStatus(name: string) {
    predicate Final() {
      Executed? || Rejected? || Expired? || Failed?
    }

    // How far a command has come.
    function Rank(): nat {
      if Final() then 2 else if Accepted? then 1 else 0
    }
  }

  // The text of the parameters. A request may leave the field out, which is no text at all; writing
  // such a command as JSON and reading it back makes it the text `null`.
  datatype Params =
    | PageParams(pageId: string, pageSeconds: int)
    | StepParams(stepSeconds: int)
    | RotationParams(enabled: bool, intervalSeconds: int, rotationSeconds: int)
    | RefreshParams(connectorIds: seq<string>)
    | MessageParams(text: string, severity: string, messageSeconds: int)
    | BrightnessParams(level: int)
    | MessageAudit(textLength: nat, auditSeverity: string, auditSeconds: int)
    | EmptyObject
    | Absent
    | Null
    | Undecodable

  datatype DisplayCommand = DisplayCommand(
    schemaMajor: int, commandId: string, deviceId: string, kind: Kind, params: Params,
    issuedAt: int, expiresAt: int, priority: Priority, sequence: nat)

  datatype CommandRequest = CommandRequest(kind: Kind, params: Params, priority: Priority, ttlSeconds: int)

  datatype CommandResult = CommandResult(
    commandId: string, sequence: nat, status: Status, code: string,
    receivedAt: int, completedAt: Option<int>, durationMs: int)

  // time.Duration.Milliseconds, which truncates.
  function Milliseconds(d: int): (ms: int)
    ensures d >= 0 ==> ms >= 0 && ms * 1_000_000 <= d < ms * 1_000_000 + 1_000_000
    ensures d < 0 ==> ms <= 0 && ms * 1_000_000 - 1_000_000 < d <= ms * 1_000_000
  {
    TruncDiv(d, 1_000_000)
  }

  function DefaultPriority(kind: Kind): Priority {
    if kind == ShowMessage then High else Normal
  }

  // ----- parameters -----

  function ZeroParams(kind: Kind): Option<Params> {
    match kind
    case ShowPage => Some(PageParams("", 0))
    case NextPage => Some(StepParams(0))
    case PreviousPage => Some(StepParams(0))
    case SetRotation => Some(RotationParams(false, 0, 0))
    case RefreshData => Some(RefreshParams([]))
    case ShowMessage => Some(MessageParams("", "", 0))
    case SetBrightness => Some(BrightnessParams(0))
    case UnknownKind(_) => None
  }

  // Strict decoding for a kind: `{}` and `null` are the zero value, anything of another shape is
  // refused, and so is no text at all.
  function Decode(kind: Kind, params: Params): Option<Params> {
    match (kind, params)
    case (_, EmptyObject) => ZeroParams(kind)
    case (_, Null) => ZeroParams(kind)
    case (ShowPage, PageParams(_, _)) => Some(params)
    case (NextPage, StepParams(_)) => Some(params)
    case (PreviousPage, StepParams(_)) => Some(params)
    case (SetRotation, RotationParams(_, _, _)) => Some(params)
    case (RefreshData, RefreshParams(_)) => Some(params)
    case (ShowMessage, MessageParams(_, _, _)) => Some(params)
    case (SetBrightness, BrightnessParams(_)) => Some(params)
    case _ => None
  }

  predicate ValidDuration(seconds: int) {
    5 <= seconds <= 300
  }

  predicate ValidOptionalDuration(seconds: int) {
    seconds == 0 || ValidDuration(seconds)
  }

  predicate ValidMessage(text: string) {
    0 < |text| <= MAX_MESSAGE_LENGTH && forall i :: 0 <= i < |text| ==> 0x20 <= text[i] as int <= 0x7e
  }

  predicate SafeChar(c: char) {
    'a' <= c <= 'z' || 'A' <= c <= 'Z' || '0' <= c <= '9' || c == '-' || c == '_' || c == '.'
  }

  predicate SafeId(s: string) {
    0 < |s| <= 64 && forall i :: 0 <= i < |s| ==> SafeChar(s[i])
  }

  predicate HexLower(c: char) {
    '0' <= c <= '9' || 'a' <= c <= 'f'
  }

  // A canonical lower-case version 4 UUID (RFC 9562 section 5.4).
  predicate ValidUuid(s: string) {
    && |s| == 36
    && s[8] == '-' && s[13] == '-' && s[18] == '-' && s[23] == '-'
    && (forall i :: 0 <= i < 36 ==> i == 8 || i == 13 || i == 18 || i == 23 || HexLower(s[i]))
    && s[14] == '4' && (s[19] == '8' || s[19] == '9' || s[19] == 'a' || s[19] == 'b')
  }

  // The validator reads missing parameters as `{}`, and the display acts on their zero value.
  function Given(params: Params): Params {
    if params.Absent? then EmptyObject else params
  }

  // What a receiver of the command gets.
  function Wire(c: DisplayCommand): DisplayCommand {
    if c.params.Absent? then c.(params := Null) else c
  }

  predicate ValidParams(kind: Kind, params: Params) {
    if params.Null? then false
    else match Decode(kind, Given(params))
    case None => false
    case Some(PageParams(pageId, seconds)) => PageNamed(ToUpper(pageId)).Some? && ValidOptionalDuration(seconds)
    case Some(StepParams(seconds)) => ValidOptionalDuration(seconds)
    case Some(RotationParams(_, interval, seconds)) =>
      ValidOptionalDuration(seconds) && (interval == 0 || ValidDuration(interval))
    case Some(RefreshParams(ids)) =>
      && |ids| <= MAX_CONNECTOR_IDS
      && (forall i :: 0 <= i < |ids| ==> SafeId(ids[i]))
      && (forall i, j :: 0 <= i < j < |ids| ==> ids[i] != ids[j])
    case Some(MessageParams(text, severity, seconds)) =>
      ValidOptionalDuration(seconds) && ValidMessage(text) && severity in {"info", "warning", "critical"}
    case Some(BrightnessParams(level)) => 0 <= level <= 100
    case Some(_) => false
  }

  // What is kept of a command's parameters once it is final: no message text.
  function Redact(c: DisplayCommand): Params {
    match Decode(c.kind, c.params)
    case Some(MessageParams(text, severity, seconds)) => MessageAudit(|text|, severity, seconds)
    case _ => EmptyObject
  }

  // kept is all that a finished command may still tell of its parameters: of a message its length,
  // severity and duration, of anything else nothing.
  predicate OnlyAudit(c: DisplayCommand, kept: Params) {
    && !kept.MessageParams? && !kept.Absent?
    && (c.kind == ShowMessage && c.params.MessageParams? ==>
          kept == MessageAudit(|c.params.text|, c.params.severity, c.params.messageSeconds))
    && (c.kind != ShowMessage ==> kept == EmptyObject)
  }

  // ----- validation -----

  function ValidateRequest(r: CommandRequest): (code: Option<string>)
    ensures code.None? <==> ValidParams(r.kind, r.params) && !r.kind.UnknownKind?
                            && r.priority == DefaultPriority(r.kind) && 5 <= r.ttlSeconds <= 300
  {
    if r.kind.UnknownKind? then Some("unknown_command")
    else if r.priority != DefaultPriority(r.kind) then Some("invalid_priority")
    else if !(5 <= r.ttlSeconds <= 300) then Some("invalid_ttl")
    else if !ValidParams(r.kind, r.params) then Some("invalid_param")
    else None
  }

  // The error code of the first check a received command fails.
  function Validate(c: DisplayCommand, now: int): Option<string> {
    if c.schemaMajor != COMMAND_SCHEMA_MAJOR then Some("schema_unsupported")
    else if !ValidUuid(c.commandId) then Some("invalid_command_id")
    else if !SafeId(c.deviceId) then Some("wrong_target")
    else if c.sequence == 0 then Some("invalid_sequence")
    else if c.kind.UnknownKind? then Some("unknown_command")
    else if c.priority != DefaultPriority(c.kind) then Some("invalid_priority")
    else if c.issuedAt == ZERO_TIME || c.expiresAt == ZERO_TIME || c.expiresAt <= c.issuedAt
            || c.expiresAt - c.issuedAt > MAX_COMMAND_TTL then Some("invalid_time")
    else if c.issuedAt > now + MAX_CLOCK_SKEW then Some("issued_in_future")
    else if now >= c.expiresAt then Some("expired")
    else if !ValidParams(c.kind, c.params) then Some("invalid_param")
    else None
  }

  // DecodeCommandResult's checks on a result that arrived on the stream.
  predicate ValidResult(r: CommandResult) {
    && ValidUuid(r.commandId) && r.sequence > 0
    && (r.status.Accepted? || r.status.Final()) && r.receivedAt != ZERO_TIME
    && (r.status.Final() ==> r.completedAt.Some?)
    && (r.completedAt.Some? ==> r.completedAt.value >= r.receivedAt)
    && 0 <= r.durationMs <= 300_000
    && |r.code| <= 64 && (r.code == "" || SafeId(r.code))
  }

  // A page identifier that validates is one the router knows.
  lemma ValidPageParses(pageId: string)
    requires PageNamed(ToUpper(pageId)).Some?
    ensures ParsePage(pageId) == PageNamed(ToUpper(pageId))
  {
    PageNameShape(PageNamed(ToUpper(pageId)).value);
    assert ToUpper(pageId) == PageName(PageNamed(ToUpper(pageId)).value);
    assert forall i :: 0 <= i < |pageId| ==> ToUpper(pageId)[i] == UpperChar(pageId[i]);
    TrimSpaceIdentity(pageId);
  }

  // How the display takes a freshly published command: only the clock can be wrong with it, unless
  // the request left its parameters out.
  lemma PublishedCommandValid(c: DisplayCommand, r: CommandRequest, now: int)
    requires ValidateRequest(r).None? && ValidUuid(c.commandId) && SafeId(c.deviceId) && c.sequence > 0
    requires c.schemaMajor == COMMAND_SCHEMA_MAJOR && c.kind == r.kind && c.params == r.params && c.priority == r.priority
    requires c.issuedAt != ZERO_TIME && c.expiresAt != ZERO_TIME && c.expiresAt == c.issuedAt + r.ttlSeconds * SECOND
    ensures Validate(Wire(c), now) == if c.issuedAt > now + MAX_CLOCK_SKEW then Some("issued_in_future")
                                      else if now >= c.expiresAt then Some("expired")
                                      else if r.params.Absent? then Some("invalid_param") else None
  {
  }

  // A request may leave its parameters out if and only if `{}` would do.
  lemma AbsentAllowed(r: CommandRequest)
    requires r.params.Absent?
    ensures ValidateRequest(r) == ValidateRequest(r.(params := EmptyObject))
    ensures ValidateRequest(r).None? ==> r.kind in {NextPage, PreviousPage, SetRotation, RefreshData, SetBrightness}
  {
    assert PageNamed(ToUpper("")).None?;
  }

  // The shortest request for the next page: the daemon takes it, and the display refuses it at any time.
  lemma NextPageWithoutParams(c: DisplayCommand, now: int)
    requires ValidUuid(c.commandId) && SafeId(c.deviceId) && c.sequence > 0 && c.schemaMajor == COMMAND_SCHEMA_MAJOR
    requires c.kind == NextPage && c.params == Absent && c.priority == Normal
    requires c.issuedAt != ZERO_TIME && c.expiresAt == c.issuedAt + 60 * SECOND != ZERO_TIME
    ensures ValidateRequest(CommandRequest(NextPage, Absent, Normal, 60)).None?
    ensures Validate(Wire(c), now).Some?
    ensures c.issuedAt <= now < c.expiresAt ==> Validate(Wire(c), now) == Some("invalid_param")
  {
    PublishedCommandValid(c, CommandRequest(NextPage, Absent, Normal, 60), now);
  }
}
