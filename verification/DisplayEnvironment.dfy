/**
 The display's environment file (internal/displayconfig/environment.go): rendering, strict parsing,
 and the validation both share. The checks of URL, certificate pin and style are parameters.
 */
module DisplayEnvironment {
  import opened Wrappers
  import opened Text
  import opened Rotation

  const DEFAULT_DATA_DIR := "/var/lib/homepi-display"
  const DEFAULT_ORDER := "CODING,API,HOMELAB,SERVICES,SYSTEM"
  const DEFAULT_DWELL := "CODING:15,API:15,HOMELAB:15,SERVICES:15,SYSTEM:15"
  const MAX_VALUE := 4096
  const MAX_FILE := 65536

  datatype Key = NodeUrl | DeviceId | SourceNode | CertPin | DeviceToken | DataDir | Style | PageOrder | PageDwell

  const KEYS: seq<Key> := [NodeUrl, DeviceId, SourceNode, CertPin, DeviceToken, DataDir, Style, PageOrder, PageDwell]

  // An environment gives each key its value, "" if it has none.
  datatype Environment = Environment(values: map<Key, string>) {
    ghost predicate Total() {
      forall k: Key :: k in values
    }

    function Value(k: Key): string {
      if k in values then values[k] else ""
    }
  }

  function KeyName(k: Key): string {
    match k
    case NodeUrl => "HOMEPI_NODE_URL"
    case DeviceId => "HOMEPI_DEVICE_ID"
    case SourceNode => "HOMEPI_SOURCE_NODE_ID"
    case CertPin => "HOMEPI_NODE_CERT_PIN"
    case DeviceToken => "HOMEPI_DEVICE_TOKEN"
    case DataDir => "HOMEPI_DISPLAY_DATA_DIR"
    case Style => "HOMEPI_DISPLAY_STYLE"
    case PageOrder => "HOMEPI_PAGE_ORDER"
    case PageDwell => "HOMEPI_PAGE_DWELL_SECONDS"
  }

  function KeyNamed(name: string): Option<Key> {
    if name == "HOMEPI_NODE_URL" then Some(NodeUrl)
    else if name == "HOMEPI_DEVICE_ID" then Some(DeviceId)
    else if name == "HOMEPI_SOURCE_NODE_ID" then Some(SourceNode)
    else if name == "HOMEPI_NODE_CERT_PIN" then Some(CertPin)
    else if name == "HOMEPI_DEVICE_TOKEN" then Some(DeviceToken)
    else if name == "HOMEPI_DISPLAY_DATA_DIR" then Some(DataDir)
    else if name == "HOMEPI_DISPLAY_STYLE" then Some(Style)
    else if name == "HOMEPI_PAGE_ORDER" then Some(PageOrder)
    else if name == "HOMEPI_PAGE_DWELL_SECONDS" then Some(PageDwell)
    else None
  }

  // ----- validation -----

  datatype Checks = Checks(origin: string -> bool, pin: string -> bool, style: string -> bool)

  predicate Forbidden(c: char) {
    c as int == 0 || c in {'\r', '\n', '`', '$', '\t', ' '}
  }

  predicate ValidValue(v: string) {
    && |v| <= MAX_VALUE && TrimSpace(v) == v
    && forall i :: 0 <= i < |v| ==> !Forbidden(v[i])
  }

  predicate AlphaNumeric(c: char) {
    'a' <= c <= 'z' || 'A' <= c <= 'Z' || '0' <= c <= '9'
  }

  // ^[A-Za-z0-9][A-Za-z0-9._-]{0,127}$
  predicate ValidName(s: string) {
    && 1 <= |s| <= 128 && AlphaNumeric(s[0])
    && forall i :: 1 <= i < |s| ==> AlphaNumeric(s[i]) || s[i] in {'.', '_', '-'}
  }

  function WithDefaults(e: Environment): Environment {
    var o := if e.Value(PageOrder) == "" then e.values[PageOrder := DEFAULT_ORDER] else e.values;
    Environment(if e.Value(PageDwell) == "" then o[PageDwell := DEFAULT_DWELL] else o)
  }

  predicate Valid(e: Environment, checks: Checks) {
    var d := WithDefaults(e);
    && (forall k <- KEYS :: d.Value(k) != "" && ValidValue(d.Value(k)))
    && ValidName(d.Value(DeviceId)) && ValidName(d.Value(SourceNode))
    && checks.origin(d.Value(NodeUrl)) && checks.pin(d.Value(CertPin))
    && d.Value(DataDir) == DEFAULT_DATA_DIR && checks.style(d.Value(Style))
    && ParseRotationSpec(d.Value(PageOrder), d.Value(PageDwell)).Some?
  }

  // ----- rendering -----

  function Line(k: Key, v: string): string {
    KeyName(k) + "=" + v
  }

  function RenderKeys(ks: seq<Key>, e: Environment): string {
    if ks == [] then "" else RenderKeys(ks[..|ks| - 1], e) + Line(ks[|ks| - 1], e.Value(ks[|ks| - 1])) + "\n"
  }

  function RenderSpec(e: Environment, checks: Checks): Option<string> {
    if Valid(e, checks) then Some(RenderKeys(KEYS, WithDefaults(e))) else None
  }

  method RenderLines(ks: seq<Key>, e: Environment) returns (text: string)
    ensures text == RenderKeys(ks, e)
  {
    text := "";
    for i := 0 to |ks|
      invariant text == RenderKeys(ks[..i], e)
    {
      assert ks[..i + 1][..i] == ks[..i];
      text := text + Line(ks[i], e.Value(ks[i])) + "\n";
    }
    assert ks[..|ks|] == ks;
  }

  method Render(e: Environment, checks: Checks) returns (r: Option<string>)
    ensures r == RenderSpec(e, checks)
  {
    var d := WithDefaults(e);
    if !Valid(e, checks) {
      return None;
    }
    var text := RenderLines(KEYS, d);
    return Some(text);
  }

  // ----- parsing -----

  // bufio.ScanLines over at most 64 KiB.
  function DropCarriage(line: string): string {
    if line != [] && line[|line| - 1] == '\r' then line[..|line| - 1] else line
  }

  function Limited(text: string): string {
    if |text| > MAX_FILE then text[..MAX_FILE] else text
  }

  // A line that fills the whole buffer cannot be read.
  predicate Unreadable(text: string) {
    |text| == MAX_FILE && '\n' !in text
  }

  function Lines(text: string): seq<string> {
    var parts := Split(text, '\n');
    if parts[|parts| - 1] == "" then parts[..|parts| - 1] else parts
  }

  predicate Skipped(line: string) {
    line == "" || line[0] == '#'
  }

  // The pair a line adds to what has been read, if it may.
  function ParseLine(line: string, seen: map<Key, string>): Option<map<Key, string>> {
    if Skipped(line) then Some(seen)
    else
      match Cut(line, '=')
      case None => None
      case Some((name, value)) =>
        match KeyNamed(name)
        case None => None
        case Some(key) => if key in seen || !ValidValue(value) then None else Some(seen[key := value])
  }

  function ParseLines(lines: seq<string>, seen: map<Key, string>): Option<map<Key, string>> {
    if lines == [] then Some(seen)
    else
      match ParseLine(DropCarriage(lines[0]), seen)
      case None => None
      case Some(more) => ParseLines(lines[1..], more)
  }

  function ParseSpec(text: string, checks: Checks): Option<Environment> {
    var limited := Limited(text);
    if Unreadable(limited) then None
    else
      match ParseLines(Lines(limited), map[])
      case None => None
      case Some(values) =>
        var e := WithDefaults(Environment(values));
        if Valid(e, checks) then Some(e) else None
  }

  method Parse(text: string, checks: Checks) returns (r: Option<Environment>)
    ensures r == ParseSpec(text, checks)
  {
    var limited := Limited(text);
    if Unreadable(limited) {
      return None;
    }
    var lines := Lines(limited);
    var values: map<Key, string> := map[];
    for i := 0 to |lines|
      invariant ParseLines(lines[i..], values) == ParseLines(lines, map[])
    {
      assert lines[i..][1..] == lines[i + 1..];
      var line := DropCarriage(lines[i]);
      if line == "" || line[0] == '#' {
        continue;
      }
      var pair := Cut(line, '=');
      if pair.None? || KeyNamed(pair.value.0).None? {
        return None;
      }
      var key := KeyNamed(pair.value.0).value;
      if key in values || !ValidValue(pair.value.1) {
        return None;
      }
      values := values[key := pair.value.1];
    }
    var e := WithDefaults(Environment(values));
    if !Valid(e, checks) {
      return None;
    }
    return Some(e);
  }

  // ----- what the file may hold -----

  // A comment or an empty line anywhere, and a carriage return at the end of a line, change nothing.
  lemma {:induction false} SkippedLine(before: seq<string>, line: string, after: seq<string>, seen: map<Key, string>)
    requires var l := DropCarriage(line); l == "" || l[0] == '#'
    ensures ParseLines(before + [line] + after, seen) == ParseLines(before + after, seen)
    decreases |before|
  {
    if before == [] {
      assert (before + [line] + after)[1..] == after && before + after == after;
    } else {
      assert (before + [line] + after)[1..] == before[1..] + [line] + after;
      assert (before + after)[1..] == before[1..] + after;
      match ParseLine(DropCarriage(before[0]), seen) {
        case None =>
        case Some(more) => SkippedLine(before[1..], line, after, more);
      }
    }
  }

  lemma {:induction false} CarriageReturn(before: seq<string>, line: string, after: seq<string>, seen: map<Key, string>)
    requires line == "" || line[|line| - 1] != '\r'
    ensures ParseLines(before + [line + "\r"] + after, seen) == ParseLines(before + [line] + after, seen)
    decreases |before|
  {
    if before == [] {
      assert (before + [line + "\r"] + after)[1..] == after && (before + [line] + after)[1..] == after;
      assert (line + "\r")[..|line|] == line;
    } else {
      assert (before + [line + "\r"] + after)[1..] == before[1..] + [line + "\r"] + after;
      assert (before + [line] + after)[1..] == before[1..] + [line] + after;
      match ParseLine(DropCarriage(before[0]), seen) {
        case None =>
        case Some(more) => CarriageReturn(before[1..], line, after, more);
      }
    }
  }

  // The key that a line sets, if it is one that does.
  predicate Sets(line: string, k: Key, value: string) {
    DropCarriage(line) == KeyName(k) + "=" + value
  }

  lemma SetLine(line: string, k: Key, value: string, seen: map<Key, string>)
    requires Sets(line, k, value)
    ensures ParseLine(DropCarriage(line), seen) == if k in seen || !ValidValue(value) then None else Some(seen[k := value])
  {
    KeyNameKnown(k);
    KeyNameShape(k);
    CutAtFirst(KeyName(k), value, '=');
    assert KeyName(k) + ['='] + value == KeyName(k) + "=" + value;
    assert DropCarriage(line)[0] == KeyName(k)[0];
  }

  lemma {:induction false} ParsedKeeps(lines: seq<string>, seen: map<Key, string>, k: Key)
    requires ParseLines(lines, seen).Some? && k in seen
    ensures k in ParseLines(lines, seen).value && ParseLines(lines, seen).value[k] == seen[k]
    decreases |lines|
  {
    if lines != [] {
      ParsedKeeps(lines[1..], ParseLine(DropCarriage(lines[0]), seen).value, k);
    }
  }

  lemma {:induction false} SetIsRead(lines: seq<string>, seen: map<Key, string>, i: nat, k: Key, value: string)
    requires ParseLines(lines, seen).Some? && i < |lines| && Sets(lines[i], k, value)
    ensures k !in seen && k in ParseLines(lines, seen).value && ParseLines(lines, seen).value[k] == value
    decreases |lines|
  {
    var more := ParseLine(DropCarriage(lines[0]), seen).value;
    if i == 0 {
      SetLine(lines[0], k, value, seen);
      ParsedKeeps(lines[1..], more, k);
    } else {
      SetIsRead(lines[1..], more, i - 1, k, value);
    }
  }

  lemma {:induction false} SetTwice(lines: seq<string>, seen: map<Key, string>, i: nat, j: nat, k: Key, v: string, w: string)
    requires i < j < |lines| && Sets(lines[i], k, v) && Sets(lines[j], k, w)
    ensures ParseLines(lines, seen).None?
    decreases |lines|
  {
    var first := ParseLine(DropCarriage(lines[0]), seen);
    if first.Some? {
      if i > 0 {
        SetTwice(lines[1..], first.value, i - 1, j - 1, k, v, w);
      } else {
        SetLine(lines[0], k, v, seen);
        if ParseLines(lines[1..], first.value).Some? {
          SetIsRead(lines[1..], first.value, j - 1, k, w);
        }
      }
    }
  }

  // In a file that is read no key is set twice, and each that is set has the value of its line.
  lemma SetOnce(lines: seq<string>, i: nat, k: Key, value: string)
    requires ParseLines(lines, map[]).Some? && i < |lines| && Sets(lines[i], k, value)
    ensures k in ParseLines(lines, map[]).value && ParseLines(lines, map[]).value[k] == value
    ensures forall j, v :: 0 <= j < |lines| && Sets(lines[j], k, v) ==> j == i
  {
    SetIsRead(lines, map[], i, k, value);
    forall j, v | 0 <= j < |lines| && Sets(lines[j], k, v)
      ensures j == i
    {
      if i < j {
        SetTwice(lines, map[], i, j, k, value, v);
      } else if j < i {
        SetTwice(lines, map[], j, i, k, v, value);
      }
    }
  }

  lemma LimitedText(text: string, rest: string)
    requires |text| == 65536
    ensures Limited(text + rest) == text == Limited(text)
  {
    var longer := text + rest;
    assert longer[..65536] == text;
    if rest == "" {
      assert longer == text;
    }
  }

  lemma SameLimit(a: string, b: string, checks: Checks)
    requires Limited(a) == Limited(b)
    ensures ParseSpec(a, checks) == ParseSpec(b, checks)
  {
  }

  // Of a file that is too long only the beginning is read, and a line that fills it is not.
  lemma OnlyTheBeginning(text: string, rest: string, checks: Checks)
    requires |text| == 65536
    ensures ParseSpec(text + rest, checks) == ParseSpec(text, checks)
    ensures '\n' !in text ==> ParseSpec(text, checks).None?
  {
    LimitedText(text, rest);
    SameLimit(text + rest, text, checks);
  }

  // Nothing in the value needs quoting or ends a line, and no space is around it.
  predicate Clean(v: string) {
    && 1 <= |v| <= 4096 && !IsSpace(v[0]) && !IsSpace(v[|v| - 1])
    && forall i :: 0 <= i < |v| ==> v[i] !in " \t\r\n`$" && v[i] as int != 0
  }

  predicate NameLike(s: string) {
    && 1 <= |s| <= 128 && s[0] !in "._-"
    && forall i :: 0 <= i < |s| ==> AlphaNumeric(s[i]) || s[i] in "._-"
  }

  // All nine keys, the only data directory, names that serve as names, and a rotation.
  predicate Fit(e: Environment, checks: Checks) {
    && (forall k <- KEYS :: Clean(e.Value(k)))
    && NameLike(e.Value(DeviceId)) && NameLike(e.Value(SourceNode)) && e.Value(DataDir) == "/var/lib/homepi-display"
    && checks.origin(e.Value(NodeUrl)) && checks.pin(e.Value(CertPin)) && checks.style(e.Value(Style))
    && ParseRotationSpec(e.Value(PageOrder), e.Value(PageDwell)).Some?
  }

  // The value of a key, or the default, where there is one.
  function Effective(e: Environment, k: Key): string {
    if e.Value(k) != "" then e.Value(k)
    else if k == PageOrder then "CODING,API,HOMELAB,SERVICES,SYSTEM"
    else if k == PageDwell then "CODING:15,API:15,HOMELAB:15,SERVICES:15,SYSTEM:15"
    else ""
  }

  lemma CleanIsValid(v: string)
    ensures Clean(v) <==> v != "" && ValidValue(v)
  {
    if Clean(v) {
      TrimSpaceIdentity(v);
    } else if v != "" && ValidValue(v) {
      TrimmedEnds(v);
    }
  }

  lemma {:induction false} TrimmedEnds(v: string)
    requires v != "" && TrimSpace(v) == v
    ensures !IsSpace(v[0]) && !IsSpace(v[|v| - 1])
  {
    TrimLeftShrinks(v);
    TrimRightShrinks(TrimLeft(v));
  }

  lemma {:induction false} TrimLeftShrinks(v: string)
    ensures |TrimLeft(v)| <= |v| && (|TrimLeft(v)| == |v| && v != "" ==> !IsSpace(v[0]))
  {
    if v != "" && IsSpace(v[0]) {
      TrimLeftShrinks(v[1..]);
    }
  }

  lemma {:induction false} TrimRightShrinks(v: string)
    ensures |TrimRight(v)| <= |v| && (|TrimRight(v)| == |v| && v != "" ==> !IsSpace(v[|v| - 1]))
  {
    if v != "" && IsSpace(v[|v| - 1]) {
      TrimRightShrinks(v[..|v| - 1]);
    }
  }

  lemma NamesLike(v: string)
    ensures ValidName(v) <==> NameLike(v)
  {
  }

  lemma FitIsValid(e: Environment, checks: Checks)
    ensures Valid(e, checks) <==> Fit(WithDefaults(e), checks)
  {
    var d := WithDefaults(e);
    forall k
      ensures Clean(d.Value(k)) <==> d.Value(k) != "" && ValidValue(d.Value(k))
    {
      CleanIsValid(d.Value(k));
    }
    NamesLike(d.Value(DeviceId));
    NamesLike(d.Value(SourceNode));
  }

  lemma FitAgrees(d: Environment, e: Environment, checks: Checks)
    requires forall k :: e.Value(k) == d.Value(k)
    ensures Fit(d, checks) <==> Fit(e, checks)
  {
  }

  lemma DefaultsEffective(e: Environment, k: Key)
    ensures WithDefaults(e).Value(k) == Effective(e, k)
  {
  }

  // An environment can be written if and only if it is fit for use, with its defaults for order and dwell.
  lemma RenderAnswer(e: Environment, d: Environment, checks: Checks)
    requires forall k :: d.Value(k) == Effective(e, k)
    ensures RenderSpec(e, checks).Some? <==> Fit(d, checks)
  {
    forall k
      ensures d.Value(k) == WithDefaults(e).Value(k)
    {
      DefaultsEffective(e, k);
    }
    FitIsValid(e, checks);
    FitAgrees(d, WithDefaults(e), checks);
  }

  lemma DefaultsTwice(e: Environment)
    ensures WithDefaults(WithDefaults(e)) == WithDefaults(e)
    ensures e.Total() ==> WithDefaults(e).Total()
  {
  }

  lemma ParsedHasDefaults(text: string, checks: Checks)
    requires ParseSpec(text, checks).Some?
    ensures WithDefaults(ParseSpec(text, checks).value) == ParseSpec(text, checks).value && Valid(ParseSpec(text, checks).value, checks)
  {
    DefaultsTwice(Environment(ParseLines(Lines(Limited(text)), map[]).value));
  }

  // And so is whatever is read.
  lemma ParsedIsFit(text: string, checks: Checks)
    requires ParseSpec(text, checks).Some?
    ensures Fit(ParseSpec(text, checks).value, checks)
  {
    var e := ParseSpec(text, checks).value;
    ParsedHasDefaults(text, checks);
    FitIsValid(e, checks);
  }

  // ----- round trip -----

  lemma KeyNameKnown(k: Key)
    ensures KeyNamed(KeyName(k)) == Some(k)
  {
  }

  lemma KeyNameShape(k: Key)
    ensures 1 <= |KeyName(k)| <= 25
    ensures forall i :: 0 <= i < |KeyName(k)| ==> 'A' <= KeyName(k)[i] <= 'Z' || KeyName(k)[i] == '_'
  {
  }

  lemma LineShape(k: Key, v: string)
    requires ValidValue(v)
    ensures '\n' !in Line(k, v) && DropCarriage(Line(k, v)) == Line(k, v) && !Skipped(Line(k, v))
    ensures Cut(Line(k, v), '=') == Some((KeyName(k), v))
  {
    var line, name := Line(k, v), KeyName(k);
    KeyNameShape(k);
    CutAtFirst(name, v, '=');
    assert line == name + ['='] + v;
    forall i | 0 <= i < |line|
      ensures line[i] != '\n' && line[i] != '\r'
    {
      if i < |name| {
        assert line[i] == name[i];
      } else if i > |name| {
        assert line[i] == v[i - |name| - 1];
      }
    }
    assert line[0] == name[0];
  }

  lemma LineParses(k: Key, v: string, seen: map<Key, string>)
    requires ValidValue(v) && k !in seen
    ensures ParseLine(DropCarriage(Line(k, v)), seen) == Some(seen[k := v])
  {
    LineShape(k, v);
    KeyNameKnown(k);
  }

  function KeyLines(ks: seq<Key>, e: Environment): seq<string> {
    seq(|ks|, i requires 0 <= i < |ks| => Line(ks[i], e.Value(ks[i])))
  }

  lemma KeyLinesAppend(front: seq<Key>, last: Key, e: Environment)
    ensures KeyLines(front + [last], e) == KeyLines(front, e) + [Line(last, e.Value(last))]
  {
  }

  // The text is its lines, each with its end.
  function Ended(lines: seq<string>): string {
    if lines == [] then "" else lines[0] + "\n" + Ended(lines[1..])
  }

  lemma {:induction false} EndedAppend(lines: seq<string>, last: string)
    ensures Ended(lines + [last]) == Ended(lines) + last + "\n"
  {
    if lines == [] {
      assert ([last])[1..] == [];
    } else {
      EndedAppend(lines[1..], last);
      assert (lines + [last])[1..] == lines[1..] + [last];
    }
  }

  lemma RenderAppend(front: seq<Key>, last: Key, e: Environment)
    ensures RenderKeys(front + [last], e) == RenderKeys(front, e) + Line(last, e.Value(last)) + "\n"
  {
    var ks := front + [last];
    assert ks[..|ks| - 1] == front && ks[|ks| - 1] == last;
  }

  lemma {:induction false} RenderedIsEnded(ks: seq<Key>, e: Environment)
    ensures RenderKeys(ks, e) == Ended(KeyLines(ks, e))
  {
    if ks != [] {
      var front, last := ks[..|ks| - 1], ks[|ks| - 1];
      var line := Line(last, e.Value(last));
      assert ks == front + [last];
      RenderedIsEnded(front, e);
      RenderAppend(front, last, e);
      EndedAppend(KeyLines(front, e), line);
      KeyLinesAppend(front, last, e);
    }
  }

  lemma {:induction false} SplitEnded(lines: seq<string>)
    requires forall i :: 0 <= i < |lines| ==> '\n' !in lines[i]
    ensures Split(Ended(lines), '\n') == lines + [""]
  {
    if lines != [] {
      SplitFirst(lines[0], Ended(lines[1..]), '\n');
      SplitEnded(lines[1..]);
      assert Ended(lines) == lines[0] + ['\n'] + Ended(lines[1..]);
      assert lines == [lines[0]] + lines[1..];
    }
  }

  lemma {:induction false} EndedLength(lines: seq<string>, bound: nat)
    requires forall i :: 0 <= i < |lines| ==> |lines[i]| < bound
    ensures |Ended(lines)| <= |lines| * bound
  {
    if lines != [] {
      EndedLength(lines[1..], bound);
      assert |lines| * bound == bound + |lines[1..]| * bound;
    }
  }

  function Restrict(ks: seq<Key>, e: Environment): map<Key, string> {
    if ks == [] then map[] else Restrict(ks[..|ks| - 1], e)[ks[|ks| - 1] := e.Value(ks[|ks| - 1])]
  }

  lemma {:induction false} RestrictKeys(ks: seq<Key>, e: Environment)
    ensures forall k :: k in Restrict(ks, e) <==> k in ks
    ensures forall k :: k in ks ==> Restrict(ks, e)[k] == e.Value(k)
  {
    if ks != [] {
      RestrictKeys(ks[..|ks| - 1], e);
      assert ks == ks[..|ks| - 1] + [ks[|ks| - 1]];
    }
  }

  predicate DistinctKeys(ks: seq<Key>) {
    forall i, j :: 0 <= i < j < |ks| ==> ks[i] != ks[j]
  }

  lemma {:induction false} LinesParse(ks: seq<Key>, e: Environment, i: nat)
    requires i <= |ks| && DistinctKeys(ks) && forall k <- ks :: ValidValue(e.Value(k))
    ensures ParseLines(KeyLines(ks, e)[i..], Restrict(ks[..i], e)) == Some(Restrict(ks, e))
    decreases |ks| - i
  {
    var lines := KeyLines(ks, e);
    if i == |ks| {
      assert ks[..i] == ks && lines[i..] == [];
    } else {
      RestrictKeys(ks[..i], e);
      assert ks[i] !in ks[..i];
      LineParses(ks[i], e.Value(ks[i]), Restrict(ks[..i], e));
      LinesParse(ks, e, i + 1);
      assert ks[..i + 1][..i] == ks[..i] && lines[i..][1..] == lines[i + 1..];
    }
  }

  lemma AllKeys(k: Key)
    ensures k in KEYS
  {
    match k
    case NodeUrl => assert KEYS[0] == k;
    case DeviceId => assert KEYS[1] == k;
    case SourceNode => assert KEYS[2] == k;
    case CertPin => assert KEYS[3] == k;
    case DeviceToken => assert KEYS[4] == k;
    case DataDir => assert KEYS[5] == k;
    case Style => assert KEYS[6] == k;
    case PageOrder => assert KEYS[7] == k;
    case PageDwell => assert KEYS[8] == k;
  }

  lemma KeyLinesPlain(ks: seq<Key>, e: Environment)
    requires forall k <- ks :: ValidValue(e.Value(k))
    ensures forall i :: 0 <= i < |ks| ==> '\n' !in KeyLines(ks, e)[i] && |KeyLines(ks, e)[i]| < 4123
  {
    forall i | 0 <= i < |ks|
      ensures '\n' !in KeyLines(ks, e)[i] && |KeyLines(ks, e)[i]| < 4123
    {
      assert ks[i] in ks;
      LineShape(ks[i], e.Value(ks[i]));
      KeyNameShape(ks[i]);
    }
  }

  // Up to 15 lines fit into the limit, and are read back one by one.
  lemma RenderedLines(ks: seq<Key>, e: Environment)
    requires |ks| <= 15 && forall k <- ks :: ValidValue(e.Value(k))
    ensures Limited(RenderKeys(ks, e)) == RenderKeys(ks, e) && !Unreadable(RenderKeys(ks, e))
    ensures Lines(RenderKeys(ks, e)) == KeyLines(ks, e)
  {
    var lines := KeyLines(ks, e);
    KeyLinesPlain(ks, e);
    RenderedIsEnded(ks, e);
    SplitEnded(lines);
    EndedLength(lines, 4123);
    assert (lines + [""])[..|lines|] == lines;
  }

  lemma FullRestrict(ks: seq<Key>, e: Environment)
    requires e.Total() && forall k: Key :: k in ks
    ensures Restrict(ks, e) == e.values
  {
    RestrictKeys(ks, e);
  }

  // Valid values of distinct keys are read as they were written.
  lemma KeysRoundTrip(ks: seq<Key>, e: Environment)
    requires |ks| <= 15 && DistinctKeys(ks) && (forall k <- ks :: ValidValue(e.Value(k)))
    requires e.Total() && forall k: Key :: k in ks
    ensures
      var text := RenderKeys(ks, e);
      !Unreadable(Limited(text)) && ParseLines(Lines(Limited(text)), map[]) == Some(e.values)
  {
    RenderedLines(ks, e);
    LinesParse(ks, e, 0);
    FullRestrict(ks, e);
    assert ks[..0] == [] && KeyLines(ks, e)[0..] == KeyLines(ks, e);
  }

  lemma KeysAreAll()
    ensures |KEYS| == 9 && DistinctKeys(KEYS) && forall k: Key :: k in KEYS
  {
    forall k: Key
      ensures k in KEYS
    {
      AllKeys(k);
    }
  }

  // Every valid environment survives being written and read, with its defaults filled in.
  lemma RenderParse(e: Environment, checks: Checks)
    requires e.Total() && Valid(e, checks)
    ensures RenderSpec(e, checks).Some? && ParseSpec(RenderSpec(e, checks).value, checks) == Some(WithDefaults(e))
  {
    KeysAreAll();
    DefaultsTwice(e);
    KeysRoundTrip(KEYS, WithDefaults(e));
  }

  lemma ParsedTotal(text: string, checks: Checks)
    requires ParseSpec(text, checks).Some?
    ensures
      var e := ParseSpec(text, checks).value;
      e.Total() && Valid(e, checks) && WithDefaults(e) == e
  {
    var e := ParseSpec(text, checks).value;
    var values := ParseLines(Lines(Limited(text)), map[]).value;
    DefaultsTwice(Environment(values));
    forall k: Key
      ensures k in e.values
    {
      AllKeys(k);
    }
  }

  // Whatever is read can be written, and then reads as the same environment.
  lemma ParsedRenders(text: string, checks: Checks)
    requires ParseSpec(text, checks).Some?
    ensures
      var e := ParseSpec(text, checks).value;
      RenderSpec(e, checks).Some? && ParseSpec(RenderSpec(e, checks).value, checks) == Some(e)
  {
    ParsedTotal(text, checks);
    RenderParse(ParseSpec(text, checks).value, checks);
  }
}
