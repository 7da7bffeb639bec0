/**
 The draft of a configuration (internal/configtx/draft.go, internal/configtx/overlay.go): staging and
 undoing an edit, versioned references for candidate secrets, and the check that no two providers
 emit the same metric. The registry of provider types and the validation of a whole configuration
 are parameters.
 */
module Drafts {
  import opened Wrappers
  import opened Text
  import opened ConfigTx

  datatype Meta = Meta(regions: set<string>, defaultRegion: string, secretMax: nat)

  datatype Registry = Registry(
    types: map<string, Meta>, metricIds: Provider -> Option<seq<string>>, valid: Config -> bool)

  datatype DraftError = InvalidDraft | SecretOversize | Shadowed | InvalidRef

  datatype Edit = Edit(
    id: string, newType: string, accountLabel: Option<string>, region: Option<string>, baseUrl: Option<string>,
    interval: Option<string>, staleAfter: Option<string>, enabled: Option<bool>, secretRef: Option<string>,
    authFile: Option<string>, mockFixture: Option<string>, options: Option<map<string, string>>,
    candidate: string, rotate: bool, drop: bool)

  // ----- versioned references -----

  const KEYRING := "keyring:"

  predicate HasPrefix(s: string, prefix: string) {
    prefix <= s
  }

  // The index of the last occurrence, or -1.
  function LastIndex(s: string, c: char): (i: int)
    ensures -1 <= i < |s| && (i >= 0 ==> s[i] == c) && forall k :: i < k < |s| ==> s[k] != c
  {
    if s == [] then -1
    else if s[|s| - 1] == c then |s| - 1
    else LastIndex(s[..|s| - 1], c)
  }

  function DigitRun(s: string): (d: string)
    ensures AllDigits(d) && d <= s
  {
    if s != [] && IsDigit(s[0]) then [s[0]] + DigitRun(s[1..]) else []
  }

  // fmt.Sscanf with %d, on text without white space: a sign, digits, and whatever follows.
  function ScanInt(s: string): (r: Option<int>)
    ensures r.Some? ==> IsInt64(r.value)
  {
    var signed := s != [] && (s[0] == '+' || s[0] == '-');
    ParseInt64(if signed then [s[0]] + DigitRun(s[1..]) else DigitRun(s))
  }

  // n + 1 on 64 bits.
  function Increment(n: int): int {
    if n == INT64_MAX then INT64_MIN else n + 1
  }

  function NextVersion(s: string): string {
    if s == "" then "2"
    else
      match ScanInt(s)
      case None => "2"
      case Some(n) => FormatInt(Increment(n))
  }

  function NextVersionedRef(ref: string): string {
    if !HasPrefix(ref, KEYRING) then ref
    else
      var i := LastIndex(ref, '@');
      if i > 0 then ref[..i + 1] + NextVersion(ref[i + 1..]) else ref + "@2"
  }

  function FirstVersionedRef(ref: string): string {
    if !HasPrefix(ref, KEYRING) || '@' in ref then ref else ref + "@1"
  }

  lemma {:induction false} DigitRunAll(s: string)
    requires AllDigits(s)
    ensures DigitRun(s) == s
  {
    if s != [] {
      DigitRunAll(s[1..]);
      assert s == [s[0]] + s[1..];
    }
  }

  lemma ScanFormatted(n: int)
    requires IsInt64(n)
    ensures ScanInt(FormatInt(n)) == Some(n)
  {
    ParseFormatInt(n);
    var s := FormatInt(n);
    if n < 0 {
      DigitRunAll(FormatNat(-n));
      assert s[1..] == FormatNat(-n) && [s[0]] + s[1..] == s;
    } else {
      DigitRunAll(FormatNat(n));
      assert IsDigit(s[0]);
    }
  }

  lemma NextVersionDiffers(s: string)
    ensures NextVersion(s) != s
  {
    match ScanInt(s) {
      case None =>
        ScanFormatted(2);
        assert FormatInt(2) == "2";
      case Some(n) => ScanFormatted(Increment(n));
    }
  }

  // The marker of a version comes after the prefix.
  lemma MarkerAfterPrefix(ref: string)
    requires HasPrefix(ref, KEYRING)
    ensures LastIndex(ref, '@') >= 0 ==> LastIndex(ref, '@') >= |KEYRING|
  {
    assert forall k :: 0 <= k < |KEYRING| ==> ref[k] == KEYRING[k];
  }

  lemma NewSuffix(ref: string, i: nat, version: string)
    requires i < |ref|
    ensures ref[..i + 1] + version == ref <==> version == ref[i + 1..]
  {
    assert ref == ref[..i + 1] + ref[i + 1..];
    assert (ref[..i + 1] + version)[i + 1..] == version;
  }

  lemma PrefixStays(prefix: string, ref: string, cut: nat, more: string)
    requires HasPrefix(ref, prefix) && |prefix| <= cut <= |ref|
    ensures HasPrefix(ref[..cut] + more, prefix)
  {
    assert ref[..|prefix|] == prefix;
    assert (ref[..cut] + more)[..|prefix|] == ref[..|prefix|];
  }

  lemma NextOfKeyring(ref: string)
    requires HasPrefix(ref, KEYRING)
    ensures NextVersionedRef(ref) != ref && HasPrefix(NextVersionedRef(ref), KEYRING)
  {
    var i := LastIndex(ref, '@');
    MarkerAfterPrefix(ref);
    if i > 0 {
      NextVersionDiffers(ref[i + 1..]);
      NewSuffix(ref, i, NextVersion(ref[i + 1..]));
      PrefixStays(KEYRING, ref, i + 1, NextVersion(ref[i + 1..]));
    } else {
      assert |NextVersionedRef(ref)| == |ref| + 2;
      assert ref[..|ref|] == ref;
      PrefixStays(KEYRING, ref, |ref|, "@2");
    }
  }

  // The next version of a reference into the keyring is another one, in the keyring; any other
  // reference stays as it is.
  lemma NextVersionedDiffers(ref: string)
    ensures NextVersionedRef(ref) != ref <==> HasPrefix(ref, KEYRING)
    ensures HasPrefix(ref, KEYRING) ==> HasPrefix(NextVersionedRef(ref), KEYRING)
  {
    if HasPrefix(ref, KEYRING) {
      NextOfKeyring(ref);
    }
  }

  // ----- shadowed metrics -----

  predicate Enabled(p: Provider) {
    p.enabled != Some(false)
  }

  // The metric IDs the providers emit, in order, or None where they cannot be told. Disabled
  // providers and those of an unknown type emit none.
  function EmittedBy(p: Provider, registry: Registry): Option<seq<string>> {
    if !Enabled(p) || p.kind !in registry.types then Some([]) else registry.metricIds(p)
  }

  function Emitted(ps: seq<Provider>, registry: Registry): Option<seq<string>> {
    if ps == [] then Some([])
    else
      match (Emitted(ps[..|ps| - 1], registry), EmittedBy(ps[|ps| - 1], registry))
      case (Some(before), Some(ids)) => Some(before + ids)
      case _ => None
  }

  predicate Distinct(ids: seq<string>) {
    forall i, j :: 0 <= i < j < |ids| ==> ids[i] != ids[j]
  }

  // No two enabled providers emit the same metric, nor one of them the same twice.
  predicate ShadowFree(c: Config, registry: Registry) {
    Emitted(c.providers, registry).Some? && Distinct(Emitted(c.providers, registry).value)
  }

  lemma DistinctAppend(ids: seq<string>, id: string)
    ensures Distinct(ids + [id]) <==> Distinct(ids) && id !in ids
  {
    var longer := ids + [id];
    if Distinct(longer) {
      forall i, j | 0 <= i < j < |ids|
        ensures ids[i] != ids[j]
      {
        assert longer[i] != longer[j];
      }
      forall i | 0 <= i < |ids|
        ensures ids[i] != id
      {
        assert longer[i] != longer[|ids|];
      }
    }
  }

  lemma DistinctPrefix(ids: seq<string>, more: seq<string>)
    requires Distinct(ids + more)
    ensures Distinct(ids)
  {
    assert forall i :: 0 <= i < |ids| ==> (ids + more)[i] == ids[i];
  }

  // What the check finds first.
  function ShadowError(ps: seq<Provider>, registry: Registry): (error: Option<DraftError>)
    ensures error.None? <==> Emitted(ps, registry).Some? && Distinct(Emitted(ps, registry).value)
  {
    if ps == [] then None
    else
      var front := ps[..|ps| - 1];
      if ShadowError(front, registry).Some? then
        EarlierShadow(front, ps[|ps| - 1], registry);
        ShadowError(front, registry)
      else
        match EmittedBy(ps[|ps| - 1], registry)
        case None => Some(InvalidDraft)
        case Some(ids) => if Distinct(Emitted(front, registry).value + ids) then None else Some(Shadowed)
  }

  lemma EarlierShadow(front: seq<Provider>, last: Provider, registry: Registry)
    requires !(Emitted(front, registry).Some? && Distinct(Emitted(front, registry).value))
    ensures
      var ps := front + [last];
      !(Emitted(ps, registry).Some? && Distinct(Emitted(ps, registry).value))
  {
    var ps := front + [last];
    assert ps[..|ps| - 1] == front && ps[|ps| - 1] == last;
    if Emitted(ps, registry).Some? && Distinct(Emitted(ps, registry).value) {
      DistinctPrefix(Emitted(front, registry).value, EmittedBy(last, registry).value);
    }
  }

  lemma {:induction false} FirstShadow(ps: seq<Provider>, i: nat, registry: Registry)
    requires i <= |ps| && ShadowError(ps[..i], registry).Some?
    ensures ShadowError(ps, registry) == ShadowError(ps[..i], registry)
  {
    if i < |ps| {
      assert ps[..|ps| - 1][..i] == ps[..i];
      FirstShadow(ps[..|ps| - 1], i, registry);
    } else {
      assert ps[..i] == ps;
    }
  }

  method CheckShadows(c: Config, registry: Registry) returns (error: Option<DraftError>)
    ensures error == ShadowError(c.providers, registry)
  {
    var ps := c.providers;
    var seen: set<string> := {};
    ghost var ids: seq<string> := [];
    for i := 0 to |ps|
      invariant Emitted(ps[..i], registry) == Some(ids) && Distinct(ids)
      invariant forall id :: id in seen <==> id in ids
    {
      var p := ps[i];
      assert ps[..i + 1][..i] == ps[..i];
      if p.enabled.Some? && !p.enabled.value {
        assert ids + [] == ids;
        continue;
      }
      if p.kind !in registry.types {
        assert ids + [] == ids;
        continue;
      }
      var own := registry.metricIds(p);
      if own.None? {
        FirstShadow(ps, i + 1, registry);
        return Some(InvalidDraft);
      }
      ghost var before := ids;
      for k := 0 to |own.value|
        invariant ids == before + own.value[..k] && Distinct(ids)
        invariant forall id :: id in seen <==> id in ids
      {
        DistinctAppend(ids, own.value[k]);
        assert before + own.value[..k + 1] == ids + [own.value[k]];
        if own.value[k] in seen {
          NotDistinct(before, own.value, k);
          FirstShadow(ps, i + 1, registry);
          return Some(Shadowed);
        }
        seen := seen + {own.value[k]};
        ids := ids + [own.value[k]];
      }
      assert own.value[..|own.value|] == own.value;
    }
    assert ps[..|ps|] == ps;
    return None;
  }

  lemma NotDistinct(before: seq<string>, own: seq<string>, k: nat)
    requires k < |own| && !Distinct(before + own[..k + 1])
    ensures !Distinct(before + own)
  {
    assert before + own == (before + own[..k + 1]) + own[k + 1..];
    if Distinct(before + own) {
      DistinctPrefix(before + own[..k + 1], own[k + 1..]);
    }
  }

  lemma {:induction false} EmittedHas(ps: seq<Provider>, registry: Registry, i: nat, id: string)
    requires i < |ps| && Emitted(ps, registry).Some?
    requires EmittedBy(ps[i], registry).Some? && id in EmittedBy(ps[i], registry).value
    ensures id in Emitted(ps, registry).value
  {
    if i < |ps| - 1 {
      EmittedHas(ps[..|ps| - 1], registry, i, id);
    }
  }

  // In a configuration that passes the check every metric has one home, which is what the scheduler
  // relies on.
  lemma {:induction false} MetricsHaveHomes(ps: seq<Provider>, registry: Registry) returns (home: map<string, string>)
    requires Emitted(ps, registry).Some? && Distinct(Emitted(ps, registry).value)
    ensures forall p <- ps :: EmittedBy(p, registry).Some? && forall id <- EmittedBy(p, registry).value :: id in home && home[id] == p.id
  {
    if ps == [] {
      home := map[];
    } else {
      var front, last := ps[..|ps| - 1], ps[|ps| - 1];
      var before, own := Emitted(front, registry).value, EmittedBy(last, registry).value;
      DistinctPrefix(before, own);
      var rest := MetricsHaveHomes(front, registry);
      home := Homed(rest, own, last.id);
      forall p <- ps
        ensures EmittedBy(p, registry).Some? && forall id <- EmittedBy(p, registry).value :: id in home && home[id] == p.id
      {
        if p != last || p in front {
          var i :| 0 <= i < |ps| && ps[i] == p;
          if i < |front| {
            assert front[i] == p && p in front;
            NotAmong(before, own);
            forall id <- EmittedBy(p, registry).value
              ensures id in before
            {
              EmittedHas(front, registry, i, id);
            }
          }
        }
      }
    }
  }

  function Homed(home: map<string, string>, ids: seq<string>, owner: string): (r: map<string, string>)
    ensures forall id <- ids :: id in r && r[id] == owner
    ensures forall id <- home :: id in r && (id !in ids ==> r[id] == home[id])
  {
    if ids == [] then home else Homed(home, ids[..|ids| - 1], owner)[ids[|ids| - 1] := owner]
  }

  lemma NotAmong(before: seq<string>, own: seq<string>)
    requires Distinct(before + own)
    ensures forall id <- before :: id !in own
  {
    forall id <- before
      ensures id !in own
    {
      var i :| 0 <= i < |before| && before[i] == id;
      forall k | 0 <= k < |own|
        ensures own[k] != id
      {
        assert (before + own)[i] != (before + own)[|before| + k];
      }
    }
  }

  // ----- edits -----

  // What a passed test was made with: the staged provider and its candidate secret.
  datatype Fingerprint = Fingerprint(provider: Provider, candidate: Option<string>)

  datatype View = View(base: Config, pending: Config, overlay: map<string, string>, tested: map<string, Fingerprint>)

  // The index of the first provider with the ID, or the number of providers.
  function Find(ps: seq<Provider>, id: string): (i: nat)
    ensures i <= |ps| && (i < |ps| ==> ps[i].id == id) && forall k :: 0 <= k < i ==> ps[k].id != id
  {
    if ps == [] || ps[0].id == id then 0
    else
      var rest := Find(ps[1..], id);
      assert forall k :: 0 < k <= rest ==> ps[k] == ps[1..][k - 1] || k == |ps|;
      1 + rest
  }

  function Or<T>(edit: Option<T>, current: T): T {
    if edit.Some? then edit.value else current
  }

  function EmptyProvider(id: string, kind: string): Provider {
    Provider(id, kind, None, "", Settings("", "", "", "", "", "", "", map[]))
  }

  // Every plain field of the edit that is set.
  function WithFields(p: Provider, e: Edit): Provider {
    var s := p.settings;
    p.(kind := if e.newType != "" then e.newType else p.kind,
       enabled := if e.enabled.Some? then e.enabled else p.enabled,
       secretRef := Or(e.secretRef, p.secretRef),
       settings := Settings(Or(e.accountLabel, s.accountLabel), Or(e.region, s.region), Or(e.baseUrl, s.baseUrl),
                            Or(e.interval, s.interval), Or(e.staleAfter, s.staleAfter),
                            Or(e.authFile, s.authFile), Or(e.mockFixture, s.mockFixture), Or(e.options, s.options)))
  }

  predicate RegionAllowed(kind: string, region: string, registry: Registry) {
    kind in registry.types ==>
      var m := registry.types[kind];
      region == "" || region in m.regions || (m.regions == {} && region == m.defaultRegion)
  }

  // The provider that an overlay entry of a generated name belongs to.
  predicate BelongsTo(ref: string, id: string) {
    var prefix := KEYRING + "provider-key:";
    && |ref| > |prefix|
    && (match Cut(ref[|prefix|..], '@') case Some((name, _)) => name == id case None => ref[|prefix|..] == id)
  }

  function WithoutOverlay(overlay: map<string, string>, id: string): map<string, string> {
    if id == "" then overlay else overlay - (set ref <- overlay | BelongsTo(ref, id))
  }

  predicate RefChar(c: char) {
    'a' <= c <= 'z' || 'A' <= c <= 'Z' || '0' <= c <= '9' || c in {':', '/', '\\', '-', '_', '.', '@'}
  }

  predicate ValidRef(ref: string) {
    0 < |ref| <= 256 && forall i :: 0 <= i < |ref| ==> RefChar(ref[i])
  }

  // The reference a candidate secret gets: a new version of the current one unless that is already
  // a candidate of this draft.
  function CandidateRef(base: Option<string>, isNew: bool, rotate: bool, overlay: map<string, string>, ref: string): string {
    if base.Some? then if ref == base.value || ref !in overlay then NextVersionedRef(ref) else ref
    else if isNew then FirstVersionedRef(ref)
    else if rotate then NextVersionedRef(ref)
    else ref
  }

  function GeneratedRef(id: string): string {
    KEYRING + "provider-key:" + id
  }

  function CurrentRef(p: Provider): string {
    if p.secretRef == "" then GeneratedRef(p.id) else p.secretRef
  }

  function BaseRef(base: Config, id: string): Option<string> {
    var i := Find(base.providers, id);
    if i < |base.providers| then Some(base.providers[i].secretRef) else None
  }

  predicate TooLong(kind: string, secret: string, registry: Registry) {
    kind in registry.types && |secret| > registry.types[kind].secretMax
  }

  // The provider's reference and the overlay after the secret part of the edit.
  function SecretPart(v: View, p: Provider, isNew: bool, e: Edit, registry: Registry): Result<(string, map<string, string>), DraftError> {
    if e.drop && (e.rotate || e.candidate != "") then Failure(InvalidDraft)
    else if e.drop then Success(("", WithoutOverlay(v.overlay, p.id)))
    else if e.candidate == "" then Success((p.secretRef, v.overlay))
    else if TooLong(p.kind, e.candidate, registry) then Failure(SecretOversize)
    else
      var ref := CandidateRef(BaseRef(v.base, e.id), isNew, e.rotate, v.overlay, CurrentRef(p));
      if !ValidRef(ref) then Failure(InvalidDraft) else Success((ref, v.overlay[ref := e.candidate]))
  }

  // The edited provider list, before the defaults, and the overlay.
  function Staged(v: View, e: Edit, registry: Registry): Result<(seq<Provider>, map<string, string>), DraftError> {
    var i := Find(v.pending.providers, e.id);
    var isNew := i == |v.pending.providers|;
    if e.newType != "" && e.newType !in registry.types then Failure(InvalidDraft)
    else if isNew && e.newType == "" then Failure(InvalidDraft)
    else
      var ps := if isNew then v.pending.providers + [EmptyProvider(e.id, e.newType)] else v.pending.providers;
      if e.newType != "" && ps[i].kind != "" && ps[i].kind != e.newType then Failure(InvalidDraft)
      else
        var p := WithFields(ps[i], e);
        if e.region.Some? && !RegionAllowed(p.kind, e.region.value, registry) then Failure(InvalidDraft)
        else
          match SecretPart(v, p, isNew, e, registry)
          case Failure(error) => Failure(error)
          case Success((ref, overlay)) => Success((ps[i := p.(secretRef := ref)], overlay))
  }

  function EditSpec(v: View, e: Edit, registry: Registry): (View, Option<DraftError>) {
    match Staged(v, e, registry)
    case Failure(error) => (v, Some(error))
    case Success((ps, overlay)) =>
      var pending := Defaults(v.pending.(providers := ps));
      if !registry.valid(pending) then (v, Some(InvalidDraft))
      else if ShadowError(pending.providers, registry).Some? then (v, ShadowError(pending.providers, registry))
      else (View(v.base, pending, overlay, v.tested - {e.id}), None)
  }

  function DeleteSpec(v: View, id: string, registry: Registry): (View, Option<DraftError>) {
    var ps := v.pending.providers;
    var i := Find(ps, id);
    if i == |ps| then (v, Some(InvalidDraft))
    else
      var pending := v.pending.(providers := ps[..i] + ps[i + 1..]);
      (View(v.base, pending, WithoutOverlay(v.overlay, id), v.tested - {id}),
       if registry.valid(pending) then None else Some(InvalidDraft))
  }

  // ----- read-only tests -----

  // A test may not get as far as collecting.
  datatype TestOutcome = NotStarted | Fails | Passes

  function FingerprintOf(v: View, i: nat): Fingerprint
    requires i < |v.pending.providers|
  {
    var p := v.pending.providers[i];
    Fingerprint(p, if p.secretRef in v.overlay then Some(v.overlay[p.secretRef]) else None)
  }

  function TestSpec(v: View, id: string, outcome: TestOutcome): View {
    var i := Find(v.pending.providers, id);
    if i == |v.pending.providers| || outcome.NotStarted? then v
    else if outcome.Fails? then v.(tested := v.tested - {id})
    else v.(tested := v.tested[id := FingerprintOf(v, i)])
  }

  // The last provider with the ID.
  function Indexed(ps: seq<Provider>, id: string): Option<Provider> {
    if ps == [] then None
    else if ps[|ps| - 1].id == id then Some(ps[|ps| - 1])
    else Indexed(ps[..|ps| - 1], id)
  }

  // A provider that is new, or whose secret has changed.
  predicate NeedsTest(base: Config, p: Provider) {
    var before := Indexed(base.providers, p.id);
    Enabled(p) && (before.None? || before.value.secretRef != p.secretRef)
  }

  // The provider passed its last test just as it is staged now.
  predicate TestStands(v: View, p: Provider) {
    var i := Find(v.pending.providers, p.id);
    i < |v.pending.providers| && p.id in v.tested && v.tested[p.id] == FingerprintOf(v, i)
  }

  predicate TestsStand(v: View) {
    forall p <- v.pending.providers :: NeedsTest(v.base, p) ==> TestStands(v, p)
  }

  class Draft {
    const registry: Registry
    const base: Config
    var pending: Config
    var overlay: map<string, string>
    var tested: map<string, Fingerprint>

    ghost function Now(): View
      reads this
    {
      View(base, pending, overlay, tested)
    }

    constructor (base: Config, registry: Registry)
      ensures this.registry == registry && Now() == View(base, Defaults(base), map[], map[])
    {
      this.base, this.registry, pending, overlay, tested := base, registry, Defaults(base), map[], map[];
    }

    method FindIndex(ps: seq<Provider>, id: string) returns (i: nat)
      ensures i == Find(ps, id)
    {
      i := 0;
      while i < |ps| && ps[i].id != id
        invariant i <= |ps| && Find(ps[i..], id) + i == Find(ps, id)
      {
        assert ps[i..][1..] == ps[i + 1..];
        i := i + 1;
      }
    }

    method SetProvider(i: nat, p: Provider)
      requires i < |pending.providers|
      modifies this`pending
      ensures pending == old(pending).(providers := old(pending).providers[i := p])
    {
      pending := pending.(providers := pending.providers[i := p]);
    }

    method StageSecret(i: nat, p: Provider, isNew: bool, e: Edit) returns (error: Option<DraftError>)
      requires i < |pending.providers|
      modifies this`pending, this`overlay
      ensures
        match SecretPart(old(Now()), p, isNew, e, registry)
        case Failure(f) => error == Some(f)
        case Success((ref, secrets)) =>
          error.None? && overlay == secrets
          && pending == old(pending).(providers := old(pending).providers[i := p.(secretRef := ref)])
    {
      if e.drop {
        if e.rotate || e.candidate != "" {
          return Some(InvalidDraft);
        }
        SetProvider(i, p.(secretRef := ""));
        overlay := WithoutOverlay(overlay, p.id);
        return None;
      }
      if e.candidate == "" {
        SetProvider(i, p);
        return None;
      }
      if TooLong(p.kind, e.candidate, registry) {
        return Some(SecretOversize);
      }
      var ref := CurrentRef(p);
      var k := FindIndex(base.providers, e.id);
      if k < |base.providers| {
        if ref == base.providers[k].secretRef || ref !in overlay {
          ref := NextVersionedRef(ref);
        }
      } else if isNew {
        ref := FirstVersionedRef(ref);
      } else if e.rotate {
        ref := NextVersionedRef(ref);
      }
      SetProvider(i, p.(secretRef := ref));
      if !ValidRef(ref) {
        return Some(InvalidDraft);
      }
      overlay := overlay[ref := e.candidate];
      return None;
    }

    method Stage(e: Edit) returns (error: Option<DraftError>)
      modifies this`pending, this`overlay
      ensures
        match Staged(old(Now()), e, registry)
        case Failure(f) => error == Some(f)
        case Success((ps, secrets)) => error.None? && overlay == secrets && pending == old(pending).(providers := ps)
    {
      if e.newType !in registry.types && e.newType != "" {
        return Some(InvalidDraft);
      }
      var i := FindIndex(pending.providers, e.id);
      var isNew := i == |pending.providers|;
      if isNew && e.newType == "" {
        return Some(InvalidDraft);
      }
      if isNew {
        pending := pending.(providers := pending.providers + [EmptyProvider(e.id, e.newType)]);
      }
      var p := pending.providers[i];
      if e.newType != "" && p.kind != "" && p.kind != e.newType {
        return Some(InvalidDraft);
      }
      p := WithFields(p, e);
      if e.region.Some? && !RegionAllowed(p.kind, e.region.value, registry) {
        return Some(InvalidDraft);
      }
      error := StageSecret(i, p, isNew, e);
    }

    // A refused edit leaves the draft exactly as it was.
    method EditProvider(e: Edit) returns (error: Option<DraftError>)
      modifies this
      ensures (Now(), error) == EditSpec(old(Now()), e, registry)
    {
      var previous, previousOverlay := pending, overlay;
      error := Stage(e);
      if error.None? {
        pending := Defaults(pending);
        if !registry.valid(pending) {
          error := Some(InvalidDraft);
        }
      }
      if error.None? {
        error := CheckShadows(pending, registry);
      }
      if error.Some? {
        pending, overlay := previous, previousOverlay;
        return;
      }
      tested := tested - {e.id};
    }

    // Unlike an edit, a deletion that leaves an invalid configuration stays in the draft.
    method DeleteProvider(id: string) returns (ref: string, error: Option<DraftError>)
      modifies this
      ensures (Now(), error) == DeleteSpec(old(Now()), id, registry)
      ensures var ps := old(pending).providers;
              ref == if Find(ps, id) < |ps| then ps[Find(ps, id)].secretRef else ""
    {
      var i := FindIndex(pending.providers, id);
      if i == |pending.providers| {
        return "", Some(InvalidDraft);
      }
      ref := pending.providers[i].secretRef;
      pending := pending.(providers := pending.providers[..i] + pending.providers[i + 1..]);
      overlay := WithoutOverlay(overlay, id);
      tested := tested - {id};
      error := if registry.valid(pending) then None else Some(InvalidDraft);
    }

    // A test that fails takes back an earlier success; one that passes holds for the provider and
    // the candidate secret as they are staged.
    method TestProvider(id: string, outcome: TestOutcome) returns (found: bool)
      modifies this`tested
      ensures Now() == TestSpec(old(Now()), id, outcome) && found == (Find(pending.providers, id) < |pending.providers|)
    {
      var i := FindIndex(pending.providers, id);
      if i == |pending.providers| {
        return false;
      }
      match outcome {
        case NotStarted =>
        case Fails => tested := tested - {id};
        case Passes =>
          var p := pending.providers[i];
          tested := tested[id := Fingerprint(p, if p.secretRef in overlay then Some(overlay[p.secretRef]) else None)];
      }
      return true;
    }

    method ValidateRequiredTests() returns (ok: bool)
      ensures ok == TestsStand(Now())
    {
      for i := 0 to |pending.providers|
        invariant forall k :: 0 <= k < i && NeedsTest(base, pending.providers[k]) ==> TestStands(Now(), pending.providers[k])
      {
        var p := pending.providers[i];
        if !Enabled(p) {
          continue;
        }
        var before := Indexed(base.providers, p.id);
        var needsTest := before.None? || before.value.secretRef != p.secretRef;
        if !needsTest {
          continue;
        }
        var k := FindIndex(pending.providers, p.id);
        if k == |pending.providers| || p.id !in tested || tested[p.id] != FingerprintOf(View(base, pending, overlay, tested), k) {
          assert p in pending.providers;
          return false;
        }
      }
      return true;
    }
  }

  // ----- what an edit does -----

  lemma StagedShape(v: View, e: Edit, registry: Registry)
    requires Staged(v, e, registry).Success?
    ensures
      var ps, i := Staged(v, e, registry).value.0, Find(v.pending.providers, e.id);
      && i < |ps| == (if i < |v.pending.providers| then |v.pending.providers| else i + 1) && ps[i].id == e.id
      && forall k :: 0 <= k < |v.pending.providers| && k != i ==> ps[k] == v.pending.providers[k]
  {
  }

  lemma DefaultsKeepPlaces(c: Config, i: nat)
    requires i < |c.providers| && c.providers[i].id !in (set k | 0 <= k < i :: c.providers[k].id)
    ensures Find(Defaults(c).providers, c.providers[i].id) == i
  {
    var id, ps := c.providers[i].id, Defaults(c).providers;
    assert forall k :: 0 <= k < |ps| ==> ps[k].id == c.providers[k].id;
    assert ps[i].id == id;
  }

  // A successful edit leaves a valid configuration without shadowed metrics, changes no other
  // provider, and asks for a new test of the one it changed.
  lemma EditResult(v: View, e: Edit, registry: Registry)
    requires EditSpec(v, e, registry).1.None?
    ensures
      var t := EditSpec(v, e, registry).0;
      var i := Find(v.pending.providers, e.id);
      && t.base == v.base && registry.valid(t.pending) && ShadowFree(t.pending, registry) && e.id !in t.tested
      && t.pending.devices == v.pending.devices
      && Find(t.pending.providers, e.id) == i < |t.pending.providers|
      && |t.pending.providers| == (if i < |v.pending.providers| then |v.pending.providers| else i + 1)
      && (forall k :: 0 <= k < |v.pending.providers| && k != i ==>
            t.pending.providers[k] == ProviderDefaults(v.pending.providers[k]))
  {
    var c := v.pending.(providers := Staged(v, e, registry).value.0);
    StagedShape(v, e, registry);
    DefaultsKeepPlaces(c, Find(v.pending.providers, e.id));
  }

  // A candidate secret is stored under the reference the provider then has, next to the other
  // candidates.
  lemma CandidateStaged(v: View, e: Edit, registry: Registry)
    requires EditSpec(v, e, registry).1.None? && e.candidate != ""
    ensures
      var t := EditSpec(v, e, registry).0;
      var ref := t.pending.providers[Find(v.pending.providers, e.id)].secretRef;
      ValidRef(ref) && t.overlay == v.overlay[ref := e.candidate]
  {
  }

  // Where the candidate of a provider that is on disk would replace the secret in use: the current
  // reference is not one into the keyring, or it was set by hand to the version before.
  lemma CandidateCollides(base: string, isNew: bool, rotate: bool, overlay: map<string, string>, ref: string)
    ensures
      CandidateRef(Some(base), isNew, rotate, overlay, ref) == base
      <==> if HasPrefix(ref, KEYRING) then ref != base && ref !in overlay && NextVersionedRef(ref) == base else ref == base
  {
    NextVersionedDiffers(ref);
  }

  // The reference that is staged for a provider; empty where there is none.
  function StagedRef(v: View, id: string): string {
    var i := Find(v.pending.providers, id);
    if i < |v.pending.providers| then v.pending.providers[i].secretRef else ""
  }

  lemma EditedIsStaged(v: View, e: Edit, registry: Registry)
    requires EditSpec(v, e, registry).1.None?
    ensures
      var t, i := EditSpec(v, e, registry).0, Find(v.pending.providers, e.id);
      var (ps, overlay) := Staged(v, e, registry).value;
      i < |ps| && StagedRef(t, e.id) == ps[i].secretRef && t.overlay == overlay
  {
    EditResult(v, e, registry);
    StagedShape(v, e, registry);
  }

  // What an edit that sets no reference by hand makes of the reference and of the overlay.
  lemma EditedRef(v: View, e: Edit, registry: Registry)
    requires EditSpec(v, e, registry).1.None? && e.secretRef.None?
    ensures
      var t := EditSpec(v, e, registry).0;
      var ref := StagedRef(t, e.id);
      if e.drop then ref == "" && t.overlay == WithoutOverlay(v.overlay, e.id)
      else if e.candidate == "" then ref == StagedRef(v, e.id) && t.overlay == v.overlay
      else t.overlay == v.overlay[ref := e.candidate]
  {
    EditedIsStaged(v, e, registry);
  }

  lemma EditedCandidate(v: View, e: Edit, registry: Registry)
    requires EditSpec(v, e, registry).1.None? && e.secretRef.None? && e.candidate != ""
    ensures
      var staged, isNew := StagedRef(v, e.id), Find(v.pending.providers, e.id) == |v.pending.providers|;
      var current := if staged == "" then GeneratedRef(e.id) else staged;
      StagedRef(EditSpec(v, e, registry).0, e.id) == CandidateRef(BaseRef(v.base, e.id), isNew, e.rotate, v.overlay, current)
  {
    EditedIsStaged(v, e, registry);
  }

  // Next to the other cases of a staged reference: one that was a candidate of this draft until the
  // overlay lost it, and whose next version is the one on disk.
  predicate LostCandidate(v: View, id: string, base: string) {
    var staged := StagedRef(v, id);
    staged != "" && HasPrefix(staged, KEYRING) && staged !in v.overlay && NextVersionedRef(staged) == base
  }

  // When the candidate takes the place of the secret in use: nothing is staged and the generated name
  // leads to the reference on disk, or that reference is not one into the keyring.
  predicate TakesBase(v: View, id: string, base: string) {
    var staged := StagedRef(v, id);
    if staged == "" then base == NextVersionedRef(GeneratedRef(id)) && GeneratedRef(id) !in v.overlay
    else staged == base && !HasPrefix(base, KEYRING)
  }

  // In any draft, for an edit that sets no reference by hand.
  lemma CandidateTakesBase(v: View, e: Edit, registry: Registry)
    requires EditSpec(v, e, registry).1.None? && e.secretRef.None? && e.candidate != "" && BaseRef(v.base, e.id).Some?
    ensures
      var base := BaseRef(v.base, e.id).value;
      StagedRef(EditSpec(v, e, registry).0, e.id) == base <==> TakesBase(v, e.id, base) || LostCandidate(v, e.id, base)
  {
    var staged := StagedRef(v, e.id);
    var current := if staged == "" then GeneratedRef(e.id) else staged;
    var base, isNew := BaseRef(v.base, e.id).value, Find(v.pending.providers, e.id) == |v.pending.providers|;
    EditedCandidate(v, e, registry);
    CandidateCollides(base, isNew, e.rotate, v.overlay, current);
    NextVersionedDiffers(current);
    assert HasPrefix(GeneratedRef(e.id), KEYRING);
  }

  // A name without a version marker gets version 2 next.
  lemma GeneratedNext(id: string)
    requires '@' !in id
    ensures NextVersionedRef(GeneratedRef(id)) == GeneratedRef(id) + "@2"
  {
    var ref, prefix := GeneratedRef(id), KEYRING + "provider-key:";
    assert forall k :: 0 <= k < |prefix| ==> prefix[k] != '@';
    assert forall k :: |prefix| <= k < |ref| ==> ref[k] == id[k - |prefix|];
    assert HasPrefix(ref, KEYRING);
    assert LastIndex(ref, '@') == -1;
  }

  // ----- tests and edits over a whole session -----

  datatype Action = Edits(edit: Edit) | Deletes(id: string) | Tests(id: string, outcome: TestOutcome)

  // passed: with what every successful test of the session was made.
  datatype Session = Session(view: View, passed: set<Fingerprint>)

  // A draft as it is opened.
  function Opened(base: Config): Session {
    Session(View(base, Defaults(base), map[], map[]), {})
  }

  function After(s: Session, a: Action, registry: Registry): Session {
    match a
    case Edits(e) => s.(view := EditSpec(s.view, e, registry).0)
    case Deletes(id) => s.(view := DeleteSpec(s.view, id, registry).0)
    case Tests(id, outcome) =>
      var i := Find(s.view.pending.providers, id);
      Session(TestSpec(s.view, id, outcome),
              if i < |s.view.pending.providers| && outcome.Passes? then s.passed + {FingerprintOf(s.view, i)} else s.passed)
  }

  function AfterAll(s: Session, actions: seq<Action>, registry: Registry): Session
    decreases |actions|
  {
    if actions == [] then s else AfterAll(After(s, actions[0], registry), actions[1..], registry)
  }

  ghost predicate Genuine(s: Session) {
    forall id <- s.view.tested :: s.view.tested[id] in s.passed
  }

  lemma ActionKeepsGenuine(s: Session, a: Action, registry: Registry)
    requires Genuine(s)
    ensures Genuine(After(s, a, registry))
  {
  }

  lemma {:induction false} SessionGenuine(s: Session, actions: seq<Action>, registry: Registry)
    requires Genuine(s)
    ensures Genuine(AfterAll(s, actions, registry))
    decreases |actions|
  {
    if actions != [] {
      ActionKeepsGenuine(s, actions[0], registry);
      SessionGenuine(After(s, actions[0], registry), actions[1..], registry);
    }
  }

  lemma {:induction false} IndexedIsTheOne(ps: seq<Provider>, id: string)
    requires UniqueIds(ps)
    ensures
      match Indexed(ps, id)
      case Some(p) => p in ps && p.id == id && forall q <- ps :: q.id == id ==> q == p
      case None => forall q <- ps :: q.id != id
  {
    if ps != [] {
      var front, last := ps[..|ps| - 1], ps[|ps| - 1];
      IndexedIsTheOne(front, id);
      forall q <- ps
        ensures q == last || (q in front && q.id != last.id)
      {
        var i :| 0 <= i < |ps| && ps[i] == q;
        if i < |front| {
          assert front[i] == q;
        }
      }
    }
  }

  // A test is required exactly for the enabled providers of which none is on disk with the same ID and
  // the same secret.
  lemma TestRequired(base: Config, p: Provider)
    requires UniqueIds(base.providers)
    ensures NeedsTest(base, p) <==> p.enabled != Some(false) && forall b <- base.providers :: b.id == p.id ==> b.secretRef != p.secretRef
  {
    IndexedIsTheOne(base.providers, p.id);
  }

  // When the required tests stand, every enabled provider that is new or has a new secret reference
  // has passed a test with exactly the settings and the candidate secret that will be applied,
  // whatever was edited, deleted and tested in between.
  lemma AppliedAsTested(base: Config, actions: seq<Action>, registry: Registry, p: Provider)
    requires
      var s := AfterAll(Opened(base), actions, registry);
      TestsStand(s.view) && p in s.view.pending.providers && NeedsTest(s.view.base, p)
    ensures
      var s := AfterAll(Opened(base), actions, registry);
      var i := Find(s.view.pending.providers, p.id);
      i < |s.view.pending.providers| && FingerprintOf(s.view, i) in s.passed
  {
    SessionGenuine(Opened(base), actions, registry);
    var v := AfterAll(Opened(base), actions, registry).view;
    assert TestStands(v, p);
  }

  // ----- candidates over a whole session -----

  ghost predicate UniqueIds(ps: seq<Provider>) {
    forall i, j :: 0 <= i < j < |ps| ==> ps[i].id != ps[j].id
  }

  // The reference staged for p is the one on disk, none, or a candidate of this draft, unless it
  // carries the name of another provider, with which its candidate may have gone.
  ghost predicate Tracked(v: View, p: Provider) {
    var base := BaseRef(v.base, p.id);
    || base.None? || p.secretRef in {"", base.value} || p.secretRef in v.overlay
    || exists other :: other != p.id && BelongsTo(p.secretRef, other)
  }

  ghost predicate AllTracked(v: View) {
    UniqueIds(v.pending.providers) && forall i :: 0 <= i < |v.pending.providers| ==> Tracked(v, v.pending.providers[i])
  }

  predicate HandFree(a: Action) {
    a.Edits? ==> a.edit.secretRef.None?
  }

  lemma OpenedTracked(base: Config)
    requires UniqueIds(base.providers)
    ensures AllTracked(Opened(base).view)
  {
    var ps := Defaults(base).providers;
    forall i | 0 <= i < |ps|
      ensures BaseRef(base, ps[i].id) == Some(ps[i].secretRef)
    {
      assert ps[i].id == base.providers[i].id;
      assert Find(base.providers, ps[i].id) == i;
    }
  }

  // Losing the overlay entries of one provider is told apart by their name.
  lemma TrackedWithout(v: View, t: View, p: Provider, q: Provider, id: string)
    requires Tracked(v, p) && p.id != id && q.id == p.id && q.secretRef == p.secretRef
    requires t.base == v.base && t.overlay == WithoutOverlay(v.overlay, id)
    ensures Tracked(t, q)
  {
    if p.secretRef in v.overlay && p.secretRef !in t.overlay {
      assert BelongsTo(p.secretRef, id);
    }
  }

  // t is what an edit without a reference set by hand made of v.
  ghost predicate EditedTo(v: View, e: Edit, t: View) {
    var ps, qs, i := v.pending.providers, t.pending.providers, Find(v.pending.providers, e.id);
    && t.base == v.base && i < |qs| == (if i < |ps| then |ps| else i + 1) && qs[i].id == e.id
    && (forall k :: 0 <= k < |ps| && k != i ==> qs[k].id == ps[k].id && qs[k].secretRef == ps[k].secretRef)
    && if e.drop then qs[i].secretRef == "" && t.overlay == WithoutOverlay(v.overlay, e.id)
       else if e.candidate == "" then qs[i].secretRef == StagedRef(v, e.id) && t.overlay == v.overlay
       else t.overlay == v.overlay[qs[i].secretRef := e.candidate]
  }

  // The overlay only grows, but for a dropped secret.
  lemma OthersTracked(v: View, e: Edit, t: View, p: Provider, q: Provider)
    requires Tracked(v, p) && p.id != e.id && q.id == p.id && q.secretRef == p.secretRef && t.base == v.base
    requires t.overlay == WithoutOverlay(v.overlay, e.id) || v.overlay.Keys <= t.overlay.Keys
    ensures Tracked(t, q)
  {
    if t.overlay == WithoutOverlay(v.overlay, e.id) {
      TrackedWithout(v, t, p, q, e.id);
    }
  }

  lemma EditedTracked(v: View, e: Edit, t: View, i: nat)
    requires AllTracked(v) && EditedTo(v, e, t) && i == Find(v.pending.providers, e.id)
    ensures Tracked(t, t.pending.providers[i])
  {
    if i < |v.pending.providers| {
      assert Tracked(v, v.pending.providers[i]);
    }
  }

  lemma EditTo(v: View, e: Edit, registry: Registry)
    requires e.secretRef.None? && EditSpec(v, e, registry).1.None?
    ensures EditedTo(v, e, EditSpec(v, e, registry).0)
  {
    var t, i := EditSpec(v, e, registry).0, Find(v.pending.providers, e.id);
    EditResult(v, e, registry);
    EditedRef(v, e, registry);
    forall k | 0 <= k < |v.pending.providers| && k != i
      ensures t.pending.providers[k].id == v.pending.providers[k].id
      ensures t.pending.providers[k].secretRef == v.pending.providers[k].secretRef
    {
      assert t.pending.providers[k] == ProviderDefaults(v.pending.providers[k]);
    }
  }

  lemma EditKeepsTracked(v: View, e: Edit, t: View)
    requires AllTracked(v) && EditedTo(v, e, t)
    ensures AllTracked(t)
  {
    var ps, qs, i := v.pending.providers, t.pending.providers, Find(v.pending.providers, e.id);
    forall k | 0 <= k < |qs|
      ensures Tracked(t, qs[k]) && (k != i ==> k < |ps| && qs[k].id == ps[k].id)
    {
      if k != i {
        OthersTracked(v, e, t, ps[k], qs[k]);
      } else {
        EditedTracked(v, e, t, i);
      }
    }
  }

  lemma DeleteKeepsTracked(v: View, id: string, registry: Registry)
    requires AllTracked(v)
    ensures AllTracked(DeleteSpec(v, id, registry).0)
  {
    var t := DeleteSpec(v, id, registry).0;
    var ps, qs, i := v.pending.providers, t.pending.providers, Find(v.pending.providers, id);
    if i < |ps| {
      forall k | 0 <= k < |qs|
        ensures Tracked(t, qs[k])
      {
        var j := if k < i then k else k + 1;
        assert qs[k] == ps[j] && Tracked(v, ps[j]);
        TrackedWithout(v, t, ps[j], qs[k], id);
      }
    }
  }

  lemma {:induction false} SessionTracked(s: Session, actions: seq<Action>, registry: Registry)
    requires AllTracked(s.view) && forall a <- actions :: HandFree(a)
    ensures AllTracked(AfterAll(s, actions, registry).view) && AfterAll(s, actions, registry).view.base == s.view.base
    decreases |actions|
  {
    if actions != [] {
      assert actions[0] in actions;
      match actions[0] {
        case Edits(e) =>
          if EditSpec(s.view, e, registry).1.None? {
            EditTo(s.view, e, registry);
            EditKeepsTracked(s.view, e, EditSpec(s.view, e, registry).0);
          }
        case Deletes(id) => DeleteKeepsTracked(s.view, id, registry);
        case Tests(id, outcome) =>
          forall i | 0 <= i < |s.view.pending.providers|
            ensures Tracked(TestSpec(s.view, id, outcome), s.view.pending.providers[i])
          {
            assert Tracked(s.view, s.view.pending.providers[i]);
          }
      }
      SessionTracked(After(s, actions[0], registry), actions[1..], registry);
    }
  }

  // Over every session in which no reference is set by hand: the candidate takes the place of the
  // secret in use exactly if nothing is staged for the provider, as after a deletion or a drop, and
  // the generated name leads to the reference on disk, or that reference is not one into the keyring.
  // This is for a staged reference that does not carry the name of another provider.
  lemma SessionTakesBase(base: Config, actions: seq<Action>, registry: Registry, e: Edit)
    requires UniqueIds(base.providers) && forall a <- actions :: HandFree(a)
    requires e.secretRef.None? && e.candidate != "" && BaseRef(base, e.id).Some?
    requires
      var v := AfterAll(Opened(base), actions, registry).view;
      && EditSpec(v, e, registry).1.None?
      && forall other :: BelongsTo(StagedRef(v, e.id), other) ==> other == e.id
    ensures
      var v := AfterAll(Opened(base), actions, registry).view;
      var t, ref := EditSpec(v, e, registry).0, BaseRef(base, e.id).value;
      && (StagedRef(t, e.id) == ref <==> TakesBase(v, e.id, ref))
      && t.overlay == v.overlay[StagedRef(t, e.id) := e.candidate]
  {
    var v := AfterAll(Opened(base), actions, registry).view;
    var ref := BaseRef(base, e.id).value;
    OpenedTracked(base);
    SessionTracked(Opened(base), actions, registry);
    EditedRef(v, e, registry);
    CandidateTakesBase(v, e, registry);
    if LostCandidate(v, e.id, ref) {
      var i := Find(v.pending.providers, e.id);
      assert Tracked(v, v.pending.providers[i]);
      NextVersionedDiffers(StagedRef(v, e.id));
    }
  }

  // So the secret in use is spared as long as a reference into the keyring is staged.
  lemma CandidateSparesSecret(base: Config, actions: seq<Action>, registry: Registry, e: Edit)
    requires UniqueIds(base.providers) && forall a <- actions :: HandFree(a)
    requires e.secretRef.None? && e.candidate != "" && BaseRef(base, e.id).Some?
    requires
      var v := AfterAll(Opened(base), actions, registry).view;
      var staged := StagedRef(v, e.id);
      && EditSpec(v, e, registry).1.None? && staged != "" && HasPrefix(staged, KEYRING)
      && forall other :: BelongsTo(staged, other) ==> other == e.id
    ensures
      var v := AfterAll(Opened(base), actions, registry).view;
      StagedRef(EditSpec(v, e, registry).0, e.id) != BaseRef(base, e.id).value
  {
    SessionTakesBase(base, actions, registry, e);
  }

  // The candidate of a provider that is not staged gets version 2 of the generated name.
  lemma FreshSecret(v: View, p: Provider, e: Edit, registry: Registry)
    requires '@' !in e.id && v.overlay == map[] && p.id == e.id && p.secretRef == "" && BaseRef(v.base, e.id).Some?
    requires !e.drop && e.candidate != "" && !TooLong(p.kind, e.candidate, registry) && ValidRef(GeneratedRef(e.id) + "@2")
    ensures
      var ref := GeneratedRef(e.id) + "@2";
      SecretPart(v, p, true, e, registry) == Success((ref, map[ref := e.candidate]))
  {
    GeneratedNext(e.id);
    assert map[][GeneratedRef(e.id) + "@2" := e.candidate] == map[GeneratedRef(e.id) + "@2" := e.candidate];
  }

  lemma {:induction false} NothingShadowed(ps: seq<Provider>, registry: Registry)
    requires forall q :: registry.metricIds(q) == Some([])
    ensures Emitted(ps, registry) == Some([]) && ShadowError(ps, registry).None?
  {
    if ps != [] {
      NothingShadowed(ps[..|ps| - 1], registry);
      var none: seq<string> := [];
      assert none + none == none;
    }
  }

  // An edit that adds a provider which is on disk but not staged.
  ghost predicate Adds(e: Edit, registry: Registry) {
    && e.newType in registry.types && e.newType != "" && !e.drop && e.secretRef.None? && e.region.None?
    && 0 < |e.candidate| <= registry.types[e.newType].secretMax
    && '@' !in e.id && ValidRef(GeneratedRef(e.id) + "@2")
    && (forall c :: registry.valid(c)) && (forall q :: registry.metricIds(q) == Some([]))
  }

  lemma Added(v: View, e: Edit, registry: Registry)
    requires Adds(e, registry) && v.pending.providers == [] && v.overlay == map[] && BaseRef(v.base, e.id).Some?
    ensures
      var (t, error) := EditSpec(v, e, registry);
      var ref := GeneratedRef(e.id) + "@2";
      error.None? && t.base == v.base && t.overlay == map[ref := e.candidate] && StagedRef(t, e.id) == ref
  {
    var p, ref := WithFields(EmptyProvider(e.id, e.newType), e), GeneratedRef(e.id) + "@2";
    FreshSecret(v, p, e, registry);
    assert ([] + [EmptyProvider(e.id, e.newType)])[0 := p.(secretRef := ref)] == [p.(secretRef := ref)];
    assert Staged(v, e, registry) == Success(([p.(secretRef := ref)], map[ref := e.candidate]));
    NothingShadowed(Defaults(v.pending.(providers := [p.(secretRef := ref)])).providers, registry);
  }

  // A provider whose secret was rotated once is deleted and added again with a new secret in one
  // draft: the candidate gets the reference of the secret in use.
  lemma DeletedAndAddedAgain(p: Provider, e: Edit, registry: Registry)
    requires Adds(e, registry) && e.id == p.id && p.secretRef == GeneratedRef(p.id) + "@2"
    ensures
      var v := AfterAll(Opened(Config([p], [])), [Deletes(p.id), Edits(e)], registry).view;
      v.base == Config([p], []) && v.overlay == map[p.secretRef := e.candidate] && StagedRef(v, p.id) == p.secretRef
  {
    var gone := DeleteSpec(Opened(Config([p], [])).view, p.id, registry).0;
    OnlyDeleted(p, registry);
    Added(gone, e, registry);
    TwoActions(Opened(Config([p], [])), Deletes(p.id), Edits(e), registry);
  }

  lemma OnlyDeleted(p: Provider, registry: Registry)
    ensures
      var v := DeleteSpec(Opened(Config([p], [])).view, p.id, registry).0;
      && v.pending.providers == [] && v.overlay == map[] && v.base == Config([p], [])
      && BaseRef(v.base, p.id) == Some(p.secretRef)
  {
    var ps := Opened(Config([p], [])).view.pending.providers;
    assert ps[..0] + ps[1..] == [];
    assert Find([p], p.id) == 0;
  }

  lemma TwoActions(s: Session, a: Action, b: Action, registry: Registry)
    ensures AfterAll(s, [a, b], registry) == After(After(s, a, registry), b, registry)
  {
    assert [a, b][1..] == [b] && [b][1..] == [];
    assert AfterAll(After(s, a, registry), [b], registry) == AfterAll(After(After(s, a, registry), b, registry), [], registry);
  }
}
