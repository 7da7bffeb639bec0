/**
 What an accepted edit, a deletion and a test leave in the draft, said without the functions that
 compute it (internal/configtx/draft.go:145-284, 286-370, internal/configtx/overlay.go:106-146).
 */
module DraftOutcomes {
  import opened Wrappers
  import opened Text
  import opened ConfigTx
  import opened Drafts

  // A field of the edit that is set is taken over, and any other stays.
  predicate Chosen<T(==)>(given: Option<T>, before: T, after: T) {
    if given.Some? then after == given.value else after == before
  }

  // The same, and an empty field gets a default.
  ghost predicate ChosenOr(given: Option<string>, before: string, preset: string, after: string) {
    exists chosen :: Chosen(given, before, chosen) && after == if chosen == "" then preset else chosen
  }

  ghost predicate EditedSettings(e: Edit, before: Settings, after: Settings) {
    && Chosen(e.accountLabel, before.accountLabel, after.accountLabel)
    && ChosenOr(e.region, before.region, "global", after.region)
    && Chosen(e.baseUrl, before.baseUrl, after.baseUrl)
    && ChosenOr(e.interval, before.interval, "60s", after.interval)
    && ChosenOr(e.staleAfter, before.staleAfter, "5m", after.staleAfter)
    && Chosen(e.authFile, before.authFile, after.authFile)
    && Chosen(e.mockFixture, before.mockFixture, after.mockFixture)
    && Chosen(e.options, before.options, after.options)
  }

  // The provider before the edit: the staged one, or one with the ID and the type of the edit alone.
  function Before(v: View, e: Edit): Provider {
    var i := Find(v.pending.providers, e.id);
    if i < |v.pending.providers| then v.pending.providers[i]
    else Provider(e.id, e.newType, None, "", Settings("", "", "", "", "", "", "", map[]))
  }

  // An accepted edit sets just the fields that it gives; a type is given to a new provider only.
  lemma EditSetsFields(v: View, e: Edit, registry: Registry)
    requires EditSpec(v, e, registry).1.None?
    ensures
      var ps, i := EditSpec(v, e, registry).0.pending.providers, Find(v.pending.providers, e.id);
      var p := Before(v, e);
      && i < |ps| && ps[i].id == e.id
      && ps[i].kind == (if e.newType != "" then e.newType else p.kind) && (e.newType != "" ==> p.kind in {"", e.newType})
      && ps[i].enabled == (if e.enabled.Some? then e.enabled else if p.enabled.Some? then p.enabled else Some(true))
      && EditedSettings(e, p.settings, ps[i].settings)
  {
    EditResult(v, e, registry);
    StagedShape(v, e, registry);
    var (ps, overlay) := Staged(v, e, registry).value;
    var i := Find(v.pending.providers, e.id);
    var q := ps[i].settings;
    FieldsChosen(Before(v, e), e);
    assert ps[i].settings == WithFields(Before(v, e), e).settings;
    DefaultsChosen(e, Before(v, e).settings, q, ProviderDefaults(ps[i]).settings);
  }

  predicate PlainlyChosen(e: Edit, before: Settings, after: Settings) {
    && Chosen(e.accountLabel, before.accountLabel, after.accountLabel) && Chosen(e.region, before.region, after.region)
    && Chosen(e.baseUrl, before.baseUrl, after.baseUrl) && Chosen(e.interval, before.interval, after.interval)
    && Chosen(e.staleAfter, before.staleAfter, after.staleAfter) && Chosen(e.authFile, before.authFile, after.authFile)
    && Chosen(e.mockFixture, before.mockFixture, after.mockFixture) && Chosen(e.options, before.options, after.options)
  }

  lemma FieldsChosen(p: Provider, e: Edit)
    ensures PlainlyChosen(e, p.settings, WithFields(p, e).settings)
  {
  }

  lemma DefaultsChosen(e: Edit, before: Settings, staged: Settings, after: Settings)
    requires PlainlyChosen(e, before, staged)
    requires after == staged.(region := if staged.region == "" then "global" else staged.region,
                              interval := if staged.interval == "" then "60s" else staged.interval,
                              staleAfter := if staged.staleAfter == "" then "5m" else staged.staleAfter)
    ensures EditedSettings(e, before, after)
  {
    assert Chosen(e.region, before.region, staged.region);
    assert Chosen(e.interval, before.interval, staged.interval);
    assert Chosen(e.staleAfter, before.staleAfter, staged.staleAfter);
  }

  // What the registry and the exclusions of the secret fields allow.
  lemma EditRespectsRegistry(v: View, e: Edit, registry: Registry)
    requires EditSpec(v, e, registry).1.None?
    ensures e.newType != "" ==> e.newType in registry.types
    ensures Find(v.pending.providers, e.id) == |v.pending.providers| ==> e.newType != ""
    ensures e.drop ==> !e.rotate && e.candidate == ""
    ensures
      var kind := if e.newType != "" then e.newType else Before(v, e).kind;
      kind in registry.types ==>
        var m := registry.types[kind];
        && |e.candidate| <= m.secretMax
        && (e.region.Some? && e.region.value != "" ==> e.region.value in (if m.regions == {} then {m.defaultRegion} else m.regions))
  {
  }

  // A deletion takes out the provider, its candidates and its test, and nothing else.
  lemma DeleteAnswer(v: View, id: string, registry: Registry)
    ensures
      var (t, error) := DeleteSpec(v, id, registry);
      var ps, ps' := v.pending.providers, t.pending.providers;
      if forall p <- ps :: p.id != id then t == v && error == Some(InvalidDraft)
      else
        && t.base == v.base && t.pending.devices == v.pending.devices
        && (exists i :: 0 <= i < |ps| && ps[i].id == id && (forall k :: 0 <= k < i ==> ps[k].id != id) && ps' == ps[..i] + ps[i + 1..])
        && t.tested == v.tested - {id} && (error.None? <==> registry.valid(t.pending))
        && (forall ref <- t.overlay :: ref in v.overlay && t.overlay[ref] == v.overlay[ref])
        && (forall ref <- v.overlay :: ref in t.overlay || BelongsTo(ref, id))
  {
    var ps := v.pending.providers;
    var i := Find(ps, id);
    if i < |ps| {
      assert ps[i] in ps;
    }
  }

  // The references that a draft generates for a provider are its own, with a version or without, and no
  // other provider's.
  lemma GeneratedBelongs(id: string, other: string, version: string)
    requires id != "" && '@' !in id
    ensures BelongsTo(GeneratedRef(id), other) <==> other == id
    ensures BelongsTo(GeneratedRef(id) + "@" + version, other) <==> other == id
  {
    var prefix := KEYRING + "provider-key:";
    var plain, versioned := GeneratedRef(id), GeneratedRef(id) + "@" + version;
    assert plain[|prefix|..] == id;
    assert versioned[|prefix|..] == id + "@" + version;
    CutMissing(id, '@');
    CutAtFirst(id, version, '@');
    assert id + ['@'] + version == id + "@" + version;
  }

  // A dropped or deleted provider leaves none of its generated candidates behind.
  lemma CandidatesGone(overlay: map<string, string>, id: string, version: string)
    requires id != "" && '@' !in id
    ensures GeneratedRef(id) !in WithoutOverlay(overlay, id) && GeneratedRef(id) + "@" + version !in WithoutOverlay(overlay, id)
    ensures forall other :: other != "" && '@' !in other && other != id ==>
              (GeneratedRef(other) in WithoutOverlay(overlay, id) <==> GeneratedRef(other) in overlay)
  {
    GeneratedBelongs(id, id, version);
    forall other | other != "" && '@' !in other && other != id
      ensures !BelongsTo(GeneratedRef(other), id)
    {
      GeneratedBelongs(other, id, version);
    }
  }

  // ----- versions of a secret -----

  function Version(name: string, n: int): string {
    name + "@" + FormatInt(n)
  }

  lemma AfterLastMark(name: string, rest: string)
    requires '@' !in rest
    ensures
      var ref := name + "@" + rest;
      LastIndex(ref, '@') == |name| && ref[..|name| + 1] == name + "@" && ref[|name| + 1..] == rest
  {
    var ref := name + "@" + rest;
    assert ref[|name|] == '@';
    forall k | |name| < k < |ref|
      ensures ref[k] != '@'
    {
      assert ref[k] == rest[k - |name| - 1];
    }
  }

  lemma LongerHasPrefix(name: string, more: string)
    requires HasPrefix(name, KEYRING)
    ensures HasPrefix(name + more, KEYRING)
  {
    PrefixStays(KEYRING, name, |name|, more);
    assert name[..|name|] == name;
  }

  lemma NextNumber(name: string, n: int)
    requires HasPrefix(name, KEYRING) && 0 <= n < INT64_MAX
    ensures NextVersionedRef(Version(name, n)) == Version(name, n + 1)
  {
    assert Version(name, n) == name + ("@" + FormatInt(n));
    LongerHasPrefix(name, "@" + FormatInt(n));
    AfterLastMark(name, FormatInt(n));
    ScanFormatted(n);
  }

  // A version that is no number counts as the first.
  lemma NoNumber(name: string, rest: string)
    requires HasPrefix(name, KEYRING) && '@' !in rest
    requires rest == "" || !(IsDigit(rest[0]) || rest[0] in {'+', '-'})
    ensures NextVersionedRef(name + "@" + rest) == Version(name, 2)
  {
    assert name + "@" + rest == name + ("@" + rest);
    LongerHasPrefix(name, "@" + rest);
    AfterLastMark(name, rest);
    assert FormatNat(2) == "2" && Version(name, 2) == name + "@" + "2";
  }

  lemma FirstNumbers(name: string)
    requires HasPrefix(name, KEYRING) && '@' !in name
    ensures FirstVersionedRef(name) == Version(name, 1) && NextVersionedRef(name) == Version(name, 2)
  {
    assert LastIndex(name, '@') == -1;
    assert FormatNat(1) == "1" && FormatNat(2) == "2";
    assert Version(name, 1) == name + "@1" && Version(name, 2) == name + "@2";
  }

  // The version after n is n + 1, and a name without one gets the first or, as that of a secret which is
  // there already, the second.
  lemma VersionsCount(name: string, n: int)
    requires HasPrefix(name, KEYRING) && 0 <= n < INT64_MAX
    ensures NextVersionedRef(Version(name, n)) == Version(name, n + 1)
    ensures '@' !in name ==> FirstVersionedRef(name) == Version(name, 1) && NextVersionedRef(name) == Version(name, 2)
  {
    NextNumber(name, n);
    if '@' !in name {
      FirstNumbers(name);
    }
  }

  lemma ChosenVersion(base: Option<string>, added: bool, e: Edit, overlay: map<string, string>, staged: string, name: string, n: int)
    requires HasPrefix(name, KEYRING) && 0 <= n < INT64_MAX && (added ==> staged == "")
    ensures
      var after := CandidateRef(base, added, e.rotate, overlay, if staged == "" then GeneratedRef(e.id) else staged);
      && (base.None? && added && '@' !in e.id ==> after == Version(GeneratedRef(e.id), 1))
      && (base == Some(Version(name, n)) && staged == base.value ==> after == Version(name, n + 1))
      && (base.Some? && staged != "" && staged != base.value && staged in overlay ==> after == staged)
      && (base.None? && !added && staged == Version(name, n) ==> after == if e.rotate then Version(name, n + 1) else staged)
  {
    VersionsCount(name, n);
    assert |Version(name, n)| > 0;
    if '@' !in e.id {
      GeneratedIsPlain(e.id);
      VersionsCount(GeneratedRef(e.id), 0);
    }
  }

  lemma GeneratedIsPlain(id: string)
    requires '@' !in id
    ensures '@' !in GeneratedRef(id) && HasPrefix(GeneratedRef(id), KEYRING)
  {
    var ref, prefix := GeneratedRef(id), KEYRING + "provider-key:";
    assert forall k :: 0 <= k < |prefix| ==> prefix[k] != '@';
    assert forall k :: |prefix| <= k < |ref| ==> ref[k] == id[k - |prefix|];
  }

  // Which reference a candidate secret gets, when none is set by hand: the first version for a new
  // provider, the next one after that on disk, and within a draft the one of the candidate that it
  // replaces, or the next one if the edit asks for that and nothing is on disk.
  lemma CandidateVersion(v: View, e: Edit, registry: Registry, name: string, n: int)
    requires EditSpec(v, e, registry).1.None? && e.secretRef.None? && e.candidate != ""
    requires HasPrefix(name, KEYRING) && 0 <= n < INT64_MAX
    ensures
      var base, staged := BaseRef(v.base, e.id), StagedRef(v, e.id);
      var added := Find(v.pending.providers, e.id) == |v.pending.providers|;
      var after := StagedRef(EditSpec(v, e, registry).0, e.id);
      && (base.None? && added && '@' !in e.id ==> after == Version(GeneratedRef(e.id), 1))
      && (base == Some(Version(name, n)) && staged == base.value ==> after == Version(name, n + 1))
      && (base.Some? && staged != "" && staged != base.value && staged in v.overlay ==> after == staged)
      && (base.None? && !added && staged == Version(name, n) ==> after == if e.rotate then Version(name, n + 1) else staged)
  {
    EditedCandidate(v, e, registry);
    ChosenVersion(BaseRef(v.base, e.id), Find(v.pending.providers, e.id) == |v.pending.providers|, e, v.overlay,
                  StagedRef(v, e.id), name, n);
  }

  // ----- shadowed metrics -----

  // Providers whose metrics are looked at: those that run and whose type is known.
  predicate LookedAt(p: Provider, registry: Registry) {
    p.enabled != Some(false) && p.kind in registry.types
  }

  predicate Shadows(p: Provider, q: Provider, registry: Registry) {
    LookedAt(p, registry) && LookedAt(q, registry)
    && match (registry.metricIds(p), registry.metricIds(q))
       case (Some(a), Some(b)) => exists id <- a :: id in b
       case _ => false
  }

  ghost predicate NoShadows(ps: seq<Provider>, registry: Registry) {
    && (forall p <- ps :: LookedAt(p, registry) ==> registry.metricIds(p).Some? && Distinct(registry.metricIds(p).value))
    && forall i, j :: 0 <= i < j < |ps| ==> !Shadows(ps[i], ps[j], registry)
  }

  lemma DistinctConcat(a: seq<string>, b: seq<string>)
    ensures Distinct(a + b) <==> Distinct(a) && Distinct(b) && forall id <- a :: id !in b
  {
    var c := a + b;
    if Distinct(c) {
      DistinctPrefix(a, b);
      forall i, j | 0 <= i < j < |b|
        ensures b[i] != b[j]
      {
        assert c[|a| + i] != c[|a| + j];
      }
      forall i, j | 0 <= i < |a| && 0 <= j < |b|
        ensures a[i] != b[j]
      {
        assert c[i] != c[|a| + j];
      }
    }
    if Distinct(a) && Distinct(b) && forall id <- a :: id !in b {
      forall i, j | 0 <= i < j < |c|
        ensures c[i] != c[j]
      {
        if i < |a| <= j {
          assert a[i] in a && b[j - |a|] in b;
        }
      }
    }
  }

  lemma {:induction false} EmittedFrom(ps: seq<Provider>, registry: Registry, id: string)
    requires Emitted(ps, registry).Some?
    ensures id in Emitted(ps, registry).value
            <==> exists p <- ps :: LookedAt(p, registry) && registry.metricIds(p).Some? && id in registry.metricIds(p).value
  {
    if ps != [] {
      var front, last := ps[..|ps| - 1], ps[|ps| - 1];
      EmittedFrom(front, registry, id);
      assert ps == front + [last];
    }
  }

  // The last provider fits in with the others.
  ghost predicate AddsNoShadow(front: seq<Provider>, last: Provider, registry: Registry) {
    && (LookedAt(last, registry) ==> registry.metricIds(last).Some? && Distinct(registry.metricIds(last).value))
    && forall i :: 0 <= i < |front| ==> !Shadows(front[i], last, registry)
  }

  lemma NoShadowsAppend(front: seq<Provider>, last: Provider, registry: Registry)
    ensures NoShadows(front + [last], registry) <==> NoShadows(front, registry) && AddsNoShadow(front, last, registry)
  {
    var ps := front + [last];
    assert forall i :: 0 <= i < |front| ==> ps[i] == front[i];
    if NoShadows(ps, registry) {
      assert forall p <- front :: p in ps;
      assert last in ps && ps[|front|] == last;
    }
  }

  lemma EmittedElsewhere(front: seq<Provider>, ids: seq<string>, registry: Registry)
    requires Emitted(front, registry).Some?
    ensures (forall id <- Emitted(front, registry).value :: id !in ids)
            <==> forall p <- front :: LookedAt(p, registry) && registry.metricIds(p).Some? ==>
                   forall id <- registry.metricIds(p).value :: id !in ids
  {
    forall id: string
      ensures id in Emitted(front, registry).value
              <==> exists p <- front :: LookedAt(p, registry) && registry.metricIds(p).Some? && id in registry.metricIds(p).value
    {
      EmittedFrom(front, registry, id);
    }
  }

  lemma LastShadows(front: seq<Provider>, last: Provider, registry: Registry)
    requires ShadowError(front, registry).None?
    ensures ShadowError(front + [last], registry).None? <==> AddsNoShadow(front, last, registry)
  {
    var ps := front + [last];
    assert ps[..|ps| - 1] == front && ps[|ps| - 1] == last;
    if EmittedBy(last, registry).Some? {
      var ids := EmittedBy(last, registry).value;
      DistinctConcat(Emitted(front, registry).value, ids);
      EmittedElsewhere(front, ids, registry);
      if LookedAt(last, registry) {
        assert forall i :: 0 <= i < |front| ==> front[i] in front;
      }
    }
  }

  // The check passes if and only if the metrics of every such provider can be told, without repeats, and
  // no two of them share one.
  lemma {:induction false} ShadowsAre(ps: seq<Provider>, registry: Registry)
    ensures ShadowError(ps, registry).None? <==> NoShadows(ps, registry)
  {
    if ps != [] {
      var front, last := ps[..|ps| - 1], ps[|ps| - 1];
      assert ps == front + [last];
      ShadowsAre(front, registry);
      NoShadowsAppend(front, last, registry);
      if ShadowError(front, registry).None? {
        LastShadows(front, last, registry);
      }
    }
  }

  // ----- tests -----

  // A passed test is remembered with the provider and its candidate, a failed one is forgotten with the
  // one before it, and the tests of other providers stay.
  lemma TestAnswer(v: View, id: string, outcome: TestOutcome)
    ensures
      var t, ps := TestSpec(v, id, outcome), v.pending.providers;
      && (t.base, t.pending, t.overlay) == (v.base, v.pending, v.overlay)
      && (forall other :: other != id ==> (other in t.tested <==> other in v.tested)
                                          && (other in v.tested ==> t.tested[other] == v.tested[other]))
      && (outcome == NotStarted || (forall p <- ps :: p.id != id) ==> t == v)
      && (outcome == Fails && (exists p <- ps :: p.id == id) ==> id !in t.tested)
      && (outcome == Passes && (exists p <- ps :: p.id == id) ==>
            id in t.tested && t.tested[id].provider in ps && t.tested[id].provider.id == id
            && t.tested[id].candidate == var ref := t.tested[id].provider.secretRef;
                                         if ref in v.overlay then Some(v.overlay[ref]) else None)
  {
    var i := Find(v.pending.providers, id);
    if i < |v.pending.providers| {
      assert v.pending.providers[i] in v.pending.providers;
    }
  }
}
