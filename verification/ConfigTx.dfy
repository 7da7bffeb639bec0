/**
 The configuration transaction (internal/configtx/apply.go, internal/configtx/configtx.go): the
 draft's secrets go into the store, its configuration replaces the file, the service restarts and is
 checked, and what is no longer used is pruned; or all of it is undone. Every external call may fail,
 a failing write may or may not have taken effect, and maps are visited in any order.
 */
module ConfigTx {
  import opened Wrappers
  import opened MapLoops

  // ----- configurations and their file -----

  datatype Settings = Settings(
    accountLabel: string, region: string, baseUrl: string, interval: string, staleAfter: string,
    authFile: string, mockFixture: string, options: map<string, string>)

  datatype Provider = Provider(id: string, kind: string, enabled: Option<bool>, secretRef: string, settings: Settings)

  datatype Device = Device(id: string, tokenRef: string)

  datatype Config = Config(providers: seq<Provider>, devices: seq<Device>)

  // The bytes of the file: what Save writes for a configuration, or any other text.
  datatype Body = Encoded(config: Config) | Raw(text: string)

  datatype Disk = Missing | File(body: Body)

  const EMPTY_CONFIG := Config([], [])

  // ApplyDefaults, as far as providers go.
  function ProviderDefaults(p: Provider): Provider {
    var s := p.settings;
    p.(enabled := if p.enabled.None? then Some(true) else p.enabled,
       settings := s.(region := if s.region == "" then "global" else s.region,
                      interval := if s.interval == "" then "60s" else s.interval,
                      staleAfter := if s.staleAfter == "" then "5m" else s.staleAfter))
  }

  function Defaults(c: Config): Config {
    c.(providers := seq(|c.providers|, i requires 0 <= i < |c.providers| => ProviderDefaults(c.providers[i])))
  }

  // The text that stands for a missing file in a revision.
  const NO_FILE := Raw("<missing>")

  // The digest is taken to be injective, so a revision is as good as the bytes it is made of.
  function Revision(d: Disk): Body {
    if d.Missing? then NO_FILE else d.body
  }

  function ProviderRefs(ps: seq<Provider>): set<string> {
    set p <- ps | p.secretRef != "" :: p.secretRef
  }

  function DeviceRefs(ds: seq<Device>): set<string> {
    set d <- ds | d.tokenRef != "" :: d.tokenRef
  }

  function Refs(c: Config): set<string> {
    ProviderRefs(c.providers) + DeviceRefs(c.devices)
  }

  method CollectRefs(c: Config) returns (refs: set<string>)
    ensures refs == Refs(c)
  {
    refs := {};
    for i := 0 to |c.providers|
      invariant refs == ProviderRefs(c.providers[..i])
    {
      assert c.providers[..i + 1] == c.providers[..i] + [c.providers[i]];
      if c.providers[i].secretRef != "" {
        refs := refs + {c.providers[i].secretRef};
      }
    }
    assert c.providers[..|c.providers|] == c.providers;
    for i := 0 to |c.devices|
      invariant refs == ProviderRefs(c.providers) + DeviceRefs(c.devices[..i])
    {
      assert c.devices[..i + 1] == c.devices[..i] + [c.devices[i]];
      if c.devices[i].tokenRef != "" {
        refs := refs + {c.devices[i].tokenRef};
      }
    }
    assert c.devices[..|c.devices|] == c.devices;
  }

  // What a reader makes of the file: a missing one is an empty configuration.
  function Load(d: Disk, parse: string -> Option<Config>): Option<Config> {
    match d
    case Missing => Some(EMPTY_CONFIG)
    case File(Encoded(c)) => Some(c)
    case File(Raw(text)) => parse(text)
  }

  // The compare in the compare-and-swap tells all files apart, but for a missing one and the one
  // that spells out its stand-in.
  lemma RevisionIdentifies(a: Disk, b: Disk)
    ensures Revision(a) == Revision(b) <==> a == b || (a in {Missing, File(NO_FILE)} && b in {Missing, File(NO_FILE)})
  {
  }

  // A provider or a device names the secret.
  ghost predicate Uses(c: Config, ref: string) {
    && ref != ""
    && ((exists p <- c.providers :: p.secretRef == ref) || (exists d <- c.devices :: d.tokenRef == ref))
  }

  lemma RefsAreUses(c: Config, ref: string)
    ensures ref in Refs(c) <==> Uses(c, ref)
  {
  }

  // ----- what may go wrong -----

  datatype Write = Done | Refused | DoneButFailed

  datatype Lookup = Answers | Breaks

  // A restart that fails may leave the old process running, the new one, or none.
  datatype Restart = Up | Unmoved | UpButFailed | Halted

  datatype Faults = Faults(
    firstRead: bool, previousRead: bool, openStore: bool,
    lookup: string -> Lookup, store: string -> Write, save: bool,
    restart: Option<Restart>, health: Option<bool>,
    restore: Write, restartBack: Restart, remove: string -> Write, finalRead: bool)

  ghost predicate NoFaults(f: Faults) {
    && f.firstRead && f.previousRead && f.openStore && f.save && f.finalRead
    && (forall ref :: f.lookup(ref).Answers?) && (forall ref :: f.store(ref).Done?) && (forall ref :: f.remove(ref).Done?)
    && ComesUp(f)
  }

  // The service restarts and is healthy, as far as that is asked for.
  predicate ComesUp(f: Faults) {
    f.restart in {None, Some(Up)} && f.health != Some(false)
  }

  // What runs after a restart on the given file.
  function AfterRestart(running: Option<Disk>, disk: Disk, restart: Restart): Option<Disk> {
    match restart
    case Up => Some(disk)
    case UpButFailed => Some(disk)
    case Unmoved => running
    case Halted => None
  }

  datatype Stage = Validating | Persisting | Restarting | Verifying | Finalising

  datatype Outcome =
    | Applied(pruned: set<string>, warned: bool)
    | Conflict
    | Failed(stage: Stage)
    | RollbackFailed(stage: Stage)

  datatype Draft = Draft(base: Config, pending: Config, overlay: map<string, string>, revision: Body)

  // ----- what must hold at every moment -----

  // saved: the file holds the draft's configuration.
  datatype Moment = Moment(saved: bool, disk: Disk, secrets: map<string, string>)

  ghost predicate Keeps(m: Moment, ref: string, initial: map<string, string>) {
    ref in initial ==> ref in m.secrets && m.secrets[ref] == initial[ref]
  }

  // Every secret that the configuration on disk refers to, and that was there at the start, is
  // there; and once the draft's configuration is on disk, so is every secret of the draft.
  ghost predicate Sound(m: Moment, initial: map<string, string>, overlay: map<string, string>, parse: string -> Option<Config>) {
    Load(m.disk, parse).Some? ==>
      forall ref <- Refs(Load(m.disk, parse).value) :: Keeps(m, ref, initial) && (m.saved ==> Keeps(m, ref, overlay))
  }

  // Some of the keys in `touched` may differ between the two maps, and no others.
  ghost predicate SameBut(a: map<string, string>, b: map<string, string>, touched: set<string>) {
    forall ref :: ref !in touched ==> (ref in a <==> ref in b) && (ref in a ==> b[ref] == a[ref])
  }

  // Before the configuration is replaced, nothing that was in the store has changed.
  lemma UnsavedSound(m: Moment, initial: map<string, string>, overlay: map<string, string>, touched: set<string>,
                     parse: string -> Option<Config>)
    requires !m.saved && SameBut(initial, m.secrets, touched) && touched !! initial.Keys
    ensures Sound(m, initial, overlay, parse)
  {
  }

  // Every candidate can be stored: none exists yet, and the store answers and obeys.
  predicate Storable(overlay: map<string, string>, secrets: map<string, string>, faults: Faults) {
    && overlay.Keys !! secrets.Keys
    && forall ref <- overlay :: faults.lookup(ref).Answers? && faults.store(ref).Done?
  }

  // Those of the references whose deletion takes effect, whatever the store says of it.
  function Released(refs: set<string>, faults: Faults): set<string> {
    set ref <- refs | !faults.remove(ref).Refused?
  }

  // Every deletion succeeds; one of a secret that is not there does anyway.
  predicate Deletable(refs: set<string>, secrets: map<string, string>, faults: Faults) {
    forall ref <- refs :: faults.remove(ref).Done? || ref !in secrets
  }

  // The new file is in place, the service does not come up with it, and the old one cannot be put back.
  predicate Stuck(faults: Faults) {
    faults.save && !ComesUp(faults) && faults.restore.Refused?
  }

  // The file that stays refers to a candidate secret that the rollback deletes.
  predicate LosesCandidate(draft: Draft, faults: Faults) {
    exists ref <- Refs(draft.pending) :: ref in draft.overlay && !faults.remove(ref).Refused?
  }

  lemma ReleasedOne(secrets: map<string, string>, done: set<string>, ref: string, faults: Faults)
    ensures
      var before, after := secrets - Released(done, faults), secrets - Released(done + {ref}, faults);
      after == if faults.remove(ref).Refused? then before else before - {ref}
  {
    assert Released(done + {ref}, faults) == Released(done, faults) + if faults.remove(ref).Refused? then {} else {ref};
  }

  lemma ReleasedSame(initial: map<string, string>, before: map<string, string>, committed: set<string>, done: set<string>, faults: Faults)
    requires SameBut(initial, before, committed) && done <= committed
    ensures SameBut(initial, before - Released(done, faults), committed)
  {
  }

  lemma AllReleased(initial: map<string, string>, before: map<string, string>, committed: set<string>, faults: Faults)
    requires SameBut(initial, before, committed) && committed !! initial.Keys && Deletable(committed, before, faults)
    ensures before - Released(committed, faults) == initial
  {
    var after := before - Released(committed, faults);
    forall ref
      ensures ref in after <==> ref in initial
      ensures ref in after ==> after[ref] == initial[ref]
    {
      if ref in committed {
        assert faults.remove(ref).Done? || ref !in before;
      }
    }
  }

  // A file that could not be put back is sound if and only if it uses none of the deleted candidates.
  lemma StuckSound(m: Moment, draft: Draft, initial: map<string, string>, faults: Faults, parse: string -> Option<Config>)
    requires m.saved && m.disk == File(Encoded(draft.pending)) && draft.overlay.Keys !! initial.Keys
    requires m.secrets == initial + draft.overlay - Released(draft.overlay.Keys, faults)
    ensures Sound(m, initial, draft.overlay, parse) <==> !LosesCandidate(draft, faults)
  {
    if LosesCandidate(draft, faults) {
      var ref :| ref in Refs(draft.pending) && ref in draft.overlay && !faults.remove(ref).Refused?;
      assert ref in Released(draft.overlay.Keys, faults) && !Keeps(m, ref, draft.overlay);
    } else {
      forall ref <- Refs(draft.pending)
        ensures Keeps(m, ref, initial) && Keeps(m, ref, draft.overlay)
      {
        assert ref !in Released(draft.overlay.Keys, faults);
      }
    }
  }

  class Service {
    const parse: string -> Option<Config>
    const valid: Config -> bool
    var disk: Disk
    var secrets: map<string, string>
    var baseRevision: Body
    // The file that the running process was started on, if one is running.
    ghost var running: Option<Disk>
    ghost var saved: bool
    ghost var trace: seq<Moment>

    constructor (disk: Disk, secrets: map<string, string>, parse: string -> Option<Config>, valid: Config -> bool,
                 ghost running: Option<Disk>)
      ensures this.running == running
      ensures this.disk == disk && this.secrets == secrets && this.parse == parse && this.valid == valid
      ensures baseRevision == Revision(disk) && trace == []
    {
      this.disk, this.secrets, this.parse, this.valid := disk, secrets, parse, valid;
      baseRevision, saved, trace := Revision(disk), false, [];
      this.running := running;
    }

    method OpenDraft() returns (draft: Option<Draft>)
      modifies this`baseRevision
      ensures draft.None? <==> Load(disk, parse).None?
      ensures draft.Some? ==> draft.value == Draft(Load(disk, parse).value, Defaults(Load(disk, parse).value), map[], Revision(disk))
    {
      var base := Load(disk, parse);
      if base.None? {
        return None;
      }
      baseRevision := Revision(disk);
      return Some(Draft(base.value, Defaults(base.value), map[], baseRevision));
    }

    ghost function Now(): Moment
      reads this`saved, this`disk, this`secrets
    {
      Moment(saved, disk, secrets)
    }

    // ----- the secret store -----

    method StoreSecret(ref: string, value: string, write: Write) returns (ok: bool)
      modifies this`secrets, this`trace
      ensures ok == write.Done?
      ensures secrets == if write.Refused? then old(secrets) else old(secrets)[ref := value]
      ensures trace == old(trace) + [Now()]
    {
      if !write.Refused? {
        secrets := secrets[ref := value];
      }
      trace := trace + [Now()];
      return write.Done?;
    }

    // A secret that is not there counts as deleted.
    method DeleteSecret(ref: string, write: Write) returns (ok: bool)
      modifies this`secrets, this`trace
      ensures ok == (write.Done? || ref !in old(secrets))
      ensures secrets == if write.Refused? && ref in old(secrets) then old(secrets) else old(secrets) - {ref}
      ensures trace == old(trace) + [Now()]
    {
      ok := write.Done? || ref !in secrets;
      if ok || !write.Refused? {
        secrets := secrets - {ref};
      }
      trace := trace + [Now()];
    }

    // ----- the stages of Apply -----

    // Stores the draft's secrets, none of which may exist yet. On failure `committed` holds every
    // secret that may have been stored.
    method CommitSecrets(overlay: map<string, string>, faults: Faults) returns (committed: set<string>, ok: bool)
      requires !saved
      modifies this`secrets, this`trace
      ensures committed <= overlay.Keys && committed !! old(secrets).Keys && SameBut(old(secrets), secrets, committed)
      ensures ok ==> committed == overlay.Keys && forall ref <- overlay :: ref in secrets && secrets[ref] == overlay[ref]
      ensures ok <==> Storable(overlay, old(secrets), faults)
      ensures Extends(old(trace), trace, old(secrets), overlay, parse)
    {
      ghost var initial := secrets;
      committed := {};
      var todo := overlay.Keys;
      while todo != {}
        invariant todo <= overlay.Keys && committed == overlay.Keys - todo
        invariant committed !! initial.Keys && SameBut(initial, secrets, committed)
        invariant forall ref <- committed :: ref in secrets && secrets[ref] == overlay[ref]
        invariant forall ref <- committed :: faults.lookup(ref).Answers? && faults.store(ref).Done?
        invariant Extends(old(trace), trace, initial, overlay, parse)
        decreases todo
      {
        var ref :| ref in todo;
        if faults.lookup(ref).Breaks? {
          return committed, false;
        }
        if ref in secrets {
          return committed, false;
        }
        var stored := StoreSecret(ref, overlay[ref], faults.store(ref));
        committed := committed + {ref};
        UnsavedSound(Now(), initial, overlay, committed, parse);
        if !stored {
          return committed, false;
        }
        todo := todo - {ref};
      }
      ok := true;
    }

    // Puts the previous file back, or removes the new one where there was none.
    method RestoreFile(previous: Disk, write: Write, ghost initial: map<string, string>, ghost overlay: map<string, string>,
                       ghost touched: set<string>)
      returns (ok: bool)
      requires SameBut(initial, secrets, touched) && touched !! initial.Keys
      modifies this`disk, this`saved, this`trace
      ensures ok == write.Done?
      ensures write.Refused? ==> disk == old(disk) && saved == old(saved) && trace == old(trace)
      ensures !write.Refused? ==> disk == previous && !saved && Extends(old(trace), trace, initial, overlay, parse)
    {
      if !write.Refused? {
        disk := previous;
        saved := false;
        trace := trace + [Now()];
        UnsavedSound(Now(), initial, overlay, touched, parse);
      }
      return write.Done?;
    }

    // Deletes what may have been stored, which leaves the store as it was if nothing fails.
    method DeleteCandidates(committed: set<string>, faults: Faults, ghost initial: map<string, string>, ghost overlay: map<string, string>)
      returns (ok: bool)
      requires committed !! initial.Keys && SameBut(initial, secrets, committed)
      modifies this`secrets, this`trace
      ensures SameBut(initial, secrets, committed)
      ensures secrets == old(secrets) - Released(committed, faults)
      ensures ok || (forall ref :: faults.remove(ref).Done?) ==> secrets == initial
      ensures ok <==> Deletable(committed, old(secrets), faults)
      ensures old(trace) <= trace && (!saved ==> Extends(old(trace), trace, initial, overlay, parse))
    {
      ghost var before := secrets;
      var todo := committed;
      ok := true;
      assert committed - todo == {};
      while todo != {}
        invariant todo <= committed && secrets == before - Released(committed - todo, faults)
        invariant ok <==> Deletable(committed - todo, before, faults)
        invariant old(trace) <= trace && (!saved ==> Extends(old(trace), trace, initial, overlay, parse))
        decreases todo
      {
        var ref :| ref in todo;
        var deleted := DeleteSecret(ref, faults.remove(ref));
        ReleasedOne(before, committed - todo, ref, faults);
        assert committed - (todo - {ref}) == committed - todo + {ref};
        ReleasedSame(initial, before, committed, committed - todo + {ref}, faults);
        if !saved {
          UnsavedSound(Now(), initial, overlay, committed, parse);
        }
        ok := ok && deleted;
        todo := todo - {ref};
      }
      assert committed - todo == committed;
      ReleasedSame(initial, before, committed, committed, faults);
      if Deletable(committed, before, faults) {
        AllReleased(initial, before, committed, faults);
      }
    }

    // Undoes a failed Apply: the file if it was replaced, the running service if it was restarted,
    // and the secrets, these also when the file could not be restored.
    method Rollback(committed: set<string>, persisted: bool, previous: Disk, restarted: bool, stage: Stage, faults: Faults,
                    ghost initial: map<string, string>, ghost overlay: map<string, string>)
      returns (r: Outcome)
      requires saved == persisted && committed !! initial.Keys && SameBut(initial, secrets, committed) && (restarted ==> persisted)
      modifies this`disk, this`secrets, this`saved, this`trace, this`running
      ensures r.Failed? <==> RollsBack(persisted, restarted, committed, old(secrets), faults)
      ensures running == if restarted && faults.restore.Done? then AfterRestart(old(running), previous, faults.restartBack) else old(running)
      ensures r == Failed(stage) || r == RollbackFailed(stage)
      ensures r.Failed? ==> disk == (if persisted then previous else old(disk)) && secrets == initial
      ensures (forall ref :: faults.remove(ref).Done?) ==> secrets == initial && (!persisted && !restarted ==> r == Failed(stage))
      ensures SameBut(initial, secrets, committed) && secrets == old(secrets) - Released(committed, faults)
      ensures saved == Lost(persisted, faults)
      ensures if Lost(persisted, faults) then r.RollbackFailed? && disk == old(disk)
              else disk == if persisted then previous else old(disk)
      ensures old(trace) <= trace && (!Lost(persisted, faults) ==> Extends(old(trace), trace, initial, overlay, parse))
    {
      var restored := true;
      if persisted {
        restored := RestoreFile(previous, faults.restore, initial, overlay, committed);
      }
      var back := true;
      if restarted && restored {
        back := RestartService(faults.restartBack);
      }
      ghost var restoredTrace := trace;
      var deleted := DeleteCandidates(committed, faults, initial, overlay);
      if !saved {
        ExtendsFurther(old(trace), restoredTrace, trace, initial, overlay, parse);
      }
      return if restored && back && deleted then Failed(stage) else RollbackFailed(stage);
    }

    method RestartService(restart: Restart) returns (ok: bool)
      modifies this`running
      ensures ok == restart.Up? && running == AfterRestart(old(running), disk, restart)
    {
      running := AfterRestart(running, disk, restart);
      return restart.Up?;
    }

    // Deletes those of the references that are neither used any more nor to be kept. `gone` is what
    // was deleted, whether or not the store said so.
    method DeleteUnused(references: set<string>, used: set<string>, keep: set<string>, faults: Faults)
      returns (pruned: set<string>, ok: bool, ghost gone: set<string>)
      modifies this`secrets, this`trace
      ensures gone <= references - used - keep && secrets == old(secrets) - gone
      ensures pruned <= gone
      ensures ok ==> gone == references - used - keep && Present(pruned, gone, old(secrets))
      ensures (forall ref :: faults.remove(ref).Done?) ==> ok
      ensures Pruning(old(trace), trace, old(Now()), references - used - keep)
    {
      ghost var start, before, unused := Now(), secrets, references - used - keep;
      gone := {};
      DropNone(before);
      pruned := {};
      var todo := references;
      while todo != {}
        invariant Partly(unused, gone, todo) && todo <= references
        invariant secrets == before - gone && Present(pruned, gone, before)
        invariant Pruning(old(trace), trace, start, unused)
        decreases todo
      {
        var ref :| ref in todo;
        TakeKey(unused, gone, todo, ref);
        PartlySubset(unused, gone, todo);
        todo := todo - {ref};
        if ref in used || ref in keep {
          continue;
        }
        var present := ref in secrets;
        OrphanGone(before, gone, ref, unused);
        var deleted := DeleteSecret(ref, faults.remove(ref));
        if !deleted {
          PresentSubset(pruned, gone, before);
          gone := if faults.remove(ref).Refused? then gone else gone + {ref};
          return pruned, false, gone;
        }
        PresentOne(pruned, gone, before, ref);
        gone := gone + {ref};
        if present {
          pruned := pruned + {ref};
        }
      }
      PresentSubset(pruned, gone, before);
      AllTaken(unused, gone);
      ok := true;
    }

    // Deletes what only the previous configuration referred to.
    method PruneOrphans(draft: Draft, keep: set<string>, faults: Faults, ghost initial: map<string, string>)
      returns (pruned: set<string>, ok: bool)
      requires saved && disk == File(Encoded(draft.pending)) && Sound(Now(), initial, draft.overlay, parse)
      modifies this`secrets, this`trace
      ensures pruned <= Orphans(draft, keep) && SameBut(old(secrets), secrets, Orphans(draft, keep))
      ensures ok ==> secrets == old(secrets) - Orphans(draft, keep) && Present(pruned, Orphans(draft, keep), old(secrets))
      ensures (forall ref :: faults.remove(ref).Done?) ==> ok
      ensures Extends(old(trace), trace, initial, draft.overlay, parse) && Sound(Now(), initial, draft.overlay, parse)
    {
      var previousRefs := CollectRefs(draft.base);
      var nextRefs := CollectRefs(draft.pending);
      ghost var start := Now();
      ghost var gone;
      pruned, ok, gone := DeleteUnused(previousRefs, nextRefs + draft.overlay.Keys, keep, faults);
      assert previousRefs - (nextRefs + draft.overlay.Keys) - keep == Orphans(draft, keep);
      PruningSound(old(trace), trace, start, draft, keep, initial, parse);
      OrphanSound(start.secrets, Now(), Orphans(draft, keep), draft, keep, initial, parse);
    }

    // Save replaces the file or leaves it alone.
    method SaveConfig(config: Config, works: bool) returns (ok: bool)
      modifies this`disk, this`saved, this`trace
      ensures ok == works
      ensures works ==> disk == File(Encoded(config)) && saved && trace == old(trace) + [Now()]
      ensures !works ==> disk == old(disk) && saved == old(saved) && trace == old(trace)
    {
      if works {
        disk := File(Encoded(config));
        saved := true;
        trace := trace + [Now()];
      }
      return works;
    }

    // Restart and health check, each only if asked for.
    method Activate(faults: Faults) returns (failure: Option<Stage>)
      modifies this`running
      ensures failure == if faults.restart !in {None, Some(Up)} then Some(Restarting)
                         else if faults.health == Some(false) then Some(Verifying) else None
      ensures running == match faults.restart case Some(restart) => AfterRestart(old(running), disk, restart) case None => old(running)
    {
      if faults.restart.Some? {
        var up := RestartService(faults.restart.value);
        if !up {
          return Some(Restarting);
        }
      }
      if faults.health.Some? && !faults.health.value {
        return Some(Verifying);
      }
      return None;
    }

    // From the stored secrets on: either the new configuration is live, or everything is undone.
    method Replace(draft: Draft, previous: Disk, faults: Faults, ghost initial: map<string, string>) returns (failure: Option<Outcome>)
      requires !saved && disk == previous
      requires draft.overlay.Keys !! initial.Keys && secrets == initial + draft.overlay
      modifies this`disk, this`secrets, this`saved, this`trace, this`running
      ensures failure.None? ==> running == if faults.restart.Some? then Some(disk) else old(running)
      ensures failure.Some? ==>
                && (failure.value.Failed? || failure.value.RollbackFailed?) && failure.value.stage == FailedStage(faults)
                && (failure.value.Failed? <==>
                      RollsBack(faults.save, faults.save && faults.restart.Some?, draft.overlay.Keys, old(secrets), faults))
                && running == if faults.save then RunningAfter(old(running), draft, previous, faults) else old(running)
      ensures failure.None? ==> saved && disk == File(Encoded(draft.pending)) && secrets == initial + draft.overlay
      ensures failure.None? ==> Sound(Now(), initial, draft.overlay, parse)
      ensures failure.Some? ==> Undone(failure.value, disk, secrets, previous, initial, draft, faults) && failure.value.stage != Finalising
      ensures failure.None? <==> faults.save && ComesUp(faults)
      ensures failure.Some? ==> (Sound(Now(), initial, draft.overlay, parse) <==> !(Stuck(faults) && LosesCandidate(draft, faults)))
      ensures failure.Some? && Stuck(faults) ==>
                failure.value.RollbackFailed? && disk == File(Encoded(draft.pending))
                && secrets == initial + draft.overlay - Released(draft.overlay.Keys, faults)
      ensures old(trace) <= trace && (failure.None? || !LostBy(failure.value, faults) ==> Extends(old(trace), trace, initial, draft.overlay, parse))
    {
      ghost var before := trace;
      MergedIsSame(initial, draft.overlay);
      var done := SaveConfig(draft.pending, faults.save);
      if !done {
        var r := Rollback(draft.overlay.Keys, false, previous, false, Persisting, faults, initial, draft.overlay);
        UnsavedSound(Now(), initial, draft.overlay, draft.overlay.Keys, parse);
        return Some(r);
      }
      SavedSound(Now(), initial, draft.overlay, parse);
      var stage := Activate(faults);
      if stage.Some? {
        var r := Rollback(draft.overlay.Keys, true, previous, faults.restart.Some?, stage.value, faults, initial, draft.overlay);
        if Stuck(faults) {
          StuckSound(Now(), draft, initial, faults, parse);
        } else {
          UnsavedSound(Now(), initial, draft.overlay, draft.overlay.Keys, parse);
        }
        return Some(r);
      }
      return None;
    }

    // Everything that is checked before the first write.
    method Check(draft: Draft, shadowed: bool, untested: bool, faults: Faults) returns (refusal: Option<Outcome>)
      ensures refusal == Refusal(draft, disk, valid, shadowed, untested, faults)
    {
      if !faults.firstRead {
        return Some(Failed(Validating));
      }
      if draft.revision != Revision(disk) {
        return Some(Conflict);
      }
      if !valid(draft.pending) || shadowed || untested {
        return Some(Failed(Validating));
      }
      if !faults.previousRead {
        return Some(Failed(Validating));
      }
      if !faults.openStore {
        return Some(Failed(Persisting));
      }
      return None;
    }

    // The candidates are all stored, or the transaction is over with the file as it was.
    method StoreCandidates(draft: Draft, faults: Faults) returns (failure: Option<Outcome>)
      requires !saved
      modifies this`disk, this`secrets, this`saved, this`trace, this`running
      ensures failure.None? <==> Storable(draft.overlay, old(secrets), faults)
      ensures disk == old(disk) && running == old(running) && !saved
      ensures failure.None? ==> draft.overlay.Keys !! old(secrets).Keys && secrets == old(secrets) + draft.overlay
      ensures failure.Some? ==>
                && failure.value in {Failed(Persisting), RollbackFailed(Persisting)}
                && (failure.value.Failed? || (forall ref :: faults.remove(ref).Done?) ==> secrets == old(secrets))
                && ((forall ref :: faults.remove(ref).Done?) ==> failure.value.Failed?)
                && SameBut(old(secrets), secrets, draft.overlay.Keys) && Sound(Now(), old(secrets), draft.overlay, parse)
      ensures Extends(old(trace), trace, old(secrets), draft.overlay, parse)
    {
      ghost var initial, before := secrets, trace;
      var committed, stored := CommitSecrets(draft.overlay, faults);
      if !stored {
        ghost var mid := trace;
        var r := Rollback(committed, false, disk, false, Persisting, faults, initial, draft.overlay);
        UnsavedSound(Now(), initial, draft.overlay, committed, parse);
        ExtendsFurther(before, mid, trace, initial, draft.overlay, parse);
        return Some(r);
      }
      CommittedIsMerged(initial, secrets, draft.overlay);
      return None;
    }

    method Apply(draft: Draft, keep: set<string>, shadowed: bool, untested: bool, faults: Faults) returns (r: Outcome)
      modifies this
      // It refuses before the first write, or the draft was opened on what is on disk.
      ensures
        var refusal := Refusal(draft, old(disk), valid, shadowed, untested, faults);
        refusal.Some? ==> r == refusal.value && disk == old(disk) && secrets == old(secrets) && baseRevision == old(baseRevision)
      // The compare of the compare-and-swap.
      ensures r == Conflict <==> faults.firstRead && draft.revision != Revision(old(disk))
      // All or nothing.
      ensures r.Failed? && r.stage != Finalising ==>
                disk == old(disk) && secrets == old(secrets) && baseRevision == old(baseRevision)
      ensures r.RollbackFailed? ==> Undone(r, disk, secrets, old(disk), old(secrets), draft, faults)
      // In place, with every secret, and without those that nothing refers to any more.
      ensures r.Applied? || r == Failed(Finalising) ==>
                && draft.revision == Revision(old(disk)) && disk == File(Encoded(draft.pending))
                && draft.overlay.Keys !! old(secrets).Keys
                && SameBut(old(secrets) + draft.overlay, secrets, Orphans(draft, keep))
      ensures r.Applied? && !r.warned ==>
                && secrets == old(secrets) + draft.overlay - Orphans(draft, keep)
                && Present(r.pruned, Orphans(draft, keep), old(secrets) + draft.overlay)
      ensures r.Applied? ==> baseRevision == Revision(disk)
      // What runs: after success the new configuration, if a restart was asked for; after a clean
      // failure what ran before, or the restored file, if a restart was tried.
      ensures r.Applied? || r == Failed(Finalising) ==> running == if faults.restart.Some? then Some(disk) else old(running)
      ensures r.Failed? && r.stage != Finalising ==>
                running == if Saves(draft, old(disk), old(secrets), valid, shadowed, untested, faults) && faults.restart.Some?
                           then Some(disk) else old(running)
      // Once the new file was in place, the failure is clean exactly if everything could be undone.
      ensures Saves(draft, old(disk), old(secrets), valid, shadowed, untested, faults) && !ComesUp(faults) ==>
                && (r == Failed(FailedStage(faults)) || r == RollbackFailed(FailedStage(faults)))
                && (r.Failed? <==>
                      RollsBack(true, faults.restart.Some?, draft.overlay.Keys, old(secrets) + draft.overlay, faults))
                && running == RunningAfter(old(running), draft, old(disk), faults)
      // Candidates that cannot all be stored are the end of it, and leave a trace only if a deletion fails.
      ensures (Refusal(draft, old(disk), valid, shadowed, untested, faults).None? && !Storable(draft.overlay, old(secrets), faults)) ==>
                && r in {Failed(Persisting), RollbackFailed(Persisting)} && disk == old(disk)
                && ((forall ref :: faults.remove(ref).Done?) ==> r == Failed(Persisting))
      // What is left at the end is sound, but for a file that stays and has lost a candidate it uses.
      ensures !Sound(Now(), old(secrets), draft.overlay, parse)
              <==> Stranded(draft, old(disk), old(secrets), valid, shadowed, untested, faults)
      ensures !Sound(Now(), old(secrets), draft.overlay, parse) ==>
                r.RollbackFailed? && disk == File(Encoded(draft.pending))
                && secrets == old(secrets) + draft.overlay - Released(draft.overlay.Keys, faults)
      // When nothing goes wrong it works.
      ensures (NoFaults(faults) && Refusal(draft, old(disk), valid, shadowed, untested, faults).None?
               && draft.overlay.Keys !! old(secrets).Keys) ==> r.Applied? && !r.warned
      // At every moment, unless the previous file could not be put back.
      ensures old(trace) <= trace && (!LostBy(r, faults) ==> Extends(old(trace), trace, old(secrets), draft.overlay, parse))
    {
      ghost var initial := secrets;
      saved := false;
      UnsavedSound(Now(), initial, draft.overlay, {}, parse);
      var refusal := Check(draft, shadowed, untested, faults);
      if refusal.Some? {
        return refusal.value;
      }
      var previous := disk;
      var failed := StoreCandidates(draft, faults);
      if failed.Some? {
        return failed.value;
      }
      var failure := Replace(draft, previous, faults, initial);
      if failure.Some? {
        return failure.value;
      }
      var pruned, tidy := PruneOrphans(draft, keep, faults, initial);
      if !faults.finalRead {
        return Failed(Finalising);
      }
      baseRevision := Revision(disk);
      return Applied(pruned, !tidy);
    }

    // After a clean failure the same draft can be applied again, and is, once nothing goes wrong.
    method ApplyTwice(draft: Draft, keep: set<string>, first: Faults, second: Faults) returns (r: Outcome, again: Outcome)
      requires NoFaults(second) && Refusal(draft, disk, valid, false, false, second).None? && draft.overlay.Keys !! secrets.Keys
      modifies this
      ensures r.Failed? && r.stage != Finalising ==>
                && again.Applied? && disk == File(Encoded(draft.pending))
                && secrets == old(secrets) + draft.overlay - Orphans(draft, keep)
    {
      r := Apply(draft, keep, false, false, first);
      again := r;
      if r.Failed? && r.stage != Finalising {
        again := Apply(draft, keep, false, false, second);
      }
    }
  }

  // Why Apply does not even start, if so.
  function Refusal(draft: Draft, disk: Disk, valid: Config -> bool, shadowed: bool, untested: bool, faults: Faults): Option<Outcome> {
    if !faults.firstRead then Some(Failed(Validating))
    else if draft.revision != Revision(disk) then Some(Conflict)
    else if !valid(draft.pending) || shadowed || untested || !faults.previousRead then Some(Failed(Validating))
    else if !faults.openStore then Some(Failed(Persisting))
    else None
  }

  // Apply gets as far as replacing the file.
  predicate Saves(draft: Draft, disk: Disk, secrets: map<string, string>, valid: Config -> bool,
                  shadowed: bool, untested: bool, faults: Faults) {
    && Refusal(draft, disk, valid, shadowed, untested, faults).None? && Storable(draft.overlay, secrets, faults)
    && faults.save
  }

  function FailedStage(faults: Faults): Stage {
    if !faults.save then Persisting
    else if faults.restart !in {None, Some(Up)} then Restarting
    else Verifying
  }

  // What runs after a restart on the new file, if one was asked for, and then one on the old file, if
  // that is back.
  function RunningAfter(running: Option<Disk>, draft: Draft, previous: Disk, faults: Faults): Option<Disk> {
    match faults.restart
    case None => running
    case Some(restart) =>
      var tried := AfterRestart(running, File(Encoded(draft.pending)), restart);
      if faults.restore.Done? then AfterRestart(tried, previous, faults.restartBack) else tried
  }

  // The file goes back if it was replaced, the service comes up on it if it was restarted, and every
  // deletion of a candidate succeeds.
  predicate RollsBack(persisted: bool, restarted: bool, committed: set<string>, secrets: map<string, string>, faults: Faults) {
    && (persisted ==> faults.restore.Done?) && (restarted ==> faults.restartBack.Up?)
    && Deletable(committed, secrets, faults)
  }

  // Apply will leave a file on disk that refers to a candidate secret which is gone.
  predicate Stranded(draft: Draft, disk: Disk, secrets: map<string, string>, valid: Config -> bool,
                     shadowed: bool, untested: bool, faults: Faults) {
    && Refusal(draft, disk, valid, shadowed, untested, faults).None? && Storable(draft.overlay, secrets, faults)
    && Stuck(faults) && LosesCandidate(draft, faults)
  }

  // A first configuration with one candidate secret, a service that does not restart, and a file that
  // cannot be taken back.
  function FirstConfig(ref: string): Config {
    Config([Provider("main", "mock", Some(true), ref, Settings("", "", "", "", "", "", "", map[]))], [])
  }

  const NO_WAY_BACK := Faults(
    true, true, true, _ => Answers, _ => Done, true, Some(Unmoved), None, Write.Refused, Up, _ => Done, true)

  lemma FirstConfigStranded(ref: string, secret: string)
    requires ref != ""
    ensures Stranded(Draft(EMPTY_CONFIG, FirstConfig(ref), map[ref := secret], NO_FILE), Missing, map[], _ => true,
                     false, false, NO_WAY_BACK)
  {
    assert FirstConfig(ref).providers[0].secretRef in Refs(FirstConfig(ref));
  }

  method StrandFirstConfig(ref: string, secret: string) returns (s: Service, r: Outcome)
    requires ref != ""
    ensures fresh(s) && r.RollbackFailed?
    ensures s.disk == File(Encoded(FirstConfig(ref))) && ref in Refs(FirstConfig(ref)) && ref !in s.secrets
  {
    s := new Service(Missing, map[], _ => None, _ => true, Some(Missing));
    var draft := Draft(EMPTY_CONFIG, FirstConfig(ref), map[ref := secret], NO_FILE);
    FirstConfigStranded(ref, secret);
    assert FirstConfig(ref).providers[0].secretRef in Refs(FirstConfig(ref));
    r := s.Apply(draft, {}, false, false, NO_WAY_BACK);
  }

  // A failed transaction: a clean one left no trace; otherwise the operator is told, and the
  // candidate secrets are gone all the same if the store let go of them.
  ghost predicate Undone(r: Outcome, disk: Disk, secrets: map<string, string>, previous: Disk, initial: map<string, string>,
                         draft: Draft, faults: Faults) {
    && (r.Failed? || r.RollbackFailed?)
    && (r.Failed? ==> disk == previous && secrets == initial)
    && ((forall ref :: faults.remove(ref).Done?) ==> secrets == initial)
    && SameBut(initial, secrets, draft.overlay.Keys)
    && (disk == previous || (LostBy(r, faults) && disk == File(Encoded(draft.pending))))
  }

  // The previous file could not be put back.
  predicate LostBy(r: Outcome, faults: Faults) {
    r.RollbackFailed? && r.stage in {Restarting, Verifying} && faults.restore.Refused?
  }

  lemma MergedIsSame(initial: map<string, string>, overlay: map<string, string>)
    requires overlay.Keys !! initial.Keys
    ensures SameBut(initial, initial + overlay, overlay.Keys)
  {
  }

  lemma CommittedIsMerged(initial: map<string, string>, secrets: map<string, string>, overlay: map<string, string>)
    requires SameBut(initial, secrets, overlay.Keys) && forall ref <- overlay :: ref in secrets && secrets[ref] == overlay[ref]
    ensures secrets == initial + overlay
  {
  }

  lemma SavedSound(m: Moment, initial: map<string, string>, overlay: map<string, string>, parse: string -> Option<Config>)
    requires overlay.Keys !! initial.Keys && m.secrets == initial + overlay
    ensures Sound(m, initial, overlay, parse)
  {
  }

  // The reported references are those that were there.
  ghost predicate Present(pruned: set<string>, gone: set<string>, before: map<string, string>) {
    forall ref :: ref in pruned <==> ref in gone && ref in before
  }

  lemma PresentOne(pruned: set<string>, gone: set<string>, before: map<string, string>, ref: string)
    requires Present(pruned, gone, before)
    ensures ref in before ==> Present(pruned + {ref}, gone + {ref}, before)
    ensures ref !in before ==> Present(pruned, gone + {ref}, before)
  {
  }

  lemma PresentSubset(pruned: set<string>, gone: set<string>, before: map<string, string>)
    requires Present(pruned, gone, before)
    ensures pruned <= gone
  {
  }

  // The moments of a pruning differ from its start by deleted orphans only.
  ghost predicate Pruning(before: seq<Moment>, after: seq<Moment>, start: Moment, orphans: set<string>) {
    && before <= after
    && forall i :: |before| <= i < |after| ==>
         after[i] == start.(secrets := after[i].secrets) && SameBut(start.secrets, after[i].secrets, orphans)
  }

  lemma PruningSound(before: seq<Moment>, after: seq<Moment>, start: Moment, draft: Draft, keep: set<string>,
                     initial: map<string, string>, parse: string -> Option<Config>)
    requires Pruning(before, after, start, Orphans(draft, keep))
    requires start.saved && start.disk == File(Encoded(draft.pending)) && Sound(start, initial, draft.overlay, parse)
    ensures Extends(before, after, initial, draft.overlay, parse)
  {
    forall i | |before| <= i < |after|
      ensures Sound(after[i], initial, draft.overlay, parse)
    {
      OrphanSound(start.secrets, after[i], Orphans(draft, keep), draft, keep, initial, parse);
    }
  }

  // A restore that failed without effect, after the file had been replaced.
  predicate Lost(persisted: bool, faults: Faults) {
    persisted && faults.restore.Refused?
  }

  function Orphans(draft: Draft, keep: set<string>): set<string> {
    Refs(draft.base) - Refs(draft.pending) - draft.overlay.Keys - keep
  }

  // What success prunes: secrets that only the previous configuration names, and that nobody keeps.
  lemma OrphansAre(draft: Draft, keep: set<string>, ref: string)
    ensures ref in Orphans(draft, keep)
            <==> Uses(draft.base, ref) && !Uses(draft.pending, ref) && ref !in draft.overlay && ref !in keep
  {
    RefsAreUses(draft.base, ref);
    RefsAreUses(draft.pending, ref);
  }

  lemma OrphanGone(before: map<string, string>, done: set<string>, ref: string, orphans: set<string>)
    requires done <= orphans && ref in orphans && ref !in done
    ensures (before - done) - {ref} == before - (done + {ref})
    ensures ref in before - done <==> ref in before
    ensures SameBut(before, before - done, orphans) && SameBut(before, before - (done + {ref}), orphans)
  {
    DropOne(before, done, ref);
  }

  // Deleting orphans takes nothing from the configuration on disk.
  lemma OrphanSound(before: map<string, string>, m: Moment, gone: set<string>, draft: Draft, keep: set<string>,
                    initial: map<string, string>, parse: string -> Option<Config>)
    requires m.saved && m.disk == File(Encoded(draft.pending)) && gone == Orphans(draft, keep)
    requires Sound(m.(secrets := before), initial, draft.overlay, parse) && SameBut(before, m.secrets, gone)
    ensures Sound(m, initial, draft.overlay, parse)
  {
    forall ref <- Refs(draft.pending)
      ensures Keeps(m, ref, initial) && Keeps(m, ref, draft.overlay)
    {
      assert ref !in gone;
      assert Keeps(m.(secrets := before), ref, initial) && Keeps(m.(secrets := before), ref, draft.overlay);
    }
  }

  // The trace grew, by moments that are all sound.
  ghost predicate Extends(before: seq<Moment>, after: seq<Moment>, initial: map<string, string>, overlay: map<string, string>,
                          parse: string -> Option<Config>) {
    before <= after && forall i :: |before| <= i < |after| ==> Sound(after[i], initial, overlay, parse)
  }

  lemma ExtendsFurther(a: seq<Moment>, b: seq<Moment>, c: seq<Moment>, initial: map<string, string>, overlay: map<string, string>,
                       parse: string -> Option<Config>)
    requires Extends(a, b, initial, overlay, parse) && Extends(b, c, initial, overlay, parse)
    ensures Extends(a, c, initial, overlay, parse)
  {
  }
}
