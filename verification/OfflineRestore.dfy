/**
 The restore run as a whole: temporary database, database switch and file swaps forward;
 files and database back.  Everything the script delegates to other programs is a
 boundary at which the run may fail or be killed.
 */
module OfflineRestore {
  import opened Options
  import opened SwapProtocol
  import opened FileSwaps
  import opened FileJournal
  import opened DatabaseAuthority

  datatype Preflight = Preflight(original: Oid, temp: Option<Oid>)

  datatype SwitchIntent = SwitchIntent(original: Oid, temp: Oid)

  datatype Status = Unattempted | InProgress | Complete | Failed | NotRequired

  /** The database part of the journal. */
  datatype Record = Record(
    preflight: Option<Preflight>,
    intent: Option<SwitchIntent>,
    switchAttempted: bool,
    switched: bool,
    status: Status,
    identity: Option<Oid>)

  /** A file or directory to restore: the slots as found, and the entry its copy will be. */
  datatype Planned = Planned(kind: Kind, slots: View, candidate: Identity)

  /** What the script does not check itself: the `failed` name is free, and a copy made
      just now is a new entry of the right type.  Fingerprints are as it measures them. */
  ghost predicate Plausible(x: Planned) {
    && x.slots.failed.None?
    && Some(x.candidate) != x.slots.live
    && x.candidate.mode == (if x.kind.DirectorySwap? then Directory else Regular)
    && x.candidate.WellFormed()
    && (x.slots.live.Some? ==> x.slots.live.value.WellFormed())
  }

  /** The two names the script does check are free as well. */
  ghost predicate Unobstructed(x: Planned) {
    Plausible(x) && x.slots.staged.None? && x.slots.prior.None?
  }

  function RestoreNames(live: Name, suffix: string): Names {
    Names(live, "ag_restore_" + suffix, "ag_rollback_" + suffix, "ag_failed_" + suffix)
  }

  ghost predicate OwnNamesDiffer(names: Names) {
    names.temp != names.rollback && names.temp != names.failed && names.rollback != names.failed
  }

  lemma OwnNamesDifferAlways(live: Name, suffix: string)
    ensures OwnNamesDiffer(RestoreNames(live, suffix))
  {
    var n := RestoreNames(live, suffix);
    assert n.temp[3..6] == "res" && n.rollback[3..6] == "rol" && n.failed[3..6] == "fai";
  }

  /** What the targets of a plan held. */
  function Originals(plan: seq<Planned>, n: nat): (r: seq<Option<Identity>>)
    requires n <= |plan|
    ensures |r| == n && forall i :: 0 <= i < n ==> r[i] == plan[i].slots.live
  {
    seq(n, i requires 0 <= i < n => plan[i].slots.live)
  }

  /** The copies that are to take their place. */
  function Candidates(plan: seq<Planned>, n: nat): (r: seq<Identity>)
    requires n <= |plan|
    ensures |r| == n && forall i :: 0 <= i < n ==> r[i] == plan[i].candidate
  {
    seq(n, i requires 0 <= i < n => plan[i].candidate)
  }

  /** The targets from the `n`-th on are as they were found. */
  ghost predicate IntactFrom(targets: seq<View>, plan: seq<Planned>, n: nat) {
    |plan| == |targets| && forall i :: n <= i < |plan| ==> targets[i] == plan[i].slots
  }

  /** The same, but for the staging name of the `n`-th. */
  ghost predicate StagedFrom(targets: seq<View>, plan: seq<Planned>, n: nat) {
    && IntactFrom(targets, plan, n + 1)
    && (n < |plan| ==> targets[n] == plan[n].slots.(staged := targets[n].staged))
  }

  lemma StagedNext(before: seq<View>, after: seq<View>, plan: seq<Planned>, n: nat, staged: Option<Identity>)
    requires n < |plan| && IntactFrom(before, plan, n) && after == before[n := plan[n].slots.(staged := staged)]
    ensures StagedFrom(after, plan, n) && IntactFrom(after, plan, n + 1) && StagedFrom(after, plan, n + 1)
  {
  }

  lemma OneMoreOriginal(plan: seq<Planned>, n: nat)
    requires n < |plan|
    ensures Originals(plan, n + 1) == Originals(plan, n) + [plan[n].slots.live]
    ensures Candidates(plan, n + 1) == Candidates(plan, n) + [plan[n].candidate]
  {
  }

  class RestoreRunner {
    const names: Names
    const process: Process
    var catalog: Catalog
    var record: Record
    var saved: Record
    const files: Journal
    /** The slots of each target of the plan, as long as no swap is on record for it; from then on
        they are the view of its swap. */
    var targets: seq<View>

    constructor (live: Name, suffix: string, process: Process, catalog: Catalog, targets: seq<View>)
      ensures this.process == process && this.catalog == catalog && this.targets == targets
      ensures names == RestoreNames(live, suffix) && OwnNamesDiffer(names)
      ensures Valid() && files.swaps == [] && fresh(files) && record == saved == Record(None, None, false, false, Unattempted, None)
    {
      OwnNamesDifferAlways(live, suffix);
      this.names, this.process, this.catalog, this.targets := RestoreNames(live, suffix), process, catalog, targets;
      record := Record(None, None, false, false, Unattempted, None);
      saved := Record(None, None, false, false, Unattempted, None);
      files := new Journal();
    }

    ghost predicate Valid()
      reads files
    {
      files.Valid()
    }

    method Boundary() returns (r: Outcome)
      modifies process, this`catalog
      ensures process.Later()
      ensures process.clock == old(process.clock) + 1
      ensures old(process.Untampered()) ==> catalog == old(catalog)
      ensures process.QuietSince(old(process.clock)) ==> r.Done?
      ensures process.world(old(process.clock)).Fail? ==> r.Raised?
      ensures r.Raised? ==> r.error.Injected?
    {
      var e := process.Tick();
      match e {
        case Quiet => r := Done;
        case Kill => r := Killed;
        case Fail => r := Raised(Injected);
        case Tearing(_, fatal) => r := if fatal then Killed else Raised(Injected);
        case Outside(_, changed) =>
          catalog := changed;
          r := Done;
      }
    }

    // ------------------------------------------------------------------ database

    /** The original is live, or the switch is on record and the topology is one the rollback accepts. */
    ghost predicate DatabaseCovered(original: Oid)
      reads this`catalog, this`record, this`saved
    {
      && record == saved && OwnNamesDiffer(names)
      && NamesUnique(catalog) && original in catalog && 0 < original
      && (!saved.switchAttempted ==> catalog[original] == names.live && !saved.status.Complete?)
      && (saved.switchAttempted ==>
            && names.Distinct()
            && saved.intent.Some? && saved.intent.value.original == original
            && 0 < saved.intent.value.temp && saved.intent.value.temp != original
            && Recognised(catalog, names, original, saved.intent.value.temp)
            && (saved.status.Complete? ==> Recovered(catalog, names, original, saved.intent.value.temp)))
      && (saved.identity.Some? ==> saved.identity.value == original)
    }

    /** The preflight found `original` live, every other name free, and a database was created. */
    ghost predicate ReadyToSwitch(original: Oid)
      reads this`catalog, this`record
    {
      && record.preflight.Some? && record.preflight.value.original == original
      && record.preflight.value.temp.Some?
      && var temp := record.preflight.value.temp.value;
         Switchable(catalog, names, original, temp)
    }

    method Save(next: Record) returns (r: Outcome)
      modifies process, this`record, this`saved, this`catalog
      ensures record == saved == next && process.Later() && process.clock == old(process.clock) + 1
      ensures old(process.Untampered()) ==> catalog == old(catalog)
      ensures process.QuietSince(old(process.clock)) ==> r.Done?
      ensures r.Raised? ==> r.error.Injected?
    {
      record := next;
      saved := record;
      r := Boundary();
    }

    /** The three names a restore introduces are free. */
    predicate NamesFree()
      reads this`catalog
    {
      !Occupied(catalog, names.temp) && !Occupied(catalog, names.rollback) && !Occupied(catalog, names.failed)
    }

    /** `temp_database_restore`, up to the recorded OID of the new database.  `created` is the
        OID PostgreSQL gives to it; a taken one stands for a failing CREATE DATABASE. */
    method TempDatabaseRestore(created: Oid, ghost original: Oid) returns (r: Outcome)
      requires record == saved
      modifies process, this`catalog, this`record, this`saved
      ensures process.Later() && record == saved
      ensures old(record) == record.(preflight := old(record).preflight)
      ensures old(process.Untampered() && DatabaseCovered(original) && !record.switchAttempted) ==>
                && DatabaseCovered(original)
                && (r.Done? ==>
                      && ReadyToSwitch(original) && record.preflight.value.temp == Some(created)
                      && catalog == old(catalog)[created := names.temp])
                && (old(process.Undisturbed() && NamesFree()) && created !in old(catalog) && 0 < created ==> r.Done?)
    {
      if !Occupied(catalog, names.live) {
        return Raised(OriginalMissing);
      }
      var found :| found in catalog && catalog[found] == names.live;
      if !NamesFree() {
        return Raised(NamesOccupied);
      }
      :- Save(record.(preflight := Some(Preflight(found, None))));
      r := CreateTemp(found, created);
    }

    /** CREATE DATABASE, and the record of the new OID once the catalog is as expected. */
    method CreateTemp(found: Oid, created: Oid) returns (r: Outcome)
      requires record == saved
      modifies process, this`catalog, this`record, this`saved
      ensures process.Later() && record == saved
      ensures record == old(record) || record == old(record).(preflight := Some(Preflight(found, Some(created))))
      ensures r.Done? ==> record == old(record).(preflight := Some(Preflight(found, Some(created))))
      ensures old(process.Untampered()) ==>
                && (catalog == old(catalog)
                    || (created !in old(catalog) && !Occupied(old(catalog), names.temp) && catalog == old(catalog)[created := names.temp]))
                && (r.Done? ==> catalog == old(catalog)[created := names.temp] && 0 < created && created !in old(catalog))
      ensures old(process.Undisturbed() && Fresh(catalog, names, found, created)) ==> r.Done?
    {
      if Fresh(catalog, names, found, created) {
        FreshIsSwitchable(catalog, names, found, created);
      }
      if Occupied(catalog, names.temp) || created in catalog || created == 0 {
        return Raised(NamesOccupied);
      }
      catalog := catalog[created := names.temp];
      :- Boundary();
      if NameOf(catalog, found) != Some(names.live) || NameOf(catalog, created) != Some(names.temp)
         || Occupied(catalog, names.rollback) || Occupied(catalog, names.failed)
      {
        return Raised(IdentitiesInconsistent);
      }
      r := Save(record.(preflight := Some(Preflight(found, Some(created)))));
    }

    /** `switch_database`: the intent is on disk before the catalog changes. */
    method SwitchDatabase(ghost original: Oid) returns (r: Outcome)
      requires record == saved
      modifies process, this`catalog, this`record, this`saved
      ensures process.Later() && record == saved && record.preflight == old(record).preflight && (r.Done? ==> record.switched)
      ensures old(process.Untampered() && DatabaseCovered(original) && !record.switchAttempted && ReadyToSwitch(original)) ==>
                && DatabaseCovered(original)
                && (r.Done? ==> Exchanged(catalog, names, original, old(record.preflight.value.temp.value)))
                && (old(process.Undisturbed()) ==> r.Done?)
    {
      if record.preflight.None? || record.preflight.value.original == 0
         || record.preflight.value.temp.None? || record.preflight.value.temp.value == 0
      {
        return Raised(IdentitiesInconsistent);
      }
      var found := record.preflight.value;
      if Switchable(catalog, names, found.original, found.temp.value) {
        SwitchExchanges(catalog, names, found.original, found.temp.value);
      }
      :- Save(record.(intent := Some(SwitchIntent(found.original, found.temp.value)), switchAttempted := true));
      r := PerformSwitch(found.original, found.temp.value);
    }

    /** The rename under the database lock and the checks after it. */
    method PerformSwitch(original: Oid, temp: Oid) returns (r: Outcome)
      requires record == saved
      modifies process, this`catalog, this`record, this`saved
      ensures process.Later() && record == saved == old(record).(switched := record.switched) && (r.Done? ==> record.switched)
      ensures old(process.Untampered() && Switchable(catalog, names, original, temp)) ==>
                && (catalog == old(catalog) || Exchanged(catalog, names, original, temp))
                && (r.Done? ==> Exchanged(catalog, names, original, temp))
                && (old(process.Undisturbed()) ==> r.Done?)
    {
      if Switchable(catalog, names, original, temp) {
        SwitchExchanges(catalog, names, original, temp);
      }
      var switched := Forward(catalog, names, original, temp);
      if switched.None? {
        return Raised(AuthorityRefused);
      }
      catalog := switched.value;
      :- Boundary();
      if NameOf(catalog, temp) != Some(names.live) || NameOf(catalog, original) != Some(names.rollback)
         || Occupied(catalog, names.temp) || Occupied(catalog, names.failed)
      {
        return Raised(IdentitiesInconsistent);
      }
      r := Save(record.(switched := true));
    }

    // --------------------------------------------------------------- forward files

    /** The copy for the next target, under its staging name. */
    method Stage(x: Planned, k: nat) returns (r: Outcome)
      requires k < |targets| && targets[k] == x.slots
      modifies process, this`catalog, this`targets
      ensures process.Later()
      ensures old(process.Untampered()) ==> catalog == old(catalog)
      ensures |targets| == |old(targets)| && targets == old(targets)[k := x.slots.(staged := targets[k].staged)]
      ensures r.Done? ==> x.slots.staged.None? && x.slots.prior.None? && targets[k].staged == Some(x.candidate)
      ensures old(process.Undisturbed()) && Unobstructed(x) ==> r.Done?
    {
      if targets[k].staged.Some? || targets[k].prior.Some? {
        assert targets == targets[k := targets[k]];
        return Raised(PathsExist);
      }
      targets := targets[k := targets[k].(staged := Some(x.candidate))];
      r := Boundary();
    }

    /** One target: stage a copy, record the swap, apply it. */
    method AtomicSwap(x: Planned) returns (r: Outcome, ghost added: Option<Shot>)
      requires Valid() && |files.swaps| < |targets| && targets[|files.swaps|] == x.slots
      modifies process, files, this`catalog, this`targets
      ensures Valid() && process.Later()
      ensures old(process.Untampered()) ==> catalog == old(catalog)
      // Until the swap is on record, only its staging name has changed, and nothing of any other target.
      ensures var k := |old(files.swaps)|;
              |targets| == |old(targets)| && targets == old(targets)[k := x.slots.(staged := targets[k].staged)]
      ensures match added
              case None => files.State() == old(files.State()) && !r.Done?
              case Some(last) =>
                && files.State() == old(files.State()).And(last)
                && last.record.original == x.slots.live
                && (old(process.Untampered()) && Plausible(x) ==>
                      && Reachable(last.view, last.record) && last.account.NeverDisplaces()
                      && (r.Done? ==> last.record.state.Committed? && last.view == View(Some(x.candidate), x.slots.live, None, None)))
      ensures old(process.Undisturbed()) && Unobstructed(x) ==> r.Done?
    {
      var k := |files.swaps|;
      added := None;
      r := Stage(x, k);
      if r.IsFailure() {
        return;
      }
      var swap := new FileSwap(x.kind, targets[k], x.candidate);
      r := swap.Apply(process);
      files.Add(swap);
      added := Some(swap.Look());
    }

    /** The journaled swaps are the first ones of the plan, with what their targets held. */
    ghost predicate FollowsPlan(plan: seq<Planned>)
      reads files, this`targets
    {
      |files.swaps| <= |plan| == |targets| && files.State().Originals(Originals(plan, |files.swaps|))
    }

    /** Nothing has been done to targets without a swap on record. */
    ghost predicate Intact(plan: seq<Planned>)
      reads files, this`targets
    {
      IntactFrom(targets, plan, |files.swaps|)
    }

    /** Nothing but staging a copy for the next one. */
    ghost predicate StagedAtMost(plan: seq<Planned>)
      reads files, this`targets
    {
      StagedFrom(targets, plan, |files.swaps|)
    }

    /** Every swap so far is committed, with the copy of its target in place. */
    ghost predicate Installed(plan: seq<Planned>)
      reads files
    {
      |files.swaps| <= |plan| && files.State().AllInstalled(Candidates(plan, |files.swaps|))
    }

    /** The files as a killed or failed restore may leave them. */
    ghost predicate FilesCovered()
      reads files
    {
      files.State().AllReachable() && files.State().NoneDisplaces()
    }

    /** The next target of the plan. */
    method RestoreNext(plan: seq<Planned>) returns (r: Outcome)
      requires Valid() && FollowsPlan(plan) && Intact(plan) && |files.swaps| < |plan|
      modifies process, files, this`catalog, this`targets
      ensures Valid() && FollowsPlan(plan) && StagedAtMost(plan) && process.Later()
      ensures |old(files.swaps)| <= |files.swaps| <= |old(files.swaps)| + 1
      ensures |files.swaps| > |old(files.swaps)| ==> Intact(plan)
      ensures r.Done? ==> |files.swaps| == |old(files.swaps)| + 1
      ensures old(process.Untampered()) ==> catalog == old(catalog)
      ensures old(process.Untampered() && FilesCovered()) && Plausible(plan[|old(files.swaps)|]) ==> FilesCovered()
      ensures old(process.Untampered() && Installed(plan)) && Plausible(plan[|old(files.swaps)|]) && r.Done? ==> Installed(plan)
      ensures old(process.Undisturbed()) && Unobstructed(plan[|old(files.swaps)|]) ==> r.Done?
    {
      var k := |files.swaps|;
      ghost var before, found := files.State(), targets;
      ghost var added;
      r, added := AtomicSwap(plan[k]);
      StagedNext(found, targets, plan, k, targets[k].staged);
      if added.Some? {
        AddedStays(before, added.value, Originals(plan, k), Candidates(plan, k), plan[k].candidate);
        OneMoreOriginal(plan, k);
      }
    }

    /** `restore_files`. */
    method RestoreFiles(plan: seq<Planned>) returns (r: Outcome)
      requires Valid() && files.swaps == [] && Intact(plan)
      modifies process, files, this`catalog, this`targets
      ensures Valid() && FollowsPlan(plan) && StagedAtMost(plan) && process.Later()
      ensures old(process.Untampered()) ==> catalog == old(catalog)
      ensures old(process.Untampered()) && (forall x :: x in plan ==> Plausible(x)) ==>
                FilesCovered() && (r.Done? ==> |files.swaps| == |plan| && Installed(plan))
      ensures old(process.Undisturbed()) && (forall x :: x in plan ==> Unobstructed(x)) ==> r.Done?
    {
      while |files.swaps| < |plan|
        invariant Valid() && FollowsPlan(plan) && Intact(plan) && process.Later()
        invariant old(process.Untampered()) ==> catalog == old(catalog)
        invariant old(process.Untampered()) && (forall x :: x in plan ==> Plausible(x)) ==> FilesCovered() && Installed(plan)
        decreases |plan| - |files.swaps|
      {
        r := RestoreNext(plan);
        if !r.Done? {
          return;
        }
      }
      r := Done;
    }

    // --------------------------------------------------------------------- the run

    /** The database phases of `run`. */
    method RestoreDatabase(created: Oid, ghost original: Oid) returns (r: Outcome)
      requires record == saved
      modifies process, this`catalog, this`record, this`saved
      ensures process.Later() && record == saved && (r.Done? ==> record.switched)
      ensures old(process.Untampered() && DatabaseCovered(original) && !record.switchAttempted) ==>
                && DatabaseCovered(original)
                && (r.Done? ==> catalog[original] == names.rollback && NameOf(catalog, created) == Some(names.live))
                && (old(process.Undisturbed() && NamesFree()) && created !in old(catalog) && 0 < created ==> r.Done?)
    {
      r := Boundary();
      if r.IsFailure() {
        return;
      }
      :- TempDatabaseRestore(created, original);
      :- Boundary();
      r := SwitchDatabase(original);
    }

    /** `run`, with the phases that other programs carry out as boundaries. */
    method Run(plan: seq<Planned>, created: Oid, ghost original: Oid) returns (r: Outcome)
      requires Valid() && files.swaps == [] && Intact(plan) && record == saved
      modifies process, files, this`catalog, this`targets, this`record, this`saved
      ensures Valid() && FollowsPlan(plan) && StagedAtMost(plan) && process.Later() && record == saved
      // No target is touched before the database is switched.
      ensures files.swaps != [] ==> record.switched
      // Killed or failed anywhere, every deviation is already on record.
      ensures old(process.Untampered() && DatabaseCovered(original) && !record.switchAttempted) && (forall x :: x in plan ==> Plausible(x)) ==>
                && DatabaseCovered(original) && FilesCovered()
                && (r.Done? ==>
                      && |files.swaps| == |plan| && Installed(plan)
                      && catalog[original] == names.rollback && NameOf(catalog, created) == Some(names.live))
      ensures old(process.Undisturbed() && DatabaseCovered(original) && !record.switchAttempted && NamesFree())
              && created !in old(catalog) && 0 < created && (forall x :: x in plan ==> Unobstructed(x))
              ==> r.Done?
    {
      r := RestoreDatabase(created, original);
      if r.IsFailure() {
        return;
      }
      :- RestoreFiles(plan);
      r := Boundary();
    }

    // -------------------------------------------------------------------- rollback

    /** `_verify_completed_database_rollback`, on the catalog as probed. */
    predicate RollbackVerified(original: Oid, temp: Oid)
      reads this`catalog
    {
      && NameOf(catalog, original) == Some(names.live)
      && !Occupied(catalog, names.rollback)
      && (forall o :: o in catalog && (catalog[o] == names.temp || catalog[o] == names.failed) ==> o == temp)
      && !(Occupied(catalog, names.temp) && Occupied(catalog, names.failed))
    }

    lemma RecoveredIsVerified(original: Oid, temp: Oid)
      requires NamesUnique(catalog) && names.Distinct()
      requires Recognised(catalog, names, original, temp) && Recovered(catalog, names, original, temp)
      ensures RollbackVerified(original, temp)
    {
    }

    /** The rollback transaction, and the probe that confirms it. */
    method RunRollbackAuthority(live: Oid, temp: Oid) returns (r: Outcome)
      modifies process, this`catalog
      ensures process.Later() && process.clock <= old(process.clock) + 1
      ensures process.QuietSince(old(process.clock)) ==> !r.Killed?
      // Whoever changes the catalog, a probe that confirms has seen the original live.
      ensures r.Done? ==> NameOf(catalog, live) == Some(names.live) && !Occupied(catalog, names.rollback)
      ensures old(process.Untampered() && NamesUnique(catalog) && Recognised(catalog, names, live, temp)) &&
                names.Distinct() && 0 < live && 0 < temp && live != temp ==>
                && NamesUnique(catalog) && Recognised(catalog, names, live, temp)
                && (r.Done? ==> Recovered(catalog, names, live, temp))
                && (process.QuietSince(old(process.clock)) ==> r.Done?)
    {
      if NamesUnique(catalog) && names.Distinct() && 0 < live && 0 < temp && live != temp {
        RollbackIff(catalog, names, live, temp);
      }
      var undone := DatabaseAuthority.Rollback(catalog, names, live, temp);
      if undone.None? {
        return Raised(AuthorityRefused);
      }
      catalog := undone.value;
      :- Boundary();
      if NamesUnique(catalog) && names.Distinct() && Recognised(catalog, names, live, temp) && Recovered(catalog, names, live, temp) {
        RecoveredIsVerified(live, temp);
      }
      return if RollbackVerified(live, temp) then Done else Raised(IdentitiesInconsistent);
    }

    /** `_rollback_database`. */
    method RollbackDatabase(ghost original: Oid) returns (r: Outcome)
      requires record == saved
      modifies process, this`catalog, this`record, this`saved
      ensures process.Later() && record == saved && record.switchAttempted == old(record).switchAttempted
      ensures process.clock <= old(process.clock) + 3
      ensures process.QuietSince(old(process.clock)) ==> !r.Killed?
      ensures old(record).status.Complete? ==> record == old(record) && catalog == old(catalog)
      // A rollback already complete is probed again, whatever has become of the catalog since.
      ensures old(record).status.Complete? && r.Done? ==>
                record.intent.Some? && NameOf(catalog, record.intent.value.original) == Some(names.live) && !Occupied(catalog, names.rollback)
      ensures old(process.Untampered() && DatabaseCovered(original) && record.switchAttempted) ==>
                && DatabaseCovered(original)
                && (r.Done? ==> catalog[original] == names.live && record.status.Complete?)
                && (process.QuietSince(old(process.clock)) || old(record).status.Complete? ==> r.Done?)
    {
      if record.intent.None? || record.intent.value.original == 0 || record.intent.value.temp == 0
         || record.intent.value.original == record.intent.value.temp
      {
        return Raised(IdentitiesInconsistent);
      }
      var SwitchIntent(live, temp) := record.intent.value;
      if record.identity.Some? && record.identity.value != live {
        return Raised(IdentityChanged);
      }
      if record.status.Complete? {
        if DatabaseCovered(original) && record.switchAttempted {
          RecoveredIsVerified(live, temp);
        }
        return if RollbackVerified(live, temp) then Done else Raised(IdentitiesInconsistent);
      }
      :- Save(record.(status := InProgress, identity := Some(live)));
      :- RunRollbackAuthority(live, temp);
      r := Save(record.(status := Complete, identity := Some(live)));
    }

    /** A rollback has taken care of the database. */
    ghost predicate DatabaseFinished()
      reads this`record
    {
      if record.switchAttempted then record.status.Complete? else record.status.NotRequired?
    }

    /** What became of a component goes on record; if that fails the rollback is over. */
    method Transition(attempt: Outcome) returns (r: Outcome)
      modifies process, this`catalog
      ensures process.Later()
      ensures old(process.Untampered()) ==> catalog == old(catalog)
      ensures r == attempt || r.Killed?
      ensures process.QuietSince(old(process.clock)) ==> r == attempt
    {
      if attempt.Killed? {
        return Killed;
      }
      r := Boundary();
      r := if r.Done? then attempt else Killed;
    }

    /** The database component of `rollback`. */
    method AttemptDatabase(ghost original: Oid) returns (r: Outcome)
      requires record == saved
      modifies process, this`catalog, this`record, this`saved
      ensures process.Later() && record == saved && record.switchAttempted == old(record).switchAttempted
      ensures process.clock <= old(process.clock) + 4
      ensures process.QuietSince(old(process.clock)) ==> !r.Killed?
      ensures r.Done? ==> DatabaseFinished()
      ensures r.Raised? ==> record.status == Status.Failed
      ensures old(process.Untampered() && DatabaseCovered(original)) ==>
                && DatabaseCovered(original)
                && (r.Done? ==> catalog[original] == names.live)
                && (process.QuietSince(old(process.clock)) ==> r.Done?)
                && (old(DatabaseFinished()) ==> record == old(record) && catalog == old(catalog))
    {
      if !record.switchAttempted {
        r := Save(record.(status := NotRequired));
        return if r.Done? then Done else Killed;
      }
      r := RollbackDatabase(original);
      if r.Killed? {
        return;
      }
      var kept := Save(record.(status := if r.Done? then Complete else Status.Failed));
      r := if kept.Done? then r else Killed;
    }

    /** A complete rollback is on record. */
    ghost predicate Finished()
      reads this`record, files
    {
      DatabaseFinished() && files.State().AllRolledBack()
    }

    /** The first component of `rollback`. */
    method StopWriters() returns (r: Outcome)
      modifies process, this`catalog
      ensures process.Later() && process.clock > old(process.clock)
      ensures old(process.Untampered()) ==> catalog == old(catalog)
      ensures process.QuietSince(old(process.clock)) ==> r.Done?
      ensures old(process.OneFailure()) ==> !r.Killed? && process.Undisturbed()
    {
      r := Boundary();
      r := Transition(r);
    }

    /** The second: the swaps are attempted whether or not the writers could be stopped. */
    method AttemptFiles(ghost untampered: bool, ghost atomic: bool)
      returns (r: Outcome, ghost reached: nat, ghost turns: seq<nat>)
      requires Valid() && (untampered ==> process.Untampered()) && (atomic ==> process.Atomic())
      modifies process, files, this`catalog
      ensures Valid() && process.Later()
      ensures untampered ==> catalog == old(catalog)
      ensures Rolling(old(files.State()), files.State(), reached, untampered, atomic, process.world, turns)
      ensures !r.Killed? ==> reached == if old(files.State()).AllValidated() then 0 else |files.swaps|
      ensures r.Done? ==> files.State().AllRolledBack() && AllInPlace(old(files.State()), files.State(), untampered)
      ensures untampered && old(process.Undisturbed() && files.State().AllReachable()) ==> r.Done?
      ensures old(process.OneFailure()) ==> !r.Killed? && process.Undisturbed() && QuietIn(process.world, turns[|turns| - 1], turns[0])
    {
      var stopped := StopWriters();
      if stopped.Killed? {
        r, reached, turns := Killed, |files.swaps|, [process.clock];
        return;
      }
      r, reached, turns := files.RollbackFiles(process, untampered, atomic);
      r := Transition(r);
      if r.Done? {
        r := stopped;
      }
    }

    /** The other components of `rollback`: the database, and the services again. */
    method AttemptRest(ghost original: Oid) returns (r: Outcome)
      requires record == saved
      modifies process, this`catalog, this`record, this`saved
      ensures process.Later() && record == saved && process.clock <= old(process.clock) + 5
      ensures process.QuietSince(old(process.clock)) ==> !r.Killed?
      ensures r.Done? ==> DatabaseFinished()
      ensures r.Raised? ==> DatabaseFinished() || record.status == Status.Failed
      ensures old(process.Untampered() && DatabaseCovered(original)) ==>
                && DatabaseCovered(original)
                && (r.Done? ==> catalog[original] == names.live)
                && (process.QuietSince(old(process.clock)) ==> r.Done?)
                && (old(DatabaseFinished()) ==> record == old(record) && catalog == old(catalog))
    {
      var database := AttemptDatabase(original);
      if database.Killed? {
        return Killed;
      }
      var services := Boundary();
      if services.Killed? {
        return Killed;
      }
      return if services.Done? then database else services;
    }

    /** All components, each attempted whatever became of the ones before it. */
    method AttemptAll(ghost original: Oid, ghost untampered: bool, ghost atomic: bool)
      returns (r: Outcome, ghost reached: nat, ghost turns: seq<nat>)
      requires Valid() && record == saved && (untampered ==> process.Untampered()) && (atomic ==> process.Atomic())
      modifies process, files, this`catalog, this`record, this`saved
      ensures Valid() && process.Later() && record == saved
      ensures Rolling(old(files.State()), files.State(), reached, untampered, atomic, process.world, turns)
      ensures !r.Killed? ==>
                && reached == (if old(files.State()).AllValidated() then 0 else |files.swaps|)
                && (DatabaseFinished() || record.status == Status.Failed)
      ensures reached > 0 && old(files.State()).AllValidated() ==> record == old(record) && (untampered ==> catalog == old(catalog))
      ensures r.Done? ==> Finished() && AllInPlace(old(files.State()), files.State(), untampered)
      ensures old(process.OneFailure()) ==> !r.Killed? && QuietIn(process.world, turns[|turns| - 1], turns[0])
      ensures untampered && old(DatabaseCovered(original)) ==>
                && DatabaseCovered(original)
                && (r.Done? || old(process.OneFailure()) || (!r.Killed? && process.QuietSince(process.clock - 5)) ==>
                      NameOf(catalog, original) == Some(names.live))
                && (old(process.Undisturbed() && files.State().AllReachable()) ==> r.Done?)
                && (old(DatabaseFinished()) ==> record == old(record) && catalog == old(catalog))
    {
      r, reached, turns := AttemptFiles(untampered, atomic);
      if r.Killed? {
        return;
      }
      var rest := AttemptRest(original);
      if rest.Killed? {
        r := Killed;
        return;
      }
      r := if r.Done? && rest.Done? then Done else Raised(ComponentsFailed);
    }

    /** `rollback`: every component is attempted; it is complete when none failed. */
    method Rollback(ghost original: Oid) returns (r: Outcome, ghost reached: nat, ghost turns: seq<nat>)
      requires Valid() && record == saved
      modifies process, files, this`catalog, this`record, this`saved
      ensures Valid() && process.Later() && record == saved
      ensures KeepsFiles(old(files.State()), files.State(), old(process.Untampered()), old(process.Atomic()))
      ensures old(process.Untampered() && DatabaseCovered(original)) ==> DatabaseCovered(original)
      // Complete means restored.
      ensures r.Done? ==> Finished() && AllInPlace(old(files.State()), files.State(), old(process.Untampered()))
      ensures r.Done? && old(process.Untampered() && DatabaseCovered(original)) ==> NameOf(catalog, original) == Some(names.live)
      ensures old(process.Undisturbed() && files.State().AllReachable() && DatabaseCovered(original)) ==> r.Done?
      // The swaps are attempted one by one, newest first, and the database after them, whatever becomes of any of them.
      ensures Rolling(old(files.State()), files.State(), reached, old(process.Untampered()), old(process.Atomic()), process.world, turns)
      ensures !r.Killed? ==>
                && reached == (if old(files.State()).AllValidated() then 0 else |files.swaps|)
                && (DatabaseFinished() || record.status == Status.Failed)
      ensures reached > 0 && old(files.State()).AllValidated() ==>
                record == old(record) && (old(process.Untampered()) ==> catalog == old(catalog))
      ensures !r.Killed? && old(process.Untampered() && DatabaseCovered(original)) && process.QuietSince(process.clock - 5) ==>
                NameOf(catalog, original) == Some(names.live)
      // A failure to stop the writers costs nothing else, and a swap that cannot be restored costs nothing but itself.
      ensures old(process.OneFailure() && DatabaseCovered(original)) ==> NameOf(catalog, original) == Some(names.live)
      ensures old(process.OneFailure() && files.State().AllReachable()) ==>
                files.State().AllRolledBack() && AllInPlace(old(files.State()), files.State(), true)
      // After a complete rollback another one changes nothing.
      ensures old(Finished()) ==> files.swaps == old(files.swaps)
      ensures old(Finished() && process.Untampered() && DatabaseCovered(original)) ==> catalog == old(catalog) && record == old(record)
    {
      ghost var before, untampered, atomic := files.State(), process.Untampered(), process.Atomic();
      r, reached, turns := AttemptAll(original, untampered, atomic);
      RollingIsKept(before, files.State(), reached, untampered, atomic, process.world, turns);
      if old(process.OneFailure()) && before.AllReachable() {
        QuietIsInPlace(before, files.State(), atomic, process.world, turns);
      }
    }

    /** Any number of rollbacks that are killed or fail anywhere. */
    method RollbackRepeatedly(rounds: nat, ghost original: Oid, ghost originals: seq<Option<Identity>>)
      requires Valid() && record == saved && files.State().Originals(originals)
      modifies process, files, this`catalog, this`record, this`saved
      ensures Valid() && process.Later() && record == saved && files.State().Originals(originals)
      ensures old(process.Untampered() && process.Atomic() && FilesCovered() && DatabaseCovered(original)) ==>
                FilesCovered() && DatabaseCovered(original)
    {
      for k := 0 to rounds
        invariant Valid() && record == saved && process.Later() && files.State().Originals(originals)
        invariant old(process.Untampered() && process.Atomic() && FilesCovered() && DatabaseCovered(original)) ==>
                    FilesCovered() && DatabaseCovered(original)
      {
        var again, _, _ := Rollback(original);
      }
    }

    /** A rollback that is left in peace. */
    method Recover(ghost original: Oid, ghost originals: seq<Option<Identity>>) returns (r: Outcome)
      requires Valid() && record == saved && files.State().Originals(originals)
      modifies process, files, this`catalog, this`record, this`saved
      ensures Valid() && process.Later() && files.State().Originals(originals)
      ensures old(process.Undisturbed() && FilesCovered() && DatabaseCovered(original)) ==>
                && r.Done? && Finished() && files.State().AllRestored(originals) && files.State().NoneDisplaces()
                && NameOf(catalog, original) == Some(names.live)
    {
      ghost var before := files.State();
      ghost var reached, turns;
      r, reached, turns := Rollback(original);
      if old(process.Undisturbed() && FilesCovered() && DatabaseCovered(original)) {
        InPlaceIsRestored(before, files.State(), originals);
      }
    }

    /** A restore that is killed or fails anywhere, any number of rollbacks that are killed or
        fail anywhere, and one rollback that is left in peace. */
    method RestoreThenRecover(plan: seq<Planned>, created: Oid, rounds: nat, ghost original: Oid)
      returns (ran: Outcome, recovered: Outcome, ghost lastStart: nat)
      requires Valid() && files.swaps == [] && Intact(plan) && record == saved
      modifies process, files, this`catalog, this`targets, this`record, this`saved
      ensures Valid() && FollowsPlan(plan) && StagedAtMost(plan)
      ensures
        old(process.Untampered() && process.Atomic() && DatabaseCovered(original) && !record.switchAttempted) &&
        (forall x :: x in plan ==> Plausible(x)) &&
        (forall k :: lastStart <= k ==> process.world(k).Quiet?) ==>
          && recovered.Done? && Finished() && files.State().NoneDisplaces()
          && NameOf(catalog, original) == Some(names.live)
          && files.State().AllRestored(Originals(plan, |files.swaps|))
    {
      ran := Run(plan, created, original);
      ghost var originals := Originals(plan, |files.swaps|);
      RollbackRepeatedly(rounds, original, originals);
      lastStart := process.clock;
      recovered := Recover(original, originals);
    }
  }
}
