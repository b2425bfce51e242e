/**
 The restore script's file swaps: the forward swap and the restartable rollback, as
 methods over one swap's slots, its journal record in memory and its record on disk.

 Faults come from a `Process`: the n-th boundary it passes asks `world(n)` what happens
 there.  The script has such a boundary after every rename, removal, fsync and journal
 save.
 */
module FileSwaps {
  import opened Options
  import opened SwapProtocol
  import opened DatabaseAuthority

  datatype Error =
    | Injected
    | SourceMissing
    | SourceChanged
    | DestinationExists
    | BothMissing
    | IntentMissing
    | PathsExist
    | PathsChanged
    | OriginalMissing
    | UnexpectedOriginal
    | UnrelatedTarget
    | InvalidJournal
    | SwapsFailed
    | NamesOccupied
    | AuthorityRefused
    | IdentitiesInconsistent
    | IdentityChanged
    | ComponentsFailed

  datatype Outcome = Done | Raised(error: Error) | Killed {
    predicate IsFailure() {
      !Done?
    }

    function PropagateFailure(): Outcome
      requires IsFailure()
    {
      this
    }
  }

  /** The running script as far as faults are concerned. */
  class Process {
    const world: nat -> Event
    var clock: nat

    constructor (world: nat -> Event)
      ensures this.world == world && clock == 0
    {
      this.world := world;
      clock := 0;
    }

    /** From here on nobody else touches the slots or the catalog. */
    ghost predicate Untampered()
      reads this
    {
      forall k :: clock <= k ==> !world(k).Outside?
    }

    /** From here on no directory removal is cut short. */
    ghost predicate Atomic()
      reads this
    {
      forall k :: clock <= k ==> !world(k).Tearing?
    }

    /** From here on nothing goes wrong at all. */
    ghost predicate Undisturbed()
      reads this
    {
      forall k :: clock <= k ==> world(k).Quiet?
    }

    /** Nothing but perhaps an exception at the very next hook. */
    ghost predicate OneFailure()
      reads this
    {
      (world(clock).Quiet? || world(clock).Fail?) && forall k :: clock < k ==> world(k).Quiet?
    }

    /** Nothing went wrong at the hooks passed since. */
    ghost predicate QuietSince(t: int)
      reads this
    {
      forall k :: t <= k < clock && 0 <= k ==> world(k).Quiet?
    }

    twostate predicate Later()
      reads this
    {
      && old(clock) <= clock
      && (old(Untampered()) ==> Untampered())
      && (old(Atomic()) ==> Atomic())
      && (old(Undisturbed()) ==> Undisturbed())
    }

    method Tick() returns (e: Event)
      modifies this`clock
      ensures Later() && clock == old(clock) + 1 && e == world(old(clock))
      ensures old(Untampered()) ==> !e.Outside?
      ensures old(Atomic()) ==> !e.Tearing?
      ensures old(Undisturbed()) ==> e.Quiet?
    {
      e := world(clock);
      clock := clock + 1;
    }
  }

  /** What is left of a swap between two runs: its slots, and its record in the journal. */
  datatype Kept = Kept(view: View, record: Swap)

  /** The account explains them. */
  ghost predicate Explains(a: Account, k: Kept) {
    && k.view == a.End()
    && k.record == a.Durable()
    && SameSwap(a.heading.first, k.record)
    && (a.heading.Sound() ==> k.record.Consistent())
  }

  /** A swap as it is at some moment. */
  datatype Shot = Shot(view: View, record: Swap, account: Account) {
    /** There is an original other than the candidate at one of its two names. */
    ghost predicate KeepsOriginal() {
      account.heading.Sound() && record.existed && record.original != Some(record.candidate) && HasOriginal(view, record)
    }
  }

  /** What a rollback attempt does to a swap, whether or not it gets through. */
  ghost predicate Attempted(a: Shot, b: Shot, untampered: bool, atomic: bool, undisturbed: bool) {
    && SameSwap(a.record, b.record)
    && (a.account.NeverDisplaces() ==> b.account.NeverDisplaces())
    && (a.record.rollback.RolledBack? ==> b.view == a.view && b.record == a.record)
    && (untampered && a.KeepsOriginal() ==> HasOriginal(b.view, b.record))
    && (untampered && Producible(a.view, a.record) ==> Producible(b.view, b.record))
    && (untampered && (atomic || a.record.kind.FileSwap?) && Reachable(a.view, a.record) ==> Reachable(b.view, b.record))
    && (untampered && undisturbed && Reachable(a.view, a.record) ==> Restored(b.view, b.record))
  }

  /** Any slots and any record read from a journal begin an account of their own. */
  lemma OpenedExplains(k: Kept)
    ensures Explains(Opened(k.view, k.record), k)
  {
  }

  /** What a rollback that got through has done, whatever the slots held. */
  ghost predicate PutInPlace(a: Shot, b: Shot, untampered: bool) {
    && b.record.rollback.RolledBack?
    && (untampered && a.record.Consistent() ==> b.view == b.record.OriginalView())
  }

  class FileSwap {
    var view: View
    var record: Swap
    var saved: Swap
    ghost var account: Account

    /** Slots and durable record are accounted for, and a sound record stays sound. */
    ghost predicate Sane()
      reads this
    {
      && view == account.End()
      && saved == account.Durable()
      && SameSwap(account.heading.first, record)
      && (account.heading.Sound() ==> record.Consistent())
    }

    /** An attempt of this process is going on. */
    ghost predicate Valid(p: Process)
      reads this, p
    {
      Sane() && account.heading.world == p.world && account.until <= p.clock
    }

    /** Only a directory can be half removed. */
    ghost predicate MayTear(atomic: bool)
      reads this
    {
      !atomic && record.kind.DirectorySwap?
    }

    /** The attempt goes on: its account only grows. */
    twostate predicate Continues()
      reads this
    {
      account.heading == old(account.heading)
    }

    /** A whole attempt: everything before it is past, and everything in it is accounted for in the
        world of this process, since the hook at which it began. */
    twostate predicate Accounts(p: Process, undoing: bool)
      reads this, p
    {
      account.heading == Renewed(old(account), p.world, old(p.clock), undoing) && account.until <= p.clock
    }

    function Keep(): Kept
      reads this
    {
      Kept(view, record)
    }

    ghost function Look(): Shot
      reads this
    {
      Shot(view, record, account)
    }

    /** There is an original other than the candidate at one of its two names. */
    ghost predicate KeepsOriginal()
      reads this
    {
      Look().KeepsOriginal()
    }

    /** `_prepare_file_swap`: the candidate is staged; record it and what the target held. */
    constructor (kind: Kind, slots: View, candidate: Identity)
      ensures record == saved && view == slots
      ensures record == Swap(kind, slots.live.Some?, slots.live, candidate, Prepared, NotStarted, None)
      ensures account == Opened(slots, record)
    {
      view := slots;
      record := Swap(kind, slots.live.Some?, slots.live, candidate, Prepared, NotStarted, None);
      saved := Swap(kind, slots.live.Some?, slots.live, candidate, Prepared, NotStarted, None);
      account := Opened(slots, Swap(kind, slots.live.Some?, slots.live, candidate, Prepared, NotStarted, None));
    }

    /** A swap as it is found again in the journal and on disk. */
    constructor Found(k: Kept, ghost a: Account)
      requires Explains(a, k)
      ensures Sane() && record == saved && Look() == Shot(k.view, k.record, a)
    {
      view, record, saved := k.view, k.record, k.record;
      account := a;
    }

    /** A new attempt of this process begins. */
    ghost method BeginAttempt(p: Process, undoing: bool)
      requires Sane()
      modifies this`account
      ensures Valid(p) && account == Ledger(Renewed(old(account), p.world, p.clock, undoing), [], p.clock)
      ensures old(account.NeverDisplaces()) ==> account.NeverDisplaces()
    {
      account := Begin(account, p.world, p.clock, undoing);
    }

    /** A fault hook. */
    method Boundary(p: Process) returns (r: Outcome)
      requires Valid(p)
      modifies p, this`view, this`account
      ensures Valid(p) && Continues() && p.Later()
      ensures old(account.NeverDisplaces()) ==> account.NeverDisplaces()
      ensures old(p.Untampered()) ==> view == old(view)
      ensures p.QuietSince(old(p.clock)) ==> r.Done?
      ensures r.Raised? ==> r.error.Injected?
    {
      var e := p.Tick();
      match e {
        case Quiet => r := Done;
        case Kill => r := Killed;
        case Fail => r := Raised(Injected);
        case Tearing(_, fatal) => r := if fatal then Killed else Raised(Injected);
        case Outside(changed, _) =>
          account := Append(account, Foreign(saved, view, p.clock - 1, changed));
          view := changed;
          r := Done;
      }
    }

    /** Change the record, save the journal, pass the fault hook. */
    method Journal(p: Process, s: Swap) returns (r: Outcome)
      requires Valid(p) && SameSwap(record, s) && (account.heading.Sound() ==> s.Consistent())
      modifies p, this
      ensures Valid(p) && Continues() && p.Later()
      ensures record == s && saved == s
      ensures old(account.NeverDisplaces()) ==> account.NeverDisplaces()
      ensures old(p.Untampered()) ==> view == old(view)
      ensures p.QuietSince(old(p.clock)) ==> r.Done?
      ensures r.Raised? ==> r.error.Injected?
    {
      record := s;
      saved := record;
      account := Append(account, Save(saved, view));
      r := Boundary(p);
    }

    /** `os.rename` on the way forward. */
    method RenameForward(p: Process, source: Slot, destination: Slot)
      requires Valid(p) && !account.heading.undoing && record == saved && Authorised(ForwardMove(saved, view, source, destination))
      modifies this`view, this`account
      ensures Valid(p) && Continues()
      ensures view == old(view).Renamed(source, destination)
      ensures old(account.NeverDisplaces() && view.Get(destination).None?) ==> account.NeverDisplaces()
    {
      account := Append(account, ForwardMove(saved, view, source, destination));
      view := view.Renamed(source, destination);
    }

    /** One forward `os.rename` with its fsync, each followed by a fault hook. */
    method Advance(p: Process, source: Slot, destination: Slot, state: ForwardState) returns (r: Outcome)
      requires Valid(p) && record == saved && source != destination
      requires Authorised(ForwardMove(saved, view, source, destination)) && record.rollback.NotStarted? && !account.heading.undoing
      modifies p, this
      ensures Valid(p) && Continues() && p.Later() && record == saved
      ensures record == old(record) || record == old(record).(state := state)
      ensures r.Done? ==> record == old(record).(state := state)
      ensures old(p.Untampered()) ==>
                && (view == old(view).Renamed(source, destination) || (view == old(view) && record == old(record) && !r.Done?))
                && (old(account.NeverDisplaces() && view.Get(destination).None?) ==> account.NeverDisplaces())
                && (old(view).Get(source).Some? ==> (r.Raised? ==> r.error.Injected?) && (p.QuietSince(old(p.clock)) ==> r.Done?))
    {
      if view.Get(source).None? {
        return Raised(SourceMissing);
      }
      RenameForward(p, source, destination);
      r := Recorded(p, state);
    }

    /** The two hooks after a forward rename, and its journal entry. */
    method Recorded(p: Process, state: ForwardState) returns (r: Outcome)
      requires Valid(p) && record == saved && record.rollback.NotStarted? && !account.heading.undoing
      modifies p, this
      ensures Valid(p) && Continues() && p.Later() && record == saved
      ensures record == old(record) || record == old(record).(state := state)
      ensures r.Done? ==> record == old(record).(state := state)
      ensures old(p.Untampered()) ==> view == old(view)
      ensures old(account.NeverDisplaces()) ==> account.NeverDisplaces()
      ensures r.Raised? ==> r.error.Injected?
      ensures p.QuietSince(old(p.clock)) ==> r.Done?
    {
      r := Boundary(p);
      if r.IsFailure() {
        return;
      }
      :- Boundary(p);
      r := Journal(p, record.(state := state));
    }

    /** Move the original aside, if there is one, and journal that. */
    method SetOriginalAside(p: Process) returns (r: Outcome)
      requires Valid(p) && record == saved && record.state.Prepared? && record.rollback.NotStarted? && !account.heading.undoing
      modifies p, this
      ensures Valid(p) && Continues() && p.Later() && record == saved
      ensures record == old(record) || record == old(record).(state := OldMoved)
      ensures r.Done? ==> record.state.OldMoved?
      ensures old(p.Untampered()) ==>
                var aside := if record.existed then old(view).Renamed(Live, Prior) else old(view);
                && (view == aside || (view == old(view) && record == old(record)))
                && (r.Done? ==> view == aside)
                && (old(account.NeverDisplaces() && view.prior.None?) ==> account.NeverDisplaces())
                && (!record.existed || old(view).live.Some? ==>
                      (r.Raised? ==> r.error.Injected?) && (p.QuietSince(old(p.clock)) ==> r.Done?))
    {
      r := Boundary(p);
      if r.IsFailure() {
        return;
      }
      if record.existed {
        r := Advance(p, Live, Prior, OldMoved);
      } else {
        r := Recorded(p, OldMoved);
      }
    }

    /** Setting the original aside, seen from a prepared swap. */
    method AsideStep(p: Process) returns (r: Outcome)
      requires Valid(p) && record == saved && record.state.Prepared? && record.rollback.NotStarted? && !account.heading.undoing
      modifies p, this
      ensures Valid(p) && Continues() && p.Later() && record == saved && SameSwap(old(record), record)
      ensures r.Done? ==> record.state.OldMoved? && record.rollback.NotStarted?
      ensures old(p.Untampered()) && old(Reachable(view, record)) && old(view).live == old(record).original ==>
                && Reachable(view, record)
                && (r.Raised? ==> r.error.Injected?)
                && (r.Done? ==> view.live.None? && view.staged.Some?)
                && (p.QuietSince(old(p.clock)) ==> r.Done?)
                && (old(account.NeverDisplaces()) ==> account.NeverDisplaces())
    {
      r := SetOriginalAside(p);
    }

    /** Putting the candidate in place, seen from a swap whose original is aside. */
    method InstallStep(p: Process) returns (r: Outcome)
      requires Valid(p) && record == saved && record.state.OldMoved? && record.rollback.NotStarted? && !account.heading.undoing
      modifies p, this
      ensures Valid(p) && Continues() && p.Later() && record == saved && SameSwap(old(record), record)
      ensures r.Done? ==> record == old(record).(state := Applied)
      ensures old(p.Untampered()) && old(Reachable(view, record) && view.live.None? && view.staged.Some?) ==>
                && Reachable(view, record)
                && (r.Raised? ==> r.error.Injected?)
                && (p.QuietSince(old(p.clock)) ==> r.Done?)
                && (old(account.NeverDisplaces()) ==> account.NeverDisplaces())
    {
      r := Advance(p, Staged, Live, Applied);
    }

    /** The last journal entry of a forward swap. */
    method CommitStep(p: Process) returns (r: Outcome)
      requires Valid(p) && record == saved && record.state.Applied? && record.rollback.NotStarted?
      modifies p, this
      ensures Valid(p) && Continues() && p.Later() && record == saved == old(record).(state := Committed)
      ensures r.Raised? ==> r.error.Injected?
      ensures p.QuietSince(old(p.clock)) ==> r.Done?
      ensures old(p.Untampered() && Reachable(view, record)) ==> Reachable(view, record)
      ensures old(account.NeverDisplaces()) ==> account.NeverDisplaces()
    {
      r := Journal(p, record.(state := Committed));
    }

    /** The two renames and the last journal entry. */
    method ApplySteps(p: Process) returns (r: Outcome)
      requires Valid(p) && record == saved && record.state.Prepared? && record.rollback.NotStarted? && !account.heading.undoing
      modifies p, this
      ensures Valid(p) && Continues() && p.Later() && record == saved && SameSwap(old(record), record)
      ensures old(p.Untampered()) && old(Reachable(view, record)) && old(view).live == old(record).original ==>
                && Reachable(view, record)
                && (r.Raised? ==> r.error.Injected?)
                && (r.Done? ==> record.state.Committed? && view == View(Some(record.candidate), record.original, None, None))
                && (p.QuietSince(old(p.clock)) ==> r.Done?)
                && (old(account.NeverDisplaces()) ==> account.NeverDisplaces())
    {
      r := AsideStep(p);
      if r.IsFailure() {
        return;
      }
      r := InstallStep(p);
      if r.IsFailure() {
        return;
      }
      r := CommitStep(p);
    }

    /** `_atomic_directory_swap` and `_atomic_file_group`, from the saved record onwards. */
    method Apply(p: Process) returns (r: Outcome)
      requires Sane() && record == saved && record.state.Prepared? && record.rollback.NotStarted?
      modifies p, this
      ensures Sane() && Accounts(p, false) && p.Later() && record == saved && SameSwap(old(record), record)
      ensures old(p.Untampered()) && old(Reachable(view, record)) && old(view).live == old(record).original ==>
                && Reachable(view, record)
                && (r.Raised? ==> r.error.Injected?)
                && (r.Done? ==> record.state.Committed? && view == View(Some(record.candidate), record.original, None, None))
                && (p.QuietSince(old(p.clock)) ==> r.Done?)
                && (old(account.NeverDisplaces()) ==> account.NeverDisplaces())
    {
      BeginAttempt(p, false);
      r := ApplySteps(p);
    }

    method Rename(p: Process, source: Slot, destination: Slot)
      requires Valid(p) && record == saved && Authorised(RollbackMove(saved, view, source, destination))
      modifies this`view, this`account
      ensures Valid(p) && Continues()
      ensures view == old(view).Renamed(source, destination)
    {
      account := Append(account, RollbackMove(saved, view, source, destination));
      view := view.Renamed(source, destination);
    }

    /** `_remove_explicit_at`: `unlink` for a file, `rmtree` for a directory, which a kill or an
        exception can cut short. */
    method Remove(p: Process, slot: Slot) returns (r: Outcome)
      requires Valid(p) && record == saved && Authorised(Removal(saved, view, slot))
      modifies p, this`view, this`account
      ensures Valid(p) && Continues() && p.Later()
      ensures r.Done? ==> view == old(view).Put(slot, None)
      ensures !r.Done? ==> exists residue :: view == old(view).Put(slot, Some(residue))
      ensures !r.Done? && (old(p.Atomic()) || saved.kind.FileSwap?) ==> view == old(view)
      // Cut short, the removal of a directory leaves whatever is left of it.
      ensures var e := p.world(old(p.clock));
              e.Tearing? ==> r == (if e.fatal then Killed else Raised(Injected)) &&
                             (saved.kind.DirectorySwap? ==> view == old(view).Put(slot, Some(e.residue)))
      ensures r.Raised? ==> r.error.Injected?
      ensures p.QuietSince(old(p.clock)) ==> r.Done?
    {
      var e := p.Tick();
      if e.Tearing? {
        if saved.kind.DirectorySwap? {
          account := Append(account, Tear(saved, view, slot, e.residue));
          view := view.Put(slot, Some(e.residue));
        } else {
          assert view == view.Put(slot, view.Get(slot));
        }
        r := if e.fatal then Killed else Raised(Injected);
      } else {
        account := Append(account, Removal(saved, view, slot));
        view := view.Put(slot, None);
        r := Done;
      }
    }

    /** The tail of both durable actions: `fsync`, then journal that it happened. */
    method Settle(p: Process, action: Action) returns (r: Outcome)
      requires Valid(p) && record == saved && record.Pursues(action)
      modifies p, this
      ensures Valid(p) && Continues() && p.Later() && record == saved
      ensures p.QuietSince(old(p.clock)) ==> !r.Killed?
      ensures record == old(record) || record == old(record).At(action, Fsynced, old(record).intent.value.identity)
      ensures r.Done? ==> record == old(record).At(action, Fsynced, old(record).intent.value.identity)
      ensures old(p.Untampered()) ==> view == old(view)
      ensures p.QuietSince(old(p.clock)) ==> r.Done?
      ensures r.Raised? ==> r.error.Injected?
    {
      if record.rollback != During(action, Fsynced) {
        :- Boundary(p);
        :- Journal(p, record.At(action, Fsynced, record.intent.value.identity));
      }
      return Done;
    }

    /** The rename itself, and the journal entry that it happened. */
    method RenameAnnounced(p: Process, action: Action) returns (r: Outcome)
      requires Valid(p) && record == saved && record.Pursues(action) && action.IsRename()
      requires view.Get(action.Subject()) == Some(record.intent.value.identity) && view.Get(action.Destination()).None?
      modifies p, this
      ensures Valid(p) && Continues() && p.Later() && record == saved
      ensures record == old(record) || record == old(record).At(action, Mutated, old(record).intent.value.identity)
      ensures r.Done? ==> record == old(record).At(action, Mutated, old(record).intent.value.identity)
      ensures old(p.Untampered()) ==> view == Arrived(old(view), action, old(record).intent.value.identity)
      ensures r.Raised? ==> r.error.Injected?
      ensures p.QuietSince(old(p.clock)) ==> r.Done?
    {
      Rename(p, action.Subject(), action.Destination());
      :- Boundary(p);
      r := Journal(p, record.At(action, Mutated, record.intent.value.identity));
    }

    /** The middle of a durable rename: move the announced entry unless it has already moved. */
    method MoveSubject(p: Process, action: Action) returns (r: Outcome)
      requires Valid(p) && record == saved && record.Pursues(action) && action.IsRename()
      modifies p, this
      ensures Valid(p) && Continues() && p.Later() && record == saved
      ensures p.QuietSince(old(p.clock)) ==> !r.Killed?
      ensures record == old(record) || record == old(record).At(action, Mutated, old(record).intent.value.identity)
      ensures r.Done? ==> record.rollback != During(action, Intended)
      ensures r.Raised? && !r.error.Injected? ==> view == old(view) && record == old(record) && account == old(account)
      ensures
        var id := old(record).intent.value.identity;
        old(p.Untampered()) ==>
          && (|| (Movable(old(view), action, id) && view == Arrived(old(view), action, id))
              || (view == old(view) && record == old(record) && !r.Done?))
          && (Movable(old(view), action, id) ==>
                && (r.Raised? ==> r.error.Injected?)
                && (p.QuietSince(old(p.clock)) ==> r.Done?))
    {
      var source, destination := action.Subject(), action.Destination();
      var identity := record.intent.value.identity;
      if view.Get(source).Some? {
        if view.Get(source).value != identity {
          return Raised(SourceChanged);
        }
        if view.Get(destination).Some? {
          return Raised(DestinationExists);
        }
        :- RenameAnnounced(p, action);
      } else if view.Get(destination).Some? {
        if view.Get(destination).value != identity {
          return Raised(SourceChanged);
        }
        if record.rollback == During(action, Intended) {
          :- Journal(p, record.At(action, Mutated, identity));
        }
      } else {
        return Raised(BothMissing);
      }
      return Done;
    }

    /** An announced rename: rename, journal the rename, fsync. */
    method CarryOut(p: Process, action: Action) returns (r: Outcome)
      requires Valid(p) && record == saved && record.Pursues(action) && action.IsRename()
      modifies p, this
      ensures Valid(p) && Continues() && p.Later() && record == saved
      ensures p.QuietSince(old(p.clock)) ==> !r.Killed?
      ensures SameSwap(old(record), record) && record.state == old(record).state
      ensures
        var v, s, id := old(view), old(record), old(record).intent.value.identity;
        old(p.Untampered()) ==>
          && RenameStop(v, s, action, id, view, record)
          && (r.Done? ==> view == Arrived(v, action, id) && record == s.At(action, Fsynced, id))
          && (Movable(v, action, id) ==> (r.Raised? ==> r.error.Injected?) && (p.QuietSince(old(p.clock)) ==> r.Done?))
    {
      r := MoveSubject(p, action);
      if r.IsFailure() {
        return;
      }
      r := Settle(p, action);
    }

    /** `_durable_rollback_rename`: journal the intent, rename, journal the rename, fsync. */
    method DurableRollbackRename(p: Process, action: Action) returns (r: Outcome)
      requires Valid(p) && record == saved
      requires action.IsRename() && (account.heading.Sound() ==> record.Allows(action))
      modifies p, this
      ensures Valid(p) && Continues() && p.Later() && record == saved
      ensures p.QuietSince(old(p.clock)) ==> !r.Killed?
      ensures SameSwap(old(record), record) && record.state == old(record).state
      ensures
        var v, s := old(view), old(record);
        old(p.Untampered()) && s.Consistent() && s.Allows(action) ==>
          var id := s.Expected(action).value;
          && RenameStop(v, s, action, id, view, record)
          && (r.Done? ==> view == Arrived(v, action, id) && record == s.At(action, Fsynced, id))
          && (Movable(v, action, id) && (s.Pursues(action) || v.Get(action.Subject()).Some?) ==>
                && (r.Raised? ==> r.error.Injected?)
                && (p.QuietSince(old(p.clock)) ==> r.Done?))
    {
      if !record.Pursues(action) {
        if view.Get(action.Destination()).Some? {
          return Raised(DestinationExists);
        }
        if view.Get(action.Subject()).None? {
          return Raised(SourceMissing);
        }
        if view.Get(action.Subject()) != record.Expected(action) {
          return Raised(SourceChanged);
        }
        :- Journal(p, record.At(action, Intended, view.Get(action.Subject()).value));
      }
      r := CarryOut(p, action);
    }

    /** The removal itself, and the journal entry that it happened. */
    method RemoveAnnounced(p: Process, action: Action) returns (r: Outcome)
      requires Valid(p) && record == saved && record.Pursues(action) && !action.IsRename()
      requires view.Get(action.Subject()) == Some(record.intent.value.identity)
      modifies p, this
      ensures Valid(p) && Continues() && p.Later() && record == saved
      ensures record == old(record) || record == old(record).At(action, Mutated, old(record).intent.value.identity)
      ensures r.Done? ==> record == old(record).At(action, Mutated, old(record).intent.value.identity)
      ensures
        var slot := action.Subject();
        old(p.Untampered()) ==>
          || view == old(view).Put(slot, None)
          || (record == old(record) && !r.Done? &&
              (view == old(view) || (old(view) == view.Put(slot, old(view).Get(slot)) && view.Get(slot).Some? && MayTear(old(p.Atomic())))))
      ensures r.Raised? ==> r.error.Injected?
      ensures p.QuietSince(old(p.clock)) ==> r.Done?
    {
      r := Remove(p, action.Subject());
      if r.IsFailure() {
        return;
      }
      :- Boundary(p);
      r := Journal(p, record.At(action, Mutated, record.intent.value.identity));
    }

    /** The middle of a durable cleanup: remove the announced entry unless it is already gone. */
    method RemoveSubject(p: Process, action: Action) returns (r: Outcome)
      requires Valid(p) && record == saved && record.Pursues(action) && !action.IsRename()
      modifies p, this
      ensures Valid(p) && Continues() && p.Later() && record == saved
      ensures p.QuietSince(old(p.clock)) ==> !r.Killed?
      ensures record == old(record) || record == old(record).At(action, Mutated, old(record).intent.value.identity)
      ensures r.Done? ==> record.rollback != During(action, Intended)
      ensures r.Raised? && !r.error.Injected? ==> view == old(view) && record == old(record) && account == old(account)
      ensures
        var id, slot := old(record).intent.value.identity, action.Subject();
        old(p.Untampered()) ==>
          && (|| view == old(view).Put(slot, None)
              || (record == old(record) && !r.Done? &&
                  (view == old(view) || (old(view) == view.Put(slot, Some(id)) && view.Get(slot).Some? && !r.Done? && MayTear(old(p.Atomic()))))))
          && (Removable(old(view), action, id) ==>
                && (r.Raised? ==> r.error.Injected?)
                && (p.QuietSince(old(p.clock)) ==> r.Done?))
          && (!Removable(old(view), action, id) ==> r == Raised(SourceChanged) && view == old(view))
    {
      var slot := action.Subject();
      var identity := record.intent.value.identity;
      if view.Get(slot).Some? {
        if view.Get(slot).value != identity {
          return Raised(SourceChanged);
        }
        :- RemoveAnnounced(p, action);
      } else if record.rollback == During(action, Intended) {
        :- Journal(p, record.At(action, Mutated, identity));
      }
      return Done;
    }

    /** An announced cleanup: remove, journal the removal, fsync. */
    method CleanUp(p: Process, action: Action) returns (r: Outcome)
      requires Valid(p) && record == saved && record.Pursues(action) && !action.IsRename()
      modifies p, this
      ensures Valid(p) && Continues() && p.Later() && record == saved
      ensures p.QuietSince(old(p.clock)) ==> !r.Killed?
      ensures SameSwap(old(record), record) && record.state == old(record).state
      ensures
        var v, s, slot, id := old(view), old(record), action.Subject(), old(record).intent.value.identity;
        old(p.Untampered()) ==>
          && CleanupStop(v, s, action, id, view, record)
          && (view == v || view.Get(slot).None? || (!r.Done? && MayTear(old(p.Atomic()))))
          && (r.Done? ==> view == v.Put(slot, None) && record == s.At(action, Fsynced, id))
          && (Removable(v, action, id) ==>
                && (r.Raised? ==> r.error.Injected?)
                && (p.QuietSince(old(p.clock)) ==> r.Done?))
          && (!Removable(v, action, id) ==> r == Raised(SourceChanged) && view == v && record == s)
    {
      r := RemoveSubject(p, action);
      if r.IsFailure() {
        return;
      }
      :- Settle(p, action);
      return Done;
    }

    /** `_durable_rollback_cleanup`: journal the intent, remove, journal the removal, fsync. */
    method DurableRollbackCleanup(p: Process, action: Action) returns (r: Outcome)
      requires Valid(p) && record == saved
      requires !action.IsRename() && (account.heading.Sound() ==> record.Allows(action))
      modifies p, this
      ensures Valid(p) && Continues() && p.Later() && record == saved
      ensures p.QuietSince(old(p.clock)) ==> !r.Killed?
      ensures SameSwap(old(record), record) && record.state == old(record).state
      ensures
        var v, s, slot := old(view), old(record), action.Subject();
        old(p.Untampered()) && s.Consistent() && s.Allows(action) ==>
          && CleanupStop(v, s, action, s.candidate, view, record)
          && (view == v || view.Get(slot).None? || (!r.Done? && MayTear(old(p.Atomic()))))
          && (r.Done? ==>
                && view == v.Put(slot, None)
                && record == if s.Pursues(action) || v.Get(slot).Some? then s.At(action, Fsynced, s.candidate) else s)
          && (Removable(v, action, s.candidate) ==>
                && (r.Raised? ==> r.error.Injected?)
                && (p.QuietSince(old(p.clock)) ==> r.Done?))
          && (!Removable(v, action, s.candidate) ==> r == Raised(SourceChanged) && view == v && record == s)
    {
      if !record.Pursues(action) {
        if view.Get(action.Subject()).None? {
          return Done;
        }
        if view.Get(action.Subject()) != record.Expected(action) {
          return Raised(SourceChanged);
        }
        :- Journal(p, record.At(action, Intended, view.Get(action.Subject()).value));
      }
      r := CleanUp(p, action);
    }

    /** A durable rename, seen from the states kills can produce. */
    method RenameStep(p: Process, action: Action) returns (r: Outcome)
      requires Valid(p) && record == saved
      requires action.IsRename() && (account.heading.Sound() ==> record.Allows(action))
      modifies p, this
      ensures Valid(p) && Continues() && p.Later() && record == saved
      ensures p.QuietSince(old(p.clock)) ==> !r.Killed?
      ensures SameSwap(old(record), record) && record.state == old(record).state
      ensures
        var v, s := old(view), old(record);
        old(p.Untampered()) && s.Consistent() && s.Allows(action) ==>
          && (r.Done? ==>
                view == Arrived(v, action, s.Expected(action).value) && record == s.At(action, Fsynced, s.Expected(action).value))
          && (Blocked(v, s) ==> view.failed == v.failed)
      ensures
        old(p.Untampered()) && old(Reachable(view, record) && Ready(view, record, action)) ==>
          && Reachable(view, record)
          && (r.Raised? ==> r.error.Injected?)
          && (p.QuietSince(old(p.clock)) ==> r.Done?)
    {
      if Reachable(view, record) && Ready(view, record, action) {
        RenameStaysReachable(view, record, action);
      }
      r := DurableRollbackRename(p, action);
    }

    /** A durable cleanup, seen from the states kills can produce. */
    method CleanupStep(p: Process, action: Action) returns (r: Outcome)
      requires Valid(p) && record == saved
      requires !action.IsRename() && (account.heading.Sound() ==> record.Allows(action))
      modifies p, this
      ensures Valid(p) && Continues() && p.Later() && record == saved
      ensures p.QuietSince(old(p.clock)) ==> !r.Killed?
      ensures SameSwap(old(record), record) && record.state == old(record).state
      ensures
        var v, s, slot := old(view), old(record), action.Subject();
        old(p.Untampered()) && s.Consistent() && s.Allows(action) ==>
          && (r.Done? ==>
                && view == v.Put(slot, None)
                && record == if s.Pursues(action) || v.Get(slot).Some? then s.At(action, Fsynced, s.candidate) else s)
          && (!Removable(v, action, s.candidate) ==> r == Raised(SourceChanged) && view == v && record == s)
          && (Blocked(v, s) ==> view.failed == v.failed)
      ensures
        old(p.Untampered()) && old(Reachable(view, record) && Ready(view, record, action)) ==>
          && (Reachable(view, record) || (!r.Done? && MayTear(old(p.Atomic())) && Torn(view, record)))
          && (r.Raised? ==> r.error.Injected?)
          && (p.QuietSince(old(p.clock)) ==> r.Done?)
    {
      if Reachable(view, record) && Ready(view, record, action) {
        CleanupStaysReachable(view, record, action);
      }
      r := DurableRollbackCleanup(p, action);
    }

    /** `_resume_file_rollback_intent`: finish the action an earlier run announced. */
    method ResumeFileRollbackIntent(p: Process) returns (r: Outcome)
      requires Valid(p) && record == saved
      modifies p, this
      ensures Valid(p) && Continues() && p.Later() && record == saved
      ensures p.QuietSince(old(p.clock)) ==> !r.Killed?
      ensures SameSwap(old(record), record) && record.state == old(record).state
      ensures !old(record).rollback.During? ==> r.Done? && view == old(view) && record == old(record) && account == old(account)
      ensures old(p.Untampered()) && old(record).Consistent() && r.Done? ==>
                record.Consistent() && (record.rollback.During? <==> old(record).rollback.During?)
      ensures old(p.Untampered()) && old(record.Consistent() && Blocked(view, record)) ==> view.failed == old(view).failed
      ensures old(p.Untampered()) && old(Torn(view, record)) ==>
                r == Raised(SourceChanged) && view == old(view) && record == old(record)
      ensures old(p.Untampered()) && old(Reachable(view, record)) ==>
                && (Reachable(view, record) || (!r.Done? && MayTear(old(p.Atomic())) && Torn(view, record)))
                && (r.Raised? ==> r.error.Injected?)
                && (p.QuietSince(old(p.clock)) ==> r.Done?)
    {
      if !record.rollback.During? {
        return Done;
      }
      if record.intent.None? {
        return Raised(IntentMissing);
      }
      var action := record.intent.value.action;
      if action.IsRename() {
        r := RenameStep(p, action);
      } else {
        r := CleanupStep(p, action);
      }
    }

    /** Remove what is left of the candidate at one name. */
    method SweepOne(p: Process, action: Action) returns (r: Outcome)
      requires Valid(p) && record == saved
      requires action in {FailedCleanup, NewCleanup}
      modifies p, this
      ensures Valid(p) && Continues() && p.Later() && record == saved
      ensures p.QuietSince(old(p.clock)) ==> !r.Killed?
      ensures SameSwap(old(record), record) && record.state == old(record).state
      ensures old(p.Untampered()) && old(record).Consistent() && r.Done? ==>
                view == old(view).Put(action.Subject(), None) && record.Consistent()
      ensures old(p.Untampered()) && old(record.Consistent() && Blocked(view, record)) ==> view.failed == old(view).failed
      ensures old(p.Untampered()) && old(Reachable(view, record) && view.prior.None? && view.live == record.original) ==>
                && (Reachable(view, record) || (!r.Done? && MayTear(old(p.Atomic())) && Torn(view, record)))
                && (r.Raised? ==> r.error.Injected?)
                && (p.QuietSince(old(p.clock)) ==> r.Done?)
    {
      if view.Get(action.Subject()).None? {
        assert view == view.Put(action.Subject(), None);
        return Done;
      }
      r := CleanupStep(p, action);
    }

    /** Remove what is left of the candidate beside the target, in the given order. */
    method Sweep(p: Process, first: Action, second: Action) returns (r: Outcome)
      requires Valid(p) && record == saved
      requires {first, second} == {FailedCleanup, NewCleanup}
      modifies p, this
      ensures Valid(p) && Continues() && p.Later() && record == saved
      ensures p.QuietSince(old(p.clock)) ==> !r.Killed?
      ensures SameSwap(old(record), record) && record.state == old(record).state
      ensures old(p.Untampered()) && old(record).Consistent() && r.Done? ==>
                && view == old(view).(failed := None, staged := None)
                && record.Consistent()
      ensures old(p.Untampered()) && old(record.Consistent() && Blocked(view, record)) ==> view.failed == old(view).failed
      ensures old(p.Untampered()) && old(Reachable(view, record) && view.prior.None? && view.live == record.original) ==>
                && (Reachable(view, record) || (!r.Done? && MayTear(old(p.Atomic())) && Torn(view, record)))
                && (r.Raised? ==> r.error.Injected?)
                && (p.QuietSince(old(p.clock)) ==> r.Done?)
    {
      r := SweepOne(p, first);
      if r.IsFailure() {
        return;
      }
      r := SweepOne(p, second);
    }

    /** The renames for a target that existed before the restore. */
    method MoveOriginalBack(p: Process) returns (r: Outcome)
      requires Valid(p) && record == saved && record.existed
      modifies p, this
      ensures Valid(p) && Continues() && p.Later() && record == saved
      ensures p.QuietSince(old(p.clock)) ==> !r.Killed?
      ensures SameSwap(old(record), record) && record.state == old(record).state
      ensures old(p.Untampered()) && old(record).Consistent() && r.Done? ==>
                view.live == record.original && view.prior.None? && record.Consistent()
      ensures old(p.Untampered()) && old(record.Consistent() && Blocked(view, record)) ==> view.failed == old(view).failed
      ensures old(p.Untampered()) && old(Reachable(view, record)) ==>
                && Reachable(view, record)
                && (r.Raised? ==> r.error.Injected?)
                && (p.QuietSince(old(p.clock)) ==> r.Done?)
    {
      var liveExists := view.live.Some?;
      if view.prior.Some? && liveExists && (view.staged.Some? || view.failed.Some?) {
        return Raised(DestinationExists);
      }
      if view.prior.Some? {
        if liveExists {
          :- RenameStep(p, LiveToFailed);
        }
        :- RenameStep(p, OldToLive);
      } else if !liveExists {
        return Raised(OriginalMissing);
      } else if view.live != record.original {
        return Raised(SourceChanged);
      }
      r := Done;
    }

    /** The branch of `_rollback_file_swap` for a target that existed before the restore. */
    method PutOriginalBack(p: Process) returns (r: Outcome)
      requires Valid(p) && record == saved && record.existed
      modifies p, this
      ensures Valid(p) && Continues() && p.Later() && record == saved
      ensures p.QuietSince(old(p.clock)) ==> !r.Killed?
      ensures SameSwap(old(record), record) && record.state == old(record).state
      ensures old(p.Untampered()) && old(record).Consistent() && r.Done? ==>
                view == record.OriginalView() && record.Consistent()
      ensures old(p.Untampered()) && old(record.Consistent() && Blocked(view, record)) ==> view.failed == old(view).failed
      ensures old(p.Untampered()) && old(Reachable(view, record)) ==>
                && (Reachable(view, record) || (!r.Done? && MayTear(old(p.Atomic())) && Torn(view, record)))
                && (r.Raised? ==> r.error.Injected?)
                && (p.QuietSince(old(p.clock)) ==> r.Done?)
    {
      r := MoveOriginalBack(p);
      if r.IsFailure() {
        return;
      }
      r := Sweep(p, FailedCleanup, NewCleanup);
    }

    /** The branch of `_rollback_file_swap` for a target the restore created. */
    method RemoveCreated(p: Process) returns (r: Outcome)
      requires Valid(p) && record == saved && !record.existed
      modifies p, this
      ensures Valid(p) && Continues() && p.Later() && record == saved
      ensures p.QuietSince(old(p.clock)) ==> !r.Killed?
      ensures SameSwap(old(record), record) && record.state == old(record).state
      ensures old(p.Untampered()) && old(record).Consistent() && r.Done? ==>
                view == record.OriginalView() && record.Consistent()
      ensures old(p.Untampered()) && old(record.Consistent() && Blocked(view, record)) ==> view.failed == old(view).failed
      ensures old(p.Untampered()) && old(Reachable(view, record)) ==>
                && (Reachable(view, record) || (!r.Done? && MayTear(old(p.Atomic())) && Torn(view, record)))
                && (r.Raised? ==> r.error.Injected?)
                && (p.QuietSince(old(p.clock)) ==> r.Done?)
    {
      if view.prior.Some? {
        return Raised(UnexpectedOriginal);
      }
      if view.live.Some? {
        if record.state.Prepared? && view.staged.Some? {
          return Raised(UnrelatedTarget);
        }
        :- CleanupStep(p, TargetCleanup);
      }
      r := Sweep(p, NewCleanup, FailedCleanup);
    }

    /** `_rollback_file_swap`: resume, then undo whatever of the swap is still in place. */
    method RollbackFileSwap(p: Process) returns (r: Outcome)
      requires Sane() && record == saved
      modifies p, this
      ensures Sane() && p.Later() && record == saved && SameSwap(old(record), record)
      ensures p.QuietSince(old(p.clock)) ==> !r.Killed?
      // Every change is announced, or an event of somebody else's; none renames onto an entry.
      ensures Accounts(p, true) && (old(account.NeverDisplaces()) ==> account.NeverDisplaces())
      // Whatever else the slots held, an original at one of its two names stays there.
      ensures old(p.Untampered() && KeepsOriginal()) ==> HasOriginal(view, record)
      // A completed rollback has put the original back.
      ensures r.Done? ==> PutInPlace(old(Look()), Look(), old(p.Untampered()))
      // From everything kills can leave behind, it cannot refuse; interrupted again, it stays so.
      ensures old(p.Untampered()) && old(Reachable(view, record)) ==>
                && (Reachable(view, record) || (!r.Done? && MayTear(old(p.Atomic())) && Torn(view, record)))
                && (r.Raised? ==> r.error.Injected?)
                && (r.Done? ==> Restored(view, record))
                && (p.QuietSince(old(p.clock)) ==> r.Done?)
      // A half-removed directory is never touched again.
      ensures old(p.Untampered()) && old(Torn(view, record)) ==>
                r == Raised(SourceChanged) && view == old(view) && record == old(record)
      // An entry of someone else's at the failed name is left alone, and keeps the rollback from completing.
      ensures old(p.Untampered()) && old(record.Consistent() && Blocked(view, record)) ==>
                view.failed == old(view).failed && !r.Done?
      // Once complete, another run only looks.
      ensures old(record).rollback.RolledBack? ==>
                view == old(view) && record == old(record) && account.log == [] &&
                (record.Validated() ==> (r.Done? <==> view == record.OriginalView()))
    {
      BeginAttempt(p, true);
      r := UndoSwap(p);
      RollbackNeverDisplacesIf(old(account), account);
      if old(p.Untampered() && KeepsOriginal()) {
        AloneWhenUntampered(p, old(p.clock));
        OriginalIsKept(account);
      }
    }

    /** Nobody else's change can be on the account of an attempt in an untampered world. */
    lemma AloneWhenUntampered(p: Process, clock: nat)
      requires account.heading.world == p.world && account.heading.since == clock
      requires forall k :: clock <= k ==> !p.world(k).Outside?
      ensures Alone(account)
    {
      forall k | 0 <= k < |account.log| ensures !account.log[k].Foreign? {
        assert account.heading.Current(account.log[k], account.until);
      }
    }

    /** The body of `_rollback_file_swap`. */
    method UndoSwap(p: Process) returns (r: Outcome)
      requires Valid(p) && record == saved
      modifies p, this
      ensures Valid(p) && Continues() && p.Later() && record == saved && SameSwap(old(record), record)
      ensures p.QuietSince(old(p.clock)) ==> !r.Killed?
      ensures r.Done? ==> record.rollback.RolledBack?
      ensures old(p.Untampered()) && old(record).Consistent() && r.Done? ==> view == record.OriginalView()
      ensures old(p.Untampered()) && old(Reachable(view, record)) ==>
                && (Reachable(view, record) || (!r.Done? && MayTear(old(p.Atomic())) && Torn(view, record)))
                && (r.Raised? ==> r.error.Injected?)
                && (r.Done? ==> Restored(view, record))
                && (p.QuietSince(old(p.clock)) ==> r.Done?)
      ensures old(p.Untampered()) && old(Torn(view, record)) ==>
                r == Raised(SourceChanged) && view == old(view) && record == old(record)
      ensures old(p.Untampered()) && old(record.Consistent() && Blocked(view, record)) ==>
                view.failed == old(view).failed && !r.Done?
      ensures old(record).rollback.RolledBack? ==>
                view == old(view) && record == old(record) && account == old(account) &&
                (record.Validated() ==> (r.Done? <==> view == record.OriginalView()))
    {
      r := ResumeFileRollbackIntent(p);
      if r.IsFailure() {
        return;
      }
      if record.rollback.RolledBack? {
        r := Confirm();
        return;
      }
      r := Undo(p);
    }

    /** What is left to do, and the record that it is done. */
    method Undo(p: Process) returns (r: Outcome)
      requires Valid(p) && record == saved
      modifies p, this
      ensures Valid(p) && Continues() && p.Later() && record == saved && SameSwap(old(record), record)
      ensures p.QuietSince(old(p.clock)) ==> !r.Killed?
      ensures r.Done? ==> record.rollback.RolledBack?
      ensures old(p.Untampered()) && old(record).Consistent() && r.Done? ==> view == record.OriginalView()
      ensures old(p.Untampered()) && old(Reachable(view, record)) ==>
                && (Reachable(view, record) || (!r.Done? && MayTear(old(p.Atomic())) && Torn(view, record)))
                && (r.Raised? ==> r.error.Injected?)
                && (r.Done? ==> Restored(view, record))
                && (p.QuietSince(old(p.clock)) ==> r.Done?)
      ensures old(p.Untampered()) && old(record.Consistent() && Blocked(view, record)) ==>
                view.failed == old(view).failed && !r.Done?
    {
      r := UndoChanges(p);
      if r.IsFailure() {
        return;
      }
      r := Journal(p, record.Finished());
    }

    /** The check of a swap on record as rolled back. */
    method Confirm() returns (r: Outcome)
      ensures !r.Killed? && (r.Raised? ==> !r.error.Injected?)
      ensures record.Consistent() ==> (r.Done? <==> view == record.OriginalView())
      ensures record.Validated() ==> (r.Done? <==> view == record.OriginalView())
    {
      if view.live.Some? != record.existed || view.prior.Some? || view.staged.Some? || view.failed.Some? {
        return Raised(PathsChanged);
      }
      if record.existed && view.live != record.original {
        return Raised(SourceChanged);
      }
      r := Done;
    }

    /** Whatever of the swap is still in place. */
    method UndoChanges(p: Process) returns (r: Outcome)
      requires Valid(p) && record == saved
      modifies p, this
      ensures Valid(p) && Continues() && p.Later() && record == saved
      ensures p.QuietSince(old(p.clock)) ==> !r.Killed?
      ensures SameSwap(old(record), record) && record.state == old(record).state
      ensures old(p.Untampered()) && old(record).Consistent() && r.Done? ==>
                view == record.OriginalView() && record.Consistent()
      ensures old(p.Untampered()) && old(record.Consistent() && Blocked(view, record)) ==> view.failed == old(view).failed
      ensures old(p.Untampered()) && old(Reachable(view, record)) ==>
                && (Reachable(view, record) || (!r.Done? && MayTear(old(p.Atomic())) && Torn(view, record)))
                && (r.Raised? ==> r.error.Injected?)
                && (p.QuietSince(old(p.clock)) ==> r.Done?)
    {
      if record.existed {
        r := PutOriginalBack(p);
      } else {
        r := RemoveCreated(p);
      }
    }
  }

  lemma RollbackNeverDisplacesIf(before: Account, after: Account)
    requires after.heading.undoing && after.heading.past == before.heading.past + before.log
    ensures before.NeverDisplaces() ==> after.NeverDisplaces()
  {
    if before.NeverDisplaces() {
      RollbackNeverDisplaces(after);
    }
  }
}
