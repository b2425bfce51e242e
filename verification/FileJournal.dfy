/**
 The journal's list of file swaps: rolling all of them back, newest first, whatever happens to
 the single ones.
 */
module FileJournal {
  import opened Options
  import opened SwapProtocol
  import opened FileSwaps

  /** All swaps on record, each with the account that explains it. */
  datatype Files = Files(swaps: seq<Kept>, accounts: seq<Account>) {
    ghost predicate Valid() {
      |accounts| == |swaps| && forall i :: 0 <= i < |swaps| ==> Explains(accounts[i], swaps[i])
    }

    ghost function At(i: nat): Shot
      requires i < |swaps| && i < |accounts|
    {
      Shot(swaps[i].view, swaps[i].record, accounts[i])
    }

    ghost function With(k: nat, s: Shot): Files
      requires k < |swaps| && k < |accounts|
    {
      Files(swaps[k := Kept(s.view, s.record)], accounts[k := s.account])
    }

    ghost function And(s: Shot): Files {
      Files(swaps + [Kept(s.view, s.record)], accounts + [s.account])
    }

    ghost predicate AllValidated() {
      forall i :: 0 <= i < |swaps| ==> swaps[i].record.Validated()
    }

    ghost predicate AllReachable() {
      forall i :: 0 <= i < |swaps| ==> Reachable(swaps[i].view, swaps[i].record)
    }

    /** Every swap is committed: its target holds this candidate, and the original is aside. */
    ghost predicate AllInstalled(candidates: seq<Identity>) {
      && |swaps| == |candidates|
      && forall i :: 0 <= i < |swaps| ==>
           swaps[i].record.state.Committed? && swaps[i].view == View(Some(candidates[i]), swaps[i].record.original, None, None)
    }

    ghost predicate AllRolledBack() {
      forall i :: 0 <= i < |swaps| ==> swaps[i].record.rollback.RolledBack?
    }

    /** No rename ever landed on an entry. */
    ghost predicate NoneDisplaces() {
      forall i :: 0 <= i < |accounts| ==> accounts[i].NeverDisplaces()
    }

    /** The swaps are of these originals, in order. */
    ghost predicate Originals(originals: seq<Option<Identity>>) {
      |swaps| == |originals| && forall i :: 0 <= i < |swaps| ==> swaps[i].record.original == originals[i]
    }

    /** Every target holds what it held before, and nothing else is left over. */
    ghost predicate AllRestored(originals: seq<Option<Identity>>) {
      && |swaps| == |originals|
      && forall i :: 0 <= i < |swaps| ==> swaps[i].view == View(originals[i], None, None, None) && swaps[i].record.rollback.RolledBack?
    }
  }

  lemma AddedStays(before: Files, s: Shot, originals: seq<Option<Identity>>, candidates: seq<Identity>, candidate: Identity)
    requires before.Originals(originals)
    ensures before.And(s).Originals(originals + [s.record.original])
    ensures before.AllReachable() && Reachable(s.view, s.record) ==> before.And(s).AllReachable()
    ensures before.NoneDisplaces() && s.account.NeverDisplaces() ==> before.And(s).NoneDisplaces()
    ensures before.AllInstalled(candidates) && s.record.state.Committed? && s.view == View(Some(candidate), s.record.original, None, None) ==>
              before.And(s).AllInstalled(candidates + [candidate])
  {
  }

  ghost predicate AllInPlace(before: Files, after: Files, untampered: bool)
    requires before.Valid() && after.Valid()
  {
    |before.swaps| == |after.swaps| && forall i :: 0 <= i < |after.swaps| ==> PutInPlace(before.At(i), after.At(i), untampered)
  }

  /** What any rollback keeps, whatever becomes of it. */
  ghost predicate KeepsFiles(before: Files, after: Files, untampered: bool, atomic: bool) {
    && (forall originals :: before.Originals(originals) ==> after.Originals(originals))
    && (before.NoneDisplaces() ==> after.NoneDisplaces())
    && (untampered && atomic && before.AllReachable() ==> after.AllReachable())
    && (before.AllRolledBack() ==> after.swaps == before.swaps)
  }

  lemma RollingIsKept(before: Files, after: Files, k: nat, untampered: bool, atomic: bool, world: nat -> Event, turns: seq<nat>)
    requires before.Valid() && after.Valid() && Rolling(before, after, k, untampered, atomic, world, turns)
    ensures KeepsFiles(before, after, untampered, atomic)
  {
    forall i | 0 <= i < |after.swaps|
      ensures SameSwap(before.swaps[i].record, after.swaps[i].record)
      ensures before.accounts[i].NeverDisplaces() ==> after.accounts[i].NeverDisplaces()
      ensures untampered && atomic && Reachable(before.swaps[i].view, before.swaps[i].record) ==>
                Reachable(after.swaps[i].view, after.swaps[i].record)
      ensures before.swaps[i].record.rollback.RolledBack? ==> after.swaps[i] == before.swaps[i]
    {
      if i < k {
        assert after.At(i) == before.At(i);
      } else {
        assert AttemptedAt(before, after, k, i, untampered, atomic, world, turns);
      }
    }
  }

  /** Complete means restored. */
  lemma InPlaceIsRestored(before: Files, after: Files, originals: seq<Option<Identity>>)
    requires before.Valid() && after.Valid() && AllInPlace(before, after, true)
    requires before.AllReachable() && after.Originals(originals)
    ensures after.AllRestored(originals)
  {
    forall i | 0 <= i < |after.swaps|
      ensures after.swaps[i].view == View(originals[i], None, None, None) && after.swaps[i].record.rollback.RolledBack?
    {
      assert PutInPlace(before.At(i), after.At(i), true);
      assert Reachable(before.swaps[i].view, before.swaps[i].record);
    }
  }

  ghost predicate QuietIn(world: nat -> Event, from: nat, to: nat) {
    forall k :: from <= k < to ==> world(k).Quiet?
  }

  /** The swaps come one after the other, newest first: the first `k` are untouched, and each later
      one has had its turn, between two hooks that `turns` lists, latest first.  A swap is restored
      if nothing went wrong in its own turn, whatever happened in the others'. */
  ghost predicate Rolling(before: Files, now: Files, k: nat, untampered: bool, atomic: bool, world: nat -> Event, turns: seq<nat>)
    requires before.Valid() && now.Valid()
  {
    && k <= |before.swaps| == |now.swaps|
    && |turns| == |before.swaps| - k + 1
    && (forall i :: 0 < i < |turns| ==> turns[i] <= turns[i - 1])
    && (forall j :: 0 <= j < k ==> now.At(j) == before.At(j))
    && (forall j :: k <= j < |before.swaps| ==> AttemptedAt(before, now, k, j, untampered, atomic, world, turns))
  }

  ghost predicate AttemptedAt(before: Files, now: Files, k: nat, j: nat, untampered: bool, atomic: bool, world: nat -> Event, turns: seq<nat>)
    requires before.Valid() && now.Valid() && k <= j < |before.swaps| == |now.swaps| && |turns| == |before.swaps| - k + 1
  {
    Attempted(before.At(j), now.At(j), untampered, atomic, QuietIn(world, turns[j - k + 1], turns[j - k]))
  }

  lemma RollingStep(
    before: Files, now: Files, next: Files, k: nat, s: Shot, untampered: bool, atomic: bool,
    world: nat -> Event, turns: seq<nat>, end: nat)
    requires before.Valid() && now.Valid() && next.Valid() && k < |before.swaps|
    requires Rolling(before, now, k + 1, untampered, atomic, world, turns) && turns[0] <= end
    requires next == now.With(k, s) && Attempted(now.At(k), s, untampered, atomic, QuietIn(world, turns[0], end))
    ensures Rolling(before, next, k, untampered, atomic, world, [end] + turns)
  {
    var later := [end] + turns;
    forall j | 0 <= j < k ensures next.At(j) == before.At(j) {
      assert next.At(j) == now.At(j);
    }
    forall j | k <= j < |before.swaps| ensures AttemptedAt(before, next, k, j, untampered, atomic, world, later) {
      if j == k {
        assert later[0] == end && later[1] == turns[0];
      } else {
        assert next.At(j) == now.At(j);
        assert later[j - k + 1] == turns[j - k] && later[j - k] == turns[j - k - 1];
        assert AttemptedAt(before, now, k + 1, j, untampered, atomic, world, turns);
      }
    }
  }

  /** All swaps from `k` on are in place. */
  ghost predicate InPlaceFrom(before: Files, now: Files, k: nat, untampered: bool)
    requires before.Valid() && now.Valid()
  {
    |before.swaps| == |now.swaps| && forall j :: k <= j < |now.swaps| ==> PutInPlace(before.At(j), now.At(j), untampered)
  }

  lemma InPlaceStep(before: Files, now: Files, next: Files, k: nat, s: Shot, untampered: bool)
    requires before.Valid() && now.Valid() && next.Valid() && k < |before.swaps|
    requires InPlaceFrom(before, now, k + 1, untampered) && now.At(k) == before.At(k)
    requires next == now.With(k, s) && PutInPlace(now.At(k), s, untampered)
    ensures InPlaceFrom(before, next, k, untampered)
  {
    forall j | k <= j < |next.swaps| ensures PutInPlace(before.At(j), next.At(j), untampered) {
      if j > k {
        assert next.At(j) == now.At(j);
      }
    }
  }

  /** Swaps that all had a quiet turn are all in place. */
  lemma QuietIsInPlace(before: Files, after: Files, atomic: bool, world: nat -> Event, turns: seq<nat>)
    requires before.Valid() && after.Valid() && before.AllReachable()
    requires Rolling(before, after, 0, true, atomic, world, turns) && QuietIn(world, turns[|turns| - 1], turns[0])
    ensures after.AllRolledBack() && AllInPlace(before, after, true)
  {
    forall i | 0 <= i < |after.swaps|
      ensures after.swaps[i].record.rollback.RolledBack? && PutInPlace(before.At(i), after.At(i), true)
    {
      Descending(turns, i);
      Ascending(turns, i + 1);
      assert AttemptedAt(before, after, 0, i, true, atomic, world, turns);
    }
  }

  /** The loop over the swaps, with `errors` failures counted so far. */
  ghost predicate Progress(before: Files, now: Files, k: nat, errors: nat, untampered: bool, atomic: bool, world: nat -> Event, turns: seq<nat>)
    requires before.Valid() && now.Valid()
  {
    && Rolling(before, now, k, untampered, atomic, world, turns)
    && (errors == 0 ==> InPlaceFrom(before, now, k, untampered))
    && (untampered && before.AllReachable() && QuietIn(world, turns[|turns| - 1], turns[0]) ==> errors == 0)
  }

  lemma ProgressStep(
    before: Files, now: Files, next: Files, k: nat, errors: nat, attempt: Outcome, s: Shot, untampered: bool, atomic: bool,
    world: nat -> Event, turns: seq<nat>, end: nat)
    requires before.Valid() && now.Valid() && next.Valid() && k < |before.swaps|
    requires Progress(before, now, k + 1, errors, untampered, atomic, world, turns) && turns[0] <= end
    requires next == now.With(k, s) && Attempted(now.At(k), s, untampered, atomic, QuietIn(world, turns[0], end))
    requires attempt.Done? ==> PutInPlace(now.At(k), s, untampered)
    requires untampered && QuietIn(world, turns[0], end) && Reachable(now.swaps[k].view, now.swaps[k].record) ==> attempt.Done?
    ensures Progress(before, next, k, if attempt.Done? then errors else errors + 1, untampered, atomic, world, [end] + turns)
  {
    assert now.At(k) == before.At(k);
    RollingStep(before, now, next, k, s, untampered, atomic, world, turns, end);
    if errors == 0 && attempt.Done? {
      InPlaceStep(before, now, next, k, s, untampered);
    }
    Descending(turns, |turns| - 1);
    if before.AllReachable() {
      assert Reachable(before.swaps[k].view, before.swaps[k].record);
    }
  }

  lemma {:induction false} Ascending(turns: seq<nat>, i: nat)
    requires i < |turns| && forall j :: 0 < j < |turns| ==> turns[j] <= turns[j - 1]
    ensures turns[|turns| - 1] <= turns[i]
    decreases |turns| - i
  {
    if i + 1 < |turns| {
      Ascending(turns, i + 1);
    }
  }

  lemma {:induction false} Descending(turns: seq<nat>, i: nat)
    requires i < |turns| && forall j :: 0 < j < |turns| ==> turns[j] <= turns[j - 1]
    ensures turns[i] <= turns[0]
  {
    if i > 0 {
      Descending(turns, i - 1);
    }
  }

  class Journal {
    var swaps: seq<Kept>
    ghost var accounts: seq<Account>

    ghost function State(): Files
      reads this
    {
      Files(swaps, accounts)
    }

    ghost predicate Valid()
      reads this
    {
      State().Valid()
    }

    constructor ()
      ensures Valid() && swaps == [] && accounts == []
    {
      swaps, accounts := [], [];
    }

    /** A new swap comes on record. */
    method Add(swap: FileSwap)
      requires Valid() && swap.Sane() && swap.record == swap.saved
      modifies this
      ensures Valid() && State() == old(State()).And(swap.Look())
    {
      swaps, accounts := swaps + [swap.Keep()], accounts + [swap.account];
    }

    /** `_validate_file_swap_journal`. */
    method Validate() returns (ok: bool)
      ensures ok <==> State().AllValidated()
    {
      for k := 0 to |swaps|
        invariant forall i :: 0 <= i < k ==> swaps[i].record.Validated()
      {
        WrittenIsAcceptable(swaps[k].record);
        if !Acceptable(Written(swaps[k].record)) {
          return false;
        }
      }
      return true;
    }

    /** One swap of the loop below. */
    method RollbackSwap(k: nat, process: Process) returns (r: Outcome, ghost s: Shot)
      requires Valid() && k < |swaps|
      modifies process, this
      ensures Valid() && process.Later()
      ensures State() == old(State()).With(k, s)
      ensures QuietIn(process.world, old(process.clock), process.clock) ==> !r.Killed?
      ensures Attempted(old(State()).At(k), s, old(process.Untampered()), old(process.Atomic()),
                        QuietIn(process.world, old(process.clock), process.clock))
      ensures r.Done? ==> PutInPlace(old(State()).At(k), s, old(process.Untampered()))
      ensures old(process.Untampered() && Reachable(swaps[k].view, swaps[k].record)) ==>
                QuietIn(process.world, old(process.clock), process.clock) ==> r.Done?
    {
      var swap := new FileSwap.Found(swaps[k], accounts[k]);
      r := swap.RollbackFileSwap(process);
      s := swap.Look();
      swaps, accounts := swaps[k := swap.Keep()], accounts[k := swap.account];
    }

    /** One turn of the loop below. */
    method RollbackNext(
      k: nat, errors: nat, process: Process, ghost before: Files, ghost untampered: bool, ghost atomic: bool, ghost turns: seq<nat>)
      returns (r: Outcome, failures: nat)
      requires Valid() && before.Valid() && k < |swaps| == |before.swaps|
      requires (untampered ==> process.Untampered()) && (atomic ==> process.Atomic())
      requires Progress(before, State(), k + 1, errors, untampered, atomic, process.world, turns) && turns[0] == process.clock
      modifies process, this
      ensures Valid() && process.Later() && |swaps| == old(|swaps|)
      ensures QuietIn(process.world, old(process.clock), process.clock) ==> !r.Killed?
      ensures Progress(before, State(), k, failures, untampered, atomic, process.world, [process.clock] + turns)
    {
      ghost var now := State();
      ghost var s;
      r, s := RollbackSwap(k, process);
      failures := if r.Done? then errors else errors + 1;
      ProgressStep(before, now, State(), k, errors, r, s, untampered, atomic, process.world, turns, process.clock);
    }

    /** The loop of `_rollback_files`: every swap, newest first, whatever happens to the others. */
    method RollbackSwaps(process: Process, ghost untampered: bool, ghost atomic: bool)
      returns (r: Outcome, ghost reached: nat, ghost turns: seq<nat>)
      requires Valid()
      requires (untampered ==> process.Untampered()) && (atomic ==> process.Atomic())
      modifies process, this
      ensures Valid() && process.Later()
      ensures QuietIn(process.world, old(process.clock), process.clock) ==> !r.Killed?
      ensures Rolling(old(State()), State(), reached, untampered, atomic, process.world, turns)
      ensures turns[|turns| - 1] == old(process.clock) && turns[0] == process.clock
      ensures !r.Killed? ==> reached == 0
      ensures r.Done? ==> AllInPlace(old(State()), State(), untampered)
      ensures untampered && old(State()).AllReachable() && QuietIn(process.world, old(process.clock), process.clock) ==> r.Done?
    {
      ghost var before, start := State(), process.clock;
      var errors, k := 0, |swaps|;
      turns := [start];
      r := Done;
      while k > 0 && !r.Killed?
        invariant 0 <= k <= |swaps| == |before.swaps|
        invariant Valid() && process.Later()
        invariant Progress(before, State(), k, errors, untampered, atomic, process.world, turns)
        invariant turns[|turns| - 1] == start && turns[0] == process.clock
        invariant QuietIn(process.world, start, process.clock) ==> !r.Killed?
      {
        k := k - 1;
        r, errors := RollbackNext(k, errors, process, before, untampered, atomic, turns);
        turns := [process.clock] + turns;
      }
      reached := k;
      if !r.Killed? {
        r := if errors == 0 then Done else Raised(SwapsFailed);
      }
    }

    /** `_rollback_files`: nothing is touched unless the whole journal is well formed. */
    method RollbackFiles(process: Process, ghost untampered: bool, ghost atomic: bool)
      returns (r: Outcome, ghost reached: nat, ghost turns: seq<nat>)
      requires Valid()
      requires (untampered ==> process.Untampered()) && (atomic ==> process.Atomic())
      modifies process, this
      ensures Valid() && process.Later()
      ensures QuietIn(process.world, old(process.clock), process.clock) ==> !r.Killed?
      ensures Rolling(old(State()), State(), reached, untampered, atomic, process.world, turns)
      ensures turns[|turns| - 1] == old(process.clock) && turns[0] == process.clock
      ensures !r.Killed? ==> reached == if old(State()).AllValidated() then 0 else |swaps|
      ensures r.Done? ==> State().AllRolledBack() && AllInPlace(old(State()), State(), untampered)
      ensures untampered && old(State()).AllReachable() && QuietIn(process.world, old(process.clock), process.clock) ==> r.Done?
    {
      ghost var before := State();
      var ok := Validate();
      if !ok {
        r, reached, turns := Raised(InvalidJournal), |swaps|, [process.clock];
        return;
      }
      r, reached, turns := RollbackSwaps(process, untampered, atomic);
      if r.Done? {
        forall i | 0 <= i < |swaps| ensures swaps[i].record.rollback.RolledBack? {
          assert PutInPlace(before.At(i), State().At(i), untampered);
        }
      }
    }
  }
}
