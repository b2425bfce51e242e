/**
 The value side of one journaled file or directory swap: what a journal record
 holds, which slot contents go with which record, and which changes of the slots a
 record authorises.  The methods that act on these values are in FileSwaps.

 A swap owns four names in one directory.  The script calls them target, old, new
 and failed; here they are `Live`, `Prior`, `Staged` and `Failed`.
 */
module SwapProtocol {
  import opened Options
  import DatabaseAuthority

  /** What can happen at a fault hook: nothing, a kill, an exception, a removal cut short by a kill
      or an exception, or changes of slots and database catalog by somebody else. */
  datatype Event =
    | Quiet
    | Kill
    | Fail
    | Tearing(residue: Identity, fatal: bool)
    | Outside(view: View, catalog: DatabaseAuthority.Catalog)

  datatype EntryType = Regular | Directory | Symlink

  /** What the script records of an entry: device, inode, type and content fingerprint.
      A rename on one filesystem keeps all four. */
  datatype Identity = Identity(device: nat, inode: nat, mode: EntryType, fingerprint: string) {
    predicate WellFormed() {
      IsFingerprint(fingerprint)
    }
  }

  predicate IsFingerprint(f: string) {
    |f| == 64 && AllHex(f)
  }

  predicate AllHex(f: string) {
    f == "" || (('0' <= f[0] <= '9' || 'a' <= f[0] <= 'f') && AllHex(f[1..]))
  }

  datatype Slot = Live | Prior | Staged | Failed

  /** The contents of the four slots. */
  datatype View = View(live: Option<Identity>, prior: Option<Identity>, staged: Option<Identity>, failed: Option<Identity>) {
    function Get(slot: Slot): Option<Identity> {
      match slot
      case Live => live
      case Prior => prior
      case Staged => staged
      case Failed => failed
    }

    function Put(slot: Slot, e: Option<Identity>): View {
      match slot
      case Live => this.(live := e)
      case Prior => this.(prior := e)
      case Staged => this.(staged := e)
      case Failed => this.(failed := e)
    }

    /** `os.rename`, which replaces whatever is at the destination. */
    function Renamed(source: Slot, destination: Slot): View {
      Put(source, None).Put(destination, Get(source))
    }
  }

  datatype Kind = DirectorySwap | FileSwap

  datatype ForwardState = Prepared | OldMoved | Applied | Committed | Undone

  datatype Action = LiveToFailed | OldToLive | TargetCleanup | FailedCleanup | NewCleanup {
    predicate IsRename() {
      LiveToFailed? || OldToLive?
    }

    /** The slot whose entry the action moves or removes. */
    function Subject(): Slot {
      match this
      case LiveToFailed => Live
      case OldToLive => Prior
      case TargetCleanup => Live
      case FailedCleanup => Failed
      case NewCleanup => Staged
    }

    function Destination(): Slot
      requires IsRename()
    {
      if LiveToFailed? then Failed else Live
    }
  }

  /** `Mutated` stands for the script's `_renamed` and `_cleaned` suffixes. */
  datatype Stage = Intended | Mutated | Fsynced

  datatype RollbackState = NotStarted | During(action: Action, stage: Stage) | RolledBack

  datatype Intent = Intent(action: Action, identity: Identity)

  /** One element of the journal's `file_swaps`. */
  datatype Swap = Swap(
    kind: Kind,
    existed: bool,
    original: Option<Identity>,
    candidate: Identity,
    state: ForwardState,
    rollback: RollbackState,
    intent: Option<Intent>)
  {
    function Expected(a: Action): Option<Identity> {
      if a.OldToLive? then original else Some(candidate)
    }

    predicate Pursues(a: Action) {
      intent.Some? && intent.value.action == a
    }

    /** Renames restore an original that existed; `target-cleanup` is for one that did not. */
    ghost predicate Allows(a: Action) {
      && (a.IsRename() ==> existed)
      && (a.TargetCleanup? ==> !existed)
    }

    /** `_validate_file_swap_journal`, for one record. */
    predicate Validated() {
      && candidate.mode == (if kind.DirectorySwap? then Directory else Regular)
      && candidate.WellFormed()
      && existed == original.Some?
      && (existed ==> original.value.WellFormed())
    }

    /** A record as the script itself writes it: the intent names the recorded identity. */
    ghost predicate Consistent() {
      && Validated()
      && match rollback
         case NotStarted => intent.None?
         case RolledBack => intent.None?
         case During(a, _) => Allows(a) && intent == Some(Intent(a, Expected(a).value))
    }

    function At(a: Action, stage: Stage, identity: Identity): Swap {
      this.(rollback := During(a, stage), intent := Some(Intent(a, identity)))
    }

    function Finished(): Swap {
      this.(rollback := RolledBack, state := Undone, intent := None)
    }

    /** The pre-restore contents of the four slots. */
    function OriginalView(): View {
      View(original, None, None, None)
    }
  }

  /** Everything about a swap that its journal transitions leave alone. */
  ghost predicate SameSwap(s: Swap, t: Swap) {
    s.kind == t.kind && s.existed == t.existed && s.original == t.original && s.candidate == t.candidate
  }

  ghost predicate Restored(v: View, s: Swap) {
    v == s.OriginalView() && s.rollback.RolledBack? && s.state.Undone?
  }

  // ------------------------------------------------------- what kills leave behind

  /** Slot contents a killed forward run can leave for each recorded state. */
  ghost predicate ForwardReachable(v: View, s: Swap) {
    var c := Some(s.candidate);
    match s.state
    case Prepared => v == View(s.original, None, c, None) || v == View(None, s.original, c, None)
    case OldMoved => v == View(None, s.original, c, None) || v == View(c, s.original, None, None)
    case Applied => v == View(c, s.original, None, None)
    case Committed => v == View(c, s.original, None, None)
    case Undone => false
  }

  /** Slot contents a killed rollback can leave for each recorded intent. */
  ghost predicate RollbackReachable(v: View, s: Swap, a: Action, stage: Stage) {
    var c, o := Some(s.candidate), s.original;
    match a
    case LiveToFailed =>
      v == View(None, o, None, c) || (stage.Intended? && v == View(c, o, None, None))
    case OldToLive =>
      || v == View(o, None, c, None)
      || v == View(o, None, None, c)
      || (stage.Intended? && (v == View(None, o, c, None) || v == View(None, o, None, c)))
    case TargetCleanup =>
      v == s.OriginalView() || (stage.Intended? && v == View(c, None, None, None))
    case FailedCleanup =>
      s.existed && (v == s.OriginalView() || (stage.Intended? && v == View(o, None, None, c)))
    case NewCleanup =>
      v == s.OriginalView() || (stage.Intended? && v == View(o, None, c, None))
  }

  /** The pairs of slot contents and durable record that process kills can produce. */
  ghost predicate Reachable(v: View, s: Swap) {
    && s.Consistent()
    && s.original != Some(s.candidate)
    && match s.rollback
       case NotStarted => ForwardReachable(v, s)
       case During(a, stage) => s.state != Undone && RollbackReachable(v, s, a, stage)
       case RolledBack => s.state.Undone? && v == s.OriginalView()
  }

  /** A directory removal was cut short: the slot holds a remnant of the candidate. */
  ghost predicate Torn(v: View, s: Swap) {
    && s.rollback.During?
    && s.rollback.stage.Intended?
    && !s.rollback.action.IsRename()
    && v.Get(s.rollback.action.Subject()).Some?
    && v.Get(s.rollback.action.Subject()).value != s.candidate
    && Reachable(v.Put(s.rollback.action.Subject(), Some(s.candidate)), s)
  }

  /** Something that is not the candidate sits at the `failed` name. */
  ghost predicate Blocked(v: View, s: Swap) {
    v.failed.Some? && v.failed.value != s.candidate
  }

  /** When the rollback code reaches an action, the slots are as that action needs them. */
  ghost predicate Ready(v: View, s: Swap, a: Action) {
    && s.Allows(a)
    && (s.Pursues(a) ||
        match a
        case LiveToFailed => v.live.Some? && v.prior.Some?
        case OldToLive => v.prior.Some? && v.live.None?
        case TargetCleanup => v.prior.None?
        case FailedCleanup => v.prior.None? && v.live == s.original
        case NewCleanup => v.prior.None? && v.live == s.original)
  }

  /** An announced rename can still happen, or has already happened. */
  ghost predicate Movable(v: View, a: Action, id: Identity)
    requires a.IsRename()
  {
    || (v.Get(a.Subject()) == Some(id) && v.Get(a.Destination()).None?)
    || (v.Get(a.Subject()).None? && v.Get(a.Destination()) == Some(id))
  }

  ghost function Arrived(v: View, a: Action, id: Identity): View
    requires a.IsRename()
  {
    v.Put(a.Subject(), None).Put(a.Destination(), Some(id))
  }

  /** The record once the action is announced. */
  ghost function Announcing(s: Swap, a: Action, id: Identity): Swap {
    if s.Pursues(a) then s else s.At(a, Intended, id)
  }

  /** Where a durable rename started at `(v, s)` can be interrupted. */
  ghost predicate RenameStop(v: View, s: Swap, a: Action, id: Identity, v': View, s': Swap)
    requires a.IsRename()
  {
    || (v' == v && (s' == s || s' == Announcing(s, a, id)))
    || (Movable(v, a, id) && v' == Arrived(v, a, id) && (s' == Announcing(s, a, id) || s' == s.At(a, Mutated, id) || s' == s.At(a, Fsynced, id)))
  }

  /** A rename the rollback code starts in a reachable state cannot be refused, and wherever
      it is interrupted the state is reachable again. */
  lemma RenameStaysReachable(v: View, s: Swap, a: Action)
    requires Reachable(v, s) && Ready(v, s, a) && a.IsRename()
    ensures var id := s.Expected(a).value;
            && Movable(v, a, id)
            && (s.Pursues(a) ==> s.intent.value.identity == id)
            && (!s.Pursues(a) ==> v.Get(a.Subject()) == Some(id))
            && forall v', s' :: RenameStop(v, s, a, id, v', s') ==> Reachable(v', s')
  {
  }

  ghost predicate Removable(v: View, a: Action, id: Identity) {
    v.Get(a.Subject()).None? || v.Get(a.Subject()) == Some(id)
  }

  /** Where a durable cleanup started at `(v, s)` can be interrupted. */
  ghost predicate CleanupStop(v: View, s: Swap, a: Action, id: Identity, v': View, s': Swap) {
    || (v' == v && s' == s)
    || ((s.Pursues(a) || v.Get(a.Subject()).Some?) && (
        || (v' == v && s' == Announcing(s, a, id))
        || (v' == v.Put(a.Subject(), None) && (s' == Announcing(s, a, id) || s' == s.At(a, Mutated, id) || s' == s.At(a, Fsynced, id)))
        || (v == v'.Put(a.Subject(), Some(id)) && v'.Get(a.Subject()).Some? && s' == Announcing(s, a, id))))
  }

  /** A cleanup the rollback code starts in a reachable state cannot be refused; interrupted,
      it leaves a reachable state or a half-removed directory. */
  lemma CleanupStaysReachable(v: View, s: Swap, a: Action)
    requires Reachable(v, s) && Ready(v, s, a) && !a.IsRename()
    ensures Removable(v, a, s.candidate)
    ensures s.Pursues(a) ==> s.intent.value.identity == s.candidate
    ensures forall v', s' :: CleanupStop(v, s, a, s.candidate, v', s') ==>
              Reachable(v', s') || (Torn(v', s') && v' != v && v'.Get(a.Subject()).Some?)
  {
    forall v', s' | CleanupStop(v, s, a, s.candidate, v', s')
      ensures Reachable(v', s') || (Torn(v', s') && v' != v && v'.Get(a.Subject()).Some?)
    {
      if v' != v && v'.Get(a.Subject()).Some? {
        assert v'.Put(a.Subject(), Some(s.candidate)) == v;
      }
    }
  }

  /** Everything that kills and failures can produce, half-removed directories included. */
  ghost predicate Producible(v: View, s: Swap) {
    Reachable(v, s) || Torn(v, s)
  }

  /** A removal cut short leaves such a directory, whatever is left of it. */
  lemma CutShortIsTorn(v: View, s: Swap, residue: Identity)
    requires Reachable(v, s) && s.rollback.During? && s.rollback.stage.Intended? && !s.rollback.action.IsRename()
    requires v.Get(s.rollback.action.Subject()) == Some(s.candidate) && residue != s.candidate
    ensures var v' := v.Put(s.rollback.action.Subject(), Some(residue));
            Torn(v', s) && !Reachable(v', s) && CleanupStop(v, s, s.rollback.action, s.candidate, v', s)
  {
    var a := s.rollback.action;
    assert v.Put(a.Subject(), Some(residue)).Put(a.Subject(), Some(s.candidate)) == v;
  }

  /** Such a pair exists: a directory swap in the middle of removing the candidate set aside. */
  lemma SomeTornSwap(fingerprint: string) returns (before: View, record: Swap, after: View)
    requires IsFingerprint(fingerprint)
    ensures Reachable(before, record) && Torn(after, record)
    ensures before.live == after.live == record.original && before.failed == Some(record.candidate) != after.failed
  {
    var original, candidate := Identity(1, 1, Directory, fingerprint), Identity(1, 2, Directory, fingerprint);
    before := View(Some(original), None, None, Some(candidate));
    record := Swap(DirectorySwap, true, Some(original), candidate, Committed,
                   During(FailedCleanup, Intended), Some(Intent(FailedCleanup, candidate)));
    after := before.(failed := Some(Identity(1, 2, Directory, "")));
    CutShortIsTorn(before, record, Identity(1, 2, Directory, ""));
  }

  // ------------------------------------------------------- the journal as it is on disk

  /** A value read from JSON: absent or null, of another type than expected, or as expected. */
  datatype Raw<T> = Null | Other | Given(value: T)

  datatype RawIdentity = RawIdentity(device: Raw<int>, inode: Raw<int>, mode: Raw<int>, fingerprint: Raw<string>)

  datatype RawSwap = RawSwap(kind: Raw<string>, candidate: Raw<RawIdentity>, existed: Raw<bool>, original: Raw<RawIdentity>)

  const S_IFREG := 0x8000
  const S_IFDIR := 0x4000
  const S_IFLNK := 0xA000

  function ModeNumber(t: EntryType): int {
    match t
    case Regular => S_IFREG
    case Directory => S_IFDIR
    case Symlink => S_IFLNK
  }

  predicate IsCount(n: Raw<int>) {
    n.Given? && n.value >= 0
  }

  /** `_validated_rollback_identity`. */
  predicate AcceptableIdentity(raw: Raw<RawIdentity>, modes: set<int>) {
    && raw.Given?
    && IsCount(raw.value.device) && IsCount(raw.value.inode) && IsCount(raw.value.mode)
    && raw.value.fingerprint.Given? && IsFingerprint(raw.value.fingerprint.value)
    && raw.value.mode.value in modes
  }

  /** The body of the loop of `_validate_file_swap_journal`. */
  predicate Acceptable(raw: RawSwap) {
    && raw.kind.Given? && raw.kind.value in {"directory", "file"}
    && AcceptableIdentity(raw.candidate, {if raw.kind.value == "directory" then S_IFDIR else S_IFREG})
    && raw.existed.Given?
    && (if raw.existed.value then AcceptableIdentity(raw.original, {S_IFREG, S_IFDIR, S_IFLNK}) else raw.original.Null?)
  }

  function WrittenIdentity(id: Identity): RawIdentity {
    RawIdentity(Given(id.device), Given(id.inode), Given(ModeNumber(id.mode)), Given(id.fingerprint))
  }

  function Written(s: Swap): RawSwap {
    RawSwap(Given(if s.kind.DirectorySwap? then "directory" else "file"), Given(WrittenIdentity(s.candidate)),
            Given(s.existed), if s.original.None? then Null else Given(WrittenIdentity(s.original.value)))
  }

  /** A record the script wrote passes exactly when it is well formed. */
  lemma WrittenIsAcceptable(s: Swap)
    ensures Acceptable(Written(s)) <==> s.Validated()
  {
  }

  function ReadIdentity(raw: RawIdentity): (id: Identity)
    requires AcceptableIdentity(Given(raw), {S_IFREG, S_IFDIR, S_IFLNK})
    ensures WrittenIdentity(id) == raw && id.WellFormed()
  {
    var mode := if raw.mode.value == S_IFREG then Regular else if raw.mode.value == S_IFDIR then Directory else Symlink;
    Identity(raw.device.value, raw.inode.value, mode, raw.fingerprint.value)
  }

  /** And what passes is what some well-formed record is written as. */
  lemma AcceptableIsWritten(raw: RawSwap) returns (s: Swap)
    requires Acceptable(raw)
    ensures s.Validated() && Written(s) == raw
  {
    var original := if raw.existed.value then Some(ReadIdentity(raw.original.value)) else None;
    s := Swap(if raw.kind.value == "directory" then DirectorySwap else FileSwap, raw.existed.value, original,
              ReadIdentity(raw.candidate.value), Prepared, NotStarted, None);
  }

  // ------------------------------------------------------------ changes of the slots

  /** One entry of a swap's account: a change of the slots, or a journal save.  `record` is the
      durable record at that moment, after the save if it is one.  Only somebody else's change
      has a time, the number of the hook at which it happened. */
  datatype Change =
    | Save(record: Swap, before: View)
    | ForwardMove(record: Swap, before: View, source: Slot, destination: Slot)
    | RollbackMove(record: Swap, before: View, source: Slot, destination: Slot)
    | Removal(record: Swap, before: View, slot: Slot)
    | Tear(record: Swap, before: View, slot: Slot, residue: Identity)
    | Foreign(record: Swap, before: View, at: nat, after: View)
  {
    function After(): View {
      match this
      case Save(_, before) => before
      case ForwardMove(_, before, source, destination) => before.Renamed(source, destination)
      case RollbackMove(_, before, source, destination) => before.Renamed(source, destination)
      case Removal(_, before, slot) => before.Put(slot, None)
      case Tear(_, before, slot, residue) => before.Put(slot, Some(residue))
      case Foreign(_, _, _, after) => after
    }
  }

  /** A rollback mutation is announced by a durable intent that names the very entry it touches. */
  ghost predicate Announced(record: Swap, slot: Slot, before: View) {
    && record.intent.Some?
    && record.intent.value.action.Subject() == slot
    && before.Get(slot) == Some(record.intent.value.identity)
  }

  ghost predicate Authorised(c: Change) {
    match c
    case Save(_, _) => true
    case ForwardMove(record, _, source, destination) =>
      || (record.state.Prepared? && source.Live? && destination.Prior?)
      || (record.state.OldMoved? && source.Staged? && destination.Live?)
    case RollbackMove(record, before, source, destination) =>
      && Announced(record, source, before)
      && record.intent.value.action.IsRename()
      && destination == record.intent.value.action.Destination()
      && before.Get(destination).None?
    case Removal(record, before, slot) => Announced(record, slot, before) && !record.intent.value.action.IsRename()
    case Tear(record, before, slot, _) => Announced(record, slot, before) && !record.intent.value.action.IsRename()
    case Foreign(_, _, _, _) => true
  }

  /** A rename that lands on an entry. */
  ghost predicate Displaces(c: Change) {
    (c.ForwardMove? || c.RollbackMove?) && c.before.Get(c.destination).Some?
  }

  /** Slots and durable record after some entries. */
  function SlotsAfter(start: View, log: seq<Change>): View {
    if log == [] then start else log[|log| - 1].After()
  }

  function RecordAfter(began: Swap, log: seq<Change>): Swap {
    if log == [] then began else log[|log| - 1].record
  }

  /** Each entry takes up where the one before ended; only a save changes the durable record. */
  ghost predicate Chain(start: View, began: Swap, log: seq<Change>) {
    && (forall k :: 0 < k < |log| ==> Follows(log[k], log[k - 1].After(), log[k - 1].record))
    && (log != [] ==> Follows(log[0], start, began))
  }

  ghost predicate Follows(c: Change, before: View, record: Swap) {
    c.before == before && (c.Save? || c.record == record)
  }

  lemma ChainJoins(start: View, began: Swap, a: seq<Change>, b: seq<Change>)
    requires Chain(start, began, a) && Chain(SlotsAfter(start, a), RecordAfter(began, a), b)
    ensures Chain(start, began, a + b)
    ensures SlotsAfter(start, a + b) == SlotsAfter(SlotsAfter(start, a), b)
    ensures RecordAfter(began, a + b) == RecordAfter(RecordAfter(began, a), b)
  {
    var all := a + b;
    forall k | 0 < k < |all| ensures Follows(all[k], all[k - 1].After(), all[k - 1].record) {
      if k < |a| {
        assert Follows(a[k], a[k - 1].After(), a[k - 1].record);
      } else if k > |a| {
        assert Follows(b[k - |a|], b[k - |a| - 1].After(), b[k - |a| - 1].record);
      }
    }
  }

  /** What stays fixed while one attempt goes on: how the swap began, what is past, and from where,
      in which world and since which hook the attempt goes on, forward or back. */
  datatype Heading = Heading(origin: View, first: Swap, past: seq<Change>,
                             start: View, began: Swap, world: nat -> Event, since: nat, undoing: bool)
  {
    ghost predicate Sound() {
      first.Consistent()
    }

    ghost predicate Entry(c: Change) {
      Authorised(c) && SameSwap(first, c.record) && (Sound() ==> c.record.Consistent())
    }

    /** An entry of this attempt.  Others' changes are events at the hooks it passed. */
    ghost predicate Current(c: Change, until: nat) {
      && Entry(c)
      && (c.Foreign? ==> since <= c.at < until && world(c.at).Outside? && world(c.at).view == c.after)
      && (undoing ==> !c.ForwardMove?)
    }

    ghost predicate Valid() {
      && SameSwap(first, began) && (Sound() ==> began.Consistent())
      && Chain(origin, first, past)
      && SlotsAfter(origin, past) == start && RecordAfter(first, past) == began
      && forall k :: 0 <= k < |past| ==> Entry(past[k])
    }
  }

  /** An unbroken account of how slots and durable record came to be as they are.  No event of
      somebody else's is used twice. */
  datatype Ledger = Ledger(heading: Heading, log: seq<Change>, until: nat) {
    function End(): View {
      SlotsAfter(heading.start, log)
    }

    function Durable(): Swap {
      RecordAfter(heading.began, log)
    }

    ghost predicate Valid() {
      && heading.Valid()
      && heading.since <= until
      && Chain(heading.start, heading.began, log)
      && (forall k :: 0 <= k < |log| ==> heading.Current(log[k], until))
      && (forall j, k :: 0 <= j < k < |log| && log[j].Foreign? && log[k].Foreign? ==> log[j].at < log[k].at)
    }

    /** No rename, in this attempt or before, landed on an entry. */
    ghost predicate NeverDisplaces() {
      (forall k :: 0 <= k < |heading.past| ==> !Displaces(heading.past[k])) && (forall k :: 0 <= k < |log| ==> !Displaces(log[k]))
    }
  }

  const NOWHERE := View(None, None, None, None)

  const NOTHING := Swap(FileSwap, false, None, Identity(0, 0, Regular, ""), Prepared, NotStarted, None)

  type Account = a: Ledger | a.Valid() witness Ledger(Heading(NOWHERE, NOTHING, [], NOWHERE, NOTHING, _ => Quiet, 0, true), [], 0)

  /** An account that begins with these slots and this record. */
  ghost function Opened(slots: View, record: Swap): (r: Account)
    ensures r.heading.first == record && r.End() == slots && r.Durable() == record && r.NeverDisplaces()
  {
    Ledger(Heading(slots, record, [], slots, record, _ => Quiet, 0, true), [], 0)
  }

  /** The heading of an attempt that begins now. */
  ghost function Renewed(a: Account, world: nat -> Event, clock: nat, undoing: bool): Heading {
    Heading(a.heading.origin, a.heading.first, a.heading.past + a.log, a.End(), a.Durable(), world, clock, undoing)
  }

  ghost function Begin(a: Account, world: nat -> Event, clock: nat, undoing: bool): (r: Account)
    ensures r == Ledger(Renewed(a, world, clock, undoing), [], clock)
    ensures r.End() == a.End() && r.Durable() == a.Durable()
    ensures a.NeverDisplaces() ==> r.NeverDisplaces()
  {
    var h := a.heading;
    ChainJoins(h.origin, h.first, h.past, a.log);
    DurableIsSound(a);
    assert forall k :: 0 <= k < |a.log| ==> h.Current(a.log[k], a.until);
    Ledger(Renewed(a, world, clock, undoing), [], clock)
  }

  lemma DurableIsSound(a: Account)
    ensures SameSwap(a.heading.first, a.Durable()) && (a.heading.Sound() ==> a.Durable().Consistent())
  {
    if a.log != [] {
      assert a.heading.Current(a.log[|a.log| - 1], a.until);
    }
  }

  ghost function Append(a: Account, c: Change): (r: Account)
    requires a.heading.Entry(c) && Follows(c, a.End(), a.Durable())
    requires a.heading.undoing ==> !c.ForwardMove?
    requires c.Foreign? ==> a.until <= c.at && a.heading.world(c.at).Outside? && a.heading.world(c.at).view == c.after
    ensures r.heading == a.heading && r.log == a.log + [c]
    ensures r.End() == c.After() && r.Durable() == c.record
    ensures r.until == if c.Foreign? then c.at + 1 else a.until
    ensures a.NeverDisplaces() && !Displaces(c) ==> r.NeverDisplaces()
  {
    AppendIsValid(a, c);
    Ledger(a.heading, a.log + [c], if c.Foreign? then c.at + 1 else a.until)
  }

  lemma AppendIsValid(a: Account, c: Change)
    requires a.heading.Entry(c) && Follows(c, a.End(), a.Durable())
    requires a.heading.undoing ==> !c.ForwardMove?
    requires c.Foreign? ==> a.until <= c.at && a.heading.world(c.at).Outside? && a.heading.world(c.at).view == c.after
    ensures Ledger(a.heading, a.log + [c], if c.Foreign? then c.at + 1 else a.until).Valid()
  {
    var log, until := a.log + [c], if c.Foreign? then c.at + 1 else a.until;
    ChainJoins(a.heading.start, a.heading.began, a.log, [c]);
    forall k | 0 <= k < |log| ensures a.heading.Current(log[k], until) {
      if k < |a.log| {
        assert a.heading.Current(a.log[k], a.until);
      }
    }
    forall j, k | 0 <= j < k < |log| && log[j].Foreign? && log[k].Foreign? ensures log[j].at < log[k].at {
      if k == |a.log| {
        assert a.heading.Current(a.log[j], a.until);
      }
    }
  }

  // ------------------------------------------------------------------------ safety

  /** Where kills can happen, an original that existed is in exactly one of two places. */
  lemma ReachableHoldsOriginal(v: View, s: Swap)
    requires Reachable(v, s) && s.existed
    ensures (v.live == s.original && v.prior.None?) || (v.prior == s.original && v.live != s.original)
    ensures v.staged != s.original && v.failed != s.original
  {
  }

  /** The original is at one of its two names. */
  ghost predicate HasOriginal(v: View, s: Swap) {
    v.live == s.original || v.prior == s.original
  }

  /** Whatever others do in between, an entry of a rollback attempt for a record the script wrote moves
      only the candidate aside or the original back, onto free names, or removes the candidate, and
      it never loses an original that is at one of its two names. */
  lemma RollbackChangesAreSafe(a: Account, k: nat)
    requires a.heading.Sound() && a.heading.undoing && k < |a.log|
    ensures var c, s := a.log[k], a.heading.first;
            match c
            case Save(_, _) => true
            case ForwardMove(_, _, _, _) => false
            case RollbackMove(_, before, source, destination) =>
              && before.Get(destination).None?
              && ((source == Live && destination == Failed && before.live == Some(s.candidate)) ||
                  (source == Prior && destination == Live && before.prior == s.original))
            case Removal(_, before, slot) => slot != Prior && before.Get(slot) == Some(s.candidate)
            case Tear(_, before, slot, _) => slot != Prior && before.Get(slot) == Some(s.candidate)
            case Foreign(_, _, at, after) => a.heading.since <= at && a.heading.world(at).Outside? && a.heading.world(at).view == after
    ensures var c, s := a.log[k], a.heading.first;
            !c.Foreign? && s.original != Some(s.candidate) && HasOriginal(c.before, s) ==> HasOriginal(c.After(), s)
  {
    assert a.heading.Current(a.log[k], a.until);
  }

  /** Nobody else changed anything in this attempt. */
  ghost predicate Alone(a: Account) {
    forall k :: 0 <= k < |a.log| ==> !a.log[k].Foreign?
  }

  lemma {:induction false} OriginalIsKeptFrom(a: Account, n: nat)
    requires a.heading.Sound() && a.heading.undoing && Alone(a) && n < |a.log|
    requires a.heading.first.original != Some(a.heading.first.candidate) && HasOriginal(a.log[n].before, a.heading.first)
    ensures HasOriginal(a.End(), a.heading.first)
    decreases |a.log| - n
  {
    RollbackChangesAreSafe(a, n);
    if n + 1 < |a.log| {
      assert Follows(a.log[n + 1], a.log[n].After(), a.log[n].record);
      OriginalIsKeptFrom(a, n + 1);
    }
  }

  /** So a rollback that is alone keeps the original at one of its two names throughout. */
  lemma OriginalIsKept(a: Account)
    requires a.heading.Sound() && a.heading.undoing && Alone(a)
    requires a.heading.first.original != Some(a.heading.first.candidate) && HasOriginal(a.heading.start, a.heading.first)
    ensures HasOriginal(a.End(), a.heading.first)
  {
    if a.log != [] {
      OriginalIsKeptFrom(a, 0);
    }
  }

  /** And no rollback renames onto an entry, alone or not. */
  lemma RollbackNeverDisplaces(a: Account)
    requires a.heading.undoing && forall k :: 0 <= k < |a.heading.past| ==> !Displaces(a.heading.past[k])
    ensures a.NeverDisplaces()
  {
    forall k | 0 <= k < |a.log| ensures !Displaces(a.log[k]) {
      assert a.heading.Current(a.log[k], a.until);
    }
  }
}
