/**
 The two guarded PostgreSQL transactions of the restore script.  A transaction either
 commits a new catalog or raises and leaves the catalog as it was, so each is a function
 from a catalog to an optional catalog.

 A catalog maps database OIDs to names, as `pg_database` does; names are unique.
 */
module DatabaseAuthority {
  import opened Options

  type Oid = nat
  type Name = string
  type Catalog = map<Oid, Name>

  datatype Names = Names(live: Name, temp: Name, rollback: Name, failed: Name) {
    ghost predicate Distinct() {
      live != temp && live != rollback && live != failed && temp != rollback && temp != failed && rollback != failed
    }
  }

  ghost predicate NamesUnique(c: Catalog) {
    forall a, b :: a in c && b in c && c[a] == c[b] ==> a == b
  }

  /** `SELECT datname ... WHERE oid = o`, NULL when there is no such row. */
  function NameOf(c: Catalog, o: Oid): Option<Name> {
    if o in c then Some(c[o]) else None
  }

  predicate Occupied(c: Catalog, n: Name) {
    n in c.Values
  }

  /** `ALTER DATABASE ... RENAME TO`, which fails when the new name is taken. */
  function Rename(c: Catalog, o: Oid, n: Name): Option<Catalog>
    requires o in c
  {
    if Occupied(c, n) then None else Some(c[o := n])
  }

  // SQL's three truth values, for the comparisons that can meet NULL.

  datatype Truth = True | False | Unknown

  function Of(b: bool): Truth {
    if b then True else False
  }

  function Or(a: Truth, b: Truth): Truth {
    if a.True? || b.True? then True else if a.False? && b.False? then False else Unknown
  }

  function And(a: Truth, b: Truth): Truth {
    if a.False? || b.False? then False else if a.True? && b.True? then True else Unknown
  }

  function NotIn(x: Option<Name>, ns: set<Name>): Truth {
    if x.None? then Unknown else Of(x.value !in ns)
  }

  function Equals(x: Option<Name>, n: Name): Truth {
    if x.None? then Unknown else Of(x.value == n)
  }

  function DistinctFrom(x: Option<Name>, n: Name): bool {
    x != Some(n)
  }

  // -------------------------------------------------------------------- forward

  /** `_run_database_authority("forward", ...)`. */
  function Forward(c: Catalog, names: Names, original: Oid, temp: Oid): Option<Catalog> {
    if original == 0 || temp == 0 || original == temp then None
    else if DistinctFrom(NameOf(c, original), names.live)
         || DistinctFrom(NameOf(c, temp), names.temp)
         || Occupied(c, names.rollback) || Occupied(c, names.failed)
    then None
    else
      match Rename(c, original, names.rollback)
      case None => None
      case Some(c1) =>
        match Rename(c1, temp, names.live)
        case None => None
        case Some(c2) =>
          if DistinctFrom(NameOf(c2, original), names.rollback)
             || DistinctFrom(NameOf(c2, temp), names.live)
             || Occupied(c2, names.temp) || Occupied(c2, names.failed)
          then None
          else Some(c2)
  }

  // ------------------------------------------------------------------- rollback

  /** Some known name is held by a database that has no business under it. */
  predicate Usurped(c: Catalog, names: Names, original: Oid, temp: Oid, strict: bool) {
    exists o :: o in c &&
      ( (c[o] == names.live && o != original && (strict || o != temp))
        || (!strict && c[o] == names.rollback && o != original)
        || ((c[o] == names.temp || c[o] == names.failed) && o != temp))
  }

  /** The first guard of the rollback block, in SQL's logic. */
  function Suspicion(c: Catalog, names: Names, original: Oid, temp: Oid): Truth {
    var t := NameOf(c, temp);
    Or(Or(NotIn(NameOf(c, original), {names.live, names.rollback}),
          And(Of(t.Some?), NotIn(t, {names.live, names.temp, names.failed}))),
       Of(Usurped(c, names, original, temp, false)))
  }

  /** The renames between the two guards. */
  function PutBack(c: Catalog, names: Names, original: Oid, temp: Oid): Option<Catalog> {
    if !Equals(NameOf(c, original), names.rollback).True? then Some(c)
    else
      var moved := if Equals(NameOf(c, temp), names.live).True? then Rename(c, temp, names.failed) else Some(c);
      if moved.None? || original !in moved.value then None else Rename(moved.value, original, names.live)
  }

  /** The guard after the renames. */
  predicate Settled(c: Catalog, names: Names, original: Oid, temp: Oid) {
    var t := NameOf(c, temp);
    && !DistinctFrom(NameOf(c, original), names.live)
    && !Occupied(c, names.rollback)
    && !(t.Some? && t.value !in {names.temp, names.failed})
    && !Usurped(c, names, original, temp, true)
  }

  /** `_run_database_authority("rollback", ...)`.  An IF on an unknown condition does not fire. */
  function Rollback(c: Catalog, names: Names, original: Oid, temp: Oid): Option<Catalog> {
    if original == 0 || temp == 0 || original == temp then None
    else if Suspicion(c, names, original, temp).True? then None
    else
      var after := PutBack(c, names, original, temp);
      if after.None? || !Settled(after.value, names, original, temp) then None else after
  }

  // ------------------------------------------------------------------ properties

  /** Untouched, half renamed or fully switched: the topologies a restore can have left. */
  ghost predicate Recognised(c: Catalog, names: Names, original: Oid, temp: Oid) {
    && original in c && (c[original] == names.live || c[original] == names.rollback)
    && (temp in c ==> c[temp] in {names.live, names.temp, names.failed})
    && (forall o :: o in c && c[o] == names.live ==> o == original || o == temp)
    && (forall o :: o in c && c[o] == names.rollback ==> o == original)
    && (forall o :: o in c && (c[o] == names.temp || c[o] == names.failed) ==> o == temp)
  }

  /** The original is live again and the restored database is out of the way. */
  ghost predicate Recovered(c: Catalog, names: Names, original: Oid, temp: Oid) {
    && original in c && c[original] == names.live
    && !Occupied(c, names.rollback)
    && (temp in c ==> c[temp] == names.temp || c[temp] == names.failed)
  }

  ghost predicate SameElsewhere(c: Catalog, d: Catalog, original: Oid, temp: Oid) {
    c.Keys == d.Keys && forall o :: o in c && o != original && o != temp ==> c[o] == d[o]
  }

  /** What the rollback makes of a recognised catalog. */
  ghost function Undone(c: Catalog, names: Names, original: Oid, temp: Oid): Catalog {
    (if temp in c && c[temp] == names.live then c[temp := names.failed] else c)[original := names.live]
  }

  lemma OccupiedNames(c: Catalog)
    ensures forall o :: o in c ==> Occupied(c, c[o])
  {
  }

  lemma UniqueAfterRename(c: Catalog, o: Oid, n: Name)
    requires NamesUnique(c) && o in c && !Occupied(c, n)
    ensures NamesUnique(c[o := n])
  {
    OccupiedNames(c);
  }

  /** The renames cannot collide in a recognised topology. */
  lemma PutBackUndoes(c: Catalog, names: Names, original: Oid, temp: Oid)
    requires NamesUnique(c) && names.Distinct() && original != temp
    requires Recognised(c, names, original, temp)
    ensures PutBack(c, names, original, temp) == Some(Undone(c, names, original, temp))
    ensures NamesUnique(Undone(c, names, original, temp))
  {
    OccupiedNames(c);
    if c[original] == names.rollback {
      if temp in c && c[temp] == names.live {
        UniqueAfterRename(c, temp, names.failed);
        UniqueAfterRename(c[temp := names.failed], original, names.live);
      } else {
        UniqueAfterRename(c, original, names.live);
      }
    } else {
      assert c[original := names.live] == c;
    }
  }

  lemma UndoneRecovers(c: Catalog, names: Names, original: Oid, temp: Oid)
    requires NamesUnique(c) && names.Distinct() && original != temp
    requires Recognised(c, names, original, temp)
    ensures var d := Undone(c, names, original, temp);
            && Recovered(d, names, original, temp)
            && Recognised(d, names, original, temp)
            && SameElsewhere(c, d, original, temp)
            && Undone(d, names, original, temp) == d
  {
  }

  /** The rollback transaction commits exactly in the recognised topologies, and then the
      original OID is live.  In every other catalog, a missing original included, it changes nothing. */
  lemma RollbackIff(c: Catalog, names: Names, original: Oid, temp: Oid)
    requires NamesUnique(c) && names.Distinct() && 0 < original && 0 < temp && original != temp
    ensures var r := Rollback(c, names, original, temp);
            && (r.Some? <==> Recognised(c, names, original, temp))
            && (r.Some? ==>
                  && r.value == Undone(c, names, original, temp)
                  && NamesUnique(r.value)
                  && Recovered(r.value, names, original, temp)
                  && Recognised(r.value, names, original, temp)
                  && SameElsewhere(c, r.value, original, temp))
  {
    if Recognised(c, names, original, temp) {
      PutBackUndoes(c, names, original, temp);
      UndoneRecovers(c, names, original, temp);
    } else if original in c {
      assert Suspicion(c, names, original, temp).True?;
    }
  }

  /** For a missing original the first guard is unknown, so that it does not fire, unless another of its
      conditions holds; the rollback aborts all the same. */
  lemma MissingOriginal(c: Catalog, names: Names, original: Oid, temp: Oid)
    requires original !in c
    ensures Suspicion(c, names, original, temp) ==
            if (temp in c && c[temp] !in {names.live, names.temp, names.failed}) || Usurped(c, names, original, temp, false)
            then True else Unknown
    ensures Rollback(c, names, original, temp) == None
  {
  }

  /** Running the rollback again is harmless. */
  lemma RollbackTwice(c: Catalog, names: Names, original: Oid, temp: Oid)
    requires NamesUnique(c) && names.Distinct() && 0 < original && 0 < temp && original != temp
    requires Rollback(c, names, original, temp).Some?
    ensures var d := Rollback(c, names, original, temp).value;
            Rollback(d, names, original, temp) == Some(d)
  {
    RollbackIff(c, names, original, temp);
    UndoneRecovers(c, names, original, temp);
    RollbackIff(Undone(c, names, original, temp), names, original, temp);
  }

  /** The forward transaction commits exactly when the original is live, the restored database
      is under its temporary name and both other names are free; then it exchanges them. */
  lemma ForwardIff(c: Catalog, names: Names, original: Oid, temp: Oid)
    requires NamesUnique(c) && names.Distinct() && 0 < original && 0 < temp && original != temp
    ensures var r := Forward(c, names, original, temp);
            && (r.Some? <==>
                  && original in c && c[original] == names.live
                  && temp in c && c[temp] == names.temp
                  && !Occupied(c, names.rollback) && !Occupied(c, names.failed))
            && (r.Some? ==>
                  r.value == c[original := names.rollback][temp := names.live] && NamesUnique(r.value))
  {
    if original in c && c[original] == names.live && temp in c && c[temp] == names.temp
       && !Occupied(c, names.rollback) && !Occupied(c, names.failed)
    {
      OccupiedNames(c);
      UniqueAfterRename(c, original, names.rollback);
      UniqueAfterRename(c[original := names.rollback], temp, names.live);
    }
  }

  /** Undoing a switch gives back the catalog before it, with the restored database set aside. */
  lemma ForwardThenRollback(c: Catalog, names: Names, original: Oid, temp: Oid)
    requires NamesUnique(c) && names.Distinct() && 0 < original && 0 < temp && original != temp
    requires Forward(c, names, original, temp).Some?
    ensures Recognised(c, names, original, temp)
    ensures Recognised(Forward(c, names, original, temp).value, names, original, temp)
    ensures Rollback(Forward(c, names, original, temp).value, names, original, temp) == Some(c[temp := names.failed])
  {
    ForwardIff(c, names, original, temp);
    var d := Forward(c, names, original, temp).value;
    OccupiedNames(c);
    RollbackIff(d, names, original, temp);
    assert Undone(d, names, original, temp) == c[temp := names.failed];
  }

  /** The catalog as a restore prepares it for the switch. */
  ghost predicate Switchable(c: Catalog, names: Names, original: Oid, temp: Oid) {
    && NamesUnique(c) && names.Distinct() && 0 < original && 0 < temp && original != temp
    && original in c && c[original] == names.live
    && temp in c && c[temp] == names.temp
    && !Occupied(c, names.rollback) && !Occupied(c, names.failed)
  }

  /** The catalog right after the switch. */
  ghost predicate Exchanged(c: Catalog, names: Names, original: Oid, temp: Oid) {
    && NamesUnique(c) && Recognised(c, names, original, temp)
    && NameOf(c, original) == Some(names.rollback) && NameOf(c, temp) == Some(names.live)
    && !Occupied(c, names.temp) && !Occupied(c, names.failed)
  }

  lemma SwitchExchanges(c: Catalog, names: Names, original: Oid, temp: Oid)
    requires Switchable(c, names, original, temp)
    ensures Recognised(c, names, original, temp)
    ensures Forward(c, names, original, temp).Some?
    ensures Exchanged(Forward(c, names, original, temp).value, names, original, temp)
  {
    ForwardIff(c, names, original, temp);
    ForwardThenRollback(c, names, original, temp);
  }

  /** The catalog as it must be for a restore to begin. */
  ghost predicate Fresh(c: Catalog, names: Names, original: Oid, created: Oid) {
    && NamesUnique(c) && 0 < original && 0 < created && created !in c
    && original in c && c[original] == names.live
    && names.temp != names.rollback && names.temp != names.failed && names.rollback != names.failed
    && !Occupied(c, names.temp) && !Occupied(c, names.rollback) && !Occupied(c, names.failed)
  }

  /** Creating the temporary database then prepares the switch and disturbs nothing. */
  lemma FreshIsSwitchable(c: Catalog, names: Names, original: Oid, created: Oid)
    requires Fresh(c, names, original, created)
    ensures Switchable(c[created := names.temp], names, original, created)
  {
    OccupiedNames(c);
  }
}
