/**
 The operations of a command document and what they do to the library: when the order in
 which they are applied does not matter.
 */
module GllOperations {
  import opened Options

  datatype Action =
    | Trash
    | Restore(reason: Option<string>)
    | Favorite(value: bool)
    | TagAdd(tag: string)
    | TagRemove(tag: string)

  datatype Operation = Operation(work: string, action: Action)

  datatype Visibility = Visible | Trashed | Purged

  /** `reason` is the one recorded with the last change of visibility. */
  datatype Work = Work(visibility: Visibility, reason: Option<string>, favorite: bool, tags: set<string>)

  type Library = map<string, Work>

  /** How work ids and tags are normalised before they are compared, and which reason is recorded
      for the one an operation gives: the command's own when it gives none. */
  datatype Norm = Norm(work: string -> string, tag: string -> string, reason: Option<string> -> Option<string>)

  function Act(n: Norm, w: Work, a: Action): Work {
    match a
    case Trash => if w.visibility == Visible then w.(visibility := Trashed, reason := n.reason(None)) else w
    case Restore(why) => if w.visibility == Trashed then w.(visibility := Visible, reason := n.reason(why)) else w
    case Favorite(value) => w.(favorite := value)
    case TagAdd(tag) => w.(tags := w.tags + {n.tag(tag)})
    case TagRemove(tag) => w.(tags := w.tags - {n.tag(tag)})
  }

  function Apply(n: Norm, lib: Library, op: Operation): Library {
    var w := n.work(op.work);
    if w in lib then lib[w := Act(n, lib[w], op.action)] else lib
  }

  function ApplyAll(n: Norm, lib: Library, ops: seq<Operation>): Library
    decreases |ops|
  {
    if ops == [] then lib else ApplyAll(n, Apply(n, lib, ops[0]), ops[1..])
  }

  ghost predicate OrderIndependent(n: Norm, ops: seq<Operation>) {
    forall lib, other :: multiset(other) == multiset(ops) ==> ApplyAll(n, lib, other) == ApplyAll(n, lib, ops)
  }

  /** Actions that touch the same thing of a work. */
  predicate SameFamily(fold: string -> string, a: Action, b: Action) {
    if a.Trash? || a.Restore? then b.Trash? || b.Restore?
    else if a.Favorite? then b.Favorite?
    else (b.TagAdd? || b.TagRemove?) && fold(a.tag) == fold(b.tag)
  }

  /** Operations that undo or pre-empt each other. */
  predicate Opposed(n: Norm, a: Operation, b: Operation) {
    n.work(a.work) == n.work(b.work) && OpposedActions(n, a.action, b.action)
  }

  predicate OpposedActions(n: Norm, a: Action, b: Action) {
    match (a, b)
    case (Trash, Restore(_)) => true
    case (Restore(_), Trash) => true
    case (Restore(why), Restore(whyNot)) => n.reason(why) != n.reason(whyNot)
    case (Favorite(v), Favorite(u)) => v != u
    case (TagAdd(t), TagRemove(u)) => n.tag(t) == n.tag(u)
    case (TagRemove(t), TagAdd(u)) => n.tag(t) == n.tag(u)
    case _ => false
  }

  ghost predicate NoneOpposed(n: Norm, ops: seq<Operation>) {
    forall i, j :: 0 <= i < j < |ops| ==> !Opposed(n, ops[i], ops[j])
  }

  // ------------------------------------------------------------- unopposed operations commute

  lemma ActionsCommute(n: Norm, w: Work, a: Action, b: Action)
    requires !OpposedActions(n, a, b)
    ensures Act(n, Act(n, w, a), b) == Act(n, Act(n, w, b), a)
  {
    if a.TagAdd? && b.TagAdd? {
      assert w.tags + {n.tag(a.tag)} + {n.tag(b.tag)} == w.tags + {n.tag(b.tag)} + {n.tag(a.tag)};
    } else if a.TagRemove? && b.TagRemove? {
      assert w.tags - {n.tag(a.tag)} - {n.tag(b.tag)} == w.tags - {n.tag(b.tag)} - {n.tag(a.tag)};
    } else if a.TagAdd? && b.TagRemove? {
      assert w.tags + {n.tag(a.tag)} - {n.tag(b.tag)} == w.tags - {n.tag(b.tag)} + {n.tag(a.tag)};
    } else if a.TagRemove? && b.TagAdd? {
      assert w.tags - {n.tag(a.tag)} + {n.tag(b.tag)} == w.tags + {n.tag(b.tag)} - {n.tag(a.tag)};
    }
  }

  lemma OperationsCommute(n: Norm, lib: Library, a: Operation, b: Operation)
    requires !Opposed(n, a, b)
    ensures Apply(n, Apply(n, lib, a), b) == Apply(n, Apply(n, lib, b), a)
  {
    var u, v := n.work(a.work), n.work(b.work);
    if u == v && u in lib {
      ActionsCommute(n, lib[u], a.action, b.action);
    }
  }

  lemma {:induction false} ApplyBoth(n: Norm, lib: Library, a: seq<Operation>, b: seq<Operation>)
    ensures ApplyAll(n, lib, a + b) == ApplyAll(n, ApplyAll(n, lib, a), b)
    decreases |a|
  {
    if a == [] {
      assert a + b == b;
    } else {
      ApplyBoth(n, Apply(n, lib, a[0]), a[1..], b);
      assert (a + b)[1..] == a[1..] + b;
    }
  }

  /** An operation opposed to none of those before it may go first. */
  lemma {:induction false} MoveToFront(n: Norm, lib: Library, before: seq<Operation>, x: Operation)
    requires forall i :: 0 <= i < |before| ==> !Opposed(n, before[i], x)
    ensures ApplyAll(n, Apply(n, lib, x), before) == Apply(n, ApplyAll(n, lib, before), x)
    decreases |before|
  {
    if before != [] {
      OperationsCommute(n, lib, before[0], x);
      MoveToFront(n, Apply(n, lib, before[0]), before[1..], x);
    }
  }

  lemma ApplyOne(n: Norm, lib: Library, x: Operation, rest: seq<Operation>)
    ensures ApplyAll(n, lib, [x] + rest) == ApplyAll(n, Apply(n, lib, x), rest)
  {
    assert ([x] + rest)[1..] == rest;
  }

  lemma TakeOut(n: Norm, lib: Library, before: seq<Operation>, x: Operation, after: seq<Operation>)
    requires forall i :: 0 <= i < |before| ==> !Opposed(n, before[i], x)
    ensures ApplyAll(n, lib, before + [x] + after) == ApplyAll(n, Apply(n, lib, x), before + after)
  {
    assert before + [x] + after == before + ([x] + after);
    ApplyBoth(n, lib, before, [x] + after);
    ApplyOne(n, ApplyAll(n, lib, before), x, after);
    MoveToFront(n, lib, before, x);
    ApplyBoth(n, Apply(n, lib, x), before, after);
  }

  lemma Removed(ops: seq<Operation>, other: seq<Operation>, k: nat)
    requires multiset(other) == multiset(ops) && other != [] && k < |ops| && ops[k] == other[0]
    ensures multiset(other[1..]) == multiset(ops[..k] + ops[k + 1..])
  {
    assert ops == ops[..k] + [ops[k]] + ops[k + 1..];
    assert other == [other[0]] + other[1..];
    assert multiset(ops[..k] + ops[k + 1..]) == multiset(ops) - multiset{ops[k]};
    assert multiset(other[1..]) == multiset(other) - multiset{ops[k]};
  }

  lemma StillNoneOpposed(n: Norm, ops: seq<Operation>, k: nat)
    requires NoneOpposed(n, ops) && k < |ops|
    ensures NoneOpposed(n, ops[..k] + ops[k + 1..])
  {
    var rest := ops[..k] + ops[k + 1..];
    forall i, j | 0 <= i < j < |rest| ensures !Opposed(n, rest[i], rest[j]) {
      var u, v := if i < k then i else i + 1, if j < k then j else j + 1;
      assert rest[i] == ops[u] && rest[j] == ops[v];
    }
  }

  lemma {:induction false} AnyOrder(n: Norm, lib: Library, ops: seq<Operation>, other: seq<Operation>)
    requires NoneOpposed(n, ops) && multiset(other) == multiset(ops)
    ensures ApplyAll(n, lib, other) == ApplyAll(n, lib, ops)
    decreases |other|
  {
    if other == [] {
      assert |ops| == |multiset(ops)| == 0;
    } else {
      assert other[0] in multiset(ops);
      var k :| 0 <= k < |ops| && ops[k] == other[0];
      var before, after := ops[..k], ops[k + 1..];
      Removed(ops, other, k);
      StillNoneOpposed(n, ops, k);
      AnyOrder(n, Apply(n, lib, other[0]), before + after, other[1..]);
      TakeOut(n, lib, before, ops[k], after);
      assert ops == before + [ops[k]] + after;
    }
  }

  // ------------------------------------------------------------ opposed ones do not

  ghost predicate Plain(lib: Library, w: string) {
    w in lib && lib[w].visibility != Purged
  }

  lemma {:induction false} StaysPlain(n: Norm, lib: Library, ops: seq<Operation>, w: string)
    requires Plain(lib, w)
    ensures Plain(ApplyAll(n, lib, ops), w)
    decreases |ops|
  {
    if ops != [] {
      StaysPlain(n, Apply(n, lib, ops[0]), ops[1..], w);
    }
  }

  lemma OpposedDiffer(n: Norm, lib: Library, a: Operation, b: Operation)
    requires Opposed(n, a, b) && Plain(lib, n.work(a.work)) && !(a.action.Restore? && b.action.Restore?)
    ensures Apply(n, Apply(n, lib, a), b) != Apply(n, Apply(n, lib, b), a)
  {
    var w := lib[n.work(a.work)];
    var x, y := Act(n, Act(n, w, a.action), b.action), Act(n, Act(n, w, b.action), a.action);
    assert x != y by {
      if a.action.TagAdd? || a.action.TagRemove? {
        var t := n.tag(a.action.tag);
        assert t in x.tags <==> t !in y.tags;
      }
    }
    assert Apply(n, Apply(n, lib, a), b)[n.work(a.work)] == x;
    assert Apply(n, Apply(n, lib, b), a)[n.work(a.work)] == y;
  }

  lemma LastTwo(n: Norm, lib: Library, rest: seq<Operation>, a: Operation, b: Operation)
    ensures ApplyAll(n, lib, rest + [a, b]) == Apply(n, Apply(n, ApplyAll(n, lib, rest), a), b)
  {
    ApplyBoth(n, lib, rest, [a, b]);
    var before := ApplyAll(n, lib, rest);
    assert [a, b] == [a] + [b] && [b] == [b] + [];
    ApplyOne(n, before, a, [b]);
    ApplyOne(n, Apply(n, before, a), b, []);
  }

  lemma Bags<T>(a: multiset<T>, x: multiset<T>, b: multiset<T>, y: multiset<T>, c: multiset<T>)
    ensures a + x + b + y + c == a + b + c + x + y == a + b + c + y + x
  {
  }

  lemma BagOfPair(rest: seq<Operation>, x: Operation, y: Operation)
    ensures multiset(rest + [x, y]) == multiset(rest) + multiset{x} + multiset{y}
  {
    assert rest + [x, y] == rest + [x] + [y];
  }

  lemma BagOfParts(a: seq<Operation>, x: Operation, b: seq<Operation>, y: Operation, c: seq<Operation>)
    ensures multiset(a + [x] + b + [y] + c) == multiset(a) + multiset{x} + multiset(b) + multiset{y} + multiset(c)
  {
  }

  lemma TwoLast(ops: seq<Operation>, i: nat, j: nat)
    returns (rest: seq<Operation>)
    requires i < j < |ops|
    ensures multiset(rest + [ops[i], ops[j]]) == multiset(ops) == multiset(rest + [ops[j], ops[i]])
  {
    var a, b, c := ops[..i], ops[i + 1..j], ops[j + 1..];
    var x, y := ops[i], ops[j];
    assert ops == a + [x] + b + [y] + c;
    rest := a + b + c;
    BagOfParts(a, x, b, y, c);
    BagOfPair(rest, x, y);
    BagOfPair(rest, y, x);
    Bags(multiset(a), multiset{x}, multiset(b), multiset{y}, multiset(c));
  }

  lemma UndoneDepends(n: Norm, ops: seq<Operation>, i: nat, j: nat)
    requires i < j < |ops| && Opposed(n, ops[i], ops[j]) && !(ops[i].action.Restore? && ops[j].action.Restore?)
    ensures !OrderIndependent(n, ops)
  {
    var a, b := ops[i], ops[j];
    var w := n.work(a.work);
    var lib := map[w := Work(Visible, None, false, {})];
    var rest := TwoLast(ops, i, j);
    StaysPlain(n, lib, rest, w);
    LastTwo(n, lib, rest, a, b);
    LastTwo(n, lib, rest, b, a);
    OpposedDiffer(n, ApplyAll(n, lib, rest), a, b);
  }

  /** No operation trashes the work. */
  ghost predicate NeverTrashed(n: Norm, ops: seq<Operation>, w: string) {
    forall k :: 0 <= k < |ops| ==> !(ops[k].action.Trash? && n.work(ops[k].work) == w)
  }

  lemma {:induction false} StaysRestored(n: Norm, lib: Library, ops: seq<Operation>, w: string)
    requires w in lib && lib[w].visibility == Visible && NeverTrashed(n, ops, w)
    ensures w in ApplyAll(n, lib, ops) && ApplyAll(n, lib, ops)[w].reason == lib[w].reason
    decreases |ops|
  {
    if ops != [] {
      StaysRestored(n, Apply(n, lib, ops[0]), ops[1..], w);
    }
  }

  lemma FirstTwo(n: Norm, lib: Library, a: Operation, b: Operation, rest: seq<Operation>)
    ensures ApplyAll(n, lib, [a, b] + rest) == ApplyAll(n, Apply(n, Apply(n, lib, a), b), rest)
  {
    assert [a, b] + rest == [a] + ([b] + rest);
    ApplyOne(n, lib, a, [b] + rest);
    ApplyOne(n, Apply(n, lib, a), b, rest);
  }

  lemma FirstRestoreWins(n: Norm, lib: Library, a: Operation, b: Operation, rest: seq<Operation>, w: string)
    requires w in lib && lib[w].visibility == Trashed && n.work(a.work) == n.work(b.work) == w
    requires a.action.Restore? && b.action.Restore? && NeverTrashed(n, rest, w)
    ensures w in ApplyAll(n, lib, [a, b] + rest) && ApplyAll(n, lib, [a, b] + rest)[w].reason == n.reason(a.action.reason)
  {
    FirstTwo(n, lib, a, b, rest);
    StaysRestored(n, Apply(n, Apply(n, lib, a), b), rest, w);
  }

  lemma TwoFirst(ops: seq<Operation>, i: nat, j: nat)
    returns (rest: seq<Operation>)
    requires i < j < |ops|
    ensures multiset([ops[i], ops[j]] + rest) == multiset(ops) == multiset([ops[j], ops[i]] + rest)
    ensures forall op :: op in rest ==> op in ops
  {
    var last := TwoLast(ops, i, j);
    rest := last;
    assert multiset([ops[i], ops[j]] + rest) == multiset(rest + [ops[i], ops[j]]);
    assert multiset([ops[j], ops[i]] + rest) == multiset(rest + [ops[j], ops[i]]);
    forall op | op in rest ensures op in ops {
      assert op in multiset(rest + [ops[i], ops[j]]);
      assert op in multiset(ops);
    }
  }

  lemma ReasonDepends(n: Norm, ops: seq<Operation>, i: nat, j: nat)
    requires i < j < |ops| && Opposed(n, ops[i], ops[j]) && ops[i].action.Restore? && ops[j].action.Restore?
    requires NeverTrashed(n, ops, n.work(ops[i].work))
    ensures !OrderIndependent(n, ops)
  {
    var w := n.work(ops[i].work);
    var lib := map[w := Work(Trashed, None, false, {})];
    var rest := TwoFirst(ops, i, j);
    forall k | 0 <= k < |rest| ensures !(rest[k].action.Trash? && n.work(rest[k].work) == w) {
      assert rest[k] in ops;
    }
    FirstRestoreWins(n, lib, ops[i], ops[j], rest, w);
    FirstRestoreWins(n, lib, ops[j], ops[i], rest, w);
  }

  lemma OpposedDepends(n: Norm, ops: seq<Operation>, i: nat, j: nat)
    requires i < j < |ops| && Opposed(n, ops[i], ops[j])
    ensures !OrderIndependent(n, ops)
  {
    if !(ops[i].action.Restore? && ops[j].action.Restore?) {
      UndoneDepends(n, ops, i, j);
    } else if NeverTrashed(n, ops, n.work(ops[i].work)) {
      ReasonDepends(n, ops, i, j);
    } else {
      var k :| 0 <= k < |ops| && ops[k].action.Trash? && n.work(ops[k].work) == n.work(ops[i].work);
      if k < i {
        UndoneDepends(n, ops, k, i);
      } else {
        UndoneDepends(n, ops, i, k);
      }
    }
  }

  /** Operations give the same library in every order, from every library, exactly when no two of
      them are opposed. */
  lemma OrderIndependentIff(n: Norm, ops: seq<Operation>)
    ensures OrderIndependent(n, ops) <==> NoneOpposed(n, ops)
  {
    if NoneOpposed(n, ops) {
      forall lib, other | multiset(other) == multiset(ops)
        ensures ApplyAll(n, lib, other) == ApplyAll(n, lib, ops)
      {
        AnyOrder(n, lib, ops, other);
      }
    } else {
      var i, j :| 0 <= i < j < |ops| && Opposed(n, ops[i], ops[j]);
      OpposedDepends(n, ops, i, j);
    }
  }

  // ----------------------------------------------------- planning before taking effect

  /** What the server does for one operation of a command: changes of visibility and favourite are
      planned, and removals of tags looked up, in the library before the command. */
  function Effect(n: Norm, before: Library, lib: Library, op: Operation): Library {
    var w := n.work(op.work);
    if w !in before || w !in lib then lib
    else
      var was, now := before[w], lib[w];
      match op.action
      case Trash => if was.visibility == Visible then lib[w := now.(visibility := Trashed, reason := n.reason(None))] else lib
      case Restore(why) => if was.visibility == Trashed then lib[w := now.(visibility := Visible, reason := n.reason(why))] else lib
      case Favorite(value) => if was.favorite != value then lib[w := now.(favorite := value)] else lib
      case TagAdd(tag) => if n.tag(tag) !in now.tags then lib[w := now.(tags := now.tags + {n.tag(tag)})] else lib
      case TagRemove(tag) => if n.tag(tag) in now.tags && n.tag(tag) in was.tags then lib[w := now.(tags := now.tags - {n.tag(tag)})] else lib
  }

  function Carry(n: Norm, before: Library, lib: Library, ops: seq<Operation>): Library
    decreases |ops|
  {
    if ops == [] then lib else Carry(n, before, Effect(n, before, lib, ops[0]), ops[1..])
  }

  /** One operation for each work and family. */
  ghost predicate Separate(n: Norm, ops: seq<Operation>) {
    forall i, j :: 0 <= i < j < |ops| ==> Apart(n, ops[i], ops[j])
  }

  predicate Apart(n: Norm, a: Operation, b: Operation) {
    n.work(a.work) != n.work(b.work) || !SameFamily(n.tag, a.action, b.action)
  }

  /** What the operation touches is still as it was before the command. */
  ghost predicate Unplanned(n: Norm, before: Library, lib: Library, op: Operation) {
    var w := n.work(op.work);
    && (w in lib <==> w in before)
    && (w in lib ==>
          match op.action
          case Trash => lib[w].visibility == before[w].visibility
          case Restore(_) => lib[w].visibility == before[w].visibility
          case Favorite(_) => lib[w].favorite == before[w].favorite
          case TagAdd(tag) => n.tag(tag) in lib[w].tags <==> n.tag(tag) in before[w].tags
          case TagRemove(tag) => n.tag(tag) in lib[w].tags <==> n.tag(tag) in before[w].tags)
  }

  lemma EffectIsApply(n: Norm, before: Library, lib: Library, op: Operation)
    requires Unplanned(n, before, lib, op)
    ensures Effect(n, before, lib, op) == Apply(n, lib, op)
  {
    var w := n.work(op.work);
    if w in lib {
      var now := lib[w];
      assert lib[w := now] == lib;
      match op.action
      case TagAdd(tag) =>
        assert n.tag(tag) in now.tags ==> now.tags + {n.tag(tag)} == now.tags;
      case TagRemove(tag) =>
        assert n.tag(tag) !in now.tags ==> now.tags - {n.tag(tag)} == now.tags;
      case _ =>
    }
  }

  lemma StaysUnplanned(n: Norm, before: Library, lib: Library, op: Operation, later: Operation)
    requires Unplanned(n, before, lib, later) && Apart(n, op, later)
    ensures Unplanned(n, before, Apply(n, lib, op), later)
  {
  }

  lemma {:induction false} CarryIsApplyAll(n: Norm, before: Library, lib: Library, ops: seq<Operation>)
    requires Separate(n, ops) && forall i :: 0 <= i < |ops| ==> Unplanned(n, before, lib, ops[i])
    ensures Carry(n, before, lib, ops) == ApplyAll(n, lib, ops)
    decreases |ops|
  {
    if ops != [] {
      EffectIsApply(n, before, lib, ops[0]);
      forall i | 0 <= i < |ops[1..]| ensures Unplanned(n, before, Apply(n, lib, ops[0]), ops[1..][i]) {
        StaysUnplanned(n, before, lib, ops[0], ops[i + 1]);
      }
      CarryIsApplyAll(n, before, Apply(n, lib, ops[0]), ops[1..]);
    }
  }

  /** With one operation for each work and family, planning ahead is the same as taking effect one
      after the other, and no order is different from any other. */
  lemma PlannedIsSequential(n: Norm, lib: Library, ops: seq<Operation>, other: seq<Operation>)
    requires Separate(n, ops) && multiset(other) == multiset(ops)
    ensures Carry(n, lib, lib, ops) == ApplyAll(n, lib, ops) == ApplyAll(n, lib, other)
  {
    CarryIsApplyAll(n, lib, lib, ops);
    SeparateIsNoneOpposed(n, ops);
    AnyOrder(n, lib, ops, other);
  }

  lemma SeparateIsNoneOpposed(n: Norm, ops: seq<Operation>)
    requires Separate(n, ops)
    ensures NoneOpposed(n, ops)
  {
    forall i, j | 0 <= i < j < |ops| ensures !Opposed(n, ops[i], ops[j]) {
      assert Apart(n, ops[i], ops[j]);
    }
  }

  // --------------------------------------------------------- what a command comes to

  /** No operation touches the visibility, the favourite mark, or this tag of the work. */
  ghost predicate Hidden(n: Norm, ops: seq<Operation>, w: string) {
    forall i :: 0 <= i < |ops| ==> n.work(ops[i].work) != w || !(ops[i].action.Trash? || ops[i].action.Restore?)
  }

  ghost predicate Unmarked(n: Norm, ops: seq<Operation>, w: string) {
    forall i :: 0 <= i < |ops| ==> n.work(ops[i].work) != w || !ops[i].action.Favorite?
  }

  ghost predicate Untagged(n: Norm, ops: seq<Operation>, w: string, t: string) {
    forall i :: 0 <= i < |ops| ==>
      n.work(ops[i].work) != w || !((ops[i].action.TagAdd? || ops[i].action.TagRemove?) && n.tag(ops[i].action.tag) == t)
  }

  lemma UntouchedByOne(n: Norm, lib: Library, op: Operation, w: string, t: string)
    ensures Apply(n, lib, op).Keys == lib.Keys
    ensures w in lib ==>
              var was, now := lib[w], Apply(n, lib, op)[w];
              && (Hidden(n, [op], w) ==> now.visibility == was.visibility && now.reason == was.reason)
              && (Unmarked(n, [op], w) ==> now.favorite == was.favorite)
              && (Untagged(n, [op], w, t) ==> (t in now.tags <==> t in was.tags))
              && (was.visibility == Purged ==> now.visibility == Purged)
  {
    assert [op][0] == op;
  }

  /** What no operation touches stays as it was, and no work comes or goes. */
  lemma {:induction false} UntouchedStays(n: Norm, lib: Library, ops: seq<Operation>, w: string, t: string)
    ensures ApplyAll(n, lib, ops).Keys == lib.Keys
    ensures w in lib ==>
              var was, now := lib[w], ApplyAll(n, lib, ops)[w];
              && (Hidden(n, ops, w) ==> now.visibility == was.visibility && now.reason == was.reason)
              && (Unmarked(n, ops, w) ==> now.favorite == was.favorite)
              && (Untagged(n, ops, w, t) ==> (t in now.tags <==> t in was.tags))
              && (was.visibility == Purged ==> now.visibility == Purged)
    decreases |ops|
  {
    if ops != [] {
      UntouchedByOne(n, lib, ops[0], w, t);
      UntouchedStays(n, Apply(n, lib, ops[0]), ops[1..], w, t);
      assert forall i :: 0 <= i < |ops[1..]| ==> ops[1..][i] == ops[i + 1];
    }
  }

  /** What the operation asks for is how it is. */
  ghost predicate Achieved(n: Norm, was: Work, now: Work, a: Action) {
    match a
    case Trash =>
      if was.visibility == Visible then now.visibility == Trashed && now.reason == n.reason(None)
      else now.visibility == was.visibility && now.reason == was.reason
    case Restore(why) =>
      if was.visibility == Trashed then now.visibility == Visible && now.reason == n.reason(why)
      else now.visibility == was.visibility && now.reason == was.reason
    case Favorite(value) => now.favorite == value
    case TagAdd(tag) => n.tag(tag) in now.tags
    case TagRemove(tag) => n.tag(tag) !in now.tags
  }

  lemma OthersAreApart(n: Norm, ops: seq<Operation>, k: nat)
    requires Separate(n, ops) && k < |ops|
    ensures forall op :: op in ops[..k] + ops[k + 1..] ==> Apart(n, op, ops[k]) || Apart(n, ops[k], op)
  {
    forall op | op in ops[..k] + ops[k + 1..] ensures Apart(n, op, ops[k]) || Apart(n, ops[k], op) {
      var i :| 0 <= i < |ops| && i != k && ops[i] == op;
      if i < k {
        assert Apart(n, ops[i], ops[k]);
      } else {
        assert Apart(n, ops[k], ops[i]);
      }
    }
  }

  lemma UntouchedByOthers(n: Norm, others: seq<Operation>, op: Operation)
    requires forall other :: other in others ==> Apart(n, other, op) || Apart(n, op, other)
    ensures var w := n.work(op.work);
            match op.action
            case Trash => Hidden(n, others, w)
            case Restore(_) => Hidden(n, others, w)
            case Favorite(_) => Unmarked(n, others, w)
            case TagAdd(tag) => Untagged(n, others, w, n.tag(tag))
            case TagRemove(tag) => Untagged(n, others, w, n.tag(tag))
  {
    assert forall i :: 0 <= i < |others| ==> others[i] in others;
  }

  /** With one operation for each work and family, every operation achieves what it asks for, judged by
      the library before the command. */
  lemma EachIsAchieved(n: Norm, lib: Library, ops: seq<Operation>, k: nat)
    requires Separate(n, ops) && k < |ops| && n.work(ops[k].work) in lib
    ensures var w := n.work(ops[k].work);
            w in ApplyAll(n, lib, ops) && Achieved(n, lib[w], ApplyAll(n, lib, ops)[w], ops[k].action)
  {
    var op, others := ops[k], ops[..k] + ops[k + 1..];
    var w, t := n.work(op.work), if op.action.TagAdd? || op.action.TagRemove? then n.tag(op.action.tag) else "";
    OthersAreApart(n, ops, k);
    UntouchedByOthers(n, others, op);
    assert ops == ops[..k] + [op] + ops[k + 1..];
    assert multiset([op] + others) == multiset(ops);
    SeparateIsNoneOpposed(n, ops);
    AnyOrder(n, lib, ops, [op] + others);
    ApplyOne(n, lib, op, others);
    UntouchedStays(n, Apply(n, lib, op), others, w, t);
  }
}
