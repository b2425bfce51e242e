/**
 The crash-window circuit breaker of the worker supervisor: the object with its pruned
 list of crashes, and the log of all exits that it refines.
 */
module RestartCircuit {
  import opened Options
  import opened Sequences

  const BACKOFF: seq<real> := [5.0, 15.0, 30.0, 60.0]
  const WINDOW := 600.0
  const OPEN_TIME := 900.0
  const STABLE_TIME := 600.0
  const LIMIT := 5

  datatype Circuit = Circuit(crashes: seq<real>, until: Option<real>, stable: Option<real>)

  const NEW := Circuit([], None, None)

  // ------------------------------------------------------------------- the operations

  function Pruned(crashes: seq<real>, cutoff: real): seq<real> {
    if crashes != [] && crashes[0] < cutoff then Pruned(crashes[1..], cutoff) else crashes
  }

  function Refreshed(c: Circuit, now: real): Circuit {
    if c.until.Some? && now >= c.until.value then NEW
    else c.(crashes := Pruned(c.crashes, now - WINDOW))
  }

  function Exited(c: Circuit, now: real): Circuit {
    var r := Refreshed(c, now);
    var crashes := r.crashes + [now];
    Circuit(crashes, if |crashes| >= LIMIT && r.until.None? then Some(now + OPEN_TIME) else r.until, None)
  }

  /** The delay `record_exit` returns, from the state it leaves. */
  function Delay(c: Circuit, now: real): real
    requires c.crashes != []
  {
    if |c.crashes| < LIMIT then BACKOFF[|c.crashes| - 1]
    else if c.until.None? || c.until.value <= now then 0.0
    else c.until.value - now
  }

  function Observed(c: Circuit, now: real): Circuit {
    var r := Refreshed(c, now);
    if r.until.Some? then r.(stable := None)
    else if r.stable.None? then r.(stable := Some(now))
    else if now - r.stable.value >= STABLE_TIME then r.(crashes := [])
    else r
  }

  class Breaker {
    var crashes: seq<real>
    var until: Option<real>
    var stable: Option<real>

    ghost function State(): Circuit
      reads this
    {
      Circuit(crashes, until, stable)
    }

    constructor ()
      ensures State() == NEW
    {
      crashes, until, stable := [], None, None;
    }

    /** `_prune`. */
    method Prune(now: real)
      modifies this`crashes
      ensures crashes == Pruned(old(crashes), now - WINDOW)
    {
      var cutoff := now - WINDOW;
      while crashes != [] && crashes[0] < cutoff
        invariant Pruned(crashes, cutoff) == Pruned(old(crashes), cutoff)
        decreases |crashes|
      {
        crashes := crashes[1..];
      }
    }

    /** `refresh`. */
    method Refresh(now: real)
      modifies this
      ensures State() == Refreshed(old(State()), now)
    {
      if until.Some? && now >= until.value {
        until, crashes, stable := None, [], None;
      }
      Prune(now);
    }

    /** `record_exit`. */
    method RecordExit(now: real) returns (delay: real)
      modifies this
      ensures State() == Exited(old(State()), now)
      ensures delay == Delay(State(), now)
      ensures Sorted(old(crashes)) && old(until).None? ==>
                var recent := |Since(old(crashes), now - 600.0)|;
                delay == if recent < 4 then [5.0, 15.0, 30.0, 60.0][recent] else 900.0
    {
      if Sorted(crashes) {
        DelayIs(State(), now);
      }
      Refresh(now);
      stable := None;
      crashes := crashes + [now];
      if |crashes| >= LIMIT {
        if until.None? {
          until := Some(now + OPEN_TIME);
        }
        return if until.value - now > 0.0 then until.value - now else 0.0;
      }
      delay := BACKOFF[if |crashes| - 1 < |BACKOFF| - 1 then |crashes| - 1 else |BACKOFF| - 1];
    }

    /** `is_open`. */
    method IsOpen(now: real) returns (open: bool)
      modifies this
      ensures State() == Refreshed(old(State()), now)
      ensures open <==> until.Some?
    {
      Refresh(now);
      open := until.Some?;
    }

    /** `observe_fully_running`. */
    method ObserveFullyRunning(now: real)
      modifies this
      ensures State() == Observed(old(State()), now)
    {
      Refresh(now);
      if until.Some? {
        stable := None;
        return;
      }
      if stable.None? {
        stable := Some(now);
      } else if now - stable.value >= STABLE_TIME {
        crashes := [];
      }
    }
  }

  // ---------------------------------------------------------- the log of all exits

  datatype Op = Exit(at: real) | Check(at: real) | Observe(at: real)

  function Apply(c: Circuit, op: Op): Circuit {
    match op
    case Exit(at) => Exited(c, at)
    case Check(at) => Refreshed(c, at)
    case Observe(at) => Observed(c, at)
  }

  /** All exits since the circuit last closed. */
  datatype Log = Log(exits: seq<real>, until: Option<real>)

  function Since(exits: seq<real>, cutoff: real): seq<real> {
    if exits == [] then []
    else (if exits[0] >= cutoff then [exits[0]] else []) + Since(exits[1..], cutoff)
  }

  /** What the breaker is for: nothing is ever pruned or forgotten while the circuit is closed. */
  function Note(log: Log, op: Op): Log {
    var l := if log.until.Some? && op.at >= log.until.value then Log([], None) else log;
    if !op.Exit? then l
    else
      var exits := l.exits + [op.at];
      Log(exits, if l.until.None? && |Since(exits, op.at - WINDOW)| >= LIMIT then Some(op.at + OPEN_TIME) else l.until)
  }

  function ApplyAll(c: Circuit, ops: seq<Op>): Circuit
    decreases |ops|
  {
    if ops == [] then c else ApplyAll(Apply(c, ops[0]), ops[1..])
  }

  function NoteAll(log: Log, ops: seq<Op>): Log
    decreases |ops|
  {
    if ops == [] then log else NoteAll(Note(log, ops[0]), ops[1..])
  }

  /** Time never runs backwards, and moves on after each observation. */
  predicate Timely(last: Option<Op>, ops: seq<Op>)
    decreases |ops|
  {
    ops == [] || (
      && (last.Some? ==> last.value.at <= ops[0].at && (last.value.Observe? ==> last.value.at < ops[0].at))
      && Timely(Some(ops[0]), ops[1..]))
  }

  ghost predicate Sorted(s: seq<real>) {
    forall i, j :: 0 <= i < j < |s| ==> s[i] <= s[j]
  }

  ghost predicate AllAtMost(s: seq<real>, t: real) {
    forall i :: 0 <= i < |s| ==> s[i] <= t
  }

  /** Everything lies exactly on the edge of the window. */
  ghost predicate OnEdge(s: seq<real>, edge: real) {
    forall i :: 0 <= i < |s| ==> s[i] == edge
  }

  lemma {:induction false} PrunedIsSince(crashes: seq<real>, cutoff: real)
    requires Sorted(crashes)
    ensures Pruned(crashes, cutoff) == Since(crashes, cutoff)
  {
    if crashes != [] {
      if crashes[0] < cutoff {
        PrunedIsSince(crashes[1..], cutoff);
      } else {
        AllSince(crashes, cutoff);
      }
    }
  }

  lemma {:induction false} AllSince(s: seq<real>, cutoff: real)
    requires forall i :: 0 <= i < |s| ==> s[i] >= cutoff
    ensures Since(s, cutoff) == s
  {
    if s != [] {
      AllSince(s[1..], cutoff);
    }
  }

  lemma {:induction false} SinceMembers(s: seq<real>, cutoff: real)
    ensures forall x :: x in Since(s, cutoff) ==> x in s && x >= cutoff
  {
    if s != [] {
      SinceMembers(s[1..], cutoff);
    }
  }

  lemma SortedCons(x: real, s: seq<real>)
    requires Sorted(s) && forall y :: y in s ==> x <= y
    ensures Sorted([x] + s)
  {
    var r := [x] + s;
    forall i, j | 0 <= i < j < |r| ensures r[i] <= r[j] {
      assert r[j] == s[j - 1] && r[j] in s;
    }
  }

  lemma {:induction false} SinceStaysSorted(s: seq<real>, cutoff: real)
    requires Sorted(s)
    ensures Sorted(Since(s, cutoff))
  {
    if s != [] {
      var w := Since(s[1..], cutoff);
      SinceStaysSorted(s[1..], cutoff);
      SinceMembers(s[1..], cutoff);
      forall y | y in w ensures s[0] <= y {
        assert y in s[1..];
      }
      SortedCons(s[0], w);
      assert [] + w == w;
    }
  }

  lemma SinceIsSorted(s: seq<real>, cutoff: real, t: real)
    requires Sorted(s) && AllAtMost(s, t)
    ensures var w := Since(s, cutoff); Sorted(w) && AllAtMost(w, t) && forall i :: 0 <= i < |w| ==> w[i] >= cutoff
  {
    var w := Since(s, cutoff);
    SinceStaysSorted(s, cutoff);
    SinceMembers(s, cutoff);
    forall i | 0 <= i < |w| ensures w[i] <= t && w[i] >= cutoff {
      assert w[i] in w;
    }
  }

  lemma {:induction false} SinceTwice(s: seq<real>, a: real, b: real)
    requires a <= b
    ensures Since(Since(s, a), b) == Since(s, b)
  {
    if s != [] {
      SinceTwice(s[1..], a, b);
      if s[0] >= a {
        assert Since(s, a)[1..] == Since(s[1..], a);
      } else {
        assert Since(s, a) == Since(s[1..], a);
        assert Since(s, b) == Since(s[1..], b);
      }
    }
  }

  lemma {:induction false} SinceAppended(s: seq<real>, x: real, cutoff: real)
    requires x >= cutoff
    ensures Since(s + [x], cutoff) == Since(s, cutoff) + [x]
  {
    if s == [] {
      assert s + [x] == [x] && [x][1..] == [];
    } else {
      SinceAppended(s[1..], x, cutoff);
      assert (s + [x])[1..] == s[1..] + [x];
    }
  }

  // -------------------------------------------------------------------- refinement

  /** The breaker agrees with the log after the operation `last`. */
  ghost predicate Matches(c: Circuit, log: Log, last: Op) {
    && c.until == log.until
    && Sorted(log.exits) && AllAtMost(log.exits, last.at)
    && (c.until.Some? ==> last.at < c.until.value)
    && (c.until.None? ==> |Since(log.exits, last.at - WINDOW)| < LIMIT)
    && (c.stable.Some? ==> c.stable.value <= last.at && AllAtMost(c.crashes, c.stable.value))
    && (c.crashes == Since(log.exits, last.at - WINDOW)
        || (last.Observe? && c.crashes == [] && OnEdge(Since(log.exits, last.at - WINDOW), last.at - WINDOW)))
  }

  /** The log after the circuit had its chance to close. */
  function Current(log: Log, now: real): Log {
    if log.until.Some? && now >= log.until.value then Log([], None) else log
  }

  lemma EdgePasses(s: seq<real>, edge: real, later: real)
    requires OnEdge(Since(s, edge), edge) && edge < later
    ensures Since(s, later) == []
  {
    SinceTwice(s, edge, later);
    EdgeIsBefore(Since(s, edge), edge, later);
  }

  lemma {:induction false} EdgeIsBefore(s: seq<real>, edge: real, later: real)
    requires OnEdge(s, edge) && edge < later
    ensures Since(s, later) == []
  {
    if s != [] {
      EdgeIsBefore(s[1..], edge, later);
    }
  }

  lemma {:induction false} SinceShrinks(s: seq<real>, a: real, b: real)
    requires a <= b
    ensures |Since(s, b)| <= |Since(s, a)|
  {
    if s != [] {
      SinceShrinks(s[1..], a, b);
    }
  }

  /** After refreshing, the pruned list is the window of the log. */
  lemma RefreshedMatches(c: Circuit, log: Log, last: Op, now: real)
    requires Matches(c, log, last) && last.at <= now && (last.Observe? ==> last.at < now)
    ensures Matches(Refreshed(c, now), Current(log, now), Check(now))
    ensures Refreshed(c, now).crashes == Since(Current(log, now).exits, now - WINDOW)
  {
    if !(c.until.Some? && now >= c.until.value) {
      var edge, cutoff := last.at - WINDOW, now - WINDOW;
      SinceIsSorted(log.exits, edge, last.at);
      PrunedIsSince(c.crashes, cutoff);
      SinceShrinks(log.exits, edge, cutoff);
      if c.crashes == Since(log.exits, edge) {
        SinceTwice(log.exits, edge, cutoff);
      } else {
        EdgePasses(log.exits, edge, cutoff);
      }
      if c.stable.Some? {
        PrunedKeeps(c.crashes, cutoff, c.stable.value);
      }
    }
  }

  lemma {:induction false} PrunedKeeps(s: seq<real>, cutoff: real, t: real)
    requires AllAtMost(s, t)
    ensures AllAtMost(Pruned(s, cutoff), t)
  {
    if s != [] {
      PrunedKeeps(s[1..], cutoff, t);
    }
  }

  /** A stable reset drops only crashes that lie exactly on the edge of the window. */
  lemma ResetDropsTheEdge(c: Circuit, log: Log, now: real)
    requires Matches(c, log, Check(now)) && c.crashes == Since(log.exits, now - WINDOW)
    requires c.stable.Some? && now - c.stable.value >= STABLE_TIME
    ensures OnEdge(c.crashes, now - WINDOW)
  {
    SinceIsSorted(log.exits, now - WINDOW, now);
  }

  lemma ExitMatches(r: Circuit, l: Log, now: real)
    requires Matches(r, l, Check(now)) && r.crashes == Since(l.exits, now - WINDOW)
    ensures var crashes, exits := r.crashes + [now], l.exits + [now];
            && crashes == Since(exits, now - WINDOW)
            && Sorted(exits) && AllAtMost(exits, now)
  {
    SinceAppended(l.exits, now, now - WINDOW);
  }

  lemma ObserveMatches(c: Circuit, l: Log, now: real)
    requires var r := Refreshed(c, now); Matches(r, l, Check(now)) && r.crashes == Since(l.exits, now - WINDOW)
    ensures Matches(Observed(c, now), l, Observe(now))
  {
    var r := Refreshed(c, now);
    SinceIsSorted(l.exits, now - WINDOW, now);
    if r.until.None? && r.stable.Some? && now - r.stable.value >= STABLE_TIME {
      ResetDropsTheEdge(r, l, now);
    }
  }

  lemma StepMatches(c: Circuit, log: Log, last: Op, op: Op)
    requires Matches(c, log, last) && last.at <= op.at && (last.Observe? ==> last.at < op.at)
    ensures Matches(Apply(c, op), Note(log, op), op)
  {
    var now := op.at;
    RefreshedMatches(c, log, last, now);
    var r, l := Refreshed(c, now), Current(log, now);
    match op
    case Check(_) =>
      assert Apply(c, op) == r && Note(log, op) == l;
    case Exit(_) =>
      ExitMatches(r, l, now);
    case Observe(_) =>
      ObserveMatches(c, l, now);
      assert Note(log, op) == l;
  }

  lemma {:induction false} RunMatches(c: Circuit, log: Log, last: Op, ops: seq<Op>)
    requires Matches(c, log, last) && Timely(Some(last), ops)
    ensures ops != [] ==> Matches(ApplyAll(c, ops), NoteAll(log, ops), ops[|ops| - 1])
    decreases |ops|
  {
    if ops != [] {
      StepMatches(c, log, last, ops[0]);
      RunMatches(Apply(c, ops[0]), Note(log, ops[0]), ops[0], ops[1..]);
    }
  }

  /** Over any timely run the breaker is open exactly when the full log says so, and closed it
      remembers fewer than five crashes. */
  lemma BreakerRefinesLog(ops: seq<Op>)
    requires Timely(None, ops)
    ensures ApplyAll(NEW, ops).until == NoteAll(Log([], None), ops).until
    ensures ApplyAll(NEW, ops).until.None? ==> |ApplyAll(NEW, ops).crashes| < LIMIT
  {
    if ops != [] {
      assert Matches(NEW, Log([], None), Check(ops[0].at));
      RunMatches(NEW, Log([], None), Check(ops[0].at), ops);
    }
  }

  /** Without the clock moving on after an observation this fails: a stable reset at the very
      edge forgets four crashes that the fifth, at the same instant, still has in its window. */
  lemma ResetForgetsAtOneInstant()
    ensures var ops := [Exit(0.0), Exit(0.0), Exit(0.0), Exit(0.0), Observe(0.0), Observe(600.0), Exit(600.0)];
            ApplyAll(NEW, ops).until == None && NoteAll(Log([], None), ops).until == Some(1500.0)
  {
    var x, o, p, y := Exit(0.0), Observe(0.0), Observe(600.0), Exit(600.0);
    assert [x, x, x, x, o, p, y] == [x] + ([x] + ([x] + ([x] + ([o] + ([p] + ([y] + []))))));
    FourCrashes([o] + ([p] + ([y] + [])));
    EdgeReset();
  }

  lemma First(c: Circuit, log: Log, op: Op, ops: seq<Op>)
    ensures ApplyAll(c, [op] + ops) == ApplyAll(Apply(c, op), ops)
    ensures NoteAll(log, [op] + ops) == NoteAll(Note(log, op), ops)
  {
    assert ([op] + ops)[1..] == ops;
  }

  lemma EarlyCrash(n: nat, ops: seq<Op>)
    requires n < 4
    ensures var zeros, more := seq(n, _ => 0.0), seq(n + 1, _ => 0.0);
            && ApplyAll(Circuit(zeros, None, None), [Exit(0.0)] + ops) == ApplyAll(Circuit(more, None, None), ops)
            && NoteAll(Log(zeros, None), [Exit(0.0)] + ops) == NoteAll(Log(more, None), ops)
  {
    var zeros, more := seq(n, _ => 0.0), seq(n + 1, _ => 0.0);
    assert zeros + [0.0] == more;
    First(Circuit(zeros, None, None), Log(zeros, None), Exit(0.0), ops);
    AllSince(more, -600.0);
  }

  lemma FourCrashes(ops: seq<Op>)
    ensures var all := [Exit(0.0)] + ([Exit(0.0)] + ([Exit(0.0)] + ([Exit(0.0)] + ops)));
            var four := seq(4, _ => 0.0);
            && ApplyAll(NEW, all) == ApplyAll(Circuit(four, None, None), ops)
            && NoteAll(Log([], None), all) == NoteAll(Log(four, None), ops)
  {
    assert seq(0, _ => 0.0) == [];
    EarlyCrash(0, [Exit(0.0)] + ([Exit(0.0)] + ([Exit(0.0)] + ops)));
    EarlyCrash(1, [Exit(0.0)] + ([Exit(0.0)] + ops));
    EarlyCrash(2, [Exit(0.0)] + ops);
    EarlyCrash(3, ops);
  }

  lemma EdgeReset()
    ensures var four := seq(4, _ => 0.0);
            var ops := [Observe(0.0)] + ([Observe(600.0)] + ([Exit(600.0)] + []));
            && ApplyAll(Circuit(four, None, None), ops).until == None
            && NoteAll(Log(four, None), ops).until == Some(1500.0)
  {
    var four := seq(4, _ => 0.0);
    var c, log := Circuit(four, None, None), Log(four, None);
    First(c, log, Observe(0.0), [Observe(600.0)] + ([Exit(600.0)] + []));
    First(c.(stable := Some(0.0)), log, Observe(600.0), [Exit(600.0)] + []);
    First(Circuit([], None, Some(0.0)), log, Exit(600.0), []);
    AllSince(four + [600.0], 0.0);
  }

  function Exits(now: real, k: nat): seq<Op>
    decreases k
  {
    if k == 0 then [] else [Exit(now)] + Exits(now, k - 1)
  }

  lemma {:induction false} CrashesAtOnce(c: Circuit, now: real, k: nat)
    requires OnEdge(c.crashes, now)
    requires c.until == if |c.crashes| >= LIMIT then Some(now + OPEN_TIME) else None
    ensures ApplyAll(c, Exits(now, k)).until == if |c.crashes| + k >= LIMIT then Some(now + OPEN_TIME) else None
    decreases k
  {
    if k > 0 {
      First(c, Log([], None), Exit(now), Exits(now, k - 1));
      CrashesAtOnce(Exited(c, now), now, k - 1);
    }
  }

  lemma {:induction false} NotedAtOnce(log: Log, now: real, k: nat)
    requires var m := |Since(log.exits, now - WINDOW)|;
             log.until == if m >= LIMIT then Some(now + OPEN_TIME) else None
    ensures NoteAll(log, Exits(now, k)).until ==
            if |Since(log.exits, now - WINDOW)| + k >= LIMIT then Some(now + OPEN_TIME) else None
    decreases k
  {
    if k > 0 {
      First(NEW, log, Exit(now), Exits(now, k - 1));
      SinceAppended(log.exits, now, now - WINDOW);
      NotedAtOnce(Note(log, Exit(now)), now, k - 1);
    }
  }

  lemma ForgetsIff(c: Circuit, log: Log, now: real, k: nat)
    requires c.until.None? && c.crashes == [] && log.until.None? && |Since(log.exits, now - WINDOW)| < LIMIT
    ensures ApplyAll(c, Exits(now, k)).until == NoteAll(log, Exits(now, k)).until
            <==> (k >= LIMIT || |Since(log.exits, now - WINDOW)| + k < LIMIT)
  {
    CrashesAtOnce(c, now, k);
    NotedAtOnce(log, now, k);
  }

  /** The exact condition: after a stable reset, exits at that same instant find breaker and log
      agreeing unless the crashes dropped from the edge would have made the difference. */
  lemma ResetForgetsIff(c: Circuit, log: Log, now: real, k: nat)
    requires Matches(c, log, Observe(now)) && c.until.None? && c.crashes == []
    ensures var dropped := |Since(log.exits, now - WINDOW)|;
            ApplyAll(c, Exits(now, k)).until == NoteAll(log, Exits(now, k)).until
            <==> (k >= LIMIT || dropped + k < LIMIT)
  {
    ForgetsIff(c, log, now, k);
  }

  // ----------------------------------------------- when the breaker opens, and for how long

  ghost predicate Earlier(ops: seq<Op>, t: real) {
    forall i :: 0 <= i < |ops| ==> ops[i].at < t
  }

  /** Once open it stays open until the very instant first set, whatever is called meanwhile. */
  lemma {:induction false} NeverExtended(c: Circuit, ops: seq<Op>)
    requires c.until.Some? && Earlier(ops, c.until.value)
    ensures ApplyAll(c, ops).until == c.until
    decreases |ops|
  {
    if ops != [] {
      assert ops[0].at < c.until.value;
      NeverExtended(Apply(c, ops[0]), ops[1..]);
    }
  }

  /** The first call from that instant on, of whatever kind, closes it. */
  lemma ClosesInTime(c: Circuit, op: Op)
    requires c.until.Some? && op.at >= c.until.value
    ensures Apply(c, op).until == None
  {
  }

  /** The times of all exits among the calls. */
  function ExitTimes(ops: seq<Op>): seq<real> {
    if ops == [] then [] else ExitTimes(ops[..|ops| - 1]) + if ops[|ops| - 1].Exit? then [ops[|ops| - 1].at] else []
  }

  lemma ExitTimesAtEnd(ops: seq<Op>, op: Op)
    ensures ExitTimes(ops + [op]) == ExitTimes(ops) + if op.Exit? then [op.at] else []
  {
    assert (ops + [op])[..|ops|] == ops;
  }

  lemma {:induction false} NoteAtEnd(log: Log, ops: seq<Op>, op: Op)
    ensures NoteAll(log, ops + [op]) == Note(NoteAll(log, ops), op)
    decreases |ops|
  {
    if ops == [] {
      assert ops + [op] == [op] && [op][1..] == [];
    } else {
      NoteAtEnd(Note(log, ops[0]), ops[1..], op);
      assert (ops + [op])[1..] == ops[1..] + [op];
    }
  }

  ghost predicate EndsWith(s: seq<real>, tail: seq<real>) {
    |tail| <= |s| && s[|s| - |tail|..] == tail
  }

  lemma SinceCons(x: real, s: seq<real>, cutoff: real)
    ensures Since([x] + s, cutoff) == (if x >= cutoff then [x] else []) + Since(s, cutoff)
  {
    assert ([x] + s)[1..] == s;
  }

  lemma {:induction false} SinceOfBoth(a: seq<real>, b: seq<real>, cutoff: real)
    ensures Since(a + b, cutoff) == Since(a, cutoff) + Since(b, cutoff)
  {
    if a == [] {
      assert a + b == b;
    } else {
      var h, t := a[0], a[1..];
      assert a == [h] + t;
      Associative([h], t, b);
      SinceOfBoth(t, b, cutoff);
      SinceCons(h, t, cutoff);
      SinceCons(h, t + b, cutoff);
      Associative(if h >= cutoff then [h] else [], Since(t, cutoff), Since(b, cutoff));
    }
  }

  lemma SinceOfTail(s: seq<real>, tail: seq<real>, cutoff: real)
    requires EndsWith(s, tail)
    ensures |Since(tail, cutoff)| <= |Since(s, cutoff)|
  {
    var front := s[..|s| - |tail|];
    assert s == front + tail;
    SinceOfBoth(front, tail, cutoff);
  }

  /** The log holds the latest of all exits. */
  lemma {:induction false} LogIsTail(ops: seq<Op>)
    ensures EndsWith(ExitTimes(ops), NoteAll(Log([], None), ops).exits)
    decreases |ops|
  {
    if ops != [] {
      var front, op := ops[..|ops| - 1], ops[|ops| - 1];
      assert ops == front + [op];
      LogIsTail(front);
      NoteAtEnd(Log([], None), front, op);
      ExitTimesAtEnd(front, op);
      TailStep(ExitTimes(front), NoteAll(Log([], None), front), op);
    }
  }

  lemma TailStep(times: seq<real>, log: Log, op: Op)
    requires EndsWith(times, log.exits)
    ensures EndsWith(times + if op.Exit? then [op.at] else [], Note(log, op).exits)
  {
  }

  /** Five exits within one window, the last of them at `t`, are among the calls. */
  ghost predicate FiveUpTo(ops: seq<Op>, t: real) {
    exists n :: 0 <= n < |ops| && FiveAt(ops, n, t)
  }

  ghost predicate FiveAt(ops: seq<Op>, n: nat, t: real)
    requires n < |ops|
  {
    ops[n] == Exit(t) && |Since(ExitTimes(ops[..n + 1]), t - 600.0)| >= 5
  }

  lemma FiveStays(ops: seq<Op>, op: Op, t: real)
    requires FiveUpTo(ops, t)
    ensures FiveUpTo(ops + [op], t)
  {
    var n :| 0 <= n < |ops| && FiveAt(ops, n, t);
    assert (ops + [op])[..n + 1] == ops[..n + 1];
    assert FiveAt(ops + [op], n, t);
  }

  lemma FiveNow(ops: seq<Op>, t: real)
    requires |Since(ExitTimes(ops + [Exit(t)]), t - 600.0)| >= 5
    ensures FiveUpTo(ops + [Exit(t)], t)
  {
    var all := ops + [Exit(t)];
    assert all[..|ops| + 1] == all;
    assert FiveAt(all, |ops|, t);
  }

  lemma {:induction false} LogOpensForCause(ops: seq<Op>)
    ensures var until := NoteAll(Log([], None), ops).until;
            until.Some? ==> FiveUpTo(ops, until.value - OPEN_TIME)
    decreases |ops|
  {
    if ops != [] {
      var front, op := ops[..|ops| - 1], ops[|ops| - 1];
      assert ops == front + [op];
      LogOpensForCause(front);
      NoteAtEnd(Log([], None), front, op);
      var before, after := NoteAll(Log([], None), front), NoteAll(Log([], None), ops);
      if after.until.Some? {
        if before.until == after.until {
          FiveStays(front, op, after.until.value - OPEN_TIME);
        } else {
          LogIsTail(ops);
          SinceOfTail(ExitTimes(ops), after.exits, op.at - WINDOW);
          FiveNow(front, op.at);
        }
      }
    }
  }

  /** The breaker is open only because of five exits within one window, and it closes 900 seconds
      after the last of them. */
  lemma OpensForCause(ops: seq<Op>)
    requires Timely(None, ops) && ApplyAll(NEW, ops).until.Some?
    ensures FiveUpTo(ops, ApplyAll(NEW, ops).until.value - 900.0)
  {
    BreakerRefinesLog(ops);
    LogOpensForCause(ops);
  }

  /** It was closed at every call since `t`, and is closed now. */
  ghost predicate ClosedSince(ops: seq<Op>, t: real) {
    forall k :: 0 <= k <= |ops| && (k == |ops| || ops[k].at >= t) ==> ApplyAll(NEW, ops[..k]).until.None?
  }

  lemma {:induction false} TimelyPrefix(last: Option<Op>, ops: seq<Op>, k: nat)
    requires Timely(last, ops) && k <= |ops|
    ensures Timely(last, ops[..k])
    decreases |ops|
  {
    if k > 0 {
      TimelyPrefix(Some(ops[0]), ops[1..], k - 1);
      assert ops[..k][1..] == ops[1..][..k - 1];
    }
  }

  lemma {:induction false} TimesAreOrdered(last: Option<Op>, ops: seq<Op>, i: nat)
    requires Timely(last, ops) && i < |ops|
    ensures ops[i].at <= ops[|ops| - 1].at
    decreases |ops|
  {
    if |ops| > 1 {
      TimesAreOrdered(Some(ops[0]), ops[1..], if i == 0 then 0 else i - 1);
    }
  }

  lemma {:induction false} NoneSince(s: seq<real>, cutoff: real)
    requires AllBelow(s, cutoff)
    ensures Since(s, cutoff) == []
  {
    if s != [] {
      NoneSince(s[1..], cutoff);
    }
  }

  ghost predicate AllBelow(s: seq<real>, t: real) {
    forall i :: 0 <= i < |s| ==> s[i] < t
  }

  lemma {:induction false} ExitTimesBefore(ops: seq<Op>, cutoff: real)
    requires Earlier(ops, cutoff)
    ensures AllBelow(ExitTimes(ops), cutoff)
    decreases |ops|
  {
    if ops != [] {
      ExitTimesBefore(ops[..|ops| - 1], cutoff);
    }
  }

  /** Calls before the window leave nothing in it. */
  lemma NothingYet(ops: seq<Op>, cutoff: real)
    requires Earlier(ops, cutoff)
    ensures Since(ExitTimes(ops), cutoff) == [] && Since(NoteAll(Log([], None), ops).exits, cutoff) == []
  {
    ExitTimesBefore(ops, cutoff);
    NoneSince(ExitTimes(ops), cutoff);
    LogIsTail(ops);
    SinceOfTail(ExitTimes(ops), NoteAll(Log([], None), ops).exits, cutoff);
  }

  /** While the circuit stays closed the log misses no exit of the window. */
  lemma {:induction false} WindowIsComplete(ops: seq<Op>, cutoff: real)
    requires Timely(None, ops) && ClosedSince(ops, cutoff)
    ensures Since(NoteAll(Log([], None), ops).exits, cutoff) == Since(ExitTimes(ops), cutoff)
    decreases |ops|
  {
    if ops != [] {
      var n := |ops| - 1;
      var front, op := ops[..n], ops[n];
      assert ops == front + [op];
      if op.at < cutoff {
        forall i | 0 <= i < |ops| ensures ops[i].at < cutoff {
          TimesAreOrdered(None, ops, i);
        }
        NothingYet(ops, cutoff);
      } else {
        ClosedBefore(ops, cutoff);
        TimelyPrefix(None, ops, n);
        WindowIsComplete(front, cutoff);
        NoteAtEnd(Log([], None), front, op);
        ExitTimesAtEnd(front, op);
        BreakerRefinesLog(front);
        assert ExitTimes(front) + [] == ExitTimes(front);
        if op.Exit? {
          SinceAppended(NoteAll(Log([], None), front).exits, op.at, cutoff);
          SinceAppended(ExitTimes(front), op.at, cutoff);
        }
      }
    }
  }

  lemma ClosedBefore(ops: seq<Op>, cutoff: real)
    requires ops != [] && ClosedSince(ops, cutoff) && ops[|ops| - 1].at >= cutoff
    ensures ClosedSince(ops[..|ops| - 1], cutoff) && ApplyAll(NEW, ops[..|ops| - 1]).until.None?
  {
    var front := ops[..|ops| - 1];
    forall k | 0 <= k <= |front| && (k == |front| || front[k].at >= cutoff) ensures ApplyAll(NEW, front[..k]).until.None? {
      assert front[..k] == ops[..k];
    }
    assert front[..|front|] == front;
  }

  /** The fifth exit within a window opens the breaker for 900 seconds, and no earlier one does: at an
      exit at `t`, closed throughout the window before, it opens exactly when it is at least the fifth. */
  lemma FifthExitOpens(ops: seq<Op>, t: real)
    requires Timely(None, ops + [Exit(t)]) && ClosedSince(ops, t - 600.0)
    ensures ApplyAll(NEW, ops + [Exit(t)]).until ==
            if |Since(ExitTimes(ops), t - 600.0)| + 1 >= 5 then Some(t + 900.0) else None
  {
    var all := ops + [Exit(t)];
    assert all[..|ops|] == ops && ops[..|ops|] == ops;
    TimelyPrefix(None, all, |ops|);
    WindowIsComplete(ops, t - WINDOW);
    BreakerRefinesLog(ops);
    BreakerRefinesLog(all);
    NoteAtEnd(Log([], None), ops, Exit(t));
    SinceAppended(NoteAll(Log([], None), ops).exits, t, t - WINDOW);
  }

  /** The crashes it remembers are sorted. */
  lemma CrashesAreSorted(ops: seq<Op>)
    requires Timely(None, ops)
    ensures Sorted(ApplyAll(NEW, ops).crashes)
  {
    if ops != [] {
      assert Matches(NEW, Log([], None), Check(ops[0].at));
      RunMatches(NEW, Log([], None), Check(ops[0].at), ops);
      var last := ops[|ops| - 1];
      SinceIsSorted(NoteAll(Log([], None), ops).exits, last.at - WINDOW, last.at);
    }
  }

  // ------------------------------------------------------------------- delays and bounds

  /** What every operation keeps, at time `now`. */
  ghost predicate Bounded(c: Circuit, now: real) {
    && (c.until.Some? ==> c.until.value <= now + OPEN_TIME)
    && (c.until.None? ==> |c.crashes| < LIMIT)
  }

  lemma {:induction false} PrunedIsShorter(s: seq<real>, cutoff: real)
    ensures |Pruned(s, cutoff)| <= |s|
  {
    if s != [] {
      PrunedIsShorter(s[1..], cutoff);
    }
  }

  lemma ApplyStaysBounded(c: Circuit, was: real, op: Op)
    requires Bounded(c, was) && was <= op.at
    ensures Bounded(Apply(c, op), op.at)
  {
    PrunedIsShorter(c.crashes, op.at - WINDOW);
  }

  lemma DelayIsBounded(c: Circuit, was: real, now: real)
    requires Bounded(c, was) && was <= now
    ensures 0.0 < Delay(Exited(c, now), now) <= 900.0
  {
  }

  /** At any exit the delay goes by the crashes in the window: the backoff for up to three before this
      one, and from the fourth on what is left of the open time. */
  lemma DelayIs(c: Circuit, now: real)
    requires Sorted(c.crashes)
    ensures var closing := c.until.Some? && now >= c.until.value;
            var recent := if closing then 0 else |Since(c.crashes, now - 600.0)|;
            Delay(Exited(c, now), now) ==
            if recent < 4 then [5.0, 15.0, 30.0, 60.0][recent] else if c.until.Some? then c.until.value - now else 900.0
  {
    PrunedIsSince(c.crashes, now - WINDOW);
  }

  /** After a timely run, the crashes a closed breaker counts at `t` are the exits of the window. */
  lemma CountsTheWindow(ops: seq<Op>, t: real)
    requires Timely(None, ops) && CanFollow(ops, t) && ClosedSince(ops, t - 600.0)
    ensures var c := ApplyAll(NEW, ops); c.until.None? && Refreshed(c, t).crashes == Since(ExitTimes(ops), t - 600.0)
  {
    assert ops[..|ops|] == ops;
    if ops != [] {
      var last := ops[|ops| - 1];
      assert Matches(NEW, Log([], None), Check(ops[0].at));
      RunMatches(NEW, Log([], None), Check(ops[0].at), ops);
      RefreshedMatches(ApplyAll(NEW, ops), NoteAll(Log([], None), ops), last, t);
      WindowIsComplete(ops, t - WINDOW);
    }
  }

  /** Over a timely run: an exit at `t`, closed throughout the window before, is answered by the backoff
      for the number of exits in that window, whatever resets there have been. */
  lemma RunDelay(ops: seq<Op>, t: real)
    requires Timely(None, ops) && CanFollow(ops, t) && ClosedSince(ops, t - 600.0)
    ensures var n := |Since(ExitTimes(ops), t - 600.0)|;
            Delay(Exited(ApplyAll(NEW, ops), t), t) == if n < 4 then [5.0, 15.0, 30.0, 60.0][n] else 900.0
  {
    CountsTheWindow(ops, t);
  }

  /** At an exit while the circuit is open until `u`, the delay covers what is left exactly when four
      crashes are in the window already or little is left; otherwise only the check before
      respawning holds the worker back. */
  lemma DelayCoversIff(c: Circuit, u: real, now: real)
    requires Sorted(c.crashes) && c.until == Some(u) && now < u
    ensures var recent := |Since(c.crashes, now - 600.0)|;
            Delay(Exited(c, now), now) >= u - now <==> recent >= 4 || u - now <= [5.0, 15.0, 30.0, 60.0][recent]
  {
    PrunedIsSince(c.crashes, now - WINDOW);
  }

  /** At the exit that opens it the delay is the whole open time. */
  lemma DelayCoversOpening(c: Circuit, was: real, now: real)
    requires Bounded(c, was) && was <= now && (c.until.None? || now >= c.until.value) && Exited(c, now).until.Some?
    ensures Delay(Exited(c, now), now) == 900.0 == Exited(c, now).until.value - now
  {
  }

  lemma DelayMayBeShort()
    ensures var open := Circuit([0.0, 0.0, 0.0, 0.0, 0.0], Some(900.0), None);
            Delay(Exited(open, 700.0), 700.0) == 5.0 && Exited(open, 700.0).until == Some(900.0)
  {
    var zeros := [0.0, 0.0, 0.0, 0.0, 0.0];
    AllPruned(zeros, 100.0);
  }

  lemma {:induction false} AllPruned(s: seq<real>, cutoff: real)
    requires AllAtMost(s, 0.0) && 0.0 < cutoff
    ensures Pruned(s, cutoff) == []
  {
    if s != [] {
      AllPruned(s[1..], cutoff);
    }
  }

  // ------------------------------------------------------------------- growing traces

  /** The state reached by a timely sequence of calls. */
  ghost predicate Traced(c: Circuit, trace: seq<Op>) {
    c == ApplyAll(NEW, trace) && Timely(None, trace)
  }

  predicate CanFollow(trace: seq<Op>, t: real) {
    trace != [] ==>
      var last := trace[|trace| - 1];
      last.at <= t && (last.Observe? ==> last.at < t)
  }

  lemma {:induction false} ApplyAtEnd(c: Circuit, trace: seq<Op>, op: Op)
    ensures ApplyAll(c, trace + [op]) == Apply(ApplyAll(c, trace), op)
    decreases |trace|
  {
    if trace == [] {
      assert trace + [op] == [op] && [op][1..] == [];
    } else {
      ApplyAtEnd(Apply(c, trace[0]), trace[1..], op);
      assert (trace + [op])[1..] == trace[1..] + [op];
    }
  }

  lemma {:induction false} TimelyAtEnd(last: Option<Op>, trace: seq<Op>, op: Op)
    requires Timely(last, trace)
    requires CanFollow(if last.None? then trace else [last.value] + trace, op.at)
    ensures Timely(last, trace + [op])
    decreases |trace|
  {
    if trace == [] {
      assert trace + [op] == [op] && [op][1..] == [];
    } else {
      TimelyAtEnd(Some(trace[0]), trace[1..], op);
      assert (trace + [op])[1..] == trace[1..] + [op];
    }
  }

  lemma TraceGrows(c: Circuit, trace: seq<Op>, op: Op)
    requires Traced(c, trace) && CanFollow(trace, op.at)
    ensures Traced(Apply(c, op), trace + [op])
  {
    ApplyAtEnd(NEW, trace, op);
    TimelyAtEnd(None, trace, op);
  }

  /** Asking again at the moment of an exit changes nothing. */
  lemma RefreshAfterExit(c: Circuit, now: real)
    ensures Refreshed(Exited(c, now), now) == Exited(c, now)
  {
    PrunedTwice(Refreshed(c, now).crashes, now, now - WINDOW);
    PrunedIsPruned(c.crashes, now - WINDOW);
  }

  lemma {:induction false} PrunedIsPruned(s: seq<real>, cutoff: real)
    ensures Pruned(s, cutoff) != [] ==> Pruned(s, cutoff)[0] >= cutoff
  {
    if s != [] {
      PrunedIsPruned(s[1..], cutoff);
    }
  }

  lemma PrunedTwice(s: seq<real>, x: real, cutoff: real)
    requires x >= cutoff
    ensures s != [] && s[0] >= cutoff ==> Pruned(s + [x], cutoff) == s + [x]
    ensures s == [] ==> Pruned(s + [x], cutoff) == s + [x]
  {
  }
}
