/**
 The supervision loop: worker processes, pending restarts and the circuit breaker that
 gates respawning.  Each turn of the loop is told the time and which workers have exited.
 */
module Supervisor {
  import opened Options
  import opened Sequences
  import opened RestartCircuit

  datatype Spec = Spec(queues: seq<string>, scheduler: bool)

  datatype Process = Process(pid: nat, spec: Spec)

  datatype Pending = Pending(due: real, spec: Spec)

  // --------------------------------------------------------------------- worker specs

  function BuildWorkerSpecs(queues: seq<string>, concurrency: nat, withScheduler: bool, extra: seq<string>): seq<Spec> {
    seq(concurrency, i => Spec(queues, withScheduler && i == 0)) + seq(|extra|, i requires 0 <= i < |extra| => Spec([extra[i]], withScheduler))
  }

  /** The extra queues as the environment lists them, stripped, less blanks and base queues. */
  function ExtraQueues(names: seq<string>, queues: seq<string>, strip: string -> string): (r: seq<string>)
    ensures forall i :: 0 <= i < |r| ==> r[i] != "" && r[i] !in queues
  {
    if names == [] then []
    else
      var name := strip(names[0]);
      (if name != "" && name !in queues then [name] else []) + ExtraQueues(names[1..], queues, strip)
  }

  function Stripped(names: seq<string>, strip: string -> string): seq<string> {
    if names == [] then [] else [strip(names[0])] + Stripped(names[1..], strip)
  }

  /** Every other name stays, as often as it is listed. */
  lemma {:induction false} ExtraQueuesKeep(names: seq<string>, queues: seq<string>, strip: string -> string, name: string)
    ensures Count(ExtraQueues(names, queues, strip), name) ==
            if name != "" && name !in queues then Count(Stripped(names, strip), name) else 0
  {
    if names != [] {
      ExtraQueuesKeep(names[1..], queues, strip, name);
      var first, rest := strip(names[0]), ExtraQueues(names[1..], queues, strip);
      CountOfBoth(if first != "" && first !in queues then [first] else [], rest, name);
      CountOfBoth([first], Stripped(names[1..], strip), name);
      assert [first][1..] == [];
    }
  }

  function Count<T(==)>(s: seq<T>, x: T): nat {
    if s == [] then 0 else (if s[0] == x then 1 else 0) + Count(s[1..], x)
  }

  lemma {:induction false} CountIsMultiplicity<T>(s: seq<T>, x: T)
    ensures multiset(s)[x] == Count(s, x)
  {
    if s != [] {
      CountIsMultiplicity(s[1..], x);
      assert s == [s[0]] + s[1..];
    }
  }

  lemma {:induction false} CountOfBoth<T>(a: seq<T>, b: seq<T>, x: T)
    ensures Count(a + b, x) == Count(a, x) + Count(b, x)
  {
    if a == [] {
      assert a + b == b;
    } else {
      CountOfBoth(a[1..], b, x);
      assert (a + b)[1..] == a[1..] + b;
    }
  }

  lemma {:induction false} CountOfNone<T>(s: seq<T>, x: T)
    requires forall i :: 0 <= i < |s| ==> s[i] != x
    ensures Count(s, x) == 0
  {
    if s != [] {
      CountOfNone(s[1..], x);
    }
  }

  lemma {:induction false} CountOfSame<T>(s: seq<T>, y: T, x: T)
    requires forall i :: 0 <= i < |s| ==> s[i] == y
    ensures Count(s, x) == if x == y then |s| else 0
  {
    if s != [] {
      CountOfSame(s[1..], y, x);
    }
  }

  lemma {:induction false} CountOfSingles(extra: seq<string>, specs: seq<Spec>, scheduler: bool, spec: Spec)
    requires |specs| == |extra| && forall i :: 0 <= i < |specs| ==> specs[i] == Spec([extra[i]], scheduler)
    ensures Count(specs, spec) == if spec.scheduler == scheduler && |spec.queues| == 1 then Count(extra, spec.queues[0]) else 0
  {
    if specs != [] {
      CountOfSingles(extra[1..], specs[1..], scheduler, spec);
      if |spec.queues| == 1 {
        assert spec.queues == [spec.queues[0]];
        assert [extra[0]] == spec.queues <==> extra[0] == spec.queues[0];
      }
    }
  }

  /** The workers one by one: as many base workers as asked for, the first of them with the scheduler
      if any, and one worker for each extra queue. */
  lemma WorkerSpecs(queues: seq<string>, concurrency: nat, withScheduler: bool, extra: seq<string>)
    ensures var specs := BuildWorkerSpecs(queues, concurrency, withScheduler, extra);
            && |specs| == concurrency + |extra|
            && (forall i :: 0 <= i < concurrency ==> specs[i] == Spec(queues, withScheduler && i == 0))
            && (forall i :: 0 <= i < |extra| ==> specs[concurrency + i] == Spec([extra[i]], withScheduler))
  {
  }

  /** How often each spec is asked for. */
  lemma EverySpec(queues: seq<string>, concurrency: nat, withScheduler: bool, extra: seq<string>, spec: Spec)
    ensures var owners := if withScheduler && concurrency > 0 then 1 else 0;
            multiset(BuildWorkerSpecs(queues, concurrency, withScheduler, extra))[spec] ==
            (if spec == Spec(queues, true) then owners else if spec == Spec(queues, false) then concurrency - owners else 0) +
            (if spec.scheduler == withScheduler && |spec.queues| == 1 then Count(extra, spec.queues[0]) else 0)
  {
    WorkerSpecs(queues, concurrency, withScheduler, extra);
    var specs := BuildWorkerSpecs(queues, concurrency, withScheduler, extra);
    var base, own := specs[..concurrency], specs[concurrency..];
    assert specs == base + own;
    CountIsMultiplicity(specs, spec);
    CountOfBoth(base, own, spec);
    CountOfSingles(extra, own, withScheduler, spec);
    if concurrency > 0 {
      CountOfSame(base[1..], Spec(queues, false), spec);
    }
  }

  /** Exactly one base worker owns the scheduler when it is asked for. */
  lemma OneBaseScheduler(queues: seq<string>, concurrency: nat, withScheduler: bool, names: seq<string>, strip: string -> string)
    ensures var specs := BuildWorkerSpecs(queues, concurrency, withScheduler, ExtraQueues(names, queues, strip));
            multiset(specs)[Spec(queues, true)] == if withScheduler && concurrency > 0 then 1 else 0
  {
    var extra := ExtraQueues(names, queues, strip);
    EverySpec(queues, concurrency, withScheduler, extra, Spec(queues, true));
    if |queues| == 1 {
      CountOfNone(extra, queues[0]);
    }
  }

  /** An extra queue has as many schedulers as times it is listed. */
  lemma ExtraSchedulers(queues: seq<string>, concurrency: nat, withScheduler: bool, names: seq<string>, strip: string -> string, name: string)
    requires name !in queues && name != ""
    ensures var specs := BuildWorkerSpecs(queues, concurrency, withScheduler, ExtraQueues(names, queues, strip));
            multiset(specs)[Spec([name], true)] == if withScheduler then Count(Stripped(names, strip), name) else 0
  {
    var wanted := Spec([name], true);
    assert name in wanted.queues;
    EverySpec(queues, concurrency, withScheduler, ExtraQueues(names, queues, strip), wanted);
    ExtraQueuesKeep(names, queues, strip, name);
  }

  // --------------------------------------------------------------- one turn, as values

  function Alive(ps: seq<Process>, exited: set<nat>): seq<Process> {
    if ps == [] then [] else (if ps[0].pid in exited then [] else [ps[0]]) + Alive(ps[1..], exited)
  }

  function Gone(ps: seq<Process>, exited: set<nat>): seq<Spec> {
    if ps == [] then [] else (if ps[0].pid in exited then [ps[0].spec] else []) + Gone(ps[1..], exited)
  }

  function AfterExits(c: Circuit, n: nat, now: real): Circuit
    decreases n
  {
    if n == 0 then c else AfterExits(Exited(c, now), n - 1, now)
  }

  /** The restarts booked for workers that exited together. */
  function Restarts(c: Circuit, gone: seq<Spec>, now: real): seq<Pending>
    decreases |gone|
  {
    if gone == [] then []
    else
      var after := Exited(c, now);
      [Pending(now + Delay(after, now), gone[0])] + Restarts(after, gone[1..], now)
  }

  function Due(pending: seq<Pending>, now: real): seq<Spec> {
    if pending == [] then [] else (if pending[0].due > now then [] else [pending[0].spec]) + Due(pending[1..], now)
  }

  function Later(pending: seq<Pending>, now: real): seq<Pending> {
    if pending == [] then [] else (if pending[0].due > now then [pending[0]] else []) + Later(pending[1..], now)
  }

  function Started(specs: seq<Spec>, pid: nat): seq<Process> {
    seq(|specs|, i requires 0 <= i < |specs| => Process(pid + i, specs[i]))
  }

  /** `list.remove`: the first element equal to `x`. */
  function Without<T(==)>(s: seq<T>, x: T): seq<T> {
    if s == [] then [] else if s[0] == x then s[1..] else [s[0]] + Without(s[1..], x)
  }

  function Running(ps: seq<Process>): (r: seq<Spec>)
    ensures |r| == |ps| && forall i :: 0 <= i < |r| ==> r[i] == ps[i].spec
  {
    seq(|ps|, i requires 0 <= i < |ps| => ps[i].spec)
  }

  function Waiting(ps: seq<Pending>): (r: seq<Spec>)
    ensures |r| == |ps| && forall i :: 0 <= i < |r| ==> r[i] == ps[i].spec
  {
    seq(|ps|, i requires 0 <= i < |ps| => ps[i].spec)
  }

  // ----------------------------------------------------------------------- conservation

  lemma WithoutCons<T>(h: T, t: seq<T>, x: T)
    ensures Without([h] + t, x) == if h == x then t else [h] + Without(t, x)
  {
    assert ([h] + t)[1..] == t;
  }

  lemma {:induction false} WithoutSkips<T>(kept: seq<T>, x: T, rest: seq<T>)
    requires x !in kept
    ensures Without(kept + ([x] + rest), x) == kept + rest
  {
    if kept == [] {
      assert kept + ([x] + rest) == [x] + rest && kept + rest == rest;
      WithoutCons(x, rest, x);
    } else {
      var h, t := kept[0], kept[1..];
      assert kept == [h] + t;
      assert h != x && x !in t;
      WithoutSkips(t, x, rest);
      Associative([h], t, [x] + rest);
      WithoutCons(h, t + ([x] + rest), x);
      Associative([h], t, rest);
    }
  }

  lemma Rearrange<T>(x: multiset<T>, a: multiset<T>, b: multiset<T>)
    ensures x + (a + b) == a + (x + b) == (x + a) + b
  {
  }

  lemma Regroup<T>(a: multiset<T>, g: multiset<T>, w: multiset<T>)
    ensures (a + g) + w == a + (w + g)
  {
  }

  lemma RunningCons(p: Process, ps: seq<Process>)
    ensures multiset(Running([p] + ps)) == multiset{p.spec} + multiset(Running(ps))
  {
    assert Running([p] + ps) == [p.spec] + Running(ps);
  }

  lemma WaitingCons(p: Pending, ps: seq<Pending>)
    ensures multiset(Waiting([p] + ps)) == multiset{p.spec} + multiset(Waiting(ps))
  {
    assert Waiting([p] + ps) == [p.spec] + Waiting(ps);
  }

  lemma {:induction false} AliveAndGone(ps: seq<Process>, exited: set<nat>)
    ensures multiset(Running(ps)) == multiset(Running(Alive(ps, exited))) + multiset(Gone(ps, exited))
  {
    if ps == [] {
      assert Running(ps) == [];
    } else {
      AliveAndGone(ps[1..], exited);
      var alive, gone := Alive(ps[1..], exited), Gone(ps[1..], exited);
      assert ps == [ps[0]] + ps[1..];
      RunningCons(ps[0], ps[1..]);
      Rearrange(multiset{ps[0].spec}, multiset(Running(alive)), multiset(gone));
      if ps[0].pid in exited {
        assert Alive(ps, exited) == alive && Gone(ps, exited) == [ps[0].spec] + gone;
      } else {
        assert Alive(ps, exited) == [ps[0]] + alive && Gone(ps, exited) == gone;
        RunningCons(ps[0], alive);
      }
    }
  }

  lemma {:induction false} DueAndLater(pending: seq<Pending>, now: real)
    ensures multiset(Waiting(pending)) == multiset(Due(pending, now)) + multiset(Waiting(Later(pending, now)))
  {
    if pending == [] {
      assert Waiting(pending) == [];
    } else {
      DueAndLater(pending[1..], now);
      var due, later := Due(pending[1..], now), Later(pending[1..], now);
      assert pending == [pending[0]] + pending[1..];
      WaitingCons(pending[0], pending[1..]);
      Rearrange(multiset{pending[0].spec}, multiset(due), multiset(Waiting(later)));
      if pending[0].due > now {
        assert Later(pending, now) == [pending[0]] + later && Due(pending, now) == due;
        WaitingCons(pending[0], later);
      } else {
        assert Later(pending, now) == later && Due(pending, now) == [pending[0].spec] + due;
      }
    }
  }

  lemma {:induction false} RestartsKeepSpecs(c: Circuit, gone: seq<Spec>, now: real)
    ensures Waiting(Restarts(c, gone, now)) == gone
    decreases |gone|
  {
    if gone != [] {
      RestartsKeepSpecs(Exited(c, now), gone[1..], now);
    }
  }

  /** Every spec is either running or waiting to be restarted. */
  ghost predicate Conserved(ps: seq<Process>, pending: seq<Pending>, specs: multiset<Spec>) {
    multiset(Running(ps)) + multiset(Waiting(pending)) == specs
  }

  lemma WaitingBoth(a: seq<Pending>, b: seq<Pending>)
    ensures multiset(Waiting(a + b)) == multiset(Waiting(a)) + multiset(Waiting(b))
  {
    assert Waiting(a + b) == Waiting(a) + Waiting(b);
  }

  lemma ReapConserves(ps: seq<Process>, pending: seq<Pending>, specs: multiset<Spec>, exited: set<nat>, c: Circuit, now: real)
    requires Conserved(ps, pending, specs)
    ensures Conserved(Alive(ps, exited), pending + Restarts(c, Gone(ps, exited), now), specs)
  {
    var alive, gone := Alive(ps, exited), Gone(ps, exited);
    var booked := Restarts(c, gone, now);
    AliveAndGone(ps, exited);
    RestartsKeepSpecs(c, gone, now);
    WaitingBoth(pending, booked);
    Regroup(multiset(Running(alive)), multiset(gone), multiset(Waiting(pending)));
  }

  lemma RunningStarted(ps: seq<Process>, specs: seq<Spec>, pid: nat)
    ensures multiset(Running(ps + Started(specs, pid))) == multiset(Running(ps)) + multiset(specs)
  {
    assert Running(ps + Started(specs, pid)) == Running(ps) + specs;
  }

  lemma SpawnConserves(ps: seq<Process>, pending: seq<Pending>, specs: multiset<Spec>, pid: nat, now: real)
    requires Conserved(ps, pending, specs)
    ensures Conserved(ps + Started(Due(pending, now), pid), Later(pending, now), specs)
  {
    var due := Due(pending, now);
    DueAndLater(pending, now);
    RunningStarted(ps, due, pid);
    Rearrange(multiset(Running(ps)), multiset(due), multiset(Waiting(Later(pending, now))));
  }

  // ------------------------------------------------------------------------- the object

  ghost predicate AllDueBy(pending: seq<Pending>, t: real) {
    forall i :: 0 <= i < |pending| ==> pending[i].due <= t
  }

  /** The calls made on the breaker while `n` exits are booked. */
  function Booked(now: real, n: nat): seq<Op> {
    if n == 0 then [] else [Exit(now), Check(now)] + Booked(now, n - 1)
  }

  /** Part-way through booking the exits of `gone`, with those of `rest` to come. */
  datatype Books = Books(circuit: Circuit, pending: seq<Pending>, trace: seq<Op>)

  function Booking(b: Books, gone: seq<Spec>, now: real): Books {
    Books(AfterExits(b.circuit, |gone|, now),
          b.pending + Restarts(b.circuit, gone, now),
          b.trace + Booked(now, |gone|))
  }

  function BookedOne(b: Books, spec: Spec, now: real): Books {
    var after := Exited(b.circuit, now);
    Books(after, b.pending + [Pending(now + Delay(after, now), spec)], b.trace + [Exit(now), Check(now)])
  }

  lemma BookingStep(b: Books, spec: Spec, rest: seq<Spec>, now: real)
    ensures Booking(b, [spec] + rest, now) == Booking(BookedOne(b, spec, now), rest, now)
  {
    assert ([spec] + rest)[1..] == rest;
    var after := Exited(b.circuit, now);
    var one := Pending(now + Delay(after, now), spec);
    assert b.pending + ([one] + Restarts(after, rest, now)) == b.pending + [one] + Restarts(after, rest, now);
    assert b.trace + ([Exit(now), Check(now)] + Booked(now, |rest|)) == b.trace + [Exit(now), Check(now)] + Booked(now, |rest|);
  }

  lemma BookingNothing(b: Books, now: real)
    ensures Booking(b, [], now) == b
  {
  }

  lemma AliveCons(p: Process, ps: seq<Process>, exited: set<nat>)
    ensures Alive([p] + ps, exited) == (if p.pid in exited then [] else [p]) + Alive(ps, exited)
    ensures Gone([p] + ps, exited) == if p.pid in exited then [p.spec] + Gone(ps, exited) else Gone(ps, exited)
  {
    assert ([p] + ps)[1..] == ps;
    assert [] + Gone(ps, exited) == Gone(ps, exited);
  }

  /** Part-way through sifting a list: `kept` stays, `rest` is still to be looked at. */
  ghost predicate Sifting(ps: seq<Process>, kept: seq<Process>, rest: seq<Process>, target: seq<Process>, exited: set<nat>) {
    && ps == kept + rest
    && target == kept + Alive(rest, exited)
    && (forall p :: p in kept ==> p.pid !in exited)
  }

  lemma SiftingKeeps(ps: seq<Process>, kept: seq<Process>, p: Process, rest: seq<Process>, target: seq<Process>, exited: set<nat>)
    requires Sifting(ps, kept, [p] + rest, target, exited) && p.pid !in exited
    ensures Sifting(ps, kept + [p], rest, target, exited)
  {
    AliveCons(p, rest, exited);
    Associative(kept, [p], rest);
    Associative(kept, [p], Alive(rest, exited));
  }

  lemma SiftingDrops(ps: seq<Process>, kept: seq<Process>, p: Process, rest: seq<Process>, target: seq<Process>, exited: set<nat>)
    requires Sifting(ps, kept, [p] + rest, target, exited) && p.pid in exited
    ensures ps == kept + ([p] + rest) && p !in kept
    ensures Sifting(kept + rest, kept, rest, target, exited)
  {
    AliveCons(p, rest, exited);
    assert [] + Alive(rest, exited) == Alive(rest, exited);
  }

  lemma BookingGone(b: Books, p: Process, rest: seq<Process>, exited: set<nat>, now: real)
    ensures Booking(b, Gone([p] + rest, exited), now) ==
            Booking(if p.pid in exited then BookedOne(b, p.spec, now) else b, Gone(rest, exited), now)
  {
    AliveCons(p, rest, exited);
    BookingStep(b, p.spec, Gone(rest, exited), now);
  }

  /** Part-way through the loop over exited workers: where it is and where it will end. */
  ghost predicate Reaping(ps: seq<Process>, b: Books, kept: seq<Process>, rest: seq<Process>,
                          alive: seq<Process>, end: Books, exited: set<nat>, now: real) {
    Sifting(ps, kept, rest, alive, exited) && end == Booking(b, Gone(rest, exited), now)
  }

  lemma ReapingStarts(ps: seq<Process>, b: Books, exited: set<nat>, now: real)
    ensures Reaping(ps, b, [], ps, Alive(ps, exited), Booking(b, Gone(ps, exited), now), exited, now)
  {
  }

  lemma ReapingEnds(ps: seq<Process>, b: Books, kept: seq<Process>, alive: seq<Process>, end: Books, exited: set<nat>, now: real)
    requires Reaping(ps, b, kept, [], alive, end, exited, now)
    ensures ps == alive && b == end
  {
    BookingNothing(b, now);
  }

  /** The processes and the next process id. */
  datatype Crew = Crew(processes: seq<Process>, nextPid: nat)

  function Crewing(c: Crew, specs: seq<Spec>): Crew {
    Crew(c.processes + Started(specs, c.nextPid), c.nextPid + |specs|)
  }

  function CrewedOne(c: Crew, spec: Spec): Crew {
    Crew(c.processes + [Process(c.nextPid, spec)], c.nextPid + 1)
  }

  lemma CrewingStep(c: Crew, spec: Spec, rest: seq<Spec>)
    ensures Crewing(c, [spec] + rest) == Crewing(CrewedOne(c, spec), rest)
  {
    assert Started([spec] + rest, c.nextPid) == [Process(c.nextPid, spec)] + Started(rest, c.nextPid + 1);
    assert c.processes + ([Process(c.nextPid, spec)] + Started(rest, c.nextPid + 1)) ==
           c.processes + [Process(c.nextPid, spec)] + Started(rest, c.nextPid + 1);
  }

  lemma DueCons(p: Pending, ps: seq<Pending>, now: real)
    ensures Later([p] + ps, now) == (if p.due > now then [p] else []) + Later(ps, now)
    ensures Due([p] + ps, now) == if p.due > now then Due(ps, now) else [p.spec] + Due(ps, now)
  {
    assert ([p] + ps)[1..] == ps;
    assert [] + Due(ps, now) == Due(ps, now);
  }

  lemma CrewingDue(c: Crew, p: Pending, rest: seq<Pending>, now: real)
    ensures Crewing(c, Due([p] + rest, now)) == Crewing(if p.due > now then c else CrewedOne(c, p.spec), Due(rest, now))
  {
    DueCons(p, rest, now);
    CrewingStep(c, p.spec, Due(rest, now));
  }

  ghost predicate Picking(ps: seq<Pending>, kept: seq<Pending>, rest: seq<Pending>, target: seq<Pending>, now: real) {
    && ps == kept + rest
    && target == kept + Later(rest, now)
    && (forall p :: p in kept ==> p.due > now)
  }

  lemma PickingKeeps(ps: seq<Pending>, kept: seq<Pending>, p: Pending, rest: seq<Pending>, target: seq<Pending>, now: real)
    requires Picking(ps, kept, [p] + rest, target, now) && p.due > now
    ensures Picking(ps, kept + [p], rest, target, now)
  {
    DueCons(p, rest, now);
    Associative(kept, [p], rest);
    Associative(kept, [p], Later(rest, now));
  }

  lemma PickingDrops(ps: seq<Pending>, kept: seq<Pending>, p: Pending, rest: seq<Pending>, target: seq<Pending>, now: real)
    requires Picking(ps, kept, [p] + rest, target, now) && p.due <= now
    ensures Picking(Without(ps, p), kept, rest, target, now)
  {
    DueCons(p, rest, now);
    assert [] + Later(rest, now) == Later(rest, now);
    WithoutSkips(kept, p, rest);
  }

  /** Exactly the workers that have not exited stay. */
  lemma {:induction false} AliveExactly(ps: seq<Process>, exited: set<nat>, p: Process)
    ensures multiset(Alive(ps, exited))[p] == if p.pid in exited then 0 else multiset(ps)[p]
  {
    if ps != [] {
      AliveExactly(ps[1..], exited, p);
      assert ps == [ps[0]] + ps[1..];
    }
  }

  /** Exactly the restarts that are not due yet stay. */
  lemma {:induction false} LaterExactly(pending: seq<Pending>, now: real, p: Pending)
    ensures multiset(Later(pending, now))[p] == if p.due > now then multiset(pending)[p] else 0
  {
    if pending != [] {
      LaterExactly(pending[1..], now, p);
      assert pending == [pending[0]] + pending[1..];
    }
  }

  /** A turn at which the circuit was closed leaves nothing due behind. */
  lemma {:induction false} NothingDueStays(pending: seq<Pending>, now: real)
    ensures forall i :: 0 <= i < |Later(pending, now)| ==> Later(pending, now)[i].due > now && Later(pending, now)[i] in pending
    ensures AllDueBy(pending, now) ==> Later(pending, now) == []
  {
    if pending != [] {
      NothingDueStays(pending[1..], now);
    }
  }

  datatype Turn = Turn(now: real, exited: set<nat>)

  datatype Situation = Situation(crew: Crew, books: Books)

  /** The books at the circuit check of a turn. */
  function Gated(s: Situation, t: Turn): Books {
    var start := Books(Refreshed(s.books.circuit, t.now), s.books.pending, s.books.trace + [Check(t.now)]);
    var b := Booking(start, Gone(s.crew.processes, t.exited), t.now);
    b.(circuit := Refreshed(b.circuit, t.now), trace := b.trace + [Check(t.now)])
  }

  function Reaped(s: Situation, t: Turn): Situation {
    Situation(s.crew.(processes := Alive(s.crew.processes, t.exited)), Gated(s, t))
  }

  function Respawned(s: Situation, now: real): Situation {
    if s.books.circuit.until.Some? then s
    else Situation(Crewing(s.crew, Due(s.books.pending, now)), s.books.(pending := Later(s.books.pending, now)))
  }

  function Settled(s: Situation, now: real, expected: nat): Situation {
    if |s.crew.processes| != expected || s.books.pending != [] then s
    else s.(books := s.books.(circuit := Observed(s.books.circuit, now), trace := s.books.trace + [Observe(now)]))
  }

  function Turned(s: Situation, t: Turn, expected: nat): Situation {
    Settled(Respawned(Reaped(s, t), t.now), t.now, expected)
  }

  function TurnedAll(s: Situation, turns: seq<Turn>, expected: nat): Situation
    decreases |turns|
  {
    if turns == [] then s else TurnedAll(Turned(s, turns[0], expected), turns[1..], expected)
  }

  predicate Increasing(clock: real, turns: seq<Turn>)
    decreases |turns|
  {
    turns == [] || (clock < turns[0].now && Increasing(turns[0].now, turns[1..]))
  }

  function LastTime(clock: real, turns: seq<Turn>): real
    decreases |turns|
  {
    if turns == [] then clock else LastTime(turns[0].now, turns[1..])
  }

  class WorkerSupervisor {
    const breaker: Breaker
    const expected: nat
    var processes: seq<Process>
    var pending: seq<Pending>
    var nextPid: nat
    ghost const specs: multiset<Spec>
    ghost var trace: seq<Op>

    /** The calls so far explain the breaker, and more may follow at `now`. */
    ghost predicate Tracked(now: real)
      reads this, breaker
    {
      && Traced(breaker.State(), trace)
      && CanFollow(trace, now)
      && Bounded(breaker.State(), now)
      && AllDueBy(pending, now + OPEN_TIME)
    }

    /** What holds between two turns, the last of them at `clock`. */
    ghost predicate Valid(clock: real)
      reads this, breaker
    {
      && Conserved(processes, pending, specs)
      && Traced(breaker.State(), trace)
      && (trace != [] ==> trace[|trace| - 1].at <= clock)
      && Bounded(breaker.State(), clock)
      && AllDueBy(pending, clock + OPEN_TIME)
    }

    constructor (workerSpecs: seq<Spec>, clock: real)
      ensures Valid(clock) && fresh(breaker)
      ensures specs == multiset(workerSpecs) && expected == |workerSpecs|
      ensures Running(processes) == workerSpecs && pending == [] && trace == []
    {
      breaker := new Breaker();
      expected := |workerSpecs|;
      specs := multiset(workerSpecs);
      trace := [];
      pending := [];
      processes := [];
      nextPid := 1;
      new;
      for i := 0 to |workerSpecs|
        invariant fresh(breaker) && breaker.State() == NEW && pending == [] && trace == []
        invariant Running(processes) == workerSpecs[..i]
        invariant specs == multiset(workerSpecs) && expected == |workerSpecs|
      {
        Spawn(workerSpecs[i]);
      }
      assert workerSpecs[..|workerSpecs|] == workerSpecs;
      assert Waiting(pending) == [];
    }

    method Spawn(spec: Spec)
      modifies this`processes, this`nextPid
      ensures processes == old(processes) + [Process(old(nextPid), spec)] && nextPid == old(nextPid) + 1
    {
      processes := processes + [Process(nextPid, spec)];
      nextPid := nextPid + 1;
    }

    /** Books the restart of one worker that exited. */
    method Book(spec: Spec, now: real)
      requires Tracked(now)
      modifies this`pending, this`trace, breaker
      ensures Tracked(now)
      ensures breaker.State() == Exited(old(breaker.State()), now)
      ensures pending == old(pending) + [Pending(now + Delay(breaker.State(), now), spec)]
      ensures trace == old(trace) + [Exit(now), Check(now)]
    {
      ghost var c := breaker.State();
      var delay := breaker.RecordExit(now);
      TraceGrows(c, trace, Exit(now));
      ApplyStaysBounded(c, now, Exit(now));
      DelayIsBounded(c, now, now);
      RefreshAfterExit(c, now);
      trace := trace + [Exit(now)];
      pending := pending + [Pending(now + delay, spec)];
      ghost var open := breaker.IsOpen(now);
      TraceGrows(Exited(c, now), trace, Check(now));
      trace := trace + [Check(now)];
    }

    ghost function Ledger(): Books
      reads this, breaker
    {
      Books(breaker.State(), pending, trace)
    }

    /** The loop over the workers that exited. */
    method Reap(now: real, exited: set<nat>)
      requires Tracked(now)
      modifies this`processes, this`pending, this`trace, breaker
      ensures Tracked(now)
      ensures processes == Alive(old(processes), exited)
      ensures Ledger() == Booking(old(Ledger()), Gone(old(processes), exited), now)
    {
      var rest := processes;
      ghost var kept: seq<Process> := [];
      ghost var alive, end := Alive(rest, exited), Booking(Ledger(), Gone(rest, exited), now);
      ReapingStarts(rest, Ledger(), exited, now);
      while rest != []
        invariant Tracked(now)
        invariant Reaping(processes, Ledger(), kept, rest, alive, end, exited, now)
        decreases |rest|
      {
        FirstOf(rest);
        kept := ReapOne(rest[0], now, exited, kept, rest[1..], alive, end);
        rest := rest[1..];
      }
      ReapingEnds(processes, Ledger(), kept, alive, end, exited, now);
    }

    /** The body of that loop. */
    method ReapOne(managed: Process, now: real, exited: set<nat>,
                   ghost kept0: seq<Process>, ghost rest: seq<Process>, ghost alive: seq<Process>, ghost end: Books)
      returns (ghost kept: seq<Process>)
      requires Tracked(now) && Reaping(processes, Ledger(), kept0, [managed] + rest, alive, end, exited, now)
      modifies this`processes, this`pending, this`trace, breaker
      ensures Tracked(now) && Reaping(processes, Ledger(), kept, rest, alive, end, exited, now)
    {
      kept := kept0;
      BookingGone(Ledger(), managed, rest, exited, now);
      if managed.pid in exited {
        SiftingDrops(processes, kept, managed, rest, alive, exited);
        Retire(managed, now, kept, rest);
      } else {
        SiftingKeeps(processes, kept, managed, rest, alive, exited);
        kept := kept + [managed];
      }
    }

    method Retire(managed: Process, now: real, ghost kept: seq<Process>, ghost rest: seq<Process>)
      requires Tracked(now)
      requires processes == kept + ([managed] + rest) && managed !in kept
      modifies this`processes, this`pending, this`trace, breaker
      ensures Tracked(now)
      ensures processes == kept + rest
      ensures Ledger() == BookedOne(old(Ledger()), managed.spec, now)
    {
      WithoutSkips(kept, managed, rest);
      processes := Without(processes, managed);
      Book(managed.spec, now);
    }

    ghost function Staff(): Crew
      reads this
    {
      Crew(processes, nextPid)
    }

    /** The loop over the restarts that are due. */
    method SpawnDue(now: real)
      modifies this`processes, this`pending, this`nextPid
      ensures Staff() == Crewing(old(Staff()), Due(old(pending), now))
      ensures pending == Later(old(pending), now)
    {
      var rest := pending;
      ghost var kept: seq<Pending> := [];
      ghost var later, end := Later(rest, now), Crewing(Staff(), Due(rest, now));
      while rest != []
        invariant Picking(pending, kept, rest, later, now)
        invariant end == Crewing(Staff(), Due(rest, now))
        decreases |rest|
      {
        FirstOf(rest);
        CrewingDue(Staff(), rest[0], rest[1..], now);
        kept := SpawnOne(rest[0], now, kept, rest[1..], later);
        rest := rest[1..];
      }
    }

    /** The body of that loop. */
    method SpawnOne(p: Pending, now: real, ghost kept0: seq<Pending>, ghost rest: seq<Pending>, ghost later: seq<Pending>)
      returns (ghost kept: seq<Pending>)
      requires Picking(pending, kept0, [p] + rest, later, now)
      modifies this`processes, this`pending, this`nextPid
      ensures Picking(pending, kept, rest, later, now)
      ensures Staff() == if p.due > now then old(Staff()) else CrewedOne(old(Staff()), p.spec)
    {
      kept := kept0;
      if p.due > now {
        PickingKeeps(pending, kept, p, rest, later, now);
        kept := kept + [p];
      } else {
        PickingDrops(pending, kept, p, rest, later, now);
        Spawn(p.spec);
        pending := Without(pending, p);
      }
    }

    ghost function State(): Situation
      reads this, breaker
    {
      Situation(Staff(), Ledger())
    }

    /** One turn of the supervision loop. */
    method Iterate(now: real, exited: set<nat>, ghost clock: real)
      requires Valid(clock) && clock < now
      modifies this`processes, this`pending, this`nextPid, this`trace, breaker
      ensures Valid(now)
      ensures State() == Turned(old(State()), Turn(now, exited), expected)
      ensures var gate := Gated(old(State()), Turn(now, exited)); Traced(gate.circuit, gate.trace)
      ensures clock + OPEN_TIME <= now && Gone(old(processes), exited) == [] ==> pending == []
    {
      var open := ReapTurn(now, exited, clock);
      FinishTurn(open, now);
    }

    /** The second half. */
    method FinishTurn(open: bool, now: real)
      requires Tracked(now) && Conserved(processes, pending, specs) && (open <==> breaker.until.Some?)
      modifies this`processes, this`pending, this`nextPid, this`trace, breaker
      ensures Valid(now)
      ensures State() == Settled(Respawned(old(State()), now), now, expected)
      ensures !open && AllDueBy(old(pending), now) ==> pending == []
    {
      Respawn(open, now);
      Settle(now);
    }

    /** The first half of a turn, up to the circuit check. */
    method ReapTurn(now: real, exited: set<nat>, ghost clock: real) returns (open: bool)
      requires Valid(clock) && clock < now
      modifies this`processes, this`pending, this`trace, breaker
      ensures Tracked(now) && Conserved(processes, pending, specs)
      ensures State() == Reaped(old(State()), Turn(now, exited))
      ensures open <==> breaker.until.Some?
      ensures clock + OPEN_TIME <= now && Gone(old(processes), exited) == [] ==> !open && AllDueBy(pending, now)
    {
      BeginTurn(now, clock);
      ghost var start := Ledger();
      ReapConserves(processes, pending, specs, exited, start.circuit, now);
      Reap(now, exited);
      if Gone(old(processes), exited) == [] {
        BookingNothing(start, now);
      }
      open := ConsultBreaker(now);
    }

    /** Every restart that is due, unless the circuit is open. */
    method Respawn(open: bool, now: real)
      requires Tracked(now) && Conserved(processes, pending, specs) && (open <==> breaker.until.Some?)
      modifies this`processes, this`pending, this`nextPid
      ensures Tracked(now) && Conserved(processes, pending, specs)
      ensures State() == Respawned(old(State()), now)
      ensures !open && AllDueBy(old(pending), now) ==> pending == []
    {
      if !open {
        SpawnConserves(processes, pending, specs, nextPid, now);
        NothingDueStays(pending, now);
        SpawnDue(now);
      }
    }

    method Settle(now: real)
      requires Tracked(now)
      modifies this`trace, breaker
      ensures Traced(breaker.State(), trace) && Bounded(breaker.State(), now)
      ensures trace != [] ==> trace[|trace| - 1].at <= now
      ensures State() == Settled(old(State()), now, expected)
    {
      if |processes| == expected && pending == [] {
        NoteFullyRunning(now);
      }
    }

    /** `refresh` at the start of a turn. */
    method BeginTurn(now: real, ghost clock: real)
      requires Valid(clock) && clock < now
      modifies this`trace, breaker
      ensures Tracked(now)
      ensures breaker.State() == Refreshed(old(breaker.State()), now)
      ensures trace == old(trace) + [Check(now)]
      ensures clock + OPEN_TIME <= now ==> breaker.until.None? && AllDueBy(pending, now)
    {
      ghost var c := breaker.State();
      breaker.Refresh(now);
      TraceGrows(c, trace, Check(now));
      ApplyStaysBounded(c, clock, Check(now));
      trace := trace + [Check(now)];
    }

    /** `is_open` before respawning. */
    method ConsultBreaker(now: real) returns (open: bool)
      requires Tracked(now)
      modifies this`trace, breaker
      ensures Tracked(now)
      ensures breaker.State() == Refreshed(old(breaker.State()), now)
      ensures trace == old(trace) + [Check(now)]
      ensures open <==> breaker.until.Some?
    {
      ghost var c := breaker.State();
      open := breaker.IsOpen(now);
      TraceGrows(c, trace, Check(now));
      ApplyStaysBounded(c, now, Check(now));
      trace := trace + [Check(now)];
    }

    /** `observe_fully_running` at the end of a turn. */
    method NoteFullyRunning(now: real)
      requires Tracked(now)
      modifies this`trace, breaker
      ensures Traced(breaker.State(), trace) && Bounded(breaker.State(), now)
      ensures breaker.State() == Observed(old(breaker.State()), now)
      ensures trace == old(trace) + [Observe(now)]
    {
      ghost var c := breaker.State();
      breaker.ObserveFullyRunning(now);
      TraceGrows(c, trace, Observe(now));
      ApplyStaysBounded(c, now, Observe(now));
      trace := trace + [Observe(now)];
    }

    /** The supervision loop, until it is told to stop. */
    method Supervise(turns: seq<Turn>, ghost clock: real)
      requires Valid(clock) && Increasing(clock, turns)
      modifies this`processes, this`pending, this`nextPid, this`trace, breaker
      ensures Valid(LastTime(clock, turns))
      ensures State() == TurnedAll(old(State()), turns, expected)
    {
      var rest := turns;
      ghost var last, end := clock, TurnedAll(State(), turns, expected);
      while rest != []
        invariant Valid(last) && Increasing(last, rest)
        invariant LastTime(clock, turns) == LastTime(last, rest)
        invariant end == TurnedAll(State(), rest, expected)
        decreases |rest|
      {
        Iterate(rest[0].now, rest[0].exited, last);
        last, rest := rest[0].now, rest[1..];
      }
    }
  }

  // -------------------------------------------------------------------- what the loop keeps

  /** At every boundary of the loop at most one base worker runs with the scheduler. */
  lemma AtMostOneScheduler(ps: seq<Process>, pending: seq<Pending>, queues: seq<string>, concurrency: nat, withScheduler: bool, names: seq<string>, strip: string -> string)
    requires Conserved(ps, pending, multiset(BuildWorkerSpecs(queues, concurrency, withScheduler, ExtraQueues(names, queues, strip))))
    ensures Count(Running(ps), Spec(queues, true)) <= 1
  {
    OneBaseScheduler(queues, concurrency, withScheduler, names, strip);
    CountIsMultiplicity(Running(ps), Spec(queues, true));
  }

  /** At every boundary of the loop all the workers asked for are running or waiting to be restarted. */
  lemma NoWorkerIsLost(ps: seq<Process>, pending: seq<Pending>, queues: seq<string>, concurrency: nat, withScheduler: bool, extra: seq<string>)
    requires Conserved(ps, pending, multiset(BuildWorkerSpecs(queues, concurrency, withScheduler, extra)))
    ensures |ps| + |pending| == concurrency + |extra|
  {
    WorkerSpecs(queues, concurrency, withScheduler, extra);
    assert |multiset(Running(ps)) + multiset(Waiting(pending))| == |ps| + |pending|;
  }

  function Repeated(now: real, n: nat): (r: seq<real>)
    ensures |r| == n && forall i :: 0 <= i < n ==> r[i] == now
  {
    seq(n, _ => now)
  }

  lemma ExitTimesOfOne(trace: seq<Op>, now: real)
    ensures ExitTimes(trace + [Exit(now), Check(now)]) == ExitTimes(trace) + [now]
  {
    ExitTimesAtEnd(trace, Exit(now));
    ExitTimesAtEnd(trace + [Exit(now)], Check(now));
    assert trace + [Exit(now), Check(now)] == trace + [Exit(now)] + [Check(now)];
    assert ExitTimes(trace) + [now] + [] == ExitTimes(trace) + [now];
  }

  lemma {:induction false} BookedExits(trace: seq<Op>, now: real, n: nat)
    ensures ExitTimes(trace + Booked(now, n)) == ExitTimes(trace) + Repeated(now, n)
    decreases n
  {
    if n == 0 {
      assert trace + [] == trace;
    } else {
      var more := trace + [Exit(now), Check(now)];
      ExitTimesOfOne(trace, now);
      BookedExits(more, now, n - 1);
      Associative(trace, [Exit(now), Check(now)], Booked(now, n - 1));
      Associative(ExitTimes(trace), [now], Repeated(now, n - 1));
      assert [now] + Repeated(now, n - 1) == Repeated(now, n);
    }
  }

  /** At the circuit check of a turn the log has one more exit for each worker that is gone. */
  lemma GateCountsExits(s: Situation, t: Turn)
    ensures ExitTimes(Gated(s, t).trace) == ExitTimes(s.books.trace) + Repeated(t.now, |Gone(s.crew.processes, t.exited)|)
  {
    var n := |Gone(s.crew.processes, t.exited)|;
    var start := s.books.trace + [Check(t.now)];
    ExitTimesAtEnd(s.books.trace, Check(t.now));
    BookedExits(start, t.now, n);
    ExitTimesAtEnd(start + Booked(t.now, n), Check(t.now));
  }

  /** The breaker counts `n` crashes at `now`, and opened just now if these are too many. */
  ghost predicate Counting(c: Circuit, now: real, n: nat) {
    var r := Refreshed(c, now);
    && |r.crashes| == n
    && (forall i :: 0 <= i < n ==> r.crashes[i] >= now - 600.0)
    && r.until == if n >= 5 then Some(now + 900.0) else None
  }

  lemma {:induction false} NothingPruned(s: seq<real>, cutoff: real)
    requires s != [] ==> s[0] >= cutoff
    ensures Pruned(s, cutoff) == s
  {
  }

  lemma CountingOneMore(c: Circuit, now: real, n: nat)
    requires Counting(c, now, n)
    ensures Counting(Exited(c, now), now, n + 1)
    ensures Delay(Exited(c, now), now) == if n < 4 then [5.0, 15.0, 30.0, 60.0][n] else 900.0
  {
    NothingPruned(Exited(c, now).crashes, now - 600.0);
  }

  lemma {:induction false} RestartsFrom(c: Circuit, gone: seq<Spec>, now: real, n: nat)
    requires Counting(c, now, n)
    ensures |Restarts(c, gone, now)| == |gone|
    ensures forall i :: 0 <= i < |gone| ==>
              Restarts(c, gone, now)[i] == Pending(now + if n + i < 4 then [5.0, 15.0, 30.0, 60.0][n + i] else 900.0, gone[i])
    decreases |gone|
  {
    if gone != [] {
      CountingOneMore(c, now, n);
      RestartsFrom(Exited(c, now), gone[1..], now, n + 1);
    }
  }

  /** Workers that exit together, closed throughout the window before, are restarted one after the other:
      each waits longer than the one before, and from the fifth exit of the window on until the circuit closes. */
  lemma RestartsAreSpaced(c: Circuit, trace: seq<Op>, gone: seq<Spec>, now: real)
    requires Traced(c, trace) && CanFollow(trace, now) && ClosedSince(trace, now - 600.0)
    ensures var n := |Since(ExitTimes(trace), now - 600.0)|;
            && |Restarts(c, gone, now)| == |gone|
            && forall i :: 0 <= i < |gone| ==>
                 Restarts(c, gone, now)[i] == Pending(now + if n + i < 4 then [5.0, 15.0, 30.0, 60.0][n + i] else 900.0, gone[i])
  {
    var window := Since(ExitTimes(trace), now - 600.0);
    CountsTheWindow(trace, now);
    SinceMembers(ExitTimes(trace), now - 600.0);
    BreakerRefinesLog(trace);
    PrunedIsShorter(c.crashes, now - 600.0);
    forall i | 0 <= i < |window| ensures window[i] >= now - 600.0 {
      assert window[i] in window;
    }
    RestartsFrom(c, gone, now, |window|);
  }

  /** No worker is started at a turn where the log of all exits holds the circuit open, and at any
      other turn the restarts that are due happen, and no others. */
  lemma TurnFollowsLog(s: Situation, t: Turn, expected: nat)
    requires var gate := Gated(s, t); Traced(gate.circuit, gate.trace)
    ensures var gate, after := Gated(s, t), Turned(s, t, expected);
            var alive := Alive(s.crew.processes, t.exited);
            var full := |after.crew.processes| == expected && after.books.pending == [];
            && after.books.trace == gate.trace + (if full then [Observe(t.now)] else [])
            && if NoteAll(Log([], None), gate.trace).until.Some? then
              after.crew.processes == alive && after.books.pending == gate.pending
            else
              && Running(after.crew.processes) == Running(alive) + Due(gate.pending, t.now)
              && after.books.pending == Later(gate.pending, t.now)
  {
    BreakerRefinesLog(Gated(s, t).trace);
  }
}
