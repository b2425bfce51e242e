/**
 The repository object: publishing under interruption, reading, searching and verifying.
 A call gets a budget, the number of files it still manages to write before the process
 dies or a write fails; every contract holds for every budget.
 */
module SegmentRepository {
  import opened Options
  import opened Sequences
  import opened SegmentFormat
  import opened SegmentReading
  import opened SegmentHistory
  import opened SegmentReaders

  datatype Outcome = Published | Refused | Interrupted

  datatype Write = Written(digest: Digest) | NotWritten | Died

  datatype Found = Found(commit: Commit) | Absent | Raised

  datatype VerifyResult = VerifyResult(ok: bool, segments: nat, commits: nat, changes: nat)

  // ------------------------------------------------------------------ growing stores

  /** What is stored under `d` is one of the segments. */
  ghost predicate OneOf(codec: Codec, b: Blob, d: Digest, segments: seq<Segment>) {
    exists i :: 0 <= i < |segments| && d == codec.digest(segments[i]) && b == Parsed(segments[i], d)
  }

  /** Nothing stored is touched, and only the given segments are added. */
  ghost predicate Grows(codec: Codec, store: Store, larger: Store, segments: seq<Segment>) {
    && (forall d :: d in store ==> d in larger && larger[d] == store[d])
    && (forall d :: d in larger && d !in store ==> OneOf(codec, larger[d], d, segments))
  }

  /** No file that cannot be read sits where one of the segments belongs. */
  ghost predicate Clear(codec: Codec, store: Store, segments: seq<Segment>) {
    forall i :: 0 <= i < |segments| ==> ClearAt(codec, store, segments[i])
  }

  ghost predicate ClearAt(codec: Codec, store: Store, s: Segment) {
    codec.digest(s) in store ==> ReadSegment(store, codec.digest(s)).Some?
  }

  /** The digests of these segments do not collide. */
  ghost predicate KeptApart(codec: Codec, segments: seq<Segment>) {
    forall s, t :: s in segments && t in segments && codec.digest(s) == codec.digest(t) ==> s == t
  }

  /** Nor do they collide with what is stored. */
  ghost predicate Apart(codec: Codec, store: Store, segments: seq<Segment>) {
    && KeptApart(codec, segments)
    && (forall i :: 0 <= i < |segments| ==> ApartAt(codec, store, segments[i]))
  }

  ghost predicate ApartAt(codec: Codec, store: Store, s: Segment) {
    var d := codec.digest(s);
    d in store && ReadSegment(store, d).Some? ==> store[d] == Parsed(s, d)
  }

  ghost predicate AllHeaded(segments: seq<Segment>) {
    forall i :: 0 <= i < |segments| ==> segments[i].header == HEADER
  }

  lemma GrowsTransitive(codec: Codec, a: Store, b: Store, c: Store, segments: seq<Segment>)
    requires Grows(codec, a, b, segments) && Grows(codec, b, c, segments)
    ensures Grows(codec, a, c, segments)
  {
  }

  lemma GrowsByOne(codec: Codec, store: Store, larger: Store, segments: seq<Segment>, k: nat)
    requires k < |segments| && Grows(codec, store, larger, [segments[k]])
    ensures Grows(codec, store, larger, segments)
  {
    forall d | d in larger && d !in store ensures OneOf(codec, larger[d], d, segments) {
      assert OneOf(codec, larger[d], d, [segments[k]]);
    }
  }

  lemma GrowthStaysClear(codec: Codec, store: Store, larger: Store, segments: seq<Segment>)
    requires codec.Valid() && AllHeaded(segments) && Grows(codec, store, larger, segments) && Clear(codec, store, segments)
    ensures Clear(codec, larger, segments)
  {
    forall i | 0 <= i < |segments| ensures ClearAt(codec, larger, segments[i]) {
      var d := codec.digest(segments[i]);
      assert ClearAt(codec, store, segments[i]);
      if d in larger && d !in store {
        assert OneOf(codec, larger[d], d, segments);
      }
    }
  }

  lemma GrowthStaysStored(codec: Codec, store: Store, larger: Store, segments: seq<Segment>, added: seq<Segment>)
    requires Grows(codec, store, larger, added) && Stored(codec, store, segments)
    ensures Stored(codec, larger, segments)
  {
  }

  /** Without collisions, what can be read under the digest of a segment is that segment. */
  lemma ReadableIsStored(codec: Codec, before: Store, store: Store, segments: seq<Segment>, k: nat)
    requires k < |segments| && Grows(codec, before, store, segments) && Apart(codec, before, segments)
    requires codec.digest(segments[k]) in store && ReadSegment(store, codec.digest(segments[k])).Some?
    ensures Stored(codec, store, [segments[k]])
  {
    var d := codec.digest(segments[k]);
    if d in before {
      assert ApartAt(codec, before, segments[k]);
    } else {
      assert OneOf(codec, store[d], d, segments);
      var i :| 0 <= i < |segments| && d == codec.digest(segments[i]) && store[d] == Parsed(segments[i], d);
      assert segments[i] in segments && segments[k] in segments;
    }
  }

  // ------------------------------------------------------------------- runs of appends

  /** What one call of `append` may do to the files. */
  ghost predicate AppendStep(codec: Codec, store: Store, m: Manifest, pending: seq<Commit>, outcome: Outcome, store': Store, m': Manifest) {
    var batch := Batch(codec, m, pending);
    && Grows(codec, store, store', batch)
    && (outcome != Published ==> m' == m)
    && (outcome == Published ==>
          && m.header == HEADER
          && Advance(codec, m, pending) == Some(m')
          && (Apart(codec, store, batch) ==> Stored(codec, store', batch)))
    && (outcome == Refused ==>
          m.header != HEADER || Advance(codec, m, pending).None? || !Clear(codec, store, batch))
  }

  lemma AdvanceIs(codec: Codec, m: Manifest, pending: seq<Commit>, head: Option<Digest>, count: int)
    requires !Ignored(m, pending) && Advance(codec, m, pending).Some?
    requires head == LastDigest(codec, m.head, Batch(codec, m, pending)) && count == m.segmentCount + |Batch(codec, m, pending)|
    ensures Advance(codec, m, pending).value ==
            m.(head := head, last := LastId(m.last, pending), segmentCount := count,
               commitCount := m.commitCount + |pending|, changeCount := m.changeCount + ChangeTotal(pending))
  {
  }

  lemma PublishedStep(codec: Codec, store: Store, m: Manifest, pending: seq<Commit>, store': Store, m': Manifest)
    requires Grows(codec, store, store', Batch(codec, m, pending))
    requires m.header == HEADER && Advance(codec, m, pending) == Some(m')
    requires Apart(codec, store, Batch(codec, m, pending)) ==> Stored(codec, store', Batch(codec, m, pending))
    ensures AppendStep(codec, store, m, pending, Published, store', m')
  {
  }

  lemma UnpublishedStep(codec: Codec, store: Store, m: Manifest, pending: seq<Commit>, outcome: Outcome, store': Store)
    requires outcome != Published && Grows(codec, store, store', Batch(codec, m, pending))
    requires outcome == Refused && Advance(codec, m, pending).Some? ==> !Clear(codec, store, Batch(codec, m, pending))
    ensures AppendStep(codec, store, m, pending, outcome, store', m)
  {
  }

  /** Every file a call adds holds a segment within the limits, under its own digest. */
  lemma AddedIsBounded(codec: Codec, store: Store, m: Manifest, pending: seq<Commit>, outcome: Outcome, store': Store, m': Manifest, d: Digest)
    requires AppendStep(codec, store, m, pending, outcome, store', m') && d in store' && d !in store
    ensures store'[d].Parsed? && store'[d].digest == d == codec.digest(store'[d].segment)
    ensures store'[d].segment in Batch(codec, m, pending) && Bounded(codec, store'[d].segment)
  {
    var batch := Batch(codec, m, pending);
    assert OneOf(codec, store'[d], d, batch);
    BatchIsBounded(codec, m, pending);
  }

  /** The commits a call adds to the history. */
  function Added(history: seq<Commit>, pending: seq<Commit>, outcome: Outcome): seq<Commit> {
    if outcome == Published && !Passed(history, pending) then pending else []
  }

  lemma GrownHolds(codec: Codec, store: Store, larger: Store, m: Manifest, chain: seq<Segment>, history: seq<Commit>, batch: seq<Segment>)
    requires Holds(codec, store, m, chain, history) && Grows(codec, store, larger, batch)
    ensures Holds(codec, larger, m, chain, history)
  {
    HoldsInLargerStore(codec, store, larger, m, chain, history);
  }

  lemma StepExtends(codec: Codec, store: Store, m: Manifest, chain: seq<Segment>, history: seq<Commit>,
                    pending: seq<Commit>, outcome: Outcome, store': Store, m': Manifest)
    returns (chain': seq<Segment>)
    requires Holds(codec, store, m, chain, history)
    requires AppendStep(codec, store, m, pending, outcome, store', m')
    requires Apart(codec, store, Batch(codec, m, pending))
    ensures Holds(codec, store', m', chain', history + Added(history, pending, outcome))
  {
    GrownHolds(codec, store, store', m, chain, history, Batch(codec, m, pending));
    IgnoredIff(codec, store, m, chain, history, pending);
    if outcome == Published && !Passed(history, pending) {
      AdvanceExtends(codec, store', m, chain, history, pending);
      chain' := chain + Batch(codec, m, pending);
    } else {
      chain' := chain;
      assert history + [] == history;
    }
  }

  datatype Call = Call(pending: seq<Commit>, outcome: Outcome, store: Store, manifest: Manifest)

  /** Calls made one after the other; each is listed with the files it left. */
  ghost predicate Run(codec: Codec, store: Store, m: Manifest, calls: seq<Call>)
    decreases |calls|
  {
    calls == [] || (
      && AppendStep(codec, store, m, calls[0].pending, calls[0].outcome, calls[0].store, calls[0].manifest)
      && Run(codec, calls[0].store, calls[0].manifest, calls[1..]))
  }

  /** All segments the calls may write. */
  function Tried(codec: Codec, m: Manifest, calls: seq<Call>): seq<Segment>
    decreases |calls|
  {
    if calls == [] then [] else Batch(codec, m, calls[0].pending) + Tried(codec, calls[0].manifest, calls[1..])
  }

  /** The history after the calls: every published batch that is not passed over, in order. */
  function Recorded(history: seq<Commit>, calls: seq<Call>): seq<Commit>
    decreases |calls|
  {
    if calls == [] then history
    else Recorded(history + Added(history, calls[0].pending, calls[0].outcome), calls[1..])
  }

  function FinalStore(store: Store, calls: seq<Call>): Store {
    if calls == [] then store else calls[|calls| - 1].store
  }

  function FinalManifest(m: Manifest, calls: seq<Call>): Manifest {
    if calls == [] then m else calls[|calls| - 1].manifest
  }

  lemma FinalOfTail(store: Store, m: Manifest, calls: seq<Call>)
    requires calls != []
    ensures FinalStore(store, calls) == FinalStore(calls[0].store, calls[1..])
    ensures FinalManifest(m, calls) == FinalManifest(calls[0].manifest, calls[1..])
  {
  }

  /** Everything stored is one of these segments. */
  ghost predicate MadeOf(codec: Codec, store: Store, segments: seq<Segment>) {
    forall d :: d in store ==> OneOf(codec, store[d], d, segments)
  }

  lemma OneOfMore(codec: Codec, b: Blob, d: Digest, a: seq<Segment>, c: seq<Segment>)
    requires OneOf(codec, b, d, a) || OneOf(codec, b, d, c)
    ensures OneOf(codec, b, d, a + c)
  {
    if OneOf(codec, b, d, a) {
      var i :| 0 <= i < |a| && d == codec.digest(a[i]) && b == Parsed(a[i], d);
      assert (a + c)[i] == a[i];
    } else {
      var i :| 0 <= i < |c| && d == codec.digest(c[i]) && b == Parsed(c[i], d);
      assert (a + c)[|a| + i] == c[i];
    }
  }

  lemma MadeOfMore(codec: Codec, store: Store, larger: Store, tried: seq<Segment>, batch: seq<Segment>)
    requires MadeOf(codec, store, tried) && Grows(codec, store, larger, batch)
    ensures MadeOf(codec, larger, tried + batch)
  {
    forall d | d in larger ensures OneOf(codec, larger[d], d, tried + batch) {
      OneOfMore(codec, larger[d], d, tried, batch);
    }
  }

  lemma MadeIsApart(codec: Codec, store: Store, tried: seq<Segment>, batch: seq<Segment>, later: seq<Segment>)
    requires MadeOf(codec, store, tried) && KeptApart(codec, tried + (batch + later))
    ensures Apart(codec, store, batch)
  {
    var all := tried + (batch + later);
    forall s | s in tried || s in batch ensures s in all {
    }
    forall i | 0 <= i < |batch| ensures ApartAt(codec, store, batch[i]) {
      var d := codec.digest(batch[i]);
      assert batch[i] in batch;
      if d in store {
        assert OneOf(codec, store[d], d, tried);
        var j :| 0 <= j < |tried| && d == codec.digest(tried[j]) && store[d] == Parsed(tried[j], d);
        assert tried[j] in tried;
      }
    }
  }

  lemma {:induction false} RunExtends(codec: Codec, store: Store, m: Manifest, chain: seq<Segment>, history: seq<Commit>,
                                      tried: seq<Segment>, calls: seq<Call>)
    returns (chain': seq<Segment>)
    requires Holds(codec, store, m, chain, history) && Run(codec, store, m, calls)
    requires MadeOf(codec, store, tried) && KeptApart(codec, tried + Tried(codec, m, calls))
    ensures Holds(codec, FinalStore(store, calls), FinalManifest(m, calls), chain', Recorded(history, calls))
    decreases |calls|
  {
    if calls == [] {
      chain' := chain;
    } else {
      var c := calls[0];
      var batch, later := Batch(codec, m, c.pending), Tried(codec, c.manifest, calls[1..]);
      MadeIsApart(codec, store, tried, batch, later);
      var middle := StepExtends(codec, store, m, chain, history, c.pending, c.outcome, c.store, c.manifest);
      MadeOfMore(codec, store, c.store, tried, batch);
      Associative(tried, batch, later);
      FinalOfTail(store, m, calls);
      chain' := RunExtends(codec, c.store, c.manifest, middle, history + Added(history, c.pending, c.outcome), tried + batch, calls[1..]);
    }
  }

  function NewManifest(repository: string): Manifest {
    Manifest(HEADER, repository, None, None, 0, 0, 0)
  }

  lemma RunHolds(codec: Codec, repository: string, calls: seq<Call>) returns (chain: seq<Segment>)
    requires Run(codec, map[], NewManifest(repository), calls)
    requires KeptApart(codec, Tried(codec, NewManifest(repository), calls))
    ensures Holds(codec, FinalStore(map[], calls), FinalManifest(NewManifest(repository), calls), chain, Recorded([], calls))
  {
    var start := NewManifest(repository);
    InitialisedHoldsNothing(codec, map[], repository);
    assert [] + Tried(codec, start, calls) == Tried(codec, start, calls);
    chain := RunExtends(codec, map[], start, [], [], [], calls);
  }

  /** From a new repository, after any calls, refused, interrupted or complete, the readers return
      exactly the batches that were published, in order and with all their changes; unless two
      neighbouring commits share an id, and then deep verification says so.  The digests of the
      segments the calls try to write must not collide; no other digests matter. */
  lemma AnyRunReadsBack(codec: Codec, repository: string, calls: seq<Call>)
    requires codec.Valid()
    requires Run(codec, map[], NewManifest(repository), calls)
    requires KeptApart(codec, Tried(codec, NewManifest(repository), calls))
    ensures var store, m := FinalStore(map[], calls), FinalManifest(NewManifest(repository), calls);
            var history := Recorded([], calls);
            && (AdjacentDistinct(history) ==>
                  && IterCommits(store, m, false) == Reading(Normals(history), true)
                  && IterCommits(store, m, true) == Reading(Reverse(Normals(history)), true))
            && (Sound(store, m, Config(m.repository), true) <==> AdjacentDistinct(history))
  {
    var store, m := FinalStore(map[], calls), FinalManifest(NewManifest(repository), calls);
    var history := Recorded([], calls);
    var chain := RunHolds(codec, repository, calls);
    HistoryReadsBack(codec, store, m, chain, history);
    HistoryReadsBackReversed(codec, store, m, chain, history);
    SoundIff(codec, store, m, chain, history);
  }

  lemma BatchIsHeaded(codec: Codec, m: Manifest, pending: seq<Commit>)
    ensures AllHeaded(Batch(codec, m, pending))
  {
    BatchIsBounded(codec, m, pending);
    var batch := Batch(codec, m, pending);
    forall i | 0 <= i < |batch| ensures batch[i].header == HEADER {
      assert LinkedAt(codec, m.repository, m.segmentCount, m.head, batch, i);
    }
  }

  lemma GrowthStaysApart(codec: Codec, store: Store, larger: Store, segments: seq<Segment>)
    requires Grows(codec, store, larger, segments) && Apart(codec, store, segments)
    ensures Apart(codec, larger, segments)
  {
    forall i | 0 <= i < |segments| ensures ApartAt(codec, larger, segments[i]) {
      var d := codec.digest(segments[i]);
      if d in larger && ReadSegment(larger, d).Some? {
        ReadableIsStored(codec, store, larger, segments, i);
        assert [segments[i]][0] == segments[i];
      }
    }
  }

  /** An interrupted call leaves everything as a second, complete call needs it: the same segments
      under the same names and the manifest the first call would have left. */
  lemma RetryReachesTheSame(codec: Codec, store: Store, m: Manifest, pending: seq<Commit>,
                            store': Store, m': Manifest, outcome: Outcome, store'': Store, m'': Manifest)
    requires codec.Valid() && m.header == HEADER && Advance(codec, m, pending).Some?
    requires Clear(codec, store, Batch(codec, m, pending)) && Apart(codec, store, Batch(codec, m, pending))
    ensures AppendStep(codec, store, m, pending, Interrupted, store', m')
            && AppendStep(codec, store', m', pending, outcome, store'', m'') ==>
              && outcome != Refused
              && (outcome == Published ==>
                    Advance(codec, m, pending) == Some(m'') && Stored(codec, store'', Batch(codec, m, pending)))
  {
    if AppendStep(codec, store, m, pending, Interrupted, store', m') {
      BatchIsHeaded(codec, m, pending);
      GrowthStaysClear(codec, store, store', Batch(codec, m, pending));
      GrowthStaysApart(codec, store, store', Batch(codec, m, pending));
    }
  }

  // ------------------------------------------------------------- results built up in loops

  /** A result whose first part is known. */
  function Resumed<T>(done: seq<T>, rest: Option<seq<T>>): Option<seq<T>> {
    if rest.None? then None else Some(done + rest.value)
  }

  lemma ResumedNothing<T>(rest: Option<seq<T>>)
    ensures Resumed([], rest) == rest
  {
    if rest.Some? {
      assert [] + rest.value == rest.value;
    }
  }

  lemma ResumedBoth<T>(a: seq<T>, b: seq<T>, rest: Option<seq<T>>)
    ensures Resumed(a, Resumed(b, rest)) == Resumed(a + b, rest)
  {
    if rest.Some? {
      Associative(a, b, rest.value);
    }
  }

  /** Part-way through the first loop of `append`, with `rest` to come. */
  ghost predicate Collecting(codec: Codec, pending: seq<Commit>, last: Option<string>,
                             all: seq<Frame>, previous: Option<string>, changes: nat, rest: seq<Commit>) {
    && Collect(codec, pending, last) == Resumed(all, Collect(codec, rest, previous))
    && LastId(last, pending) == LastId(previous, rest)
    && ChangeTotal(pending) == changes + ChangeTotal(rest)
  }

  lemma CollectingStep(codec: Codec, pending: seq<Commit>, last: Option<string>,
                       all: seq<Frame>, previous: Option<string>, changes: nat, c: Commit, rest: seq<Commit>)
    requires Collecting(codec, pending, last, all, previous, changes, [c] + rest)
    ensures if Blank(c.id) || (previous.Some? && Str(c.parent) != previous.value) || Frames(codec, c).None? then
              Collect(codec, pending, last).None?
            else
              Collecting(codec, pending, last, all + Frames(codec, c).value, Some(Str(c.id)), changes + |c.changes|, rest)
  {
    assert ([c] + rest)[1..] == rest;
    if Frames(codec, c).Some? {
      ResumedBoth(all, Frames(codec, c).value, Collect(codec, rest, Some(Str(c.id))));
    }
  }

  lemma CollectingEnds(codec: Codec, pending: seq<Commit>, last: Option<string>, all: seq<Frame>, previous: Option<string>, changes: nat)
    requires Collecting(codec, pending, last, all, previous, changes, [])
    ensures Collect(codec, pending, last) == Some(all) && LastId(last, pending) == previous && ChangeTotal(pending) == changes
  {
    assert all + [] == all;
  }

  /** A reading that goes on from commits already yielded. */
  function Before(yielded: seq<Commit>, rest: Reading): Reading {
    Reading(yielded + rest.commits, rest.ok)
  }

  /** The commits yielded so far and what the frames to come will add make up the whole reading. */
  ghost predicate Gathering(all: Reading, out: seq<Commit>, rest: seq<Frame>, items: seq<Frame>, complete: bool) {
    all == Before(out, Gather(rest, items, complete))
  }

  lemma BeforeNothing(rest: Reading)
    ensures Before([], rest) == rest
  {
    assert [] + rest.commits == rest.commits;
  }

  lemma BeforeBoth(a: seq<Commit>, b: seq<Commit>, rest: Reading)
    ensures Before(a, Before(b, rest)) == Before(a + b, rest)
  {
    Associative(a, b, rest.commits);
  }

  lemma FramesMetNext(visited: seq<(Digest, Segment)>, i: nat, newestFirst: bool)
    requires i < |visited|
    ensures FramesMet(visited[i..], newestFirst) == Facing(visited[i].1, newestFirst) + FramesMet(visited[i + 1..], newestFirst)
  {
    NextOf(visited, i);
  }

  lemma NextFrame(frames: seq<Frame>, j: nat, later: seq<Frame>)
    requires j < |frames|
    ensures frames[j..] + later == [frames[j]] + (frames[j + 1..] + later)
  {
  }

  /** The frame of another commit: yield the current one, then start afresh. */
  lemma GatherCloses(frames: seq<Frame>, current: seq<Frame>, complete: bool)
    requires frames != [] && !Blank(frames[0].id) && current != [] && current[|current| - 1].id != frames[0].id
    ensures var c := Assemble(current);
            Gather(frames, current, complete) ==
            if c.None? then Reading([], false) else Before([c.value], Gather(frames, [], complete))
  {
    assert [] + [frames[0]] == [frames[0]];
  }

  // -------------------------------------------------------------------- packing step by step

  lemma AfterNothing(rest: Packing)
    ensures After([], rest) == rest
  {
    assert [] + rest.segments == rest.segments;
  }

  lemma AfterBoth(a: seq<Segment>, b: seq<Segment>, rest: Packing)
    ensures After(a, After(b, rest)) == After(a + b, rest)
  {
    Associative(a, b, rest.segments);
  }

  /** The segment being filled: the closure variables of `append`. */
  datatype Draft = Draft(repository: string, count: int, head: Option<Digest>, frames: seq<Frame>) {
    function Segment(): Segment {
      NewSegment(repository, count, head, frames)
    }

    function With(f: Frame): Draft {
      this.(frames := frames + [f])
    }

    function Next(d: Digest): Draft {
      Draft(repository, count + 1, Some(d), [])
    }

    /** The segments still to be written, this one included. */
    function Remaining(codec: Codec, rest: seq<Frame>): Packing {
      Pack(codec, repository, count, head, rest, frames)
    }
  }

  /** The draft has to be closed before the next frame, or at the end. */
  ghost predicate Closing(codec: Codec, draft: Draft, rest: seq<Frame>) {
    draft.frames != [] && (rest == [] || Overflows(codec, draft.With(rest[0]).Segment()))
  }

  lemma DraftCloses(codec: Codec, draft: Draft, rest: seq<Frame>)
    requires Closing(codec, draft, rest)
    ensures var s := draft.Segment();
            draft.Remaining(codec, rest) == After([s], draft.Next(codec.digest(s)).Remaining(codec, rest))
  {
    var s := draft.Segment();
    if rest != [] {
      assert [] + [rest[0]] == [rest[0]];
    }
    assert [s] + [] == [s];
  }

  lemma DraftTakes(codec: Codec, draft: Draft, rest: seq<Frame>)
    requires rest != [] && !Closing(codec, draft, rest)
    ensures var next := draft.With(rest[0]);
            draft.Remaining(codec, rest) ==
            if codec.segmentSize(next.Segment()) > MAX_SEGMENT_BYTES then Packing([], false) else next.Remaining(codec, rest[1..])
  {
  }

  /** Part-way through: `done` is written, and with what remains it makes up `packed`. */
  ghost predicate Progress(codec: Codec, before: Store, store: Store, m: Manifest, packed: Packing,
                           done: seq<Segment>, draft: Draft, rest: seq<Frame>) {
    && Grows(codec, before, store, packed.segments)
    && (Apart(codec, before, packed.segments) ==> Stored(codec, store, done))
    && AllHeaded(packed.segments)
    && packed == After(done, draft.Remaining(codec, rest))
    && draft.repository == m.repository
    && draft.count == m.segmentCount + |done|
    && draft.head == LastDigest(codec, m.head, done)
    && (draft.frames != [] ==> codec.segmentSize(draft.Segment()) <= MAX_SEGMENT_BYTES)
  }

  lemma ProgressStarts(codec: Codec, store: Store, m: Manifest, frames: seq<Frame>)
    ensures Progress(codec, store, store, m, Pack(codec, m.repository, m.segmentCount, m.head, frames, []), [],
                     Draft(m.repository, m.segmentCount, m.head, []), frames)
  {
    var packed := Pack(codec, m.repository, m.segmentCount, m.head, frames, []);
    AfterNothing(packed);
    PackKeepsFrames(codec, m.repository, m.segmentCount, m.head, frames, []);
    forall i | 0 <= i < |packed.segments| ensures packed.segments[i].header == HEADER {
      assert LinkedAt(codec, m.repository, m.segmentCount, m.head, packed.segments, i);
    }
  }

  /** The draft that is about to be closed is the next of the segments. */
  lemma DraftIsNext(codec: Codec, packed: Packing, done: seq<Segment>, draft: Draft, rest: seq<Frame>)
    requires packed == After(done, draft.Remaining(codec, rest)) && Closing(codec, draft, rest)
    ensures |done| < |packed.segments| && packed.segments[|done|] == draft.Segment()
  {
    DraftCloses(codec, draft, rest);
  }

  lemma ProgressCloses(codec: Codec, before: Store, store: Store, larger: Store, m: Manifest, packed: Packing,
                       done: seq<Segment>, draft: Draft, rest: seq<Frame>)
    requires Progress(codec, before, store, m, packed, done, draft, rest) && Closing(codec, draft, rest)
    requires Grows(codec, store, larger, [draft.Segment()])
    requires codec.digest(draft.Segment()) in larger && ReadSegment(larger, codec.digest(draft.Segment())).Some?
    ensures Progress(codec, before, larger, m, packed, done + [draft.Segment()], draft.Next(codec.digest(draft.Segment())), rest)
  {
    var s := draft.Segment();
    DraftIsNext(codec, packed, done, draft, rest);
    GrowsByOne(codec, store, larger, packed.segments, |done|);
    GrowsTransitive(codec, before, store, larger, packed.segments);
    if Apart(codec, before, packed.segments) {
      GrowthStaysStored(codec, store, larger, done, packed.segments);
      ReadableIsStored(codec, before, larger, packed.segments, |done|);
      StoredBoth(codec, larger, done, [s]);
    }
    DraftCloses(codec, draft, rest);
    AfterBoth(done, [s], draft.Next(codec.digest(s)).Remaining(codec, rest));
  }

  lemma ProgressTakes(codec: Codec, before: Store, store: Store, m: Manifest, packed: Packing,
                      done: seq<Segment>, draft: Draft, rest: seq<Frame>)
    requires Progress(codec, before, store, m, packed, done, draft, rest)
    requires rest != [] && !Closing(codec, draft, rest)
    ensures codec.segmentSize(draft.With(rest[0]).Segment()) > MAX_SEGMENT_BYTES ==> !packed.ok
    ensures codec.segmentSize(draft.With(rest[0]).Segment()) <= MAX_SEGMENT_BYTES ==>
              Progress(codec, before, store, m, packed, done, draft.With(rest[0]), rest[1..])
  {
    DraftTakes(codec, draft, rest);
  }

  lemma ProgressEnds(codec: Codec, before: Store, store: Store, m: Manifest, packed: Packing, done: seq<Segment>, draft: Draft)
    requires Progress(codec, before, store, m, packed, done, draft, []) && draft.frames == []
    ensures packed == Packing(done, true)
  {
    assert done + [] == done;
  }

  lemma BlockedIsNotClear(codec: Codec, before: Store, store: Store, segments: seq<Segment>, k: nat)
    requires codec.Valid() && AllHeaded(segments) && Grows(codec, before, store, segments) && k < |segments|
    requires Clear(codec, before, segments)
    ensures ClearAt(codec, store, segments[k])
  {
    GrowthStaysClear(codec, before, store, segments);
  }

  // ------------------------------------------------------------------------ the object

  class Repository {
    const codec: Codec
    const config: Config
    var manifest: Manifest
    var store: Store

    ghost predicate Valid() {
      codec.Valid()
    }

    /** `initialise` on an empty directory. */
    constructor (codec: Codec, repository: string)
      requires codec.Valid()
      ensures Valid()
      ensures this.codec == codec && config == Config(repository)
      ensures store == map[] && manifest == NewManifest(repository)
      ensures Holds(codec, store, manifest, [], [])
    {
      this.codec := codec;
      config := Config(repository);
      manifest := NewManifest(repository);
      store := map[];
    }

    /** `_frames_for_commit`. */
    method FramesForCommit(c: Commit) returns (frames: Option<seq<Frame>>)
      ensures frames == Frames(codec, c)
      ensures AllSmall(codec, c) ==> frames.Some?
      ensures Monotone(codec, c) && frames.Some? ==> AllSmall(codec, c)
    {
      CutAccepts(codec, c, c.changes, []);
      if c.changes == [] {
        return Some(Number(c, [[]]));
      }
      var chunks: seq<seq<Change>>, current := [], [];
      var i := 0;
      assert c.changes[0..] == c.changes;
      ResumedNothing(Cut(codec, c, c.changes, []));
      while i < |c.changes|
        invariant 0 <= i <= |c.changes|
        invariant Cut(codec, c, c.changes, []) == Resumed(chunks, Cut(codec, c, c.changes[i..], current))
      {
        var change := c.changes[i];
        NextOf(c.changes, i);
        ghost var was := chunks;
        ghost var finished := if Full(codec, c, current, change) then [current] else [];
        if current != [] && (|current| >= MAX_CHANGES_PER_FRAME || codec.commitSize(c.(changes := current + [change])) > MAX_FRAME_BYTES) {
          chunks := chunks + [current];
          current := [change];
        } else {
          current := current + [change];
        }
        if codec.commitSize(c.(changes := current)) > MAX_FRAME_BYTES {
          return None;
        }
        assert was + finished == chunks;
        ResumedBoth(was, finished, Cut(codec, c, c.changes[i + 1..], current));
        i := i + 1;
      }
      assert c.changes[i..] == [] && chunks + [] == chunks;
      if current != [] {
        chunks := chunks + [current];
      }
      return Some(Number(c, chunks));
    }

    /** The checks on one commit of a batch, and its frames. */
    method CheckedFrames(c: Commit, previous: Option<string>) returns (frames: Option<seq<Frame>>)
      ensures frames == if Blank(c.id) || (previous.Some? && Str(c.parent) != previous.value) then None else Frames(codec, c)
    {
      if Blank(c.id) || (previous.Some? && Str(c.parent) != previous.value) {
        return None;
      }
      frames := FramesForCommit(c);
    }

    /** The first loop of `append`: the checks, all the frames and the new counts. */
    method CollectFrames(pending: seq<Commit>, last: Option<string>)
      returns (frames: Option<seq<Frame>>, previous: Option<string>, changes: nat)
      ensures frames == Collect(codec, pending, last)
      ensures frames.Some? ==> previous == LastId(last, pending) && changes == ChangeTotal(pending)
    {
      var all: seq<Frame> := [];
      previous, changes := last, 0;
      var i := 0;
      assert pending[0..] == pending;
      ResumedNothing(Collect(codec, pending, last));
      while i < |pending|
        invariant 0 <= i <= |pending|
        invariant Collecting(codec, pending, last, all, previous, changes, pending[i..])
      {
        var c := pending[i];
        NextOf(pending, i);
        CollectingStep(codec, pending, last, all, previous, changes, c, pending[i + 1..]);
        var cut := CheckedFrames(c, previous);
        if cut.None? {
          return None, previous, changes;
        }
        all, previous, changes, i := all + cut.value, Some(Str(c.id)), changes + |c.changes|, i + 1;
      }
      assert pending[i..] == [];
      CollectingEnds(codec, pending, last, all, previous, changes);
      frames := Some(all);
    }

    /** `_write_segment`. */
    method WriteSegment(s: Segment, budget: nat) returns (w: Write, left: nat)
      requires Valid() && s.header == HEADER
      modifies this`store
      ensures Grows(codec, old(store), store, [s]) && left <= budget
      ensures w.Written? ==>
                && w.digest == codec.digest(s) && w.digest in store && ReadSegment(store, w.digest).Some?
                && (w.digest !in old(store) ==> store[w.digest] == Parsed(s, w.digest))
                && budget <= left + 1
      ensures w.NotWritten? <==> codec.segmentSize(s) > MAX_SEGMENT_BYTES || !ClearAt(codec, old(store), s)
      ensures !w.Written? ==> store == old(store)
      ensures w.Died? ==> budget == 0
    {
      left := budget;
      if codec.segmentSize(s) > MAX_SEGMENT_BYTES {
        return NotWritten, left;
      }
      var d := codec.digest(s);
      if d in store {
        if ReadSegment(store, d).None? {
          return NotWritten, left;
        }
        return Written(d), left;
      }
      if budget == 0 {
        return Died, left;
      }
      left := budget - 1;
      store := store[d := Parsed(s, d)];
      assert [s][0] == s;
      return Written(d), left;
    }

    /** `publish_segment`: a refusal has one reason, a file that cannot be read in the segment's place. */
    method PublishSegment(draft: Draft, budget: nat, ghost before: Store, ghost packed: Packing,
                          ghost done: seq<Segment>, ghost rest: seq<Frame>)
      returns (w: Write, left: nat)
      requires Valid() && Progress(codec, before, store, manifest, packed, done, draft, rest) && Closing(codec, draft, rest)
      modifies this`store
      ensures Grows(codec, before, store, packed.segments)
      ensures match w
              case Written(d) =>
                && Progress(codec, before, store, manifest, packed, done + [draft.Segment()], draft.Next(d), rest)
                && budget <= left + 1
              case NotWritten =>
                !ClearAt(codec, old(store), draft.Segment()) && store == old(store) && !Clear(codec, before, packed.segments)
              case Died => budget == 0 && |done| < |packed.segments|
    {
      w, left := WriteSegment(draft.Segment(), budget);
      DraftIsNext(codec, packed, done, draft, rest);
      match w
      case Written(d) =>
        ProgressCloses(codec, before, old(store), store, manifest, packed, done, draft, rest);
      case NotWritten =>
        if Clear(codec, before, packed.segments) {
          BlockedIsNotClear(codec, before, old(store), packed.segments, |done|);
        }
      case Died =>
    }

    /** Closes the draft if the next frame would overflow it. */
    method MakeRoom(frame: Frame, draft0: Draft, ids0: set<string>, budget: nat, ghost before: Store,
                    ghost packed: Packing, ghost done0: seq<Segment>, ghost rest: seq<Frame>)
      returns (w: Write, draft: Draft, ids: set<string>, left: nat, ghost done: seq<Segment>)
      requires Valid() && Progress(codec, before, store, manifest, packed, done0, draft0, rest)
      requires rest != [] && rest[0] == frame && ids0 == Ids(draft0.frames)
      modifies this`store
      ensures Grows(codec, before, store, packed.segments)
      ensures w.Written? ==>
                && Progress(codec, before, store, manifest, packed, done, draft, rest) && !Closing(codec, draft, rest)
                && ids == Ids(draft.frames) && budget + |done0| <= left + |done|
      ensures w.NotWritten? ==> !Clear(codec, before, packed.segments)
      ensures w.Died? ==> budget == 0 && |done0| < |packed.segments|
    {
      draft, ids, left, done := draft0, ids0, budget, done0;
      assert Ids(draft.With(frame).frames) == ids + {Str(frame.id)};
      w := Written("");
      if draft.frames != [] && (|ids + {Str(frame.id)}| > MAX_COMMITS_PER_SEGMENT
                                || codec.segmentSize(draft.With(frame).Segment()) > MAX_SEGMENT_BYTES) {
        w, left := PublishSegment(draft, left, before, packed, done, rest);
        if w.Written? {
          done := done + [draft.Segment()];
          draft, ids := draft.Next(w.digest), {};
        }
      }
    }

    /** The body of the second loop of `append`; Published means that it went through. */
    method AddFrame(frame: Frame, draft0: Draft, ids0: set<string>, budget: nat, ghost before: Store,
                    ghost packed: Packing, ghost done0: seq<Segment>, ghost rest: seq<Frame>)
      returns (outcome: Outcome, draft: Draft, ids: set<string>, left: nat, ghost done: seq<Segment>)
      requires Valid() && Progress(codec, before, store, manifest, packed, done0, draft0, rest)
      requires rest != [] && rest[0] == frame && ids0 == Ids(draft0.frames)
      modifies this`store
      ensures Grows(codec, before, store, packed.segments)
      ensures match outcome
              case Published =>
                && Progress(codec, before, store, manifest, packed, done, draft, rest[1..])
                && ids == Ids(draft.frames) && budget + |done0| <= left + |done|
              case Refused => packed.ok ==> !Clear(codec, before, packed.segments)
              case Interrupted => budget == 0 && |done0| < |packed.segments|
    {
      var w: Write;
      w, draft, ids, left, done := MakeRoom(frame, draft0, ids0, budget, before, packed, done0, rest);
      match w
      case Died => outcome := Interrupted;
      case NotWritten => outcome := Refused;
      case Written(_) =>
        ProgressTakes(codec, before, store, manifest, packed, done, draft, rest);
        if codec.segmentSize(draft.With(frame).Segment()) > MAX_SEGMENT_BYTES {
          outcome := Refused;
        } else {
          assert Ids(draft.With(frame).frames) == ids + {Str(frame.id)};
          outcome, draft, ids := Published, draft.With(frame), ids + {Str(frame.id)};
        }
    }

    /** The second loop of `append`: packs the frames and writes the segments. */
    method PublishFrames(all: seq<Frame>, budget: nat) returns (outcome: Outcome, draft: Draft, left: nat)
      requires Valid()
      modifies this`store
      ensures var packed := Pack(codec, manifest.repository, manifest.segmentCount, manifest.head, all, []);
              && Grows(codec, old(store), store, packed.segments)
              && match outcome
                 case Published =>
                   && packed.ok
                   && (Apart(codec, old(store), packed.segments) ==> Stored(codec, store, packed.segments))
                   && draft.head == LastDigest(codec, manifest.head, packed.segments)
                   && draft.count == manifest.segmentCount + |packed.segments|
                   && budget <= left + |packed.segments|
                 case Refused => packed.ok ==> !Clear(codec, old(store), packed.segments)
                 case Interrupted => budget < |packed.segments|
    {
      draft, left := Draft(manifest.repository, manifest.segmentCount, manifest.head, []), budget;
      ghost var packed := Pack(codec, manifest.repository, manifest.segmentCount, manifest.head, all, []);
      ghost var done: seq<Segment> := [];
      ProgressStarts(codec, store, manifest, all);
      var ids: set<string> := {};
      var i := 0;
      assert all[0..] == all;
      while i < |all|
        invariant 0 <= i <= |all|
        invariant Progress(codec, old(store), store, manifest, packed, done, draft, all[i..])
        invariant budget <= left + |done| && ids == Ids(draft.frames)
      {
        NextOf(all, i);
        outcome, draft, ids, left, done := AddFrame(all[i], draft, ids, left, old(store), packed, done, all[i..]);
        if outcome != Published {
          return;
        }
        i := i + 1;
      }
      assert all[i..] == [];
      if draft.frames != [] {
        var w: Write;
        w, left := PublishSegment(draft, left, old(store), packed, done, []);
        match w
        case Died => return Interrupted, draft, left;
        case NotWritten => return Refused, draft, left;
        case Written(d) =>
          done := done + [draft.Segment()];
          draft := draft.Next(d);
      }
      ProgressEnds(codec, old(store), store, manifest, packed, done, draft);
      outcome := Published;
    }

    /** `append`. */
    method Append(pending: seq<Commit>, budget: nat) returns (outcome: Outcome)
      requires Valid()
      modifies this
      ensures AppendStep(codec, old(store), old(manifest), pending, outcome, store, manifest)
      ensures outcome == Interrupted ==> budget <= |Batch(codec, old(manifest), pending)|
      ensures outcome == Published && |pending| > 1 ==>
                && manifest.commitCount == old(manifest).commitCount + |pending|
                && manifest.last == Some(Str(pending[|pending| - 1].id))
    {
      if manifest.header != HEADER {
        return Refused;
      }
      if pending == [] || (|pending| == 1 && Str(pending[0].id) == Str(manifest.last)) {
        return Published;
      }
      var frames, last, changes := CollectFrames(pending, manifest.last);
      if frames.None? {
        return Refused;
      }
      outcome := Publish(pending, frames.value, last, changes, budget);
    }

    /** The rest of `append`: the segments, and then the manifest. */
    method Publish(pending: seq<Commit>, frames: seq<Frame>, last: Option<string>, changes: nat, budget: nat) returns (outcome: Outcome)
      requires Valid() && manifest.header == HEADER && !Ignored(manifest, pending)
      requires Collect(codec, pending, manifest.last) == Some(frames)
      requires last == LastId(manifest.last, pending) && changes == ChangeTotal(pending)
      modifies this
      ensures AppendStep(codec, old(store), old(manifest), pending, outcome, store, manifest)
      ensures outcome == Interrupted ==> budget <= |Batch(codec, old(manifest), pending)|
    {
      var draft, left;
      outcome, draft, left := PublishFrames(frames, budget);
      BatchIsPacked(codec, manifest, pending, frames);
      if outcome == Published && left == 0 {
        outcome := Interrupted;
      }
      if outcome == Published {
        ReplaceManifest(pending, draft, last, changes, old(store));
      } else {
        UnpublishedStep(codec, old(store), manifest, pending, outcome, store);
      }
    }

    /** The last write of an append. */
    method ReplaceManifest(pending: seq<Commit>, draft: Draft, last: Option<string>, changes: nat, ghost before: Store)
      requires manifest.header == HEADER && !Ignored(manifest, pending) && Advance(codec, manifest, pending).Some?
      requires Grows(codec, before, store, Batch(codec, manifest, pending))
      requires Apart(codec, before, Batch(codec, manifest, pending)) ==> Stored(codec, store, Batch(codec, manifest, pending))
      requires draft.head == LastDigest(codec, manifest.head, Batch(codec, manifest, pending))
      requires draft.count == manifest.segmentCount + |Batch(codec, manifest, pending)|
      requires last == LastId(manifest.last, pending) && changes == ChangeTotal(pending)
      modifies this`manifest
      ensures AppendStep(codec, before, old(manifest), pending, Published, store, manifest)
    {
      AdvanceIs(codec, manifest, pending, draft.head, draft.count);
      manifest := manifest.(head := draft.head,
                            last := last,
                            segmentCount := draft.count,
                            commitCount := manifest.commitCount + |pending|,
                            changeCount := manifest.changeCount + changes);
      PublishedStep(codec, before, old(manifest), pending, store, manifest);
    }

    // -------------------------------------------------------------------------- readers

    /** `iter_segments`. */
    method Segments(newestFirst: bool) returns (w: Walked)
      ensures w == IterSegments(store, manifest, newestFirst)
    {
      if manifest.header != HEADER {
        return Walked([], false);
      }
      var next, seen, visited := manifest.head, {}, [];
      ghost var walk := Walk(store, next, {});
      while !AtEnd(next)
        invariant walk == var rest := Walk(store, next, seen); Walked(visited + rest.visited, rest.ok)
        invariant forall i :: 0 <= i < |visited| ==> ReadSegment(store, visited[i].0) == Some(visited[i].1)
        decreases |store.Keys - seen|
      {
        var d := next.value;
        if d in seen {
          return if newestFirst then Walked(visited, false) else Walked([], false);
        }
        var s := ReadSegment(store, d);
        if s.None? {
          return if newestFirst then Walked(visited, false) else Walked([], false);
        }
        UnseenShrinks(store, d, seen);
        Associative(visited, [(d, s.value)], Walk(store, s.value.previous, seen + {d}).visited);
        seen, visited, next := seen + {d}, visited + [(d, s.value)], s.value.previous;
      }
      assert visited + [] == visited;
      if newestFirst {
        return Walked(visited, true);
      }
      var chain := ReadAgain(visited);
      w := Walked(chain, true);
    }

    /** The second pass of an oldest-first iteration reads every segment once more. */
    method ReadAgain(visited: seq<(Digest, Segment)>) returns (chain: seq<(Digest, Segment)>)
      requires forall i :: 0 <= i < |visited| ==> ReadSegment(store, visited[i].0) == Some(visited[i].1)
      ensures chain == Reverse(visited)
    {
      chain := [];
      var i := |visited|;
      while i > 0
        invariant 0 <= i <= |visited| && |chain| == |visited| - i
        invariant forall j :: 0 <= j < |chain| ==> chain[j] == visited[|visited| - 1 - j]
      {
        i := i - 1;
        chain := chain + [(visited[i].0, ReadSegment(store, visited[i].0).value)];
      }
    }

    /** `iter_commits`. */
    method Commits(newestFirst: bool) returns (r: Reading)
      ensures r == IterCommits(store, manifest, newestFirst)
    {
      var w := Segments(newestFirst);
      r := GatherSegments(w.visited, newestFirst, w.ok);
    }

    /** The loops of `iter_commits`, over the segments that come in. */
    method GatherSegments(visited: seq<(Digest, Segment)>, newestFirst: bool, complete: bool) returns (r: Reading)
      ensures r == Gather(FramesMet(visited, newestFirst), [], complete)
    {
      var out: seq<Commit>, items: seq<Frame> := [], [];
      ghost var all := Gather(FramesMet(visited, newestFirst), [], complete);
      assert visited[0..] == visited;
      BeforeNothing(all);
      var i := 0;
      while i < |visited|
        invariant 0 <= i <= |visited|
        invariant Gathering(all, out, FramesMet(visited[i..], newestFirst), items, complete)
      {
        FramesMetNext(visited, i, newestFirst);
        var ok;
        out, items, ok := TakeFrames(Facing(visited[i].1, newestFirst), out, items, all, FramesMet(visited[i + 1..], newestFirst), complete);
        if !ok {
          return Reading(out, false);
        }
        i := i + 1;
      }
      assert visited[i..] == [];
      r := LastCommit(out, items, complete);
    }

    /** The end of `iter_commits`. */
    method LastCommit(out: seq<Commit>, items: seq<Frame>, complete: bool) returns (r: Reading)
      ensures r == Before(out, Gather([], items, complete))
    {
      assert out + [] == out;
      if !complete {
        return Reading(out, false);
      }
      if items == [] {
        return Reading(out, true);
      }
      var c := Assemble(items);
      if c.None? {
        return Reading(out, false);
      }
      r := Reading(out + [c.value], true);
    }

    /** The inner loop of `iter_commits`, over the frames of one segment. */
    method TakeFrames(frames: seq<Frame>, out0: seq<Commit>, items0: seq<Frame>, ghost all: Reading, ghost later: seq<Frame>, ghost complete: bool)
      returns (out: seq<Commit>, items: seq<Frame>, ok: bool)
      requires Gathering(all, out0, frames + later, items0, complete)
      ensures if ok then Gathering(all, out, later, items, complete) else all == Reading(out, false)
    {
      out, items, ok := out0, items0, true;
      var j := 0;
      assert frames[0..] == frames;
      while j < |frames|
        invariant 0 <= j <= |frames|
        invariant Gathering(all, out, frames[j..] + later, items, complete)
      {
        ghost var rest := frames[j + 1..] + later;
        NextFrame(frames, j, later);
        out, items, ok := TakeFrame(frames[j], out, items, all, rest, complete);
        if !ok {
          return;
        }
        j := j + 1;
      }
      assert frames[j..] + later == later;
    }

    method TakeFrame(f: Frame, out0: seq<Commit>, items0: seq<Frame>, ghost all: Reading, ghost rest: seq<Frame>, ghost complete: bool)
      returns (out: seq<Commit>, items: seq<Frame>, ok: bool)
      requires Gathering(all, out0, [f] + rest, items0, complete)
      ensures if ok then Gathering(all, out, rest, items, complete) else all == Reading(out, false)
    {
      out, items, ok := out0, items0, false;
      ghost var frames := [f] + rest;
      assert frames[1..] == rest && out + [] == out;
      if Blank(f.id) {
        return;
      }
      if items != [] && items[|items| - 1].id != f.id {
        GatherCloses(frames, items, complete);
        var c := Assemble(items);
        if c.None? {
          return;
        }
        BeforeBoth(out, [c.value], Gather(frames, [], complete));
        out, items := out + [c.value], [];
      }
      items, ok := items + [f], true;
    }

    /** `find_commit`: an error behind the commit found goes unnoticed. */
    method FindCommit(id: string) returns (found: Found)
      ensures var r := IterCommits(store, manifest, true);
              var first := FirstWith(r.commits, id);
              found == if first.Some? then Found(first.value) else if r.ok then Absent else Raised
    {
      var r := Commits(true);
      var i := 0;
      assert r.commits[0..] == r.commits;
      while i < |r.commits|
        invariant 0 <= i <= |r.commits|
        invariant FirstWith(r.commits, id) == FirstWith(r.commits[i..], id)
      {
        NextOf(r.commits, i);
        if Str(r.commits[i].id) == id {
          return Found(r.commits[i]);
        }
        i := i + 1;
      }
      found := if r.ok then Absent else Raised;
    }

    // --------------------------------------------------------------------- verification

    method VerifyChain(visited: seq<(Digest, Segment)>) returns (clean: bool, previous: Option<Digest>)
      ensures clean <==> ChainSound(visited, manifest.repository)
      ensures previous == LastVisited(visited, |visited|)
    {
      clean, previous := true, None;
      var i := 0;
      while i < |visited|
        invariant 0 <= i <= |visited|
        invariant previous == LastVisited(visited, i)
        invariant clean <==> forall k :: 0 <= k < i ==> SoundAt(visited, manifest.repository, k)
      {
        var s := visited[i].1;
        ghost var was := clean;
        if s.previous != previous {
          clean := false;
        }
        if s.sequence != i + 1 {
          clean := false;
        }
        if s.repository != manifest.repository {
          clean := false;
        }
        assert clean <==> was && SoundAt(visited, manifest.repository, i);
        previous, i := Some(visited[i].0), i + 1;
      }
    }

    method VerifyCommits(cs: seq<Commit>) returns (clean: bool, previous: Option<string>, changes: nat)
      ensures clean <==> Linear(cs)
      ensures previous == LastId(None, cs) && changes == ChangeTotal(cs)
    {
      clean, previous, changes := true, None, 0;
      var i := 0;
      assert cs[0..] == cs;
      while i < |cs|
        invariant 0 <= i <= |cs|
        invariant previous == LastId(None, cs[..i]) && changes + ChangeTotal(cs[i..]) == ChangeTotal(cs)
        invariant clean <==> forall k :: 0 < k < i ==> Str(cs[k].parent) == Str(cs[k - 1].id)
      {
        assert cs[..i + 1] == cs[..i] + [cs[i]];
        NextOf(cs, i);
        if previous.Some? && Str(cs[i].parent) != previous.value {
          clean := false;
        }
        previous, changes, i := Some(Str(cs[i].id)), changes + |cs[i].changes|, i + 1;
      }
      assert cs[..i] == cs && cs[i..] == [];
    }

    /** `verify`. */
    method Verify(deep: bool) returns (v: VerifyResult)
      ensures v.ok <==> Sound(store, manifest, config, deep)
      ensures v.ok ==> v.segments == manifest.segmentCount
      ensures v.ok && deep ==> v.commits == manifest.commitCount && v.changes == manifest.changeCount
    {
      if manifest.header != HEADER {
        return VerifyResult(false, 0, 0, 0);
      }
      var clean := config == Config(manifest.repository);
      var w := Segments(false);
      if !w.ok {
        return VerifyResult(false, 0, 0, 0);
      }
      var links, head := VerifyChain(w.visited);
      var commits, changes, last, line := 0, 0, None, true;
      if deep {
        var r := Commits(false);
        line, last, changes := VerifyCommits(r.commits);
        commits := |r.commits|;
        if !r.ok {
          return VerifyResult(false, |w.visited|, commits, changes);
        }
      }
      clean := clean && links && line && head == manifest.head && manifest.segmentCount == |w.visited|;
      if deep {
        clean := clean && last == manifest.last && manifest.commitCount == commits && manifest.changeCount == changes;
      }
      v := VerifyResult(clean, |w.visited|, commits, changes);
    }
  }
}
