/**
 The readers of a segment repository as functions of its store and manifest, and what
 they return for a repository that holds a known history.
 */
module SegmentReaders {
  import opened Options
  import opened Sequences
  import opened SegmentFormat
  import opened SegmentReading
  import opened SegmentHistory

  /** `iter_segments`: oldest first needs the whole walk before the first segment comes out. */
  function IterSegments(store: Store, m: Manifest, newestFirst: bool): Walked {
    if m.header != HEADER then Walked([], false)
    else
      var w := Walk(store, m.head, {});
      if newestFirst then w
      else if w.ok then Walked(Reverse(w.visited), true)
      else Walked([], false)
  }

  /** The frames of a segment in the order `iter_commits` takes them. */
  function Facing(s: Segment, newestFirst: bool): seq<Frame> {
    if newestFirst then Reverse(s.frames) else s.frames
  }

  function FramesMet(visited: seq<(Digest, Segment)>, newestFirst: bool): seq<Frame> {
    if visited == [] then [] else Facing(visited[0].1, newestFirst) + FramesMet(visited[1..], newestFirst)
  }

  function IterCommits(store: Store, m: Manifest, newestFirst: bool): Reading {
    var w := IterSegments(store, m, newestFirst);
    Gather(FramesMet(w.visited, newestFirst), [], w.ok)
  }

  // ------------------------------------------------------------------ reversing streams

  lemma ReverseOfBoth<T>(a: seq<T>, b: seq<T>)
    ensures Reverse(a + b) == Reverse(b) + Reverse(a)
  {
  }

  lemma ReverseTwice<T>(a: seq<T>)
    ensures Reverse(Reverse(a)) == a
  {
  }

  lemma FramesMetCons(v: (Digest, Segment), rest: seq<(Digest, Segment)>, newestFirst: bool)
    ensures FramesMet([v] + rest, newestFirst) == Facing(v.1, newestFirst) + FramesMet(rest, newestFirst)
  {
    assert ([v] + rest)[1..] == rest;
  }

  lemma {:induction false} FramesMetOfBoth(a: seq<(Digest, Segment)>, b: seq<(Digest, Segment)>, newestFirst: bool)
    ensures FramesMet(a + b, newestFirst) == FramesMet(a, newestFirst) + FramesMet(b, newestFirst)
  {
    if a == [] {
      assert a + b == b;
    } else {
      var h, t := a[0], a[1..];
      FramesMetOfBoth(t, b, newestFirst);
      assert a == [h] + t;
      Associative([h], t, b);
      FramesMetCons(h, t, newestFirst);
      FramesMetCons(h, t + b, newestFirst);
      Associative(Facing(h.1, newestFirst), FramesMet(t, newestFirst), FramesMet(b, newestFirst));
    }
  }

  lemma {:induction false} FramesMetForwards(codec: Codec, chain: seq<Segment>)
    ensures FramesMet(Visits(codec, chain), false) == AllFrames(chain)
  {
    if chain != [] {
      FramesMetForwards(codec, chain[1..]);
      assert Visits(codec, chain)[1..] == Visits(codec, chain[1..]);
    }
  }

  lemma {:induction false} FramesMetBackwards(codec: Codec, chain: seq<Segment>)
    ensures FramesMet(Reverse(Visits(codec, chain)), true) == Reverse(AllFrames(chain))
  {
    if chain != [] {
      var first: seq<(Digest, Segment)> := [(codec.digest(chain[0]), chain[0])];
      assert Visits(codec, chain) == first + Visits(codec, chain[1..]);
      ReverseOfBoth(first, Visits(codec, chain[1..]));
      assert Reverse(first) == first;
      FramesMetOfBoth(Reverse(Visits(codec, chain[1..])), first, true);
      FramesMetBackwards(codec, chain[1..]);
      ReverseOfBoth(chain[0].frames, AllFrames(chain[1..]));
      assert first[1..] == [];
      assert FramesMet(first, true) == Reverse(chain[0].frames);
    }
  }

  lemma WritableReversed(codec: Codec, cs: seq<Commit>)
    requires Writable(codec, cs)
    ensures Writable(codec, Reverse(cs))
  {
  }

  lemma {:induction false} StreamReversed(codec: Codec, cs: seq<Commit>)
    requires Writable(codec, cs)
    ensures Writable(codec, Reverse(cs))
    ensures Stream(codec, Reverse(cs), true) == Reverse(Stream(codec, cs, false))
  {
    WritableReversed(codec, cs);
    if cs != [] {
      var first, tail := [cs[0]], cs[1..];
      StreamReversed(codec, tail);
      assert cs == first + tail;
      ReverseOfBoth(first, tail);
      assert Reverse(first) == first;
      StreamOfBoth(codec, Reverse(tail), first, true);
      ReverseOfBoth(Frames(codec, cs[0]).value, Stream(codec, tail, false));
      assert first[1..] == [];
      assert Stream(codec, first, true) == Reverse(Frames(codec, cs[0]).value);
    }
  }

  lemma AdjacentDistinctReversed(cs: seq<Commit>)
    ensures AdjacentDistinct(Reverse(cs)) <==> AdjacentDistinct(cs)
  {
    var r := Reverse(cs);
    if AdjacentDistinct(r) {
      forall i | 0 < i < |cs| ensures cs[i - 1].id != cs[i].id {
        assert r[|cs| - i - 1].id != r[|cs| - i].id;
      }
    }
    if AdjacentDistinct(cs) {
      forall i | 0 < i < |r| ensures r[i - 1].id != r[i].id {
        assert cs[|cs| - i - 1].id != cs[|cs| - i].id;
      }
    }
  }

  // -------------------------------------------------------------------- reading back

  lemma SegmentsReadBack(codec: Codec, store: Store, m: Manifest, chain: seq<Segment>, history: seq<Commit>)
    requires codec.Valid() && Holds(codec, store, m, chain, history)
    ensures IterSegments(store, m, true) == Walked(Reverse(Visits(codec, chain)), true)
    ensures IterSegments(store, m, false) == Walked(Visits(codec, chain), true)
  {
    WalkOfChain(codec, store, m.repository, chain);
    ReverseTwice(Visits(codec, chain));
  }

  /** After any appends, oldest-first iteration yields the appended commits in order, with all
      their changes, exactly when no two neighbours share an id. */
  lemma HistoryReadsBack(codec: Codec, store: Store, m: Manifest, chain: seq<Segment>, history: seq<Commit>)
    requires codec.Valid() && Holds(codec, store, m, chain, history)
    ensures var r := IterCommits(store, m, false);
            (r.ok <==> AdjacentDistinct(history)) && (r.ok ==> r.commits == Normals(history))
  {
    SegmentsReadBack(codec, store, m, chain, history);
    FramesMetForwards(codec, chain);
    ReadsBackIff(codec, history, false);
  }

  lemma NormalsReversed(cs: seq<Commit>)
    ensures Normals(Reverse(cs)) == Reverse(Normals(cs))
  {
    var a, b := Normals(Reverse(cs)), Reverse(Normals(cs));
    forall i | 0 <= i < |cs| ensures a[i] == b[i] {
      assert a[i] == Normal(Reverse(cs)[i]);
      assert b[i] == Normals(cs)[|cs| - 1 - i];
    }
  }

  lemma StreamReadsBackReversed(codec: Codec, cs: seq<Commit>)
    requires Writable(codec, cs)
    ensures var r := Gather(Reverse(Stream(codec, cs, false)), [], true);
            (r.ok <==> AdjacentDistinct(cs)) && (r.ok ==> r.commits == Reverse(Normals(cs)))
  {
    StreamReversed(codec, cs);
    ReadsBackIff(codec, Reverse(cs), true);
    AdjacentDistinctReversed(cs);
    NormalsReversed(cs);
  }

  /** Newest-first iteration is then the exact reverse. */
  lemma HistoryReadsBackReversed(codec: Codec, store: Store, m: Manifest, chain: seq<Segment>, history: seq<Commit>)
    requires codec.Valid() && Holds(codec, store, m, chain, history)
    ensures var r := IterCommits(store, m, true);
            (r.ok <==> AdjacentDistinct(history)) && (r.ok ==> r.commits == Reverse(Normals(history)))
  {
    SegmentsReadBack(codec, store, m, chain, history);
    FramesMetBackwards(codec, chain);
    StreamReadsBackReversed(codec, history);
  }

  // --------------------------------------------------------------------- searching

  /** The first commit with the id, in the order given. */
  function FirstWith(cs: seq<Commit>, id: string): Option<Commit> {
    if cs == [] then None
    else if Str(cs[0].id) == id then Some(cs[0])
    else FirstWith(cs[1..], id)
  }

  lemma {:induction false} FirstWithAt(cs: seq<Commit>, id: string, k: nat)
    requires k <= |cs| && forall j :: 0 <= j < k ==> Str(cs[j].id) != id
    ensures FirstWith(cs, id) == FirstWith(cs[k..], id)
  {
    if k == 0 {
      assert cs[0..] == cs;
    } else {
      FirstWithAt(cs[1..], id, k - 1);
      assert cs[1..][k - 1..] == cs[k..];
    }
  }

  /** A search from the newest commit finds the last one appended under the id. */
  lemma SearchFindsNewest(codec: Codec, store: Store, m: Manifest, chain: seq<Segment>, history: seq<Commit>, k: nat)
    requires codec.Valid() && Holds(codec, store, m, chain, history) && AdjacentDistinct(history)
    requires k < |history| && forall j :: k < j < |history| ==> Str(history[j].id) != Str(history[k].id)
    ensures FirstWith(IterCommits(store, m, true).commits, Str(history[k].id)) == Some(Normal(history[k]))
  {
    HistoryReadsBackReversed(codec, store, m, chain, history);
    FirstWithAt(Reverse(Normals(history)), Str(history[k].id), |history| - 1 - k);
  }

  lemma SearchFindsNothing(codec: Codec, store: Store, m: Manifest, chain: seq<Segment>, history: seq<Commit>, id: string)
    requires codec.Valid() && Holds(codec, store, m, chain, history) && AdjacentDistinct(history)
    requires forall j :: 0 <= j < |history| ==> Str(history[j].id) != id
    ensures FirstWith(IterCommits(store, m, true).commits, id) == None
  {
    HistoryReadsBackReversed(codec, store, m, chain, history);
    var all := Reverse(Normals(history));
    FirstWithAt(all, id, |all|);
    assert all[|all|..] == [];
  }

  // ------------------------------------------------------------------- verification

  /** `config.json`: unreadable or with a wrong header, or the repository it names. */
  datatype Config = BadConfig | Config(repository: string)

  /** The visited segments, oldest first, are numbered from 1 and each names the one before. */
  predicate ChainSound(visited: seq<(Digest, Segment)>, repository: string) {
    forall i :: 0 <= i < |visited| ==> SoundAt(visited, repository, i)
  }

  predicate SoundAt(visited: seq<(Digest, Segment)>, repository: string, i: nat)
    requires i < |visited|
  {
    && visited[i].1.previous == LastVisited(visited, i)
    && visited[i].1.sequence == i + 1
    && visited[i].1.repository == repository
  }

  predicate CommitsSound(cs: seq<Commit>, m: Manifest) {
    && Linear(cs)
    && m.last == LastId(None, cs)
    && m.commitCount == |cs|
    && m.changeCount == ChangeTotal(cs)
  }

  /** What `verify` accepts. */
  predicate Sound(store: Store, m: Manifest, config: Config, deep: bool) {
    && m.header == HEADER
    && config == Config(m.repository)
    && (var w := IterSegments(store, m, false);
        && w.ok
        && ChainSound(w.visited, m.repository)
        && m.head == LastVisited(w.visited, |w.visited|)
        && m.segmentCount == |w.visited|)
    && (deep ==>
          var r := IterCommits(store, m, false);
          r.ok && CommitsSound(r.commits, m))
  }

  lemma ChainOfHistoryIsSound(codec: Codec, store: Store, m: Manifest, chain: seq<Segment>, history: seq<Commit>)
    requires codec.Valid() && Holds(codec, store, m, chain, history)
    ensures Sound(store, m, Config(m.repository), false)
    ensures |IterSegments(store, m, false).visited| == |chain|
  {
    LinkedIsGenuine(codec, store, m.repository, chain);
    GenuineIsWalked(store, m, Visits(codec, chain));
  }

  lemma {:induction false} ChangeTotalOfNormals(cs: seq<Commit>)
    ensures ChangeTotal(Normals(cs)) == ChangeTotal(cs)
  {
    if cs != [] {
      ChangeTotalOfNormals(cs[1..]);
      assert Normals(cs)[1..] == Normals(cs[1..]);
    }
  }

  lemma CommitsOfHistoryAreSound(codec: Codec, store: Store, m: Manifest, chain: seq<Segment>, history: seq<Commit>)
    requires Holds(codec, store, m, chain, history)
    ensures CommitsSound(Normals(history), m)
  {
    var cs := Normals(history);
    forall i | 0 < i < |cs| ensures Str(cs[i].parent) == Str(cs[i - 1].id) {
      assert Str(history[i].parent) == Str(history[i - 1].id);
    }
    ChangeTotalOfNormals(history);
  }

  /** A repository produced by appends passes the shallow verification always, and the deep one
      exactly when no two neighbouring commits share an id. */
  lemma SoundIff(codec: Codec, store: Store, m: Manifest, chain: seq<Segment>, history: seq<Commit>)
    requires codec.Valid() && Holds(codec, store, m, chain, history)
    ensures Sound(store, m, Config(m.repository), false)
    ensures Sound(store, m, Config(m.repository), true) <==> AdjacentDistinct(history)
  {
    ChainOfHistoryIsSound(codec, store, m, chain, history);
    HistoryReadsBack(codec, store, m, chain, history);
    CommitsOfHistoryAreSound(codec, store, m, chain, history);
  }

  // ----------------------------------------------- what verification accepts, on any store

  /** The manifest points to this chain on disk. */
  ghost predicate PointsTo(store: Store, m: Manifest, chain: seq<(Digest, Segment)>) {
    && m.header == Header("v1", "gitllery-segment", 1)
    && Genuine(store, m.repository, chain)
    && m.head == LastVisited(chain, |chain|)
    && m.segmentCount == |chain|
  }

  lemma SoundIsGenuine(store: Store, m: Manifest, config: Config)
    requires Sound(store, m, config, false)
    ensures PointsTo(store, m, IterSegments(store, m, false).visited)
  {
    var walked, chain := Walk(store, m.head, {}).visited, IterSegments(store, m, false).visited;
    WalkReads(store, m.head, {});
    forall i | 0 <= i < |chain| ensures GenuineAt(store, m.repository, chain, i) {
      assert SoundAt(chain, m.repository, i);
      assert chain[i] == walked[|walked| - 1 - i] && chain[i] in walked;
    }
  }

  lemma GenuineIsWalked(store: Store, m: Manifest, chain: seq<(Digest, Segment)>)
    requires PointsTo(store, m, chain)
    ensures IterSegments(store, m, false) == Walked(chain, true) && Sound(store, m, Config(m.repository), false)
  {
    WalkOfGenuine(store, m.repository, chain);
    ReverseTwice(chain);
    forall i | 0 <= i < |chain| ensures SoundAt(chain, m.repository, i) {
      assert GenuineAt(store, m.repository, chain, i);
    }
  }

  /** On any store, however damaged, the shallow verification accepts exactly when the manifest points
      to a chain on disk and the configuration names the same repository. */
  lemma VerifiesIff(store: Store, m: Manifest, config: Config)
    ensures Sound(store, m, config, false) <==> config == Config(m.repository) && exists chain :: PointsTo(store, m, chain)
  {
    if Sound(store, m, config, false) {
      SoundIsGenuine(store, m, config);
    }
    forall chain | PointsTo(store, m, chain) ensures Sound(store, m, Config(m.repository), false) {
      GenuineIsWalked(store, m, chain);
    }
  }

  /** The deep one also wants the frames of that chain to be complete blocks of linear commits, as many
      and with as many changes as the manifest says. */
  lemma DeepVerifiesIff(store: Store, m: Manifest, chain: seq<(Digest, Segment)>)
    requires PointsTo(store, m, chain)
    ensures Sound(store, m, Config(m.repository), true) <==>
            exists blocks, cs :: Splits(FramesMet(chain, false), blocks) && Reassembled(cs, blocks) && CommitsSound(cs, m)
  {
    var frames := FramesMet(chain, false);
    var r := Gather(frames, [], true);
    GenuineIsWalked(store, m, chain);
    ReadsIff(frames);
    if Sound(store, m, Config(m.repository), true) {
      var blocks :| Splits(frames, blocks);
      assert Reassembled(r.commits, blocks);
    }
    forall blocks, cs | Splits(frames, blocks) && Reassembled(cs, blocks) ensures r.ok && cs == r.commits {
    }
  }

  // ------------------------------------------------------------ the head pins everything

  /** No collision between two stores: files whose bytes have one digest hold one segment. */
  ghost predicate Agree(a: Store, b: Store) {
    forall d, e :: d in a && e in b && a[d].Parsed? && b[e].Parsed? && a[d].digest == b[e].digest ==> a[d].segment == b[e].segment
  }

  lemma {:induction false} HeadPinsWalk(a: Store, b: Store, next: Option<Digest>, seen: set<Digest>)
    requires Agree(a, b) && Walk(a, next, seen).ok && Walk(b, next, seen).ok
    ensures Walk(a, next, seen) == Walk(b, next, seen)
    decreases |a.Keys - seen|
  {
    if !AtEnd(next) {
      var s := ReadSegment(a, next.value).value;
      assert ReadSegment(b, next.value) == Some(s);
      UnseenShrinks(a, next.value, seen);
      HeadPinsWalk(a, b, s.previous, seen + {next.value});
    }
  }

  /** Two repositories that both pass deep verification and share their head digest have the same
      manifest and read the same commits, whatever else lies in their stores. */
  lemma HeadPinsHistory(a: Store, b: Store, m: Manifest, n: Manifest, config: Config)
    requires Agree(a, b) && Sound(a, m, config, true) && Sound(b, n, config, true) && m.head == n.head
    ensures m == n
    ensures IterSegments(a, m, false) == IterSegments(b, n, false)
    ensures IterCommits(a, m, false) == IterCommits(b, n, false)
  {
    HeadPinsWalk(a, b, m.head, {});
  }
}
