/**
 A repository on disk as a value: the segment store and the manifest.  Walking the chain,
 what one append adds, and what it means for a repository to hold a history.
 */
module SegmentHistory {
  import opened Options
  import opened Sequences
  import opened SegmentFormat
  import opened SegmentReading

  /** A file in the store: its parsed content and the digest of its raw bytes. */
  datatype Blob = Unreadable | Parsed(segment: Segment, digest: Digest)

  type Store = map<Digest, Blob>

  datatype Manifest = Manifest(
    header: Header,
    repository: string,
    head: Option<Digest>,
    last: Option<string>,
    segmentCount: int,
    commitCount: int,
    changeCount: int)

  /** `read_segment`: None stands for every way it raises. */
  function ReadSegment(store: Store, d: Digest): Option<Segment> {
    if !IsDigest(d) || d !in store || store[d].Unreadable? || store[d].digest != d || store[d].segment.header != HEADER
    then None
    else Some(store[d].segment)
  }

  // ----------------------------------------------------------------- walking the chain

  /** The segments met from the head backwards, and whether the walk ended without raising. */
  datatype Walked = Walked(visited: seq<(Digest, Segment)>, ok: bool)

  /** An empty digest ends the chain like a missing one. */
  predicate AtEnd(d: Option<Digest>) {
    d.None? || d.value == ""
  }

  function Walk(store: Store, next: Option<Digest>, seen: set<Digest>): Walked
    decreases |store.Keys - seen|
  {
    if AtEnd(next) then Walked([], true)
    else if next.value in seen then Walked([], false)
    else
      var s := ReadSegment(store, next.value);
      if s.None? then Walked([], false)
      else
        UnseenShrinks(store, next.value, seen);
        var rest := Walk(store, s.value.previous, seen + {next.value});
        Walked([(next.value, s.value)] + rest.visited, rest.ok)
  }

  lemma Smaller<T>(a: set<T>, b: set<T>)
    requires a < b
    ensures |a| < |b|
  {
    assert b == a + (b - a);
    assert |b - a| > 0;
  }

  ghost predicate Repeats(visited: seq<(Digest, Segment)>) {
    exists i, j :: 0 <= i < j < |visited| && visited[i].0 == visited[j].0
  }

  lemma {:induction false} WalkReads(store: Store, next: Option<Digest>, seen: set<Digest>)
    ensures forall v :: v in Walk(store, next, seen).visited ==> v.0 !in seen && ReadSegment(store, v.0) == Some(v.1)
    decreases |store.Keys - seen|
  {
    if !AtEnd(next) && next.value !in seen && ReadSegment(store, next.value).Some? {
      UnseenShrinks(store, next.value, seen);
      WalkReads(store, ReadSegment(store, next.value).value.previous, seen + {next.value});
    }
  }

  lemma UnseenShrinks(store: Store, d: Digest, seen: set<Digest>)
    requires d in store && d !in seen
    ensures |store.Keys - (seen + {d})| < |store.Keys - seen|
  {
    assert d in store.Keys - seen;
    Smaller(store.Keys - (seen + {d}), store.Keys - seen);
  }

  lemma RepeatsCons(v: (Digest, Segment), rest: seq<(Digest, Segment)>)
    requires !Repeats(rest) && forall w :: w in rest ==> w.0 != v.0
    ensures !Repeats([v] + rest)
  {
    var all := [v] + rest;
    forall i, j | 0 <= i < j < |all| ensures all[i].0 != all[j].0 {
      assert all[j] == rest[j - 1] && all[j] in rest;
    }
  }

  lemma {:induction false} WalkIsUnrepeated(store: Store, next: Option<Digest>, seen: set<Digest>)
    ensures !Repeats(Walk(store, next, seen).visited)
    decreases |store.Keys - seen|
  {
    if !AtEnd(next) && next.value !in seen && ReadSegment(store, next.value).Some? {
      var s := ReadSegment(store, next.value).value;
      UnseenShrinks(store, next.value, seen);
      WalkIsUnrepeated(store, s.previous, seen + {next.value});
      WalkReads(store, s.previous, seen + {next.value});
      RepeatsCons((next.value, s), Walk(store, s.previous, seen + {next.value}).visited);
    }
  }

  /** Each segment names the next one, from `next` on. */
  ghost predicate Unbroken(visited: seq<(Digest, Segment)>, next: Option<Digest>) {
    && (visited != [] ==> next == Some(visited[0].0))
    && (forall i :: 0 < i < |visited| ==> visited[i - 1].1.previous == Some(visited[i].0))
  }

  /** What the last of the visited segments names. */
  function EndOf(visited: seq<(Digest, Segment)>, next: Option<Digest>): Option<Digest> {
    if visited == [] then next else visited[|visited| - 1].1.previous
  }

  lemma UnbrokenCons(d: Digest, s: Segment, rest: seq<(Digest, Segment)>)
    requires Unbroken(rest, s.previous)
    ensures Unbroken([(d, s)] + rest, Some(d))
    ensures EndOf([(d, s)] + rest, Some(d)) == EndOf(rest, s.previous)
  {
    var all := [(d, s)] + rest;
    forall i | 0 < i < |all| ensures all[i - 1].1.previous == Some(all[i].0) {
      if i > 1 {
        assert all[i] == rest[i - 1] && all[i - 1] == rest[i - 2];
      }
    }
  }

  lemma {:induction false} WalkFollows(store: Store, next: Option<Digest>, seen: set<Digest>)
    ensures var w := Walk(store, next, seen); Unbroken(w.visited, next) && (w.ok ==> AtEnd(EndOf(w.visited, next)))
    decreases |store.Keys - seen|
  {
    if !AtEnd(next) && next.value !in seen && ReadSegment(store, next.value).Some? {
      var s := ReadSegment(store, next.value).value;
      UnseenShrinks(store, next.value, seen);
      WalkFollows(store, s.previous, seen + {next.value});
      UnbrokenCons(next.value, s, Walk(store, s.previous, seen + {next.value}).visited);
    }
  }

  /** On any store, however damaged, the walk ends and never visits a segment twice; and when it
      ends well the visited segments form an unbroken chain from the head to its end. */
  lemma WalkNeverRepeats(store: Store, next: Option<Digest>)
    ensures var w := Walk(store, next, {});
            && !Repeats(w.visited)
            && (forall v :: v in w.visited ==> ReadSegment(store, v.0) == Some(v.1))
            && Unbroken(w.visited, next)
            && (w.ok ==> AtEnd(EndOf(w.visited, next)))
  {
    WalkReads(store, next, {});
    WalkIsUnrepeated(store, next, {});
    WalkFollows(store, next, {});
  }

  // ------------------------------------------------------------------ stored chains

  ghost predicate Stored(codec: Codec, store: Store, chain: seq<Segment>) {
    forall i :: 0 <= i < |chain| ==>
      var d := codec.digest(chain[i]);
      d in store && store[d] == Parsed(chain[i], d)
  }

  function Visits(codec: Codec, chain: seq<Segment>): (r: seq<(Digest, Segment)>)
    ensures |r| == |chain|
    ensures forall i :: 0 <= i < |chain| ==> r[i] == (codec.digest(chain[i]), chain[i])
  {
    seq(|chain|, i requires 0 <= i < |chain| => (codec.digest(chain[i]), chain[i]))
  }

  /** The digest of the last of the first `n` segments. */
  function LastVisited(chain: seq<(Digest, Segment)>, n: nat): Option<Digest>
    requires n <= |chain|
  {
    if n == 0 then None else Some(chain[n - 1].0)
  }

  /** A chain on disk, oldest first: each segment is stored under the digest of its own bytes, is of
      this repository and this format, is numbered from 1, and names the one before. */
  ghost predicate Genuine(store: Store, repository: string, chain: seq<(Digest, Segment)>) {
    forall i :: 0 <= i < |chain| ==> GenuineAt(store, repository, chain, i)
  }

  ghost predicate GenuineAt(store: Store, repository: string, chain: seq<(Digest, Segment)>, i: nat)
    requires i < |chain|
  {
    var (d, s) := chain[i];
    && IsDigest(d) && d in store && store[d] == Parsed(s, d)
    && s.header == Header("v1", "gitllery-segment", 1)
    && s.repository == repository
    && s.sequence == i + 1
    && s.previous == LastVisited(chain, i)
  }

  ghost function SeenFrom(chain: seq<(Digest, Segment)>, k: nat): set<Digest>
    requires k <= |chain|
  {
    set j | k <= j < |chain| :: chain[j].0
  }

  /** Segments with different numbers cannot both be stored under one digest. */
  lemma NotSeenYet(store: Store, repository: string, chain: seq<(Digest, Segment)>, k: nat)
    requires Genuine(store, repository, chain) && 0 < k <= |chain|
    ensures chain[k - 1].0 !in SeenFrom(chain, k)
    ensures SeenFrom(chain, k - 1) == SeenFrom(chain, k) + {chain[k - 1].0}
  {
    assert GenuineAt(store, repository, chain, k - 1);
    forall j | k <= j < |chain| ensures chain[j].0 != chain[k - 1].0 {
      assert GenuineAt(store, repository, chain, j);
    }
  }

  /** The walk over the first `k` segments of a chain, once the later ones are seen. */
  lemma {:induction false} WalkFrom(store: Store, repository: string, chain: seq<(Digest, Segment)>, k: nat)
    requires Genuine(store, repository, chain) && k <= |chain|
    ensures Walk(store, LastVisited(chain, k), SeenFrom(chain, k)) == Walked(Reverse(chain[..k]), true)
    decreases k
  {
    if k > 0 {
      assert GenuineAt(store, repository, chain, k - 1);
      NotSeenYet(store, repository, chain, k);
      WalkFrom(store, repository, chain, k - 1);
      assert chain[..k][..k - 1] == chain[..k - 1];
    }
  }

  /** The walk from the end of a chain meets exactly its segments, newest first. */
  lemma WalkOfGenuine(store: Store, repository: string, chain: seq<(Digest, Segment)>)
    requires Genuine(store, repository, chain)
    ensures Walk(store, LastVisited(chain, |chain|), {}) == Walked(Reverse(chain), true)
  {
    WalkFrom(store, repository, chain, |chain|);
    assert SeenFrom(chain, |chain|) == {};
    assert chain[..|chain|] == chain;
  }

  lemma LinkedIsGenuine(codec: Codec, store: Store, repository: string, chain: seq<Segment>)
    requires codec.Valid() && Linked(codec, repository, 0, None, chain) && Stored(codec, store, chain)
    ensures Genuine(store, repository, Visits(codec, chain))
    ensures LastVisited(Visits(codec, chain), |chain|) == LastDigest(codec, None, chain)
  {
    var visits := Visits(codec, chain);
    forall i | 0 <= i < |visits| ensures GenuineAt(store, repository, visits, i) {
      assert LinkedAt(codec, repository, 0, None, chain, i);
    }
  }

  lemma WalkOfChain(codec: Codec, store: Store, repository: string, chain: seq<Segment>)
    requires codec.Valid() && Linked(codec, repository, 0, None, chain) && Stored(codec, store, chain)
    ensures Walk(store, LastDigest(codec, None, chain), {}) == Walked(Reverse(Visits(codec, chain)), true)
  {
    LinkedIsGenuine(codec, store, repository, chain);
    WalkOfGenuine(store, repository, Visits(codec, chain));
  }

  // ------------------------------------------------------------------------ append

  /** The checks and the cutting of `append`'s first loop; `last` is the commit before. */
  function Collect(codec: Codec, pending: seq<Commit>, last: Option<string>): Option<seq<Frame>> {
    if pending == [] then Some([])
    else
      var c := pending[0];
      if Blank(c.id) || (last.Some? && Str(c.parent) != last.value) || Frames(codec, c).None? then None
      else
        var rest := Collect(codec, pending[1..], Some(Str(c.id)));
        if rest.None? then None else Some(Frames(codec, c).value + rest.value)
  }

  function ChangeTotal(cs: seq<Commit>): nat {
    if cs == [] then 0 else |cs[0].changes| + ChangeTotal(cs[1..])
  }

  function LastId(last: Option<string>, cs: seq<Commit>): Option<string> {
    if cs == [] then last else Some(Str(cs[|cs| - 1].id))
  }

  /** Batches that `append` returns from without looking further. */
  predicate Ignored(m: Manifest, pending: seq<Commit>) {
    pending == [] || (|pending| == 1 && Str(pending[0].id) == Str(m.last))
  }

  /** How an append packs a batch; nothing is packed when the batch is passed over or refused. */
  function Packed(codec: Codec, m: Manifest, pending: seq<Commit>): Packing {
    if Ignored(m, pending) then Packing([], true)
    else
      var frames := Collect(codec, pending, m.last);
      if frames.None? then Packing([], false)
      else Pack(codec, m.repository, m.segmentCount, m.head, frames.value, [])
  }

  /** The segments an append of the batch may write. */
  function Batch(codec: Codec, m: Manifest, pending: seq<Commit>): seq<Segment> {
    Packed(codec, m, pending).segments
  }

  /** The manifest a complete append ends with. */
  function Advance(codec: Codec, m: Manifest, pending: seq<Commit>): Option<Manifest> {
    var packed := Packed(codec, m, pending);
    if !packed.ok then None
    else if Ignored(m, pending) then Some(m)
    else Some(m.(head := LastDigest(codec, m.head, packed.segments),
                 last := LastId(m.last, pending),
                 segmentCount := m.segmentCount + |packed.segments|,
                 commitCount := m.commitCount + |pending|,
                 changeCount := m.changeCount + ChangeTotal(pending)))
  }

  // ---------------------------------------------------------- holding a history

  /** Each commit names the one before as its parent. */
  predicate Linear(cs: seq<Commit>) {
    forall i :: 0 < i < |cs| ==> Str(cs[i].parent) == Str(cs[i - 1].id)
  }

  /** The chain is stored, and the manifest points to its end. */
  ghost predicate HoldsChain(codec: Codec, store: Store, m: Manifest, chain: seq<Segment>) {
    && m.header == HEADER
    && Linked(codec, m.repository, 0, None, chain)
    && Stored(codec, store, chain)
    && m.head == LastDigest(codec, None, chain)
    && m.segmentCount == |chain|
  }

  /** The frames of the chain are those of the commits, and the manifest counts them. */
  ghost predicate HoldsCommits(codec: Codec, m: Manifest, chain: seq<Segment>, history: seq<Commit>) {
    && Writable(codec, history) && Linear(history)
    && AllFrames(chain) == Stream(codec, history, false)
    && m.last == LastId(None, history)
    && m.commitCount == |history|
    && m.changeCount == ChangeTotal(history)
  }

  /** The repository holds exactly `history`, in the segments of `chain`. */
  ghost predicate Holds(codec: Codec, store: Store, m: Manifest, chain: seq<Segment>, history: seq<Commit>) {
    HoldsChain(codec, store, m, chain) && HoldsCommits(codec, m, chain, history)
  }

  /** A freshly initialised repository holds nothing. */
  lemma InitialisedHoldsNothing(codec: Codec, store: Store, repository: string)
    ensures Holds(codec, store, Manifest(HEADER, repository, None, None, 0, 0, 0), [], [])
  {
  }

  /** Orphaned segments do not matter. */
  lemma HoldsInLargerStore(codec: Codec, store: Store, larger: Store, m: Manifest, chain: seq<Segment>, history: seq<Commit>)
    requires Holds(codec, store, m, chain, history)
    requires forall d :: d in store ==> d in larger && larger[d] == store[d]
    ensures Holds(codec, larger, m, chain, history)
  {
  }

  /** Batches that change nothing: the empty one, a single commit that repeats the newest one, and,
      on an empty repository, a single commit without an id or with the text of Python's None. */
  predicate Passed(history: seq<Commit>, pending: seq<Commit>) {
    || pending == []
    || (|pending| == 1 &&
        if history == [] then pending[0].id == None || pending[0].id == Some("None")
        else Str(pending[0].id) == Str(history[|history| - 1].id))
  }

  /** `append` passes over exactly these. */
  lemma IgnoredIff(codec: Codec, store: Store, m: Manifest, chain: seq<Segment>, history: seq<Commit>, pending: seq<Commit>)
    requires Holds(codec, store, m, chain, history)
    ensures Ignored(m, pending) <==> Passed(history, pending)
  {
  }

  lemma {:induction false} CollectIsStream(codec: Codec, pending: seq<Commit>, last: Option<string>)
    requires Collect(codec, pending, last).Some?
    ensures Writable(codec, pending) && Linear(pending)
    ensures pending != [] && last.Some? ==> Str(pending[0].parent) == last.value
    ensures Collect(codec, pending, last).value == Stream(codec, pending, false)
  {
    if pending != [] {
      CollectIsStream(codec, pending[1..], Some(Str(pending[0].id)));
      forall i | 0 <= i < |pending| ensures !Blank(pending[i].id) && Frames(codec, pending[i]).Some? {
        if i > 0 { assert pending[i] == pending[1..][i - 1]; }
      }
      forall i | 0 < i < |pending| ensures Str(pending[i].parent) == Str(pending[i - 1].id) {
        if i > 1 { assert pending[i] == pending[1..][i - 1] && pending[i - 1] == pending[1..][i - 2]; }
      }
    }
  }

  /** The first loop of `append` accepts exactly the batches that can be cut and follow on. */
  lemma {:induction false} CollectIff(codec: Codec, pending: seq<Commit>, last: Option<string>)
    ensures Collect(codec, pending, last).Some? <==>
            && Writable(codec, pending) && Linear(pending)
            && (pending != [] && last.Some? ==> Str(pending[0].parent) == last.value)
  {
    if Collect(codec, pending, last).Some? {
      CollectIsStream(codec, pending, last);
    } else {
      var rest := pending[1..];
      CollectIff(codec, rest, Some(Str(pending[0].id)));
      if Writable(codec, pending) && Linear(pending) {
        forall i | 0 < i < |rest| ensures Str(rest[i].parent) == Str(rest[i - 1].id) {
          assert rest[i] == pending[i + 1] && rest[i - 1] == pending[i];
        }
        assert rest != [] ==> rest[0] == pending[1];
      }
    }
  }

  lemma WritableBoth(codec: Codec, a: seq<Commit>, b: seq<Commit>)
    requires Writable(codec, a) && Writable(codec, b)
    ensures Writable(codec, a + b)
  {
  }

  lemma StreamCons(codec: Codec, c: Commit, cs: seq<Commit>, backwards: bool)
    requires Writable(codec, [c]) && Writable(codec, cs) && Writable(codec, [c] + cs)
    ensures Frames(codec, c).Some? && Stream(codec, [c] + cs, backwards) == BlockOf(codec, c, backwards) + Stream(codec, cs, backwards)
  {
    assert [c][0] == c && ([c] + cs)[1..] == cs;
  }

  lemma WritableTail(codec: Codec, cs: seq<Commit>)
    requires cs != [] && Writable(codec, cs)
    ensures Writable(codec, [cs[0]]) && Writable(codec, cs[1..])
  {
  }

  lemma {:induction false} StreamOfBoth(codec: Codec, a: seq<Commit>, b: seq<Commit>, backwards: bool)
    requires Writable(codec, a) && Writable(codec, b)
    ensures Writable(codec, a + b)
    ensures Stream(codec, a + b, backwards) == Stream(codec, a, backwards) + Stream(codec, b, backwards)
  {
    WritableBoth(codec, a, b);
    if a == [] {
      assert a + b == b;
    } else {
      var h, t := a[0], a[1..];
      FirstOf(a);
      WritableTail(codec, a);
      Associative([h], t, b);
      StreamOfBoth(codec, t, b, backwards);
      StreamCons(codec, h, t, backwards);
      StreamCons(codec, h, t + b, backwards);
      Associative(BlockOf(codec, h, backwards), Stream(codec, t, backwards), Stream(codec, b, backwards));
    }
  }

  lemma {:induction false} AllFramesOfBoth(a: seq<Segment>, b: seq<Segment>)
    ensures AllFrames(a + b) == AllFrames(a) + AllFrames(b)
  {
    if a == [] {
      assert a + b == b;
    } else {
      AllFramesOfBoth(a[1..], b);
      Associative(a[0].frames, AllFrames(a[1..]), AllFrames(b));
      assert (a + b)[1..] == a[1..] + b;
    }
  }

  lemma {:induction false} ChangeTotalOfBoth(a: seq<Commit>, b: seq<Commit>)
    ensures ChangeTotal(a + b) == ChangeTotal(a) + ChangeTotal(b)
  {
    if a == [] {
      assert a + b == b;
    } else {
      ChangeTotalOfBoth(a[1..], b);
      assert (a + b)[1..] == a[1..] + b;
    }
  }

  function ChangesOf(cs: seq<Commit>): seq<seq<Change>> {
    seq(|cs|, i requires 0 <= i < |cs| => cs[i].changes)
  }

  /** The change count is the number of all changes. */
  lemma {:induction false} ChangeTotalIs(cs: seq<Commit>)
    ensures ChangeTotal(cs) == |Concat(ChangesOf(cs))|
  {
    if cs != [] {
      ChangeTotalIs(cs[1..]);
      assert ChangesOf(cs)[1..] == ChangesOf(cs[1..]);
    }
  }

  lemma LinkedBoth(codec: Codec, repository: string, a: seq<Segment>, b: seq<Segment>)
    requires Linked(codec, repository, 0, None, a)
    requires Linked(codec, repository, |a|, LastDigest(codec, None, a), b)
    ensures Linked(codec, repository, 0, None, a + b)
  {
    forall i | 0 <= i < |a + b| ensures LinkedAt(codec, repository, 0, None, a + b, i) {
      if i < |a| {
        assert LinkedAt(codec, repository, 0, None, a, i);
      } else {
        assert LinkedAt(codec, repository, |a|, LastDigest(codec, None, a), b, i - |a|);
      }
    }
  }

  lemma LinearBoth(a: seq<Commit>, b: seq<Commit>)
    requires Linear(a) && Linear(b)
    requires a != [] && b != [] ==> Str(b[0].parent) == Str(a[|a| - 1].id)
    ensures Linear(a + b)
  {
  }

  lemma StoredBoth(codec: Codec, store: Store, a: seq<Segment>, b: seq<Segment>)
    requires Stored(codec, store, a) && Stored(codec, store, b)
    ensures Stored(codec, store, a + b)
  {
  }

  /** What the batch may add is linked to the chain and within the limits, complete or not. */
  lemma BatchIsBounded(codec: Codec, m: Manifest, pending: seq<Commit>)
    ensures Linked(codec, m.repository, m.segmentCount, m.head, Batch(codec, m, pending))
    ensures AllBounded(codec, Batch(codec, m, pending))
  {
    if !Ignored(m, pending) && Collect(codec, pending, m.last).Some? {
      PackKeepsFrames(codec, m.repository, m.segmentCount, m.head, Collect(codec, pending, m.last).value, []);
    }
  }

  /** And no segment of it was closed early. */
  lemma BatchIsTight(codec: Codec, m: Manifest, pending: seq<Commit>)
    ensures Tight(codec, Batch(codec, m, pending))
  {
    if !Ignored(m, pending) && Collect(codec, pending, m.last).Some? {
      PackIsTight(codec, m.repository, m.segmentCount, m.head, Collect(codec, pending, m.last).value, []);
    }
  }

  /** What a complete batch adds, on its own. */
  lemma AdvanceAdds(codec: Codec, m: Manifest, pending: seq<Commit>)
    requires !Ignored(m, pending) && Advance(codec, m, pending).Some?
    ensures Writable(codec, pending) && Linear(pending)
    ensures m.last.Some? ==> Str(pending[0].parent) == m.last.value
    ensures AllFrames(Batch(codec, m, pending)) == Stream(codec, pending, false)
  {
    CollectIsStream(codec, pending, m.last);
    PackKeepsFrames(codec, m.repository, m.segmentCount, m.head, Stream(codec, pending, false), []);
    assert [] + Stream(codec, pending, false) == Stream(codec, pending, false);
  }

  lemma FramesOfBoth(codec: Codec, chain: seq<Segment>, added: seq<Segment>, history: seq<Commit>, pending: seq<Commit>)
    requires Writable(codec, history) && Writable(codec, pending)
    requires AllFrames(chain) == Stream(codec, history, false) && AllFrames(added) == Stream(codec, pending, false)
    ensures Writable(codec, history + pending)
    ensures AllFrames(chain + added) == Stream(codec, history + pending, false)
  {
    AllFramesOfBoth(chain, added);
    StreamOfBoth(codec, history, pending, false);
  }

  lemma HeadOfBoth(codec: Codec, chain: seq<Segment>, added: seq<Segment>)
    ensures LastDigest(codec, None, chain + added) == LastDigest(codec, LastDigest(codec, None, chain), added)
  {
  }

  lemma LastOfBoth(history: seq<Commit>, pending: seq<Commit>)
    ensures LastId(None, history + pending) == LastId(LastId(None, history), pending)
  {
  }

  lemma ChainExtends(codec: Codec, store: Store, m: Manifest, chain: seq<Segment>, pending: seq<Commit>)
    requires HoldsChain(codec, store, m, chain) && !Ignored(m, pending) && Advance(codec, m, pending).Some?
    requires Stored(codec, store, Batch(codec, m, pending))
    ensures HoldsChain(codec, store, Advance(codec, m, pending).value, chain + Batch(codec, m, pending))
  {
    var added := Batch(codec, m, pending);
    BatchIsBounded(codec, m, pending);
    LinkedBoth(codec, m.repository, chain, added);
    StoredBoth(codec, store, chain, added);
    HeadOfBoth(codec, chain, added);
  }

  lemma CommitsExtend(codec: Codec, m: Manifest, chain: seq<Segment>, history: seq<Commit>, pending: seq<Commit>)
    requires HoldsCommits(codec, m, chain, history) && !Ignored(m, pending) && Advance(codec, m, pending).Some?
    ensures HoldsCommits(codec, Advance(codec, m, pending).value, chain + Batch(codec, m, pending), history + pending)
  {
    AdvanceAdds(codec, m, pending);
    FramesOfBoth(codec, chain, Batch(codec, m, pending), history, pending);
    ChangeTotalOfBoth(history, pending);
    LinearBoth(history, pending);
    LastOfBoth(history, pending);
  }

  /** A complete append extends the history by its batch. */
  lemma AdvanceExtends(codec: Codec, store: Store, m: Manifest, chain: seq<Segment>, history: seq<Commit>, pending: seq<Commit>)
    requires Holds(codec, store, m, chain, history) && !Ignored(m, pending) && Advance(codec, m, pending).Some?
    requires Stored(codec, store, Batch(codec, m, pending))
    ensures Holds(codec, store, Advance(codec, m, pending).value, chain + Batch(codec, m, pending), history + pending)
  {
    ChainExtends(codec, store, m, chain, pending);
    CommitsExtend(codec, m, chain, history, pending);
  }

  lemma LinearIff(history: seq<Commit>, pending: seq<Commit>)
    requires Linear(history)
    ensures Linear(history + pending) <==>
            Linear(pending) && (history != [] && pending != [] ==> Str(pending[0].parent) == Str(history[|history| - 1].id))
  {
    var all := history + pending;
    if Linear(all) {
      forall i | 0 < i < |pending| ensures Str(pending[i].parent) == Str(pending[i - 1].id) {
        assert all[|history| + i] == pending[i] && all[|history| + i - 1] == pending[i - 1];
      }
      if history != [] && pending != [] {
        assert all[|history|] == pending[0] && all[|history| - 1] == history[|history| - 1];
      }
    } else if Linear(pending) && (history != [] && pending != [] ==> Str(pending[0].parent) == Str(history[|history| - 1].id)) {
      LinearBoth(history, pending);
    }
  }

  lemma BatchIsPacked(codec: Codec, m: Manifest, pending: seq<Commit>, frames: seq<Frame>)
    requires !Ignored(m, pending) && Collect(codec, pending, m.last) == Some(frames)
    ensures var packed := Pack(codec, m.repository, m.segmentCount, m.head, frames, []);
            Batch(codec, m, pending) == packed.segments && (Advance(codec, m, pending).Some? <==> packed.ok)
  {
  }

  /** Some frame of the batch does not fit even into a segment of its own. */
  ghost predicate TooBig(codec: Codec, m: Manifest, pending: seq<Commit>)
    requires Writable(codec, pending)
  {
    exists i: nat :: Stuck(codec, m.repository, m.segmentCount, m.head, Stream(codec, pending, false), [], Batch(codec, m, pending), i)
  }

  /** Exactly when a batch can be appended: it changes nothing, or every commit has an id and can be
      cut, each follows the one before, and no frame is too big for a segment. */
  lemma AdvanceIff(codec: Codec, store: Store, m: Manifest, chain: seq<Segment>, history: seq<Commit>, pending: seq<Commit>)
    requires Holds(codec, store, m, chain, history)
    ensures Advance(codec, m, pending).Some? <==>
            || Passed(history, pending)
            || (Writable(codec, pending) && Linear(history + pending) && !TooBig(codec, m, pending))
  {
    IgnoredIff(codec, store, m, chain, history, pending);
    if !Ignored(m, pending) {
      LinearIff(history, pending);
      CollectIff(codec, pending, m.last);
      if Collect(codec, pending, m.last).Some? {
        FitsIff(codec, m, pending);
      }
    }
  }

  lemma FitsIff(codec: Codec, m: Manifest, pending: seq<Commit>)
    requires !Ignored(m, pending) && Collect(codec, pending, m.last).Some?
    ensures Writable(codec, pending) && (Advance(codec, m, pending).Some? <==> !TooBig(codec, m, pending))
  {
    CollectIsStream(codec, pending, m.last);
    var frames := Stream(codec, pending, false);
    BatchIsPacked(codec, m, pending, frames);
    PackIff(codec, m.repository, m.segmentCount, m.head, frames);
  }

  /** In particular when every commit has an id and follows the one before, every change is within
      the frame limit and every frame within the segment limit on its own. */
  lemma AdvanceAccepts(codec: Codec, store: Store, m: Manifest, chain: seq<Segment>, history: seq<Commit>, pending: seq<Commit>)
    requires codec.Valid() && Holds(codec, store, m, chain, history) && Linear(history + pending)
    requires forall i :: 0 <= i < |pending| ==> !Blank(pending[i].id) && AllSmall(codec, pending[i])
    ensures Writable(codec, pending)
    ensures (forall f :: f in Stream(codec, pending, false) ==>
               FitsAlone(codec, m.repository, m.segmentCount, m.head, |Stream(codec, pending, false)|, f)) ==>
            Advance(codec, m, pending).Some?
  {
    forall i | 0 <= i < |pending| ensures Frames(codec, pending[i]).Some? {
      CutAccepts(codec, pending[i], pending[i].changes, []);
    }
    LinearIff(history, pending);
    CollectIff(codec, pending, m.last);
    CollectIsStream(codec, pending, m.last);
    var frames := Stream(codec, pending, false);
    if !Ignored(m, pending) && forall f :: f in frames ==> FitsAlone(codec, m.repository, m.segmentCount, m.head, |frames|, f) {
      BatchIsPacked(codec, m, pending, frames);
      PackAccepts(codec, m.repository, m.segmentCount, m.head, frames);
    }
  }
}
