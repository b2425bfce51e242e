/**
 Reading a segment history back: reassembling commits from a stream of frames, and the
 exact condition under which the stream written for a list of commits reads back as
 that list, in either direction.
 */
module SegmentReading {
  import opened Options
  import opened SegmentFormat

  /** What an iteration yielded, and whether it ended without raising. */
  datatype Reading = Reading(commits: seq<Commit>, ok: bool)

  // -------------------------------------------------------------------- reassembly

  function Insert(f: Frame, sorted: seq<Frame>): (r: seq<Frame>)
    ensures multiset(r) == multiset([f]) + multiset(sorted)
    ensures |r| == 1 + |sorted|
  {
    if sorted == [] || f.frame <= sorted[0].frame then [f] + sorted
    else
      assert sorted == [sorted[0]] + sorted[1..];
      [sorted[0]] + Insert(f, sorted[1..])
  }

  /** `sorted(items, key=frame)`, stable. */
  function Sort(items: seq<Frame>): (r: seq<Frame>)
    ensures multiset(r) == multiset(items)
    ensures |r| == |items|
  {
    if items == [] then []
    else
      assert items == [items[0]] + items[1..];
      Insert(items[0], Sort(items[1..]))
  }

  function FrameCount(f: Frame): int {
    if f.count == 0 then 1 else f.count
  }

  /** Numbered 0, 1, 2, ... without a gap. */
  predicate Numbered(frames: seq<Frame>) {
    forall i :: 0 <= i < |frames| ==> frames[i].frame == i
  }

  function Changes(frames: seq<Frame>): seq<Change> {
    if frames == [] then [] else frames[0].changes + Changes(frames[1..])
  }

  /** `assemble`: None stands for the error about incomplete continuation frames. */
  function Assemble(items: seq<Frame>): Option<Commit>
    requires items != []
  {
    var ordered := Sort(items);
    if |ordered| != FrameCount(ordered[0]) || !Numbered(ordered) then None
    else Some(Commit(ordered[0].id, ordered[0].parent, ordered[0].fields - COUNTER_KEYS, Changes(ordered)))
  }

  /** The loop of `iter_commits` over the frames still to come; `current` are the collected
      frames of one commit, and `complete` says that the segments end without an error. */
  function Gather(frames: seq<Frame>, current: seq<Frame>, complete: bool): Reading
    decreases |frames|
  {
    if frames == [] then
      if !complete then Reading([], false)
      else if current == [] then Reading([], true)
      else Yield(current, Reading([], true))
    else if Blank(frames[0].id) then Reading([], false)
    else if current != [] && current[|current| - 1].id != frames[0].id then
      Yield(current, Gather(frames[1..], [frames[0]], complete))
    else Gather(frames[1..], current + [frames[0]], complete)
  }

  function Yield(current: seq<Frame>, rest: Reading): Reading
    requires current != []
  {
    var c := Assemble(current);
    if c.None? then Reading([], false) else Reading([c.value] + rest.commits, rest.ok)
  }

  // ---------------------------------------------------------------- sorting helpers

  ghost predicate Ascending(frames: seq<Frame>) {
    forall i, j :: 0 <= i < j < |frames| ==> frames[i].frame < frames[j].frame
  }

  lemma {:induction false} SortOfAscending(frames: seq<Frame>)
    requires Ascending(frames)
    ensures Sort(frames) == frames
  {
    if frames != [] {
      SortOfAscending(frames[1..]);
    }
  }

  function Reverse<T>(s: seq<T>): (r: seq<T>)
    ensures |r| == |s|
    ensures forall i :: 0 <= i < |r| ==> r[i] == s[|s| - 1 - i]
  {
    if s == [] then [] else [s[|s| - 1]] + Reverse(s[..|s| - 1])
  }

  lemma {:induction false} InsertAtEnd(f: Frame, frames: seq<Frame>)
    requires Ascending(frames) && forall g :: g in frames ==> g.frame < f.frame
    ensures Insert(f, frames) == frames + [f]
  {
    if frames != [] {
      assert frames[0] in frames;
      InsertAtEnd(f, frames[1..]);
    }
  }

  lemma {:induction false} SortOfReversed(frames: seq<Frame>)
    requires Ascending(frames)
    ensures Sort(Reverse(frames)) == frames
  {
    if frames != [] {
      var front, last := frames[..|frames| - 1], frames[|frames| - 1];
      SortOfReversed(front);
      InsertAtEnd(last, front);
      assert Reverse(frames)[1..] == Reverse(front);
    }
  }

  /** Two collected frames with the same number make the commit unreadable. */
  ghost predicate Clashing(frames: seq<Frame>) {
    exists i, j :: 0 <= i < j < |frames| && frames[i].frame == frames[j].frame
  }

  ghost predicate Ordered(frames: seq<Frame>) {
    forall i, j :: 0 <= i < j < |frames| ==> frames[i].frame <= frames[j].frame
  }

  lemma {:induction false} InsertedFrames(f: Frame, sorted: seq<Frame>, i: nat)
    requires i < |Insert(f, sorted)|
    ensures Insert(f, sorted)[i] == f || Insert(f, sorted)[i] in sorted
  {
    if sorted != [] && sorted[0].frame < f.frame && i > 0 {
      InsertedFrames(f, sorted[1..], i - 1);
    }
  }

  lemma OrderedCons(f: Frame, sorted: seq<Frame>)
    requires Ordered(sorted) && forall i :: 0 <= i < |sorted| ==> f.frame <= sorted[i].frame
    ensures Ordered([f] + sorted)
  {
  }

  lemma {:induction false} InsertKeepsOrder(f: Frame, sorted: seq<Frame>)
    requires Ordered(sorted)
    ensures Ordered(Insert(f, sorted))
  {
    if sorted != [] && sorted[0].frame < f.frame {
      var rest := Insert(f, sorted[1..]);
      InsertKeepsOrder(f, sorted[1..]);
      forall i | 0 <= i < |rest| ensures sorted[0].frame <= rest[i].frame {
        InsertedFrames(f, sorted[1..], i);
      }
      OrderedCons(sorted[0], rest);
    } else {
      OrderedCons(f, sorted);
    }
  }

  lemma {:induction false} SortIsOrdered(items: seq<Frame>)
    ensures Ordered(Sort(items))
  {
    if items != [] {
      SortIsOrdered(items[1..]);
      InsertKeepsOrder(items[0], Sort(items[1..]));
    }
  }

  ghost predicate HasNumber(frames: seq<Frame>, v: int) {
    exists i :: 0 <= i < |frames| && frames[i].frame == v
  }

  /** Every number from `lo` on, `n` of them, is the number of some frame. */
  ghost predicate Covers(frames: seq<Frame>, lo: int, n: nat) {
    forall v :: lo <= v < lo + n ==> HasNumber(frames, v)
  }

  lemma {:induction false} OrderedCoverIsNumbered(frames: seq<Frame>, lo: int)
    requires Ordered(frames) && Covers(frames, lo, |frames|)
    ensures forall i :: 0 <= i < |frames| ==> frames[i].frame == lo + i
    decreases |frames|
  {
    if frames != [] {
      var rest := frames[1..];
      assert HasNumber(frames, lo);
      var k :| 0 <= k < |frames| && frames[k].frame == lo;
      assert frames[0].frame <= lo;
      forall v | lo + 1 <= v < lo + |frames| ensures HasNumber(rest, v) {
        assert HasNumber(frames, v);
        var i :| 0 <= i < |frames| && frames[i].frame == v;
        assert rest[i - 1] == frames[i];
      }
      OrderedCoverIsNumbered(rest, lo + 1);
    }
  }

  lemma SameCover(a: seq<Frame>, b: seq<Frame>, n: nat)
    requires multiset(a) == multiset(b) && Covers(a, 0, n)
    ensures Covers(b, 0, n)
  {
    forall v | 0 <= v < n ensures HasNumber(b, v) {
      assert HasNumber(a, v);
      var i :| 0 <= i < |a| && a[i].frame == v;
      assert a[i] in multiset(b);
    }
  }

  /** Numbered from 0 without a gap or repetition, in whatever order, and as many as the first one says. */
  ghost predicate Complete(items: seq<Frame>) {
    Covers(items, 0, |items|) && forall f :: f in items && f.frame == 0 ==> FrameCount(f) == |items|
  }

  /** `assemble` accepts exactly these. */
  lemma AssembleIff(items: seq<Frame>)
    requires items != []
    ensures Assemble(items).Some? <==> Complete(items)
  {
    var ordered := Sort(items);
    SortIsOrdered(items);
    if Numbered(ordered) {
      assert Covers(ordered, 0, |ordered|) by {
        forall v | 0 <= v < |ordered| ensures HasNumber(ordered, v) {
          assert ordered[v].frame == v;
        }
      }
      SameCover(ordered, items, |items|);
      forall f | f in items && f.frame == 0 ensures f == ordered[0] {
        assert f in multiset(ordered);
      }
    } else if Covers(items, 0, |items|) {
      SameCover(items, ordered, |items|);
      OrderedCoverIsNumbered(ordered, 0);
    }
    assert ordered[0] in multiset(items);
  }

  lemma {:induction false} CoverNeedsFrames(frames: seq<Frame>, n: nat)
    requires Covers(frames, 0, n)
    ensures n <= |frames|
    decreases n
  {
    if n > 0 {
      assert HasNumber(frames, n - 1);
      var k :| 0 <= k < |frames| && frames[k].frame == n - 1;
      var rest := frames[..k] + frames[k + 1..];
      forall v | 0 <= v < n - 1 ensures HasNumber(rest, v) {
        assert HasNumber(frames, v);
        var i :| 0 <= i < |frames| && frames[i].frame == v;
        assert rest[if i < k then i else i - 1] == frames[i];
      }
      CoverNeedsFrames(rest, n - 1);
    }
  }

  lemma ClashNeedsFrames(frames: seq<Frame>, i: nat, j: nat, n: nat)
    requires i < j < |frames| && frames[i].frame == frames[j].frame && Covers(frames, 0, n)
    ensures n < |frames|
  {
    var rest := frames[..j] + frames[j + 1..];
    forall v | 0 <= v < n ensures HasNumber(rest, v) {
      assert HasNumber(frames, v);
      var k :| 0 <= k < |frames| && frames[k].frame == v;
      assert k != j ==> rest[if k < j then k else k - 1] == frames[k];
      assert rest[i] == frames[i];
    }
    CoverNeedsFrames(rest, n);
  }

  lemma AssembledIsApart(items: seq<Frame>)
    requires items != [] && Assemble(items).Some?
    ensures !Clashing(items)
  {
    AssembleIff(items);
    forall i, j | 0 <= i < j < |items| ensures items[i].frame != items[j].frame {
      if items[i].frame == items[j].frame {
        ClashNeedsFrames(items, i, j, |items|);
      }
    }
  }

  // ---------------------------------------------------------- one commit's frames

  /** A commit as it reads back: keys that the frame counters use are lost. */
  function Normal(c: Commit): Commit {
    c.(fields := c.fields - COUNTER_KEYS)
  }

  lemma {:induction false} ChangesOfNumbered(frames: seq<Frame>, pieces: seq<seq<Change>>)
    requires |frames| == |pieces| && forall i :: 0 <= i < |frames| ==> frames[i].changes == pieces[i]
    ensures Changes(frames) == Concat(pieces)
  {
    if frames != [] {
      ChangesOfNumbered(frames[1..], pieces[1..]);
    }
  }

  lemma FramesOfCommit(codec: Codec, c: Commit)
    requires Frames(codec, c).Some?
    ensures var frames := Frames(codec, c).value;
            && frames != [] && Numbered(frames) && Changes(frames) == c.changes
            && forall f :: f in frames ==> f.id == c.id && f.parent == c.parent && f.fields == c.fields - COUNTER_KEYS && f.count == |frames|
  {
    var frames := Frames(codec, c).value;
    if c.changes == [] {
      assert frames[1..] == [];
    } else {
      var pieces := Cut(codec, c, c.changes, []).value;
      CutIsGreedy(codec, c, c.changes, []);
      ChangesOfNumbered(frames, pieces);
    }
  }

  lemma AssembleOrdered(items: seq<Frame>, frames: seq<Frame>, c: Commit)
    requires items != [] && frames != [] && Sort(items) == frames
    requires Numbered(frames) && frames[0].count == |frames| && Changes(frames) == c.changes
    requires frames[0].id == c.id && frames[0].parent == c.parent && frames[0].fields == c.fields - COUNTER_KEYS
    ensures Assemble(items) == Some(Normal(c))
  {
    assert c.fields - COUNTER_KEYS - COUNTER_KEYS == c.fields - COUNTER_KEYS;
  }

  lemma SortOfEither(frames: seq<Frame>, backwards: bool)
    requires frames != [] && Numbered(frames)
    ensures var items := if backwards then Reverse(frames) else frames;
            items != [] && Sort(items) == frames
  {
    SortOfAscending(frames);
    SortOfReversed(frames);
  }

  /** A commit's frames reassemble to the commit, taken forwards or backwards. */
  lemma AssembleFrames(codec: Codec, c: Commit, backwards: bool)
    requires Frames(codec, c).Some?
    ensures BlockOf(codec, c, backwards) != []
    ensures Assemble(BlockOf(codec, c, backwards)) == Some(Normal(c))
  {
    FramesOfCommit(codec, c);
    var frames := Frames(codec, c).value;
    assert frames[0] in frames;
    SortOfEither(frames, backwards);
    AssembleOrdered(BlockOf(codec, c, backwards), frames, c);
  }

  // --------------------------------------------------------- streams of many commits

  /** A commit's frames in the order a reader meets them. */
  function BlockOf(codec: Codec, c: Commit, backwards: bool): seq<Frame>
    requires Frames(codec, c).Some?
  {
    if backwards then Reverse(Frames(codec, c).value) else Frames(codec, c).value
  }

  ghost predicate Writable(codec: Codec, cs: seq<Commit>) {
    forall i :: 0 <= i < |cs| ==> !Blank(cs[i].id) && Frames(codec, cs[i]).Some?
  }

  function Stream(codec: Codec, cs: seq<Commit>, backwards: bool): seq<Frame>
    requires Writable(codec, cs)
  {
    if cs == [] then [] else BlockOf(codec, cs[0], backwards) + Stream(codec, cs[1..], backwards)
  }

  function Normals(cs: seq<Commit>): (r: seq<Commit>)
    ensures |r| == |cs| && forall i :: 0 <= i < |cs| ==> r[i] == Normal(cs[i])
  {
    seq(|cs|, i requires 0 <= i < |cs| => Normal(cs[i]))
  }

  /** No two neighbouring commits share an id. */
  predicate AdjacentDistinct(cs: seq<Commit>) {
    forall i :: 0 < i < |cs| ==> cs[i - 1].id != cs[i].id
  }

  /** Frames of one commit. */
  ghost predicate Uniform(b: seq<Frame>, id: Option<string>) {
    !Blank(id) && forall i :: 0 <= i < |b| ==> b[i].id == id
  }

  ghost predicate HasFirst(b: seq<Frame>) {
    exists i :: 0 <= i < |b| && b[i].frame == 0
  }

  lemma ReverseKeeps(frames: seq<Frame>, id: Option<string>)
    requires Uniform(frames, id) && HasFirst(frames)
    ensures Uniform(Reverse(frames), id) && HasFirst(Reverse(frames))
  {
    var i :| 0 <= i < |frames| && frames[i].frame == 0;
    assert Reverse(frames)[|frames| - 1 - i].frame == 0;
  }

  lemma BlockShape(codec: Codec, c: Commit, backwards: bool)
    requires Frames(codec, c).Some? && !Blank(c.id)
    ensures var b := BlockOf(codec, c, backwards); b != [] && Uniform(b, c.id) && HasFirst(b)
  {
    FramesOfCommit(codec, c);
    var frames := Frames(codec, c).value;
    assert frames[0].frame == 0;
    ReverseKeeps(frames, c.id);
  }

  lemma BlockFacts(codec: Codec, c: Commit, backwards: bool)
    requires Frames(codec, c).Some? && !Blank(c.id)
    ensures var b := BlockOf(codec, c, backwards);
            b != [] && Uniform(b, c.id) && HasFirst(b) && Assemble(b) == Some(Normal(c))
  {
    AssembleFrames(codec, c, backwards);
    BlockShape(codec, c, backwards);
  }

  /** Further frames of the same commit are collected. */
  lemma {:induction false} GatherMore(b: seq<Frame>, rest: seq<Frame>, current: seq<Frame>, id: Option<string>, complete: bool)
    requires Uniform(b, id) && Uniform(current, id)
    ensures Gather(b + rest, current, complete) == Gather(rest, current + b, complete)
    decreases |b|
  {
    if b == [] {
      assert b + rest == rest && current + b == current;
    } else {
      var f, tail := b[0], b[1..];
      assert (b + rest)[1..] == tail + rest && (b + rest)[0] == f;
      assert current + [f] + tail == current + b;
      GatherMore(tail, rest, current + [f], id, complete);
    }
  }

  /** The first frame of another commit closes the current one. */
  lemma GatherNext(b: seq<Frame>, rest: seq<Frame>, current: seq<Frame>, id: Option<string>, next: Option<string>, complete: bool)
    requires b != [] && Uniform(b, next) && current != [] && Uniform(current, id) && id != next
    ensures Gather(b + rest, current, complete) == Yield(current, Gather(rest, b, complete))
  {
    assert (b + rest)[1..] == b[1..] + rest;
    GatherMore(b[1..], rest, [b[0]], next, complete);
    assert [b[0]] + b[1..] == b;
  }

  lemma YieldAssembled(b: seq<Frame>, c: Commit, rest: Reading)
    requires b != [] && Assemble(b) == Some(c)
    ensures Yield(b, rest) == Reading([c] + rest.commits, rest.ok)
  {
  }

  lemma GatherLast(b: seq<Frame>, c: Commit)
    requires b != [] && Assemble(b) == Some(c)
    ensures Gather([], b, true) == Reading([c], true)
  {
    YieldAssembled(b, c, Reading([], true));
  }

  lemma AdjacentDistinctTail(cs: seq<Commit>)
    requires AdjacentDistinct(cs) && |cs| > 1
    ensures cs[0].id != cs[1].id && AdjacentDistinct(cs[1..])
  {
    var tail := cs[1..];
    forall i | 0 < i < |tail| ensures tail[i - 1].id != tail[i].id {
      assert cs[i].id != cs[i + 1].id;
    }
    assert cs[1 - 1].id != cs[1].id;
  }

  /** Frames already clashing stay unreadable whatever follows. */
  lemma {:induction false} ClashingNeverReads(frames: seq<Frame>, current: seq<Frame>, complete: bool)
    requires Clashing(current)
    ensures !Gather(frames, current, complete).ok
    decreases |frames|
  {
    assert Assemble(current).None? by {
      if Assemble(current).Some? {
        AssembledIsApart(current);
      }
    }
    if frames != [] {
      var next := current + [frames[0]];
      var i, j :| 0 <= i < j < |current| && current[i].frame == current[j].frame;
      assert next[i].frame == next[j].frame;
      ClashingNeverReads(frames[1..], next, complete);
    }
  }

  lemma JoinedClash(a: seq<Frame>, b: seq<Frame>)
    requires HasFirst(a) && HasFirst(b)
    ensures Clashing(a + b)
  {
    var i :| 0 <= i < |a| && a[i].frame == 0;
    var j :| 0 <= j < |b| && b[j].frame == 0;
    assert (a + b)[i].frame == (a + b)[|a| + j].frame;
  }

  lemma JoinedNeverReads(a: seq<Frame>, b: seq<Frame>, rest: seq<Frame>, id: Option<string>)
    requires Uniform(a, id) && Uniform(b, id) && HasFirst(a) && HasFirst(b)
    ensures !Gather(b + rest, a, true).ok
  {
    GatherMore(b, rest, a, id, true);
    JoinedClash(a, b);
    ClashingNeverReads(rest, a + b, true);
  }

  lemma RepeatedLater(cs: seq<Commit>)
    requires |cs| > 0 && !AdjacentDistinct(cs)
    ensures |cs| > 1 && (cs[0].id != cs[1].id ==> !AdjacentDistinct(cs[1..]))
  {
    var k :| 0 < k < |cs| && cs[k - 1].id == cs[k].id;
    if k > 1 {
      assert cs[1..][k - 2].id == cs[1..][k - 1].id;
    }
  }

  /** The reading of a list of commits once the frames of the first are collected. */
  function Started(codec: Codec, cs: seq<Commit>, backwards: bool): Reading
    requires cs != [] && Writable(codec, cs)
  {
    Gather(Stream(codec, cs[1..], backwards), BlockOf(codec, cs[0], backwards), true)
  }

  lemma StartedLast(codec: Codec, cs: seq<Commit>, backwards: bool)
    requires |cs| == 1 && Writable(codec, cs)
    ensures Started(codec, cs, backwards) == Reading([Normal(cs[0])], true)
  {
    BlockFacts(codec, cs[0], backwards);
    GatherLast(BlockOf(codec, cs[0], backwards), Normal(cs[0]));
  }

  lemma StartedNext(codec: Codec, cs: seq<Commit>, backwards: bool)
    requires |cs| > 1 && Writable(codec, cs) && cs[0].id != cs[1].id
    ensures var rest := Started(codec, cs[1..], backwards);
            Started(codec, cs, backwards) == Reading([Normal(cs[0])] + rest.commits, rest.ok)
  {
    var tail := cs[1..];
    var a, b, rest := BlockOf(codec, cs[0], backwards), BlockOf(codec, tail[0], backwards), Stream(codec, tail[1..], backwards);
    BlockFacts(codec, cs[0], backwards);
    BlockFacts(codec, tail[0], backwards);
    GatherNext(b, rest, a, cs[0].id, tail[0].id, true);
    YieldAssembled(a, Normal(cs[0]), Gather(rest, b, true));
  }

  lemma StartedJoined(codec: Codec, cs: seq<Commit>, backwards: bool)
    requires |cs| > 1 && Writable(codec, cs) && cs[0].id == cs[1].id
    ensures !Started(codec, cs, backwards).ok
  {
    var tail := cs[1..];
    BlockShape(codec, cs[0], backwards);
    BlockShape(codec, tail[0], backwards);
    JoinedNeverReads(BlockOf(codec, cs[0], backwards), BlockOf(codec, tail[0], backwards), Stream(codec, tail[1..], backwards), cs[0].id);
  }

  lemma {:induction false} GatherCommits(codec: Codec, cs: seq<Commit>, backwards: bool)
    requires cs != [] && Writable(codec, cs) && AdjacentDistinct(cs)
    ensures Started(codec, cs, backwards) == Reading(Normals(cs), true)
    decreases |cs|
  {
    assert Normals(cs) == [Normal(cs[0])] + Normals(cs[1..]);
    if |cs| == 1 {
      StartedLast(codec, cs, backwards);
    } else {
      AdjacentDistinctTail(cs);
      GatherCommits(codec, cs[1..], backwards);
      StartedNext(codec, cs, backwards);
    }
  }

  /** Two neighbouring commits under one id make the stream unreadable. */
  lemma {:induction false} RepeatedIdNeverReads(codec: Codec, cs: seq<Commit>, backwards: bool)
    requires cs != [] && Writable(codec, cs) && !AdjacentDistinct(cs)
    ensures !Started(codec, cs, backwards).ok
    decreases |cs|
  {
    RepeatedLater(cs);
    if cs[0].id == cs[1].id {
      StartedJoined(codec, cs, backwards);
    } else {
      RepeatedIdNeverReads(codec, cs[1..], backwards);
      StartedNext(codec, cs, backwards);
    }
  }

  /** The stream written for a list of commits reads back exactly when no two neighbours share
      an id, and then as that list, less the keys the frame counters use. */
  lemma ReadsBackIff(codec: Codec, cs: seq<Commit>, backwards: bool)
    requires Writable(codec, cs)
    ensures var r := Gather(Stream(codec, cs, backwards), [], true);
            && (r.ok <==> AdjacentDistinct(cs))
            && (r.ok ==> r.commits == Normals(cs))
  {
    if cs == [] {
      assert Normals(cs) == [];
    } else {
      var b, rest := BlockOf(codec, cs[0], backwards), Stream(codec, cs[1..], backwards);
      BlockFacts(codec, cs[0], backwards);
      GatherMore(b, rest, [], cs[0].id, true);
      assert [] + b == b;
      if AdjacentDistinct(cs) {
        GatherCommits(codec, cs, backwards);
      } else {
        RepeatedIdNeverReads(codec, cs, backwards);
      }
    }
  }

  // ------------------------------------------------------------------ any stream at all

  /** All the frames of one commit, in whatever order. */
  ghost predicate Block(b: seq<Frame>) {
    b != [] && Uniform(b, b[0].id) && Complete(b)
  }

  ghost predicate AllBlocks(blocks: seq<seq<Frame>>) {
    forall i :: 0 <= i < |blocks| ==> Block(blocks[i])
  }

  /** Neighbours are of different commits. */
  ghost predicate Alternate(blocks: seq<seq<Frame>>)
    requires AllBlocks(blocks)
  {
    forall i :: 0 < i < |blocks| ==> blocks[i - 1][0].id != blocks[i][0].id
  }

  ghost predicate Splits(frames: seq<Frame>, blocks: seq<seq<Frame>>) {
    Concat(blocks) == frames && AllBlocks(blocks) && Alternate(blocks)
  }

  lemma SplitsCons(b: seq<Frame>, frames: seq<Frame>, blocks: seq<seq<Frame>>)
    requires Block(b) && Splits(frames, blocks) && (blocks != [] ==> b[0].id != blocks[0][0].id)
    ensures Splits(b + frames, [b] + blocks)
  {
    var all: seq<seq<Frame>> := [b] + blocks;
    assert all[1..] == blocks;
    forall i | 0 < i < |all| ensures all[i - 1][0].id != all[i][0].id {
      if i > 1 {
        assert all[i] == blocks[i - 1] && all[i - 1] == blocks[i - 2];
      }
    }
  }

  lemma SplitsTail(blocks: seq<seq<Frame>>)
    requires blocks != [] && AllBlocks(blocks) && Alternate(blocks)
    ensures AllBlocks(blocks[1..]) && Alternate(blocks[1..])
    ensures |blocks| > 1 ==> blocks[0][0].id != blocks[1][0].id
  {
    var rest: seq<seq<Frame>> := blocks[1..];
    forall i | 0 < i < |rest| ensures rest[i - 1][0].id != rest[i][0].id {
      assert rest[i] == blocks[i + 1] && rest[i - 1] == blocks[i];
    }
  }

  /** The commits are the blocks reassembled, one by one. */
  ghost predicate Reassembled(commits: seq<Commit>, blocks: seq<seq<Frame>>)
    requires AllBlocks(blocks)
  {
    |commits| == |blocks| && forall i :: 0 <= i < |blocks| ==> Assemble(blocks[i]) == Some(commits[i])
  }

  lemma YieldBlock(b: seq<Frame>, rest: Reading)
    requires Block(b)
    ensures Assemble(b).Some? && Yield(b, rest) == Reading([Assemble(b).value] + rest.commits, rest.ok)
  {
    AssembleIff(b);
  }

  lemma ReassembledCons(b: seq<Frame>, blocks: seq<seq<Frame>>, commits: seq<Commit>)
    requires Block(b) && Assemble(b).Some? && AllBlocks(blocks) && AllBlocks([b] + blocks) && Reassembled(commits, blocks)
    ensures Reassembled([Assemble(b).value] + commits, [b] + blocks)
  {
  }

  /** Once the frames of the first block are collected. */
  lemma {:induction false} BlocksRead(blocks: seq<seq<Frame>>)
    requires blocks != [] && AllBlocks(blocks) && Alternate(blocks)
    ensures var r := Gather(Concat(blocks[1..]), blocks[0], true); r.ok && Reassembled(r.commits, blocks)
    decreases |blocks|
  {
    SplitsTail(blocks);
    var first, rest: seq<seq<Frame>> := blocks[0], blocks[1..];
    var r := Reading([], true);
    if rest != [] {
      BlocksRead(rest);
      r := Gather(Concat(rest[1..]), rest[0], true);
      GatherNext(rest[0], Concat(rest[1..]), first, first[0].id, rest[0][0].id, true);
    }
    assert Gather(Concat(rest), first, true) == Yield(first, r);
    YieldBlock(first, r);
    assert blocks == [first] + rest;
    ReassembledCons(first, rest, r.commits);
  }

  lemma SplitsRead(frames: seq<Frame>, blocks: seq<seq<Frame>>)
    requires Splits(frames, blocks)
    ensures var r := Gather(frames, [], true); r.ok && Reassembled(r.commits, blocks)
  {
    if blocks != [] {
      BlocksRead(blocks);
      GatherMore(blocks[0], Concat(blocks[1..]), [], blocks[0][0].id, true);
      assert [] + blocks[0] == blocks[0];
    }
  }

  /** The stream can be read to its end from here, frame by frame. */
  ghost predicate Reads(frames: seq<Frame>, current: seq<Frame>)
    requires current != []
    decreases |frames|
  {
    if frames == [] then Block(current)
    else
      && !Blank(frames[0].id)
      && if frames[0].id != current[0].id then Block(current) && Reads(frames[1..], [frames[0]])
         else Reads(frames[1..], current + [frames[0]])
  }

  lemma {:induction false} GatherReads(frames: seq<Frame>, current: seq<Frame>)
    requires current != [] && Uniform(current, current[0].id) && Gather(frames, current, true).ok
    ensures Reads(frames, current)
    decreases |frames|
  {
    AssembleIff(current);
    if frames != [] {
      GatherReads(frames[1..], if frames[0].id != current[0].id then [frames[0]] else current + [frames[0]]);
    }
  }

  /** What is read, block by block, of frames of which the first ones are collected. */
  ghost predicate SplitsFrom(frames: seq<Frame>, id: Option<string>, blocks: seq<seq<Frame>>) {
    Splits(frames, blocks) && blocks != [] && blocks[0][0].id == id
  }

  lemma SplitsFromOne(b: seq<Frame>)
    requires Block(b)
    ensures SplitsFrom(b + [], b[0].id, [b])
  {
    SplitsCons(b, [], []);
    assert [b] + [] == [b];
  }

  lemma SplitsFromMore(b: seq<Frame>, frames: seq<Frame>, id: Option<string>, blocks: seq<seq<Frame>>)
    requires Block(b) && SplitsFrom(frames, id, blocks) && b[0].id != id
    ensures SplitsFrom(b + frames, b[0].id, [b] + blocks)
  {
    SplitsCons(b, frames, blocks);
  }

  lemma {:induction false} ReadingSplits(frames: seq<Frame>, current: seq<Frame>) returns (blocks: seq<seq<Frame>>)
    requires current != [] && Reads(frames, current)
    ensures SplitsFrom(current + frames, current[0].id, blocks)
    decreases |frames|
  {
    if frames == [] {
      SplitsFromOne(current);
      blocks := [current];
    } else if frames[0].id != current[0].id {
      blocks := ReadingSplits(frames[1..], [frames[0]]);
      assert [frames[0]] + frames[1..] == frames;
      SplitsFromMore(current, frames, frames[0].id, blocks);
      blocks := [current] + blocks;
    } else {
      blocks := ReadingSplits(frames[1..], current + [frames[0]]);
      assert current + [frames[0]] + frames[1..] == current + frames;
    }
  }

  lemma ReadsFirst(frames: seq<Frame>)
    requires frames != [] && Gather(frames, [], true).ok
    ensures !Blank(frames[0].id) && Gather(frames[1..], [frames[0]], true).ok
  {
    assert [] + [frames[0]] == [frames[0]];
  }

  /** Any stream at all reads exactly when it is made of complete blocks of frames, with neighbours of
      different commits, and then as those commits. */
  lemma ReadsIff(frames: seq<Frame>)
    ensures Gather(frames, [], true).ok <==> exists blocks :: Splits(frames, blocks)
    ensures forall blocks :: Splits(frames, blocks) ==> Reassembled(Gather(frames, [], true).commits, blocks)
  {
    forall blocks | Splits(frames, blocks)
      ensures Gather(frames, [], true).ok && Reassembled(Gather(frames, [], true).commits, blocks)
    {
      SplitsRead(frames, blocks);
    }
    if frames == [] {
      assert Splits(frames, []);
    } else if Gather(frames, [], true).ok {
      ReadsFirst(frames);
      GatherReads(frames[1..], [frames[0]]);
      var blocks := ReadingSplits(frames[1..], [frames[0]]);
      assert [frames[0]] + frames[1..] == frames;
    }
  }
}
