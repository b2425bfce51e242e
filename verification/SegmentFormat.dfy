/**
 The append-only segment format: how commits are cut into frames and frames packed into
 segments.  Digests and encoded sizes are parameters: any digest function without
 collisions, any size functions.
 */
module SegmentFormat {
  import opened Options

  type Digest = string

  /** One curation change, as encoded. */
  type Change = string

  const MAX_COMMITS_PER_SEGMENT := 100
  const MAX_SEGMENT_BYTES := 4 * 1024 * 1024
  const MAX_CHANGES_PER_FRAME := 25
  const MAX_FRAME_BYTES := 1024 * 1024

  const COUNTER_KEYS := {"frame", "frame_count"}

  /** `fields` holds every key of the commit other than the ones named here. */
  datatype Commit = Commit(id: Option<string>, parent: Option<string>, fields: map<string, string>, changes: seq<Change>)

  /** A frame as stored.  A missing counter reads as 0. */
  datatype Frame = Frame(id: Option<string>, parent: Option<string>, fields: map<string, string>,
                         frame: int, count: int, changes: seq<Change>)

  datatype Header = Header(productVersion: string, formatId: string, formatRevision: int)

  const HEADER := Header("v1", "gitllery-segment", 1)

  datatype Segment = Segment(header: Header, repository: string, sequence: int, previous: Option<Digest>, frames: seq<Frame>)

  /** How this installation encodes: digests and encoded lengths.  `counterSize` is what the two
      counters add to a frame. */
  datatype Codec = Codec(digest: Segment -> Digest, commitSize: Commit -> nat, counterSize: (int, int) -> nat, segmentSize: Segment -> nat) {
    ghost predicate Valid() {
      forall s :: IsDigest(digest(s))
    }
  }

  predicate IsDigest(d: Digest) {
    |d| == 64 && forall i :: 0 <= i < |d| ==> d[i] in "0123456789abcdef"
  }

  /** Python's `str` of an id that may be missing. */
  function Str(id: Option<string>): string {
    if id.None? then "None" else id.value
  }

  /** An id that counts as missing. */
  predicate Blank(id: Option<string>) {
    id.None? || id.value == ""
  }

  // ------------------------------------------------------------------------ frames

  /** The pieces a commit's changes are cut into, or None when one change is too big.
      `current` is the piece being filled. */
  function Cut(codec: Codec, c: Commit, changes: seq<Change>, current: seq<Change>): Option<seq<seq<Change>>> {
    if changes == [] then
      Some(if current == [] then [] else [current])
    else
      var full := Full(codec, c, current, changes[0]);
      var next := if full then [changes[0]] else current + [changes[0]];
      if codec.commitSize(c.(changes := next)) > MAX_FRAME_BYTES then None
      else
        var rest := Cut(codec, c, changes[1..], next);
        if rest.None? then None else Some((if full then [current] else []) + rest.value)
  }

  predicate Full(codec: Codec, c: Commit, current: seq<Change>, change: Change) {
    && current != []
    && (|current| >= MAX_CHANGES_PER_FRAME || codec.commitSize(c.(changes := current + [change])) > MAX_FRAME_BYTES)
  }

  function Number(c: Commit, pieces: seq<seq<Change>>): (r: seq<Frame>)
    ensures |r| == |pieces|
    ensures forall i :: 0 <= i < |r| ==>
              r[i] == Frame(c.id, c.parent, c.fields - COUNTER_KEYS, i, |pieces|, pieces[i])
  {
    seq(|pieces|, i requires 0 <= i < |pieces| =>
      Frame(c.id, c.parent, c.fields - COUNTER_KEYS, i, |pieces|, pieces[i]))
  }

  /** `_frames_for_commit`, as a function. */
  function Frames(codec: Codec, c: Commit): Option<seq<Frame>> {
    if c.changes == [] then Some(Number(c, [[]]))
    else
      var pieces := Cut(codec, c, c.changes, []);
      if pieces.None? then None else Some(Number(c, pieces.value))
  }

  function Concat<T>(parts: seq<seq<T>>): seq<T> {
    if parts == [] then [] else parts[0] + Concat(parts[1..])
  }

  /** A piece the frame limits allow: 25 changes and 1 MiB. */
  ghost predicate Fits(codec: Codec, c: Commit, piece: seq<Change>) {
    0 < |piece| <= 25 && codec.commitSize(c.(changes := piece)) <= 1048576
  }

  /** No piece could have taken the first change of the next one within the limits. */
  ghost predicate Greedy(codec: Codec, c: Commit, pieces: seq<seq<Change>>) {
    forall i :: 0 < i < |pieces| ==> pieces[i] != [] && !Fits(codec, c, pieces[i - 1] + [pieces[i][0]])
  }

  /** The pieces are `all` cut greedily, and the first begins with `first`. */
  ghost predicate WellCut(codec: Codec, c: Commit, pieces: seq<seq<Change>>, first: seq<Change>, all: seq<Change>) {
    && Concat(pieces) == all
    && (forall i :: 0 <= i < |pieces| ==> Fits(codec, c, pieces[i]))
    && Greedy(codec, c, pieces)
    && (first != [] ==> pieces != [] && first <= pieces[0])
  }

  lemma WellCutCons(codec: Codec, c: Commit, piece: seq<Change>, change: Change, rest: seq<seq<Change>>, all: seq<Change>)
    requires Fits(codec, c, piece) && Full(codec, c, piece, change)
    requires WellCut(codec, c, rest, [change], all)
    ensures WellCut(codec, c, [piece] + rest, piece, piece + all)
  {
    var pieces := [piece] + rest;
    assert pieces[1..] == rest;
    assert rest[0][0] == change;
    forall i | 0 < i < |pieces| ensures pieces[i] != [] && !Fits(codec, c, pieces[i - 1] + [pieces[i][0]]) {
      if i > 1 {
        assert pieces[i] == rest[i - 1] && pieces[i - 1] == rest[i - 2];
      }
    }
  }

  lemma WellCutShorter(codec: Codec, c: Commit, pieces: seq<seq<Change>>, current: seq<Change>, change: Change, all: seq<Change>)
    requires WellCut(codec, c, pieces, current + [change], all)
    ensures WellCut(codec, c, pieces, current, all)
  {
    assert current <= current + [change];
  }

  lemma WellCutEnd(codec: Codec, c: Commit, current: seq<Change>)
    requires current == [] || Fits(codec, c, current)
    ensures WellCut(codec, c, if current == [] then [] else [current], current, current + [])
  {
    assert current + [] == current;
    if current != [] {
      var pieces := [current];
      assert pieces[1..] == [];
      assert Concat(pieces) == current + Concat(pieces[1..]);
      assert pieces[0] == current;
    }
  }

  lemma {:induction false} CutIsGreedy(codec: Codec, c: Commit, changes: seq<Change>, current: seq<Change>)
    requires current == [] || Fits(codec, c, current)
    requires Cut(codec, c, changes, current).Some?
    ensures WellCut(codec, c, Cut(codec, c, changes, current).value, current, current + changes)
    ensures changes != [] ==> Cut(codec, c, changes, current).value != []
    decreases |changes|
  {
    if changes == [] {
      WellCutEnd(codec, c, current);
    } else {
      var change, full := changes[0], Full(codec, c, current, changes[0]);
      var next := if full then [change] else current + [change];
      CutIsGreedy(codec, c, changes[1..], next);
      var rest := Cut(codec, c, changes[1..], next).value;
      if full {
        assert [change] + changes[1..] == changes;
        WellCutCons(codec, c, current, change, rest, changes);
      } else {
        assert current + [change] + changes[1..] == current + changes;
        WellCutShorter(codec, c, rest, current, change, current + changes);
        assert [] + rest == rest;
      }
    }
  }

  /** With any more changes the encoding is no shorter. */
  ghost predicate Monotone(codec: Codec, c: Commit) {
    forall current: seq<Change>, x: Change :: codec.commitSize(c.(changes := [x])) <= codec.commitSize(c.(changes := current + [x]))
  }

  /** Every change is within 1 MiB on its own, that is, with the rest of the commit. */
  ghost predicate AllSmall(codec: Codec, c: Commit) {
    forall x :: x in c.changes ==> codec.commitSize(c.(changes := [x])) <= 1048576
  }

  /** A commit is accepted if every change is within the limit on its own, however many there are;
      and only then, if longer lists of changes have longer encodings. */
  lemma {:induction false} CutAccepts(codec: Codec, c: Commit, changes: seq<Change>, current: seq<Change>)
    ensures (forall x :: x in changes ==> codec.commitSize(c.(changes := [x])) <= 1048576) ==> Cut(codec, c, changes, current).Some?
    ensures Monotone(codec, c) && Cut(codec, c, changes, current).Some? ==>
              forall x :: x in changes ==> codec.commitSize(c.(changes := [x])) <= 1048576
    decreases |changes|
  {
    if changes != [] {
      var next := if Full(codec, c, current, changes[0]) then [changes[0]] else current + [changes[0]];
      CutAccepts(codec, c, changes[1..], next);
      assert current == [] ==> next == [changes[0]];
      assert changes == [changes[0]] + changes[1..];
    }
  }

  /** `_frames_for_commit` raises exactly when one change is over the limit on its own. */
  lemma FramesIff(codec: Codec, c: Commit)
    requires Monotone(codec, c)
    ensures Frames(codec, c).Some? <==> AllSmall(codec, c)
  {
    CutAccepts(codec, c, c.changes, []);
  }

  // ------------------------------------------------------------------ the frame limit

  /** The encoded length of a frame, counters included. */
  function FrameSize(codec: Codec, f: Frame): nat {
    codec.commitSize(Commit(f.id, f.parent, f.fields, f.changes)) + codec.counterSize(f.frame, f.count)
  }

  /** What the limit is applied to: the commit with the changes of one frame. */
  predicate Measured(codec: Codec, c: Commit, f: Frame) {
    codec.commitSize(c.(changes := f.changes)) <= MAX_FRAME_BYTES
  }

  /** Every measured piece is within the limit exactly when the commit has changes or is small
      enough without: a commit without changes is not measured. */
  lemma MeasuredIff(codec: Codec, c: Commit)
    requires Frames(codec, c).Some?
    ensures (forall f :: f in Frames(codec, c).value ==> Measured(codec, c, f)) <==>
            c.changes != [] || codec.commitSize(c) <= MAX_FRAME_BYTES
  {
    var frames := Frames(codec, c).value;
    if c.changes == [] {
      assert c.(changes := []) == c;
      assert frames[0] in frames;
    } else {
      CutIsGreedy(codec, c, c.changes, []);
    }
  }

  /** A frame is within the limit exactly when its piece leaves room for the counters. */
  lemma FrameFitsIff(codec: Codec, c: Commit, i: nat)
    requires Frames(codec, c).Some? && i < |Frames(codec, c).value| && c.fields.Keys !! COUNTER_KEYS
    ensures var frames := Frames(codec, c).value;
            FrameSize(codec, frames[i]) <= MAX_FRAME_BYTES <==>
            codec.commitSize(c.(changes := frames[i].changes)) <= MAX_FRAME_BYTES - codec.counterSize(i, |frames|)
  {
    assert c.fields - COUNTER_KEYS == c.fields;
  }

  /** Two commits that are accepted and whose frame is over the limit: one without changes, and one
      whose only change fills the limit. */
  lemma FramesOverTheLimit() returns (codec: Codec, empty: Commit, full: Commit)
    ensures empty.changes == [] && Frames(codec, empty).Some? && |Frames(codec, empty).value| == 1
    ensures FrameSize(codec, Frames(codec, empty).value[0]) > MAX_FRAME_BYTES
    ensures full.changes != [] && Frames(codec, full).Some? && |Frames(codec, full).value| == 1
    ensures Measured(codec, full, Frames(codec, full).value[0])
    ensures FrameSize(codec, Frames(codec, full).value[0]) > MAX_FRAME_BYTES
  {
    var size := (c: Commit) => if c.changes == [] then MAX_FRAME_BYTES + 1 else MAX_FRAME_BYTES;
    codec := Codec(_ => "", size, (i, n) => 26, _ => 0);
    empty := Commit(Some("a"), None, map[], []);
    full := Commit(Some("b"), Some("a"), map[], ["c"]);
    assert ["c"][1..] == [];
    assert Cut(codec, full, [], ["c"]) == Some([["c"]]);
  }

  // ---------------------------------------------------------------------- segments

  function Ids(frames: seq<Frame>): set<string> {
    set f | f in frames :: Str(f.id)
  }

  function NewSegment(repository: string, published: int, previous: Option<Digest>, frames: seq<Frame>): Segment {
    Segment(HEADER, repository, published + 1, previous, frames)
  }

  predicate Overflows(codec: Codec, s: Segment) {
    |Ids(s.frames)| > MAX_COMMITS_PER_SEGMENT || codec.segmentSize(s) > MAX_SEGMENT_BYTES
  }

  /** The segments an append closes one after the other, and whether it gets to the end: it stops
      where a frame is too big for a segment. */
  datatype Packing = Packing(segments: seq<Segment>, ok: bool)

  /** A packing that goes on from segments already closed. */
  function After(done: seq<Segment>, rest: Packing): Packing {
    Packing(done + rest.segments, rest.ok)
  }

  /** The second loop of `append`.  `current` are the frames collected for the next segment. */
  function Pack(codec: Codec, repository: string, published: int, previous: Option<Digest>,
                frames: seq<Frame>, current: seq<Frame>): Packing
    decreases |frames|
  {
    if frames == [] then
      Packing(if current == [] then [] else [NewSegment(repository, published, previous, current)], true)
    else
      var candidate := NewSegment(repository, published, previous, current + [frames[0]]);
      if current != [] && Overflows(codec, candidate) then
        var closed := NewSegment(repository, published, previous, current);
        var digest := Some(codec.digest(closed));
        if codec.segmentSize(NewSegment(repository, published + 1, digest, [frames[0]])) > MAX_SEGMENT_BYTES
        then Packing([closed], false)
        else After([closed], Pack(codec, repository, published + 1, digest, frames[1..], [frames[0]]))
      else if codec.segmentSize(candidate) > MAX_SEGMENT_BYTES then Packing([], false)
      else Pack(codec, repository, published, previous, frames[1..], current + [frames[0]])
  }

  function AllFrames(chain: seq<Segment>): seq<Frame> {
    if chain == [] then [] else chain[0].frames + AllFrames(chain[1..])
  }

  /** Segments numbered on from `published`, each naming the digest of the one before. */
  ghost predicate Linked(codec: Codec, repository: string, published: int, previous: Option<Digest>, chain: seq<Segment>) {
    forall i :: 0 <= i < |chain| ==> LinkedAt(codec, repository, published, previous, chain, i)
  }

  ghost predicate LinkedAt(codec: Codec, repository: string, published: int, previous: Option<Digest>, chain: seq<Segment>, i: nat)
    requires i < |chain|
  {
    && chain[i].header == HEADER
    && chain[i].repository == repository
    && chain[i].sequence == published + i + 1
    && chain[i].previous == if i == 0 then previous else Some(codec.digest(chain[i - 1]))
  }

  function LastDigest(codec: Codec, previous: Option<Digest>, chain: seq<Segment>): Option<Digest> {
    if chain == [] then previous else Some(codec.digest(chain[|chain| - 1]))
  }

  /** Within the limits of 100 commits and 4 MiB, and not empty. */
  ghost predicate Bounded(codec: Codec, s: Segment) {
    s.frames != [] && |Ids(s.frames)| <= 100 && codec.segmentSize(s) <= 4194304
  }

  lemma IdsOfOne(f: Frame)
    ensures Ids([f]) == {Str(f.id)}
  {
  }

  lemma LinkedCons(codec: Codec, repository: string, published: int, previous: Option<Digest>, first: Segment, rest: seq<Segment>)
    requires first.header == HEADER && first.repository == repository
    requires first.sequence == published + 1 && first.previous == previous
    requires Linked(codec, repository, published + 1, Some(codec.digest(first)), rest)
    ensures Linked(codec, repository, published, previous, [first] + rest)
    ensures AllFrames([first] + rest) == first.frames + AllFrames(rest)
  {
    var chain := [first] + rest;
    assert chain[1..] == rest;
    forall i | 0 <= i < |chain|
      ensures LinkedAt(codec, repository, published, previous, chain, i)
    {
      if i > 0 {
        assert LinkedAt(codec, repository, published + 1, Some(codec.digest(first)), rest, i - 1);
      }
    }
  }

  ghost predicate AllBounded(codec: Codec, chain: seq<Segment>) {
    forall i :: 0 <= i < |chain| ==> Bounded(codec, chain[i])
  }

  /** Whatever becomes of it, packing closes only linked segments within the limits; when it gets to
      the end they hold every frame, in order. */
  lemma {:induction false} PackKeepsFrames(codec: Codec, repository: string, published: int, previous: Option<Digest>,
                                           frames: seq<Frame>, current: seq<Frame>)
    requires current == [] || Bounded(codec, NewSegment(repository, published, previous, current))
    ensures var p := Pack(codec, repository, published, previous, frames, current);
            && Linked(codec, repository, published, previous, p.segments)
            && AllBounded(codec, p.segments)
            && (p.ok ==> AllFrames(p.segments) == current + frames)
    decreases |frames|
  {
    if frames == [] {
      if current != [] {
        LinkedCons(codec, repository, published, previous, NewSegment(repository, published, previous, current), []);
      }
    } else if current != [] && Overflows(codec, NewSegment(repository, published, previous, current + [frames[0]])) {
      PackCloses(codec, repository, published, previous, frames, current);
    } else {
      IdsOfOne(frames[0]);
      assert current == [] ==> current + [frames[0]] == [frames[0]];
      if codec.segmentSize(NewSegment(repository, published, previous, current + [frames[0]])) <= MAX_SEGMENT_BYTES {
        PackKeepsFrames(codec, repository, published, previous, frames[1..], current + [frames[0]]);
        assert current + [frames[0]] + frames[1..] == current + frames;
      }
    }
  }

  lemma {:induction false} PackCloses(codec: Codec, repository: string, published: int, previous: Option<Digest>,
                                      frames: seq<Frame>, current: seq<Frame>)
    requires frames != [] && current != [] && Bounded(codec, NewSegment(repository, published, previous, current))
    requires Overflows(codec, NewSegment(repository, published, previous, current + [frames[0]]))
    ensures var p := Pack(codec, repository, published, previous, frames, current);
            && Linked(codec, repository, published, previous, p.segments)
            && AllBounded(codec, p.segments)
            && (p.ok ==> AllFrames(p.segments) == current + frames)
    decreases |frames|, 0
  {
    var closed := NewSegment(repository, published, previous, current);
    var digest := Some(codec.digest(closed));
    if codec.segmentSize(NewSegment(repository, published + 1, digest, [frames[0]])) > MAX_SEGMENT_BYTES {
      LinkedCons(codec, repository, published, previous, closed, []);
    } else {
      IdsOfOne(frames[0]);
      PackKeepsFrames(codec, repository, published + 1, digest, frames[1..], [frames[0]]);
      LinkedCons(codec, repository, published, previous, closed,
                 Pack(codec, repository, published + 1, digest, frames[1..], [frames[0]]).segments);
      assert [frames[0]] + frames[1..] == frames;
    }
  }

  /** No closed segment could have taken the first frame of the next one within the limits. */
  ghost predicate Tight(codec: Codec, chain: seq<Segment>) {
    forall i :: 0 < i < |chain| ==> chain[i].frames != [] && !Bounded(codec, Extended(chain[i - 1], chain[i].frames[0]))
  }

  function Extended(s: Segment, f: Frame): Segment {
    s.(frames := s.frames + [f])
  }

  lemma TightCons(codec: Codec, first: Segment, rest: seq<Segment>, f: Frame)
    requires Tight(codec, rest) && !Bounded(codec, Extended(first, f))
    requires rest != [] ==> [f] <= rest[0].frames
    ensures Tight(codec, [first] + rest)
  {
    var chain := [first] + rest;
    forall i | 0 < i < |chain| ensures chain[i].frames != [] && !Bounded(codec, Extended(chain[i - 1], chain[i].frames[0])) {
      if i > 1 {
        assert chain[i] == rest[i - 1] && chain[i - 1] == rest[i - 2];
      }
    }
  }

  /** Packing is greedy, whatever becomes of it. */
  lemma {:induction false} PackIsTight(codec: Codec, repository: string, published: int, previous: Option<Digest>,
                                       frames: seq<Frame>, current: seq<Frame>)
    ensures var p := Pack(codec, repository, published, previous, frames, current);
            Tight(codec, p.segments) && (p.segments != [] ==> current <= p.segments[0].frames)
    decreases |frames|
  {
    if frames != [] {
      var first := frames[0];
      var closed := NewSegment(repository, published, previous, current);
      assert Extended(closed, first) == NewSegment(repository, published, previous, current + [first]);
      if current != [] && Overflows(codec, Extended(closed, first)) {
        var digest := Some(codec.digest(closed));
        PackIsTight(codec, repository, published + 1, digest, frames[1..], [first]);
        var rest := Pack(codec, repository, published + 1, digest, frames[1..], [first]).segments;
        TightCons(codec, closed, rest, first);
      } else {
        PackIsTight(codec, repository, published, previous, frames[1..], current + [first]);
      }
    }
  }

  /** The frame that does not fit even into a segment of its own, after the segments closed so far. */
  ghost predicate Stuck(codec: Codec, repository: string, published: int, previous: Option<Digest>,
                        frames: seq<Frame>, current: seq<Frame>, closed: seq<Segment>, i: nat)
  {
    && i < |frames|
    && AllFrames(closed) == current + frames[..i]
    && codec.segmentSize(NewSegment(repository, published + |closed|, LastDigest(codec, previous, closed), [frames[i]])) > 4194304
  }

  lemma StuckLater(codec: Codec, repository: string, published: int, previous: Option<Digest>,
                   frames: seq<Frame>, current: seq<Frame>, closed: seq<Segment>, i: nat)
    requires frames != [] && Stuck(codec, repository, published, previous, frames[1..], current + [frames[0]], closed, i)
    ensures Stuck(codec, repository, published, previous, frames, current, closed, i + 1)
  {
    assert current + [frames[0]] + frames[1..][..i] == current + frames[..i + 1];
  }

  lemma StuckBehind(codec: Codec, repository: string, published: int, previous: Option<Digest>,
                    frames: seq<Frame>, current: seq<Frame>, rest: seq<Segment>, i: nat)
    requires frames != []
    requires var first := NewSegment(repository, published, previous, current);
             Stuck(codec, repository, published + 1, Some(codec.digest(first)), frames[1..], [frames[0]], rest, i)
    ensures Stuck(codec, repository, published, previous, frames, current, [NewSegment(repository, published, previous, current)] + rest, i + 1)
  {
    var first := NewSegment(repository, published, previous, current);
    var closed := [first] + rest;
    assert closed[1..] == rest;
    assert [frames[0]] + frames[1..][..i] == frames[..i + 1];
  }

  /** Packing that does not get to the end has met such a frame. */
  lemma {:induction false} PackStops(codec: Codec, repository: string, published: int, previous: Option<Digest>,
                                     frames: seq<Frame>, current: seq<Frame>)
    ensures var p := Pack(codec, repository, published, previous, frames, current);
            !p.ok ==> exists i: nat :: Stuck(codec, repository, published, previous, frames, current, p.segments, i)
    decreases |frames|
  {
    if frames != [] {
      var p := Pack(codec, repository, published, previous, frames, current);
      var candidate := NewSegment(repository, published, previous, current + [frames[0]]);
      var closed := NewSegment(repository, published, previous, current);
      if current != [] && Overflows(codec, candidate) {
        var digest := Some(codec.digest(closed));
        if codec.segmentSize(NewSegment(repository, published + 1, digest, [frames[0]])) > MAX_SEGMENT_BYTES {
          assert p.segments == [closed] && [closed][1..] == [] && frames[..0] == [];
          assert AllFrames([closed]) == current + AllFrames([]) == current + frames[..0];
          assert Stuck(codec, repository, published, previous, frames, current, p.segments, 0);
        } else {
          PackStops(codec, repository, published + 1, digest, frames[1..], [frames[0]]);
          var rest := Pack(codec, repository, published + 1, digest, frames[1..], [frames[0]]);
          if !rest.ok {
            var i: nat :| Stuck(codec, repository, published + 1, digest, frames[1..], [frames[0]], rest.segments, i);
            StuckBehind(codec, repository, published, previous, frames, current, rest.segments, i);
          }
        }
      } else if codec.segmentSize(candidate) > MAX_SEGMENT_BYTES {
        assert current == [] && p.segments == [];
        assert candidate == NewSegment(repository, published, previous, [frames[0]]);
        assert Stuck(codec, repository, published, previous, frames, current, p.segments, 0);
      } else {
        PackStops(codec, repository, published, previous, frames[1..], current + [frames[0]]);
        if !p.ok {
          var i: nat :| Stuck(codec, repository, published, previous, frames[1..], current + [frames[0]], p.segments, i);
          StuckLater(codec, repository, published, previous, frames, current, p.segments, i);
        }
      }
    }
  }

  /** The frame fits into a segment of its own, at any place an append of this many frames could give it. */
  ghost predicate FitsAlone(codec: Codec, repository: string, published: int, previous: Option<Digest>, frames: nat, f: Frame) {
    forall n: int, d: Option<Digest> :: published <= n <= published + frames && (d == previous || (d.Some? && IsDigest(d.value))) ==>
      codec.segmentSize(NewSegment(repository, n, d, [f])) <= 4194304
  }

  /** Packing gets to the end exactly when it meets no such frame. */
  lemma PackIff(codec: Codec, repository: string, published: int, previous: Option<Digest>, frames: seq<Frame>)
    ensures var p := Pack(codec, repository, published, previous, frames, []);
            p.ok <==> forall i: nat :: !Stuck(codec, repository, published, previous, frames, [], p.segments, i)
  {
    PackStops(codec, repository, published, previous, frames, []);
    PackKeepsFrames(codec, repository, published, previous, frames, []);
  }

  /** Frames that each fit into a segment of their own can be packed, however many there are. */
  lemma PackAccepts(codec: Codec, repository: string, published: int, previous: Option<Digest>, frames: seq<Frame>)
    requires codec.Valid() && forall f :: f in frames ==> FitsAlone(codec, repository, published, previous, |frames|, f)
    ensures Pack(codec, repository, published, previous, frames, []).ok
  {
    var p := Pack(codec, repository, published, previous, frames, []);
    PackIff(codec, repository, published, previous, frames);
    PackKeepsFrames(codec, repository, published, previous, frames, []);
    NoMoreThanFrames(codec, p.segments);
    forall i: nat ensures !Stuck(codec, repository, published, previous, frames, [], p.segments, i) {
      if i < |frames| && AllFrames(p.segments) == [] + frames[..i] {
        assert FitsAlone(codec, repository, published, previous, |frames|, frames[i]);
      }
    }
  }

  lemma {:induction false} NoMoreThanFrames(codec: Codec, chain: seq<Segment>)
    requires AllBounded(codec, chain)
    ensures |chain| <= |AllFrames(chain)|
  {
    if chain != [] {
      NoMoreThanFrames(codec, chain[1..]);
    }
  }
}
