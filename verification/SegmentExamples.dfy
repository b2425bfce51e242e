/**
 Repositories and batches that exist: the hypotheses of the other modules can be met, and the
 batches that are appended but never read are among the accepted ones.
 */
module SegmentExamples {
  import opened Options
  import opened SegmentFormat
  import opened SegmentReading
  import opened SegmentHistory
  import opened SegmentReaders
  import opened SegmentRepository

  const DIGITS := "0123456789abcdef"

  /** The last `width` hexadecimal digits of a number. */
  function Hex(n: nat, width: nat): (r: string)
    ensures |r| == width && forall i :: 0 <= i < |r| ==> r[i] in DIGITS
  {
    if width == 0 then [] else Hex(n / 16, width - 1) + [DIGITS[n % 16]]
  }

  function Power(width: nat): nat {
    if width == 0 then 1 else 16 * Power(width - 1)
  }

  lemma DigitsDiffer(a: nat, b: nat)
    requires a < 16 && b < 16 && DIGITS[a] == DIGITS[b]
    ensures a == b
  {
  }

  lemma {:induction false} HexDiffers(m: nat, n: nat, width: nat)
    requires m < Power(width) && n < Power(width) && Hex(m, width) == Hex(n, width)
    ensures m == n
  {
    if width > 0 {
      var a, b := Hex(m, width), Hex(n, width);
      assert a[..width - 1] == Hex(m / 16, width - 1) && b[..width - 1] == Hex(n / 16, width - 1);
      assert a[width - 1] == DIGITS[m % 16] && b[width - 1] == DIGITS[n % 16];
      DigitsDiffer(m % 16, n % 16);
      HexDiffers(m / 16, n / 16, width - 1);
    }
  }

  /** A codec whose digests are the numbers of the segments, and whose encodings are short. */
  function Numbering(): Codec {
    Codec((s: Segment) => Hex(if s.sequence < 0 then 0 else s.sequence, 64), _ => 1, (i, n) => 1, _ => 1)
  }

  lemma NumberingIsValid()
    ensures Numbering().Valid()
  {
  }

  lemma NumberIn(codec: Codec, repository: string, published: nat, previous: Option<Digest>, chain: seq<Segment>, s: Segment)
    requires Linked(codec, repository, published, previous, chain) && s in chain
    ensures published < s.sequence <= published + |chain| && chain[s.sequence - published - 1] == s
  {
    var i :| 0 <= i < |chain| && chain[i] == s;
    assert LinkedAt(codec, repository, published, previous, chain, i);
    assert s.sequence - published - 1 == i;
  }

  lemma NumbersDiffer(s: Segment, t: Segment)
    requires 0 <= s.sequence < Power(64) && 0 <= t.sequence < Power(64) && Numbering().digest(s) == Numbering().digest(t)
    ensures s.sequence == t.sequence
  {
    HexDiffers(s.sequence, t.sequence, 64);
  }

  /** It keeps the segments of any chain apart, up to the number of digests there are. */
  lemma NumberingKeepsApart(repository: string, published: nat, previous: Option<Digest>, chain: seq<Segment>)
    requires Linked(Numbering(), repository, published, previous, chain) && published + |chain| < Power(64)
    ensures KeptApart(Numbering(), chain)
  {
    forall s, t | s in chain && t in chain && Numbering().digest(s) == Numbering().digest(t) ensures s == t {
      NumberIn(Numbering(), repository, published, previous, chain, s);
      NumberIn(Numbering(), repository, published, previous, chain, t);
      NumbersDiffer(s, t);
    }
  }

  /** One commit without changes and everything that becomes of it. */
  lemma OneFrame(c: Commit)
    requires c.changes == []
    ensures Frames(Numbering(), c).Some? && |Frames(Numbering(), c).value| == 1
  {
  }

  lemma PackOne(repository: string, f: Frame)
    ensures Pack(Numbering(), repository, 0, None, [f], []) == Packing([NewSegment(repository, 0, None, [f])], true)
  {
    assert [f][1..] == [] && [] + [f] == [f];
  }

  lemma CollectOne(c: Commit)
    requires !Blank(c.id) && c.changes == []
    ensures Frames(Numbering(), c).Some? && |Frames(Numbering(), c).value| == 1
    ensures Collect(Numbering(), [c], None) == Frames(Numbering(), c)
  {
    OneFrame(c);
    var frames := Frames(Numbering(), c).value;
    assert [c][1..] == [] && frames + [] == frames;
    assert Collect(Numbering(), [], Some(Str(c.id))) == Some([]);
  }

  lemma BatchOfOne(repository: string, c: Commit) returns (s: Segment)
    requires !Blank(c.id) && c.id != Some("None") && c.changes == []
    ensures s.header == HEADER && Packed(Numbering(), NewManifest(repository), [c]) == Packing([s], true)
  {
    CollectOne(c);
    var frames := Frames(Numbering(), c).value;
    assert frames == [frames[0]];
    PackOne(repository, frames[0]);
    s := NewSegment(repository, 0, None, frames);
  }

  lemma StepOfOne(codec: Codec, m: Manifest, pending: seq<Commit>, s: Segment)
    requires m.header == HEADER && Packed(codec, m, pending) == Packing([s], true)
    ensures var d := codec.digest(s);
            AppendStep(codec, map[], m, pending, Published, map[d := Parsed(s, d)], Advance(codec, m, pending).value)
  {
    var batch := Batch(codec, m, pending);
    assert batch[0] == s;
  }

  /** Calls as the repository's contracts describe them exist: appending one commit. */
  lemma SomeRun(repository: string, c: Commit) returns (call: Call)
    requires !Blank(c.id) && c.id != Some("None") && c.changes == []
    ensures Run(Numbering(), map[], NewManifest(repository), [call])
    ensures KeptApart(Numbering(), Tried(Numbering(), NewManifest(repository), [call]))
    ensures Recorded([], [call]) == [c]
  {
    var codec, m := Numbering(), NewManifest(repository);
    var s := BatchOfOne(repository, c);
    var d := codec.digest(s);
    StepOfOne(codec, m, [c], s);
    call := Call([c], Published, map[d := Parsed(s, d)], Advance(codec, m, [c]).value);
    assert [call][1..] == [];
    assert Tried(codec, m, [call]) == [s] + [];
    assert Recorded([], [call]) == Recorded([] + [c], []) == [c];
  }

  // --------------------------------------------------- appended, but never read again

  /** Sizes never matter. */
  ghost predicate Roomy(codec: Codec) {
    (forall c :: codec.commitSize(c) <= MAX_FRAME_BYTES) && (forall s :: codec.segmentSize(s) <= MAX_SEGMENT_BYTES)
  }

  lemma {:induction false} CutSucceeds(codec: Codec, c: Commit, changes: seq<Change>, current: seq<Change>)
    requires Roomy(codec)
    ensures Cut(codec, c, changes, current).Some?
    decreases |changes|
  {
    if changes != [] {
      CutSucceeds(codec, c, changes[1..], if Full(codec, c, current, changes[0]) then [changes[0]] else current + [changes[0]]);
    }
  }

  lemma {:induction false} PackSucceeds(codec: Codec, repository: string, published: int, previous: Option<Digest>,
                                        frames: seq<Frame>, current: seq<Frame>)
    requires Roomy(codec)
    ensures Pack(codec, repository, published, previous, frames, current).ok
    decreases |frames|
  {
    if frames != [] {
      if current != [] && Overflows(codec, NewSegment(repository, published, previous, current + [frames[0]])) {
        var digest := Some(codec.digest(NewSegment(repository, published, previous, current)));
        PackSucceeds(codec, repository, published + 1, digest, frames[1..], [frames[0]]);
      } else {
        PackSucceeds(codec, repository, published, previous, frames[1..], current + [frames[0]]);
      }
    }
  }

  /** Two commits under one id, the second naming the first as its parent, are accepted by any
      repository whose newest commit the first one follows. */
  lemma RepeatedIdIsAppended(codec: Codec, m: Manifest, a: Commit, b: Commit)
    requires Roomy(codec) && !Blank(a.id) && b.id == a.id && Str(b.parent) == Str(a.id)
    requires m.last.Some? ==> Str(a.parent) == m.last.value
    ensures Advance(codec, m, [a, b]).Some? && !Ignored(m, [a, b])
  {
    CutSucceeds(codec, a, a.changes, []);
    CutSucceeds(codec, b, b.changes, []);
    var both := [a, b];
    assert both[1..] == [b] && [b][1..] == [];
    assert Collect(codec, [], Some(Str(b.id))) == Some([]);
    assert Collect(codec, [b], Some(Str(a.id))).Some?;
    PackSucceeds(codec, m.repository, m.segmentCount, m.head, Collect(codec, both, m.last).value, []);
  }

  /** The repository then neither reads back nor passes deep verification, whatever it held. */
  lemma RepeatedIdIsUnreadable(codec: Codec, store: Store, m: Manifest, chain: seq<Segment>, history: seq<Commit>, a: Commit, b: Commit)
    requires codec.Valid() && Roomy(codec) && Holds(codec, store, m, chain, history)
    requires !Blank(a.id) && b.id == a.id && Str(b.parent) == Str(a.id) && (m.last.Some? ==> Str(a.parent) == m.last.value)
    requires Stored(codec, store, Batch(codec, m, [a, b]))
    ensures Advance(codec, m, [a, b]).Some?
    ensures !IterCommits(store, Advance(codec, m, [a, b]).value, false).ok
    ensures !Sound(store, Advance(codec, m, [a, b]).value, Config(m.repository), true)
  {
    RepeatedIdIsAppended(codec, m, a, b);
    AdvanceExtends(codec, store, m, chain, history, [a, b]);
    var all := history + [a, b];
    assert all[|history|].id == all[|history| + 1].id;
    var longer := chain + Batch(codec, m, [a, b]);
    HistoryReadsBack(codec, store, Advance(codec, m, [a, b]).value, longer, all);
    SoundIff(codec, store, Advance(codec, m, [a, b]).value, longer, all);
  }
}
