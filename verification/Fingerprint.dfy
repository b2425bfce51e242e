/**
 The content fingerprint that binds a recorded identity to a file, link or directory
 tree: the byte stream fed to the digest, and why it determines the tree.
 */
module Fingerprint {
  import opened Sequences

  type Byte = b: int | 0 <= b < 256
  type Bytes = seq<Byte>

  const SLASH: Byte := 47
  const BLOCK := 1024 * 1024

  const MODE_REGULAR := 0x8000
  const MODE_DIRECTORY := 0x4000
  const MODE_LINK := 0xA000

  const ENTRY: Bytes := [101, 110, 116, 114, 121]
  const MODE: Bytes := [109, 111, 100, 101]
  const SIZE: Bytes := [115, 105, 122, 101]
  const LINK: Bytes := [108, 105, 110, 107]
  const CHILDREN: Bytes := [99, 104, 105, 108, 100, 114, 101, 110]

  /** An entry as the script finds it.  A directory's entries come in whatever order it is listed;
      `Special` is anything the script refuses: an entry of another type, or one that was
      replaced between being listed and being opened. */
  datatype Tree =
    | File(content: Bytes)
    | Link(target: Bytes)
    | Dir(children: Forest)
    | Special

  datatype Forest = Nil | Entry(name: Bytes, tree: Tree, rest: Forest)

  function Count(f: Forest): nat {
    match f
    case Nil => 0
    case Entry(_, _, rest) => 1 + Count(rest)
  }

  // -------------------------------------------------------------- the order of names

  /** The order of byte strings. */
  predicate Leq(a: Bytes, b: Bytes) {
    a == [] || (b != [] && (a[0] < b[0] || (a[0] == b[0] && Leq(a[1..], b[1..]))))
  }

  lemma {:induction false} LeqTotal(a: Bytes, b: Bytes)
    ensures Leq(a, b) || Leq(b, a)
  {
    if a != [] && b != [] {
      LeqTotal(a[1..], b[1..]);
    }
  }

  lemma {:induction false} LeqAntisymmetric(a: Bytes, b: Bytes)
    requires Leq(a, b) && Leq(b, a)
    ensures a == b
  {
    if a != [] && b != [] {
      LeqAntisymmetric(a[1..], b[1..]);
      assert a == [a[0]] + a[1..] && b == [b[0]] + b[1..];
    }
  }

  lemma {:induction false} LeqTransitive(a: Bytes, b: Bytes, c: Bytes)
    requires Leq(a, b) && Leq(b, c)
    ensures Leq(a, c)
  {
    if a != [] && b != [] && c != [] && a[0] == b[0] == c[0] {
      LeqTransitive(a[1..], b[1..], c[1..]);
    }
  }

  function Place(name: Bytes, tree: Tree, f: Forest): Forest {
    match f
    case Nil => Entry(name, tree, Nil)
    case Entry(other, u, rest) => if Leq(name, other) then Entry(name, tree, f) else Entry(other, u, Place(name, tree, rest))
  }

  /** `sorted(os.listdir(...), key=os.fsencode)`. */
  function Sorted(f: Forest): Forest {
    match f
    case Nil => Nil
    case Entry(name, tree, rest) => Place(name, tree, Sorted(rest))
  }

  /** The tree with all directories in name order. */
  function Canon(t: Tree): Tree {
    match t
    case Dir(children) => Dir(Sorted(CanonForest(children)))
    case _ => t
  }

  function CanonForest(f: Forest): Forest {
    match f
    case Nil => Nil
    case Entry(name, tree, rest) => Entry(name, Canon(tree), CanonForest(rest))
  }

  lemma {:induction false} CanonOfPlaced(name: Bytes, tree: Tree, f: Forest)
    ensures CanonForest(Place(name, tree, f)) == Place(name, Canon(tree), CanonForest(f))
  {
    match f
    case Nil =>
    case Entry(other, u, rest) =>
      CanonOfPlaced(name, tree, rest);
  }

  lemma {:induction false} CanonOfSorted(f: Forest)
    ensures CanonForest(Sorted(f)) == Sorted(CanonForest(f))
  {
    match f
    case Nil =>
    case Entry(name, tree, rest) =>
      CanonOfSorted(rest);
      CanonOfPlaced(name, tree, Sorted(rest));
  }

  function Size(t: Tree): nat {
    match t
    case Dir(children) => 1 + ForestSize(children)
    case _ => 0
  }

  function ForestSize(f: Forest): nat {
    match f
    case Nil => 0
    case Entry(_, tree, rest) => 1 + Size(tree) + ForestSize(rest)
  }

  lemma {:induction false} SizeOfPlaced(name: Bytes, tree: Tree, f: Forest)
    ensures ForestSize(Place(name, tree, f)) == 1 + Size(tree) + ForestSize(f)
    ensures Count(Place(name, tree, f)) == 1 + Count(f)
  {
    match f
    case Nil =>
    case Entry(_, _, rest) =>
      SizeOfPlaced(name, tree, rest);
  }

  lemma {:induction false} SizeOfSorted(f: Forest)
    ensures ForestSize(Sorted(f)) == ForestSize(f) && Count(Sorted(f)) == Count(f)
  {
    match f
    case Nil =>
    case Entry(name, tree, rest) =>
      SizeOfSorted(rest);
      SizeOfPlaced(name, tree, Sorted(rest));
  }

  lemma {:induction false} CountOfCanon(f: Forest)
    ensures Count(CanonForest(f)) == Count(f)
  {
    match f
    case Nil =>
    case Entry(_, _, rest) =>
      CountOfCanon(rest);
  }

  // ------------------------------------------------ the order of listing does not matter

  function Entries(f: Forest): multiset<(Bytes, Tree)> {
    match f
    case Nil => multiset{}
    case Entry(name, tree, rest) => multiset{(name, tree)} + Entries(rest)
  }

  /** Every name of the forest comes after this one. */
  ghost predicate AllAfter(name: Bytes, f: Forest) {
    match f
    case Nil => true
    case Entry(other, _, rest) => Leq(name, other) && name != other && AllAfter(name, rest)
  }

  /** In strict name order. */
  ghost predicate InOrder(f: Forest) {
    match f
    case Nil => true
    case Entry(name, _, rest) => AllAfter(name, rest) && InOrder(rest)
  }

  ghost predicate Lacks(name: Bytes, f: Forest) {
    match f
    case Nil => true
    case Entry(other, _, rest) => name != other && Lacks(name, rest)
  }

  /** No name twice, as in every directory. */
  ghost predicate Distinct(f: Forest) {
    match f
    case Nil => true
    case Entry(name, _, rest) => Lacks(name, rest) && Distinct(rest)
  }

  lemma {:induction false} AfterIsTransitive(a: Bytes, b: Bytes, f: Forest)
    requires Leq(a, b) && a != b && AllAfter(b, f)
    ensures AllAfter(a, f)
  {
    match f
    case Nil =>
    case Entry(c, _, rest) =>
      LeqTransitive(a, b, c);
      if a == c {
        LeqAntisymmetric(a, b);
      }
      AfterIsTransitive(a, b, rest);
  }

  lemma {:induction false} AfterPlaced(a: Bytes, name: Bytes, tree: Tree, f: Forest)
    requires Leq(a, name) && a != name && AllAfter(a, f)
    ensures AllAfter(a, Place(name, tree, f))
  {
    match f
    case Nil =>
    case Entry(_, _, rest) =>
      AfterPlaced(a, name, tree, rest);
  }

  lemma {:induction false} PlacedInOrder(name: Bytes, tree: Tree, f: Forest)
    requires InOrder(f) && Lacks(name, f)
    ensures InOrder(Place(name, tree, f))
  {
    match f
    case Nil =>
    case Entry(other, _, rest) =>
      LeqTotal(name, other);
      if Leq(name, other) {
        AfterIsTransitive(name, other, rest);
      } else {
        PlacedInOrder(name, tree, rest);
        AfterPlaced(other, name, tree, rest);
      }
  }

  lemma {:induction false} LacksPlaced(name: Bytes, other: Bytes, tree: Tree, f: Forest)
    ensures Lacks(name, Place(other, tree, f)) <==> name != other && Lacks(name, f)
  {
    match f
    case Nil =>
    case Entry(_, _, rest) =>
      LacksPlaced(name, other, tree, rest);
  }

  lemma {:induction false} LacksSorted(name: Bytes, f: Forest)
    ensures Lacks(name, Sorted(f)) <==> Lacks(name, f)
  {
    match f
    case Nil =>
    case Entry(other, tree, rest) =>
      LacksSorted(name, rest);
      LacksPlaced(name, other, tree, Sorted(rest));
  }

  lemma {:induction false} SortedInOrder(f: Forest)
    requires Distinct(f)
    ensures InOrder(Sorted(f))
  {
    match f
    case Nil =>
    case Entry(name, tree, rest) =>
      SortedInOrder(rest);
      LacksSorted(name, rest);
      PlacedInOrder(name, tree, Sorted(rest));
  }

  lemma {:induction false} EntriesOfPlaced(name: Bytes, tree: Tree, f: Forest)
    ensures Entries(Place(name, tree, f)) == multiset{(name, tree)} + Entries(f)
  {
    match f
    case Nil =>
    case Entry(_, _, rest) =>
      EntriesOfPlaced(name, tree, rest);
  }

  lemma {:induction false} EntriesOfSorted(f: Forest)
    ensures Entries(Sorted(f)) == Entries(f)
  {
    match f
    case Nil =>
    case Entry(name, tree, rest) =>
      EntriesOfSorted(rest);
      EntriesOfPlaced(name, tree, Sorted(rest));
  }

  lemma {:induction false} EntryIsAfter(name: Bytes, f: Forest, e: (Bytes, Tree))
    requires AllAfter(name, f) && e in Entries(f)
    ensures Leq(name, e.0) && name != e.0
  {
    match f
    case Entry(other, tree, rest) =>
      if e != (other, tree) {
        EntryIsAfter(name, rest, e);
      }
  }

  lemma {:induction false} NumberOfEntries(f: Forest)
    ensures |Entries(f)| == Count(f)
  {
    match f
    case Nil =>
    case Entry(_, _, rest) =>
      NumberOfEntries(rest);
  }

  /** Two forests in order with the same entries are the same. */
  lemma {:induction false} InOrderIsUnique(f: Forest, g: Forest)
    requires InOrder(f) && InOrder(g) && Entries(f) == Entries(g)
    ensures f == g
  {
    NumberOfEntries(f);
    NumberOfEntries(g);
    if f.Entry? {
      FirstIsFirst(f, g);
      var e := multiset{(f.name, f.tree)};
      assert Entries(f.rest) == Entries(f) - e && Entries(g.rest) == Entries(g) - e;
      InOrderIsUnique(f.rest, g.rest);
    }
  }

  lemma FirstIsFirst(f: Forest, g: Forest)
    requires f.Entry? && g.Entry? && InOrder(f) && InOrder(g) && Entries(f) == Entries(g)
    ensures (f.name, f.tree) == (g.name, g.tree)
  {
    var a, b := (f.name, f.tree), (g.name, g.tree);
    assert a in Entries(g) && b in Entries(f);
    if a != b {
      EntryIsAfter(f.name, f.rest, b);
      EntryIsAfter(g.name, g.rest, a);
      LeqAntisymmetric(f.name, g.name);
    }
  }

  /** However a directory is listed, it is visited in the same order. */
  lemma ListingOrderIsIrrelevant(f: Forest, g: Forest)
    requires Distinct(f) && Distinct(g) && Entries(f) == Entries(g)
    ensures Sorted(f) == Sorted(g)
  {
    SortedInOrder(f);
    SortedInOrder(g);
    EntriesOfSorted(f);
    EntriesOfSorted(g);
    InOrderIsUnique(Sorted(f), Sorted(g));
  }

  // ------------------------------------------------------------------- the byte stream

  /** `int.to_bytes(width, "big")`. */
  function ToBytes(n: nat, width: nat): (r: Bytes)
    ensures |r| == width
  {
    if width == 0 then [] else ToBytes(n / 256, width - 1) + [n % 256]
  }

  /** The largest value `to_bytes(8, "big")` accepts, plus one. */
  const LIMIT: nat := 0x1_0000_0000_0000_0000

  function Length(n: nat): (r: Bytes)
    ensures |r| == 8
  {
    ToBytes(n, 8)
  }

  function Frame(tag: Bytes, value: Bytes): Bytes {
    ToBytes(|tag|, 2) + tag + Length(|value|) + value
  }

  function ModeOf(t: Tree): nat {
    match t
    case File(_) => MODE_REGULAR
    case Link(_) => MODE_LINK
    case Dir(_) => MODE_DIRECTORY
    case Special => 0
  }

  function ChildPath(relative: Bytes, name: Bytes): Bytes {
    if relative == [] then name else relative + [SLASH] + name
  }

  /** The stream for an entry in name order whose path below the root is `relative`. */
  function Encode(t: Tree, relative: Bytes): Bytes
    decreases t, 2
  {
    Frame(ENTRY, relative) + Typed(t, relative)
  }

  function Typed(t: Tree, relative: Bytes): Bytes
    decreases t, 1
  {
    Frame(MODE, ToBytes(ModeOf(t), 4)) + Body(t, relative)
  }

  function Body(t: Tree, relative: Bytes): Bytes
    decreases t, 0
  {
    match t
    case File(content) => Frame(SIZE, Length(|content|)) + content
    case Link(target) => Frame(LINK, target)
    case Dir(children) => Frame(CHILDREN, Length(Count(children))) + EncodeForest(children, relative)
    case Special => []
  }

  function EncodeForest(f: Forest, relative: Bytes): Bytes
    decreases f, 0
  {
    match f
    case Nil => []
    case Entry(name, tree, rest) => Encode(tree, ChildPath(relative, name)) + EncodeForest(rest, relative)
  }

  /** Everything in the tree can be measured: no special entry, no length beyond eight bytes. */
  predicate Measurable(t: Tree, relative: Bytes) {
    && |relative| < LIMIT
    && match t
       case File(content) => |content| < LIMIT
       case Link(target) => |target| < LIMIT
       case Dir(children) => Count(children) < LIMIT && MeasurableForest(children, relative)
       case Special => false
  }

  predicate MeasurableForest(f: Forest, relative: Bytes) {
    match f
    case Nil => true
    case Entry(name, tree, rest) => Measurable(tree, ChildPath(relative, name)) && MeasurableForest(rest, relative)
  }

  // ------------------------------------------------------------------ the measuring

  class Digest {
    var fed: Bytes

    constructor ()
      ensures fed == []
    {
      fed := [];
    }

    method Update(block: Bytes)
      modifies this
      ensures fed == old(fed) + block
    {
      fed := fed + block;
    }
  }

  method FeedFrame(d: Digest, tag: Bytes, value: Bytes)
    modifies d
    ensures d.fed == old(d.fed) + Frame(tag, value)
  {
    d.Update(ToBytes(|tag|, 2));
    d.Update(tag);
    d.Update(Length(|value|));
    d.Update(value);
  }

  /** A quiescent file, read in blocks of one mebibyte. */
  method FeedContent(d: Digest, content: Bytes)
    modifies d
    ensures d.fed == old(d.fed) + content
  {
    var offset := 0;
    while offset < |content|
      invariant 0 <= offset <= |content|
      invariant d.fed == old(d.fed) + content[..offset]
    {
      var end := if offset + BLOCK <= |content| then offset + BLOCK else |content|;
      d.Update(content[offset..end]);
      assert content[..offset] + content[offset..end] == content[..end];
      offset := end;
    }
  }

  /** `visit`: feeds one entry, or stops where it cannot be measured. */
  method Visit(d: Digest, t: Tree, relative: Bytes) returns (ok: bool)
    modifies d
    ensures ok <==> Measurable(Canon(t), relative)
    ensures ok ==> d.fed == old(d.fed) + Encode(Canon(t), relative)
    decreases Size(t), 3
  {
    if |relative| >= LIMIT {
      return false;
    }
    FeedFrame(d, ENTRY, relative);
    ok := VisitTyped(d, t, relative);
    Associative(old(d.fed), Frame(ENTRY, relative), Typed(Canon(t), relative));
  }

  method VisitTyped(d: Digest, t: Tree, relative: Bytes) returns (ok: bool)
    requires |relative| < LIMIT
    modifies d
    ensures ok <==> Measurable(Canon(t), relative)
    ensures ok ==> d.fed == old(d.fed) + Typed(Canon(t), relative)
    decreases Size(t), 2
  {
    FeedFrame(d, MODE, ToBytes(ModeOf(t), 4));
    ok := VisitBody(d, t, relative);
    Associative(old(d.fed), Frame(MODE, ToBytes(ModeOf(t), 4)), Body(Canon(t), relative));
  }

  method VisitBody(d: Digest, t: Tree, relative: Bytes) returns (ok: bool)
    requires |relative| < LIMIT
    modifies d
    ensures ok <==> Measurable(Canon(t), relative)
    ensures ok ==> d.fed == old(d.fed) + Body(Canon(t), relative)
    decreases Size(t), 1
  {
    match t {
      case File(content) =>
        ok := |content| < LIMIT;
        if ok {
          FeedFrame(d, SIZE, Length(|content|));
          FeedContent(d, content);
          Associative(old(d.fed), Frame(SIZE, Length(|content|)), content);
        }
      case Link(target) =>
        ok := |target| < LIMIT;
        if ok {
          FeedFrame(d, LINK, target);
        }
      case Dir(listed) =>
        ok := VisitDirectory(d, listed, relative);
      case Special =>
        ok := false;
    }
  }

  /** A directory: its entries are counted and visited in name order. */
  method VisitDirectory(d: Digest, listed: Forest, relative: Bytes) returns (ok: bool)
    requires |relative| < LIMIT
    modifies d
    ensures ok <==> Measurable(Canon(Dir(listed)), relative)
    ensures ok ==> d.fed == old(d.fed) + Body(Canon(Dir(listed)), relative)
    decreases 1 + ForestSize(listed), 0
  {
    var children := Sorted(listed);
    SizeOfSorted(listed);
    CanonOfSorted(listed);
    CountOfCanon(children);
    ok := Count(children) < LIMIT;
    if ok {
      FeedFrame(d, CHILDREN, Length(Count(children)));
      ok := VisitChildren(d, children, relative);
      Associative(old(d.fed), Frame(CHILDREN, Length(Count(children))), EncodeForest(CanonForest(children), relative));
    }
  }

  /** The loop over a directory's entries. */
  method VisitChildren(d: Digest, children: Forest, relative: Bytes) returns (ok: bool)
    modifies d
    ensures ok <==> MeasurableForest(CanonForest(children), relative)
    ensures ok ==> d.fed == old(d.fed) + EncodeForest(CanonForest(children), relative)
    decreases ForestSize(children), 4
  {
    var f := children;
    while f.Entry?
      invariant MeasurableForest(CanonForest(children), relative) <==> MeasurableForest(CanonForest(f), relative)
      invariant d.fed + EncodeForest(CanonForest(f), relative) == old(d.fed) + EncodeForest(CanonForest(children), relative)
      invariant ForestSize(f) <= ForestSize(children)
      decreases ForestSize(f)
    {
      var path := ChildPath(relative, f.name);
      ghost var before := d.fed;
      ok := Visit(d, f.tree, path);
      if !ok {
        return;
      }
      Associative(before, Encode(Canon(f.tree), path), EncodeForest(CanonForest(f.rest), relative));
      f := f.rest;
    }
    ok := true;
  }

  // ------------------------------------------------------------------ the properties

  function FromBytes(b: Bytes): nat {
    if b == [] then 0 else FromBytes(b[..|b| - 1]) * 256 + b[|b| - 1]
  }

  function Power(width: nat): nat {
    if width == 0 then 1 else 256 * Power(width - 1)
  }

  lemma {:induction false} BytesRoundTrip(n: nat, width: nat)
    requires n < Power(width)
    ensures FromBytes(ToBytes(n, width)) == n
  {
    if width > 0 {
      BytesRoundTrip(n / 256, width - 1);
      assert ToBytes(n, width)[..width - 1] == ToBytes(n / 256, width - 1);
    }
  }

  lemma LengthsDecode(m: nat, n: nat)
    requires m < LIMIT && n < LIMIT && Length(m) == Length(n)
    ensures m == n
  {
    assert Power(2) == 0x1_0000 && Power(4) == 0x1_0000_0000 && Power(6) == 0x1_0000_0000_0000 && Power(8) == LIMIT;
    BytesRoundTrip(m, 8);
    BytesRoundTrip(n, 8);
  }

  lemma Cancel(a: Bytes, b: Bytes, r: Bytes, s: Bytes)
    requires a + r == b + s && |a| == |b|
    ensures a == b && r == s
  {
    assert a == (a + r)[..|a|] && b == (b + s)[..|b|];
    assert r == (a + r)[|a|..] && s == (b + s)[|b|..];
  }

  /** A frame can be read off the front of a stream in only one way. */
  lemma FrameDecodes(tag: Bytes, v: Bytes, w: Bytes, r: Bytes, s: Bytes)
    requires |v| < LIMIT && |w| < LIMIT && Frame(tag, v) + r == Frame(tag, w) + s
    ensures v == w && r == s
  {
    var head := ToBytes(|tag|, 2) + tag;
    assert Frame(tag, v) + r == head + (Length(|v|) + (v + r));
    assert Frame(tag, w) + s == head + (Length(|w|) + (w + s));
    Cancel(head, head, Length(|v|) + (v + r), Length(|w|) + (w + s));
    Cancel(Length(|v|), Length(|w|), v + r, w + s);
    LengthsDecode(|v|, |w|);
    Cancel(v, w, r, s);
  }

  /** The same for a frame with more of the same entry behind it. */
  lemma FramedDecodes(tag: Bytes, v: Bytes, w: Bytes, x: Bytes, y: Bytes, r: Bytes, s: Bytes)
    requires |v| < LIMIT && |w| < LIMIT && (Frame(tag, v) + x) + r == (Frame(tag, w) + y) + s
    ensures v == w && x + r == y + s
  {
    Associative(Frame(tag, v), x, r);
    Associative(Frame(tag, w), y, s);
    FrameDecodes(tag, v, w, x + r, y + s);
  }

  lemma ModesDiffer(t: Tree, u: Tree)
    requires ToBytes(ModeOf(t), 4) == ToBytes(ModeOf(u), 4)
    ensures ModeOf(t) == ModeOf(u)
  {
    assert Power(2) == 0x1_0000 && Power(4) == 0x1_0000_0000;
    BytesRoundTrip(ModeOf(t), 4);
    BytesRoundTrip(ModeOf(u), 4);
  }

  lemma ChildPathDecodes(relative: Bytes, m: Bytes, n: Bytes)
    requires ChildPath(relative, m) == ChildPath(relative, n)
    ensures m == n
  {
    if relative != [] {
      Cancel(relative + [SLASH], relative + [SLASH], m, n);
    }
  }

  /** The stream is prefix-free and determines the tree: two measurable entries whose streams
      agree, whatever follows them, have the same path and are equal. */
  lemma {:induction false} StreamDecodes(t: Tree, u: Tree, p: Bytes, q: Bytes, r: Bytes, s: Bytes)
    requires Measurable(t, p) && Measurable(u, q)
    requires Encode(t, p) + r == Encode(u, q) + s
    ensures p == q && t == u && r == s
    decreases t, 1
  {
    FramedDecodes(ENTRY, p, q, Typed(t, p), Typed(u, q), r, s);
    FramedDecodes(MODE, ToBytes(ModeOf(t), 4), ToBytes(ModeOf(u), 4), Body(t, p), Body(u, q), r, s);
    ModesDiffer(t, u);
    match t {
      case File(_) => FileDecodes(t, u, p, r, s);
      case Link(_) => FrameDecodes(LINK, t.target, u.target, r, s);
      case Dir(_) => DirDecodes(t, u, p, r, s);
    }
  }

  lemma FileDecodes(t: Tree, u: Tree, relative: Bytes, r: Bytes, s: Bytes)
    requires Measurable(t, relative) && Measurable(u, relative) && t.File? && u.File?
    requires Body(t, relative) + r == Body(u, relative) + s
    ensures t == u && r == s
  {
    FramedDecodes(SIZE, Length(|t.content|), Length(|u.content|), t.content, u.content, r, s);
    LengthsDecode(|t.content|, |u.content|);
    Cancel(t.content, u.content, r, s);
  }

  lemma {:induction false} DirDecodes(t: Tree, u: Tree, relative: Bytes, r: Bytes, s: Bytes)
    requires Measurable(t, relative) && Measurable(u, relative) && t.Dir? && u.Dir?
    requires Body(t, relative) + r == Body(u, relative) + s
    ensures t == u && r == s
    decreases t, 0
  {
    FramedDecodes(CHILDREN, Length(Count(t.children)), Length(Count(u.children)),
                  EncodeForest(t.children, relative), EncodeForest(u.children, relative), r, s);
    LengthsDecode(Count(t.children), Count(u.children));
    ForestDecodes(t.children, u.children, relative, r, s);
  }

  lemma {:induction false} ForestDecodes(f: Forest, g: Forest, relative: Bytes, r: Bytes, s: Bytes)
    requires MeasurableForest(f, relative) && MeasurableForest(g, relative) && Count(f) == Count(g)
    requires EncodeForest(f, relative) + r == EncodeForest(g, relative) + s
    ensures f == g && r == s
    decreases f, 0
  {
    if f.Entry? {
      var p, q := ChildPath(relative, f.name), ChildPath(relative, g.name);
      var a, b := EncodeForest(f.rest, relative), EncodeForest(g.rest, relative);
      Associative(Encode(f.tree, p), a, r);
      Associative(Encode(g.tree, q), b, s);
      StreamDecodes(f.tree, g.tree, p, q, a + r, b + s);
      ChildPathDecodes(relative, f.name, g.name);
      ForestDecodes(f.rest, g.rest, relative, r, s);
    } else {
      assert [] + r == r && [] + s == s;
    }
  }

  /** `_entry_fingerprint`: the entry's own name has no part in it. */
  method EntryFingerprint(t: Tree, hash: Bytes -> string) returns (ok: bool, fingerprint: string)
    ensures ok <==> Measurable(Canon(t), [])
    ensures ok ==> fingerprint == hash(Encode(Canon(t), []))
  {
    var d := new Digest();
    ok := Visit(d, t, []);
    assert [] + Encode(Canon(t), []) == Encode(Canon(t), []);
    fingerprint := if ok then hash(d.fed) else "";
  }

  /** Unless the hash collides on these very streams, equal fingerprints mean equal trees, up to the
      order of listing, and conversely. */
  lemma FingerprintIdentifies(t: Tree, u: Tree, hash: Bytes -> string)
    requires Measurable(Canon(t), []) && Measurable(Canon(u), [])
    requires hash(Encode(Canon(t), [])) == hash(Encode(Canon(u), [])) ==> Encode(Canon(t), []) == Encode(Canon(u), [])
    ensures hash(Encode(Canon(t), [])) == hash(Encode(Canon(u), [])) <==> Canon(t) == Canon(u)
  {
    if hash(Encode(Canon(t), [])) == hash(Encode(Canon(u), [])) {
      assert Encode(Canon(t), []) + [] == Encode(Canon(u), []) + [];
      StreamDecodes(Canon(t), Canon(u), [], [], [], []);
    }
  }
}
