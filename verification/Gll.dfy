/**
 The checker for command documents, from token lists onward.  Case folding and the test for
 a blank message are parameters.
 */
module Gll {
  import opened Options
  import opened GllOperations

  const MAX_WORKS := 25

  datatype Text = Text(fold: string -> string, blank: string -> bool)

  datatype Statement =
    | Blank
    | Version
    | Message(value: string)
    | Reason(value: string)
    | ExpectHead(value: string)
    | Command(op: Operation)

  datatype Document = Document(message: string, reason: Option<string>, expectedHead: Option<string>, operations: seq<Operation>)

  // ------------------------------------------------------------------------ one line

  /** The tokens of one line; None stands for every syntax error. */
  function Parse(tokens: seq<string>): Option<Statement> {
    if tokens == [] then Some(Blank)
    else if tokens == ["version", "1"] then Some(Version)
    else if tokens[0] in {"message", "reason", "expect-head"} then
      if |tokens| != 2 then None
      else if tokens[0] == "message" then Some(Message(tokens[1]))
      else if tokens[0] == "reason" then Some(Reason(tokens[1]))
      else Some(ExpectHead(tokens[1]))
    else if |tokens| < 3 || tokens[0] != "work" then None
    else
      var action := ParseAction(tokens[2..]);
      if action.None? then None else Some(Command(Operation(tokens[1], action.value)))
  }

  function ParseAction(tokens: seq<string>): Option<Action>
    requires tokens != []
  {
    if tokens[0] == "trash" then
      if |tokens| != 1 then None else Some(Trash)
    else if tokens[0] == "restore" then
      if |tokens| == 1 then Some(Restore(None))
      else if |tokens| == 3 && tokens[1] == "reason" then Some(Restore(Some(tokens[2])))
      else None
    else if tokens[0] == "favorite" then
      if |tokens| == 2 && tokens[1] in {"on", "off"} then Some(Favorite(tokens[1] == "on")) else None
    else if tokens[0] == "tag" then
      if |tokens| != 3 || tokens[1] !in {"add", "remove"} then None
      else if tokens[1] == "add" then Some(TagAdd(tokens[2]))
      else Some(TagRemove(tokens[2]))
    else None
  }

  /** The one way to write a statement. */
  function Written(s: Statement): seq<string> {
    match s
    case Blank => []
    case Version => ["version", "1"]
    case Message(v) => ["message", v]
    case Reason(v) => ["reason", v]
    case ExpectHead(v) => ["expect-head", v]
    case Command(op) => ["work", op.work] + WrittenAction(op.action)
  }

  function WrittenAction(a: Action): seq<string> {
    match a
    case Trash => ["trash"]
    case Restore(reason) => if reason.None? then ["restore"] else ["restore", "reason", reason.value]
    case Favorite(v) => ["favorite", if v then "on" else "off"]
    case TagAdd(t) => ["tag", "add", t]
    case TagRemove(t) => ["tag", "remove", t]
  }

  lemma ActionRoundTrip(tokens: seq<string>)
    requires tokens != [] && ParseAction(tokens).Some?
    ensures WrittenAction(ParseAction(tokens).value) == tokens
  {
  }

  lemma WrittenActionParses(a: Action)
    ensures WrittenAction(a) != [] && ParseAction(WrittenAction(a)) == Some(a)
  {
  }

  /** Every accepted line is written in exactly one way, and every statement can be written. */
  lemma LineRoundTrip(tokens: seq<string>, s: Statement)
    ensures Parse(tokens) == Some(s) <==> tokens == Written(s)
  {
    if Parse(tokens) == Some(s) && s.Command? {
      ActionRoundTrip(tokens[2..]);
      assert tokens == ["work", tokens[1]] + tokens[2..];
    }
    if tokens == Written(s) && s.Command? {
      WrittenActionParses(s.op.action);
      assert tokens[2..] == WrittenAction(s.op.action);
    }
  }

  /** What the words mean. */
  lemma WordsMean(work: string, text: string)
    ensures Parse(["version", "1"]) == Some(Version) && Parse(["message", text]) == Some(Message(text))
    ensures Parse(["reason", text]) == Some(Reason(text)) && Parse(["expect-head", text]) == Some(ExpectHead(text))
    ensures Parse(["work", work, "trash"]) == Some(Command(Operation(work, Trash)))
    ensures Parse(["work", work, "restore"]) == Some(Command(Operation(work, Restore(None))))
    ensures Parse(["work", work, "restore", "reason", text]) == Some(Command(Operation(work, Restore(Some(text)))))
    ensures Parse(["work", work, "favorite", "on"]) == Some(Command(Operation(work, Favorite(true))))
    ensures Parse(["work", work, "favorite", "off"]) == Some(Command(Operation(work, Favorite(false))))
    ensures Parse(["work", work, "tag", "add", text]) == Some(Command(Operation(work, TagAdd(text))))
    ensures Parse(["work", work, "tag", "remove", text]) == Some(Command(Operation(work, TagRemove(text))))
  {
    LineRoundTrip(["work", work, "trash"], Command(Operation(work, Trash)));
    LineRoundTrip(["work", work, "restore"], Command(Operation(work, Restore(None))));
    LineRoundTrip(["work", work, "restore", "reason", text], Command(Operation(work, Restore(Some(text)))));
    LineRoundTrip(["work", work, "favorite", "on"], Command(Operation(work, Favorite(true))));
    LineRoundTrip(["work", work, "favorite", "off"], Command(Operation(work, Favorite(false))));
    LineRoundTrip(["work", work, "tag", "add", text], Command(Operation(work, TagAdd(text))));
    LineRoundTrip(["work", work, "tag", "remove", text], Command(Operation(work, TagRemove(text))));
  }

  // ----------------------------------------------------------------- whole documents

  /** Two operations on one work that touch the same thing. */
  predicate Clash(text: Text, a: Operation, b: Operation) {
    a.work == b.work && SameFamily(text.fold, a.action, b.action)
  }

  /** Statements that cannot stand in one document. */
  predicate Conflict(text: Text, s: Statement, t: Statement) {
    match s
    case Blank => false
    case Version => t.Version?
    case Message(_) => t.Message?
    case Reason(_) => t.Reason?
    case ExpectHead(_) => t.ExpectHead?
    case Command(op) => t.Command? && Clash(text, op, t.op)
  }

  /** The first `n` lines parse and no two of them conflict. */
  ghost predicate Clean(text: Text, lines: seq<seq<string>>, n: nat)
    requires n <= |lines|
  {
    && (forall i :: 0 <= i < n ==> Parse(lines[i]).Some?)
    && (forall i, j :: 0 <= i < j < n ==> !ConflictAt(text, lines, i, j))
  }

  ghost predicate ConflictAt(text: Text, lines: seq<seq<string>>, i: nat, j: nat)
    requires i < |lines| && j < |lines|
  {
    Parse(lines[i]).Some? && Parse(lines[j]).Some? && Conflict(text, Parse(lines[i]).value, Parse(lines[j]).value)
  }

  ghost predicate Says(lines: seq<seq<string>>, n: nat, s: Statement)
    requires n <= |lines|
  {
    exists i :: 0 <= i < n && Parse(lines[i]) == Some(s)
  }

  /** The operations of the first `n` lines, in order. */
  function Operations(lines: seq<seq<string>>, n: nat): seq<Operation>
    requires n <= |lines|
  {
    if n == 0 then []
    else
      var s := Parse(lines[n - 1]);
      Operations(lines, n - 1) + if s.Some? && s.value.Command? then [s.value.op] else []
  }

  function Works(ops: seq<Operation>): set<string> {
    set op | op in ops :: op.work
  }

  /** What a document must be. */
  ghost predicate WellFormed(text: Text, lines: seq<seq<string>>) {
    && Clean(text, lines, |lines|)
    && Says(lines, |lines|, Version)
    && (exists v :: Says(lines, |lines|, Message(v)) && !text.blank(v))
    && Operations(lines, |lines|) != []
    && |Works(Operations(lines, |lines|))| <= 25
  }

  /** At most one line begins with this word. */
  ghost predicate Once(lines: seq<seq<string>>, word: string) {
    forall i, j :: 0 <= i < j < |lines| ==> !BothBegin(lines[i], lines[j], word)
  }

  predicate BothBegin(x: seq<string>, y: seq<string>, word: string) {
    x != [] && y != [] && x[0] == word && y[0] == word
  }

  /** No work has its visibility, its favourite mark or one tag set twice. */
  ghost predicate SetOnce(text: Text, lines: seq<seq<string>>) {
    forall i, j :: 0 <= i < j < |lines| ==> !BothSet(text, Parse(lines[i]), Parse(lines[j]))
  }

  predicate BothSet(text: Text, s: Option<Statement>, t: Option<Statement>) {
    && s.Some? && s.value.Command? && t.Some? && t.value.Command? && s.value.op.work == t.value.op.work
    && var a, b := s.value.op.action, t.value.op.action;
       || ((a.Trash? || a.Restore?) && (b.Trash? || b.Restore?))
       || (a.Favorite? && b.Favorite?)
       || ((a.TagAdd? || a.TagRemove?) && (b.TagAdd? || b.TagRemove?) && text.fold(a.tag) == text.fold(b.tag))
  }

  lemma FirstWord(tokens: seq<string>, s: Statement)
    requires Parse(tokens) == Some(s)
    ensures match s
            case Blank => tokens == []
            case Version => tokens != [] && tokens[0] == "version"
            case Message(_) => tokens != [] && tokens[0] == "message"
            case Reason(_) => tokens != [] && tokens[0] == "reason"
            case ExpectHead(_) => tokens != [] && tokens[0] == "expect-head"
            case Command(_) => tokens != [] && tokens[0] == "work"
  {
  }

  lemma ConflictIff(text: Text, x: seq<string>, y: seq<string>)
    requires Parse(x).Some? && Parse(y).Some?
    ensures Conflict(text, Parse(x).value, Parse(y).value) <==>
            || BothBegin(x, y, "version") || BothBegin(x, y, "message") || BothBegin(x, y, "reason") || BothBegin(x, y, "expect-head")
            || BothSet(text, Parse(x), Parse(y))
  {
    FirstWord(x, Parse(x).value);
    FirstWord(y, Parse(y).value);
  }

  /** A document is accepted exactly when every line can be read, each heading stands once, nothing is set
      twice, and there is a message that is not blank and some operation, on 25 works at most. */
  lemma WellFormedIff(text: Text, lines: seq<seq<string>>)
    ensures WellFormed(text, lines) <==>
            && (forall i :: 0 <= i < |lines| ==> Parse(lines[i]).Some?)
            && Once(lines, "version") && Once(lines, "message") && Once(lines, "reason") && Once(lines, "expect-head")
            && SetOnce(text, lines)
            && ["version", "1"] in lines && (exists v :: ["message", v] in lines && !text.blank(v))
            && Operations(lines, |lines|) != [] && |Works(Operations(lines, |lines|))| <= 25
  {
    CleanIff(text, lines);
    SaidIff(lines, Version);
    forall v ensures Says(lines, |lines|, Message(v)) <==> ["message", v] in lines {
      SaidIff(lines, Message(v));
    }
  }

  lemma SaidIff(lines: seq<seq<string>>, s: Statement)
    ensures Says(lines, |lines|, s) <==> Written(s) in lines
  {
    forall i | 0 <= i < |lines| ensures Parse(lines[i]) == Some(s) <==> lines[i] == Written(s) {
      LineRoundTrip(lines[i], s);
    }
  }

  lemma CleanIff(text: Text, lines: seq<seq<string>>)
    ensures Clean(text, lines, |lines|) <==>
            && (forall i :: 0 <= i < |lines| ==> Parse(lines[i]).Some?)
            && Once(lines, "version") && Once(lines, "message") && Once(lines, "reason") && Once(lines, "expect-head")
            && SetOnce(text, lines)
  {
    forall i, j | 0 <= i < j < |lines| && Parse(lines[i]).Some? && Parse(lines[j]).Some?
      ensures ConflictAt(text, lines, i, j) <==>
              || BothBegin(lines[i], lines[j], "version") || BothBegin(lines[i], lines[j], "message")
              || BothBegin(lines[i], lines[j], "reason") || BothBegin(lines[i], lines[j], "expect-head")
              || BothSet(text, Parse(lines[i]), Parse(lines[j]))
    {
      ConflictIff(text, lines[i], lines[j]);
    }
  }

  // ---------------------------------------------------------------- conflict keys

  function Key(text: Text, a: Action): string {
    match a
    case Trash => "trash"
    case Restore(_) => "restore"
    case Favorite(_) => "favorite"
    case TagAdd(tag) => "tag-add:" + text.fold(tag)
    case TagRemove(tag) => "tag-remove:" + text.fold(tag)
  }

  function Opposite(text: Text, a: Action): string {
    match a
    case Trash => "restore"
    case Restore(_) => "trash"
    case Favorite(_) => "favorite"
    case TagAdd(tag) => "tag-remove:" + text.fold(tag)
    case TagRemove(tag) => "tag-add:" + text.fold(tag)
  }

  lemma PrefixedEqual(prefix: string, a: string, b: string)
    ensures prefix + a == prefix + b <==> a == b
  {
    assert (prefix + a)[|prefix|..] == a && (prefix + b)[|prefix|..] == b;
  }

  lemma KeysOfTags(text: Text, a: Action, b: Action)
    requires (a.TagAdd? || a.TagRemove?) && (b.TagAdd? || b.TagRemove?)
    ensures (Key(text, a) == Key(text, b) || Opposite(text, a) == Key(text, b)) <==> text.fold(a.tag) == text.fold(b.tag)
  {
    var x, y := text.fold(a.tag), text.fold(b.tag);
    PrefixedEqual("tag-add:", x, y);
    PrefixedEqual("tag-remove:", x, y);
    assert ("tag-add:" + x)[4] != ("tag-remove:" + y)[4] && ("tag-remove:" + x)[4] != ("tag-add:" + y)[4];
  }

  lemma KeysOfOthers(text: Text, a: Action, b: Action)
    requires !(a.TagAdd? || a.TagRemove?) && (b.TagAdd? || b.TagRemove?)
    ensures Key(text, a) != Key(text, b) && Opposite(text, a) != Key(text, b)
    ensures Key(text, b) != Key(text, a) && Opposite(text, b) != Key(text, a)
  {
    assert Key(text, b)[..4] == "tag-" == Opposite(text, b)[..4];
    assert Key(text, a)[..4] != "tag-" && Opposite(text, a)[..4] != "tag-" by {
      assert "tag-"[1] == 'a' && "tag-"[0] == 't';
      assert "trash"[1] == 'r' && "restore"[0] == 'r' && "favorite"[0] == 'f';
    }
  }

  /** The two key tests are the family test. */
  lemma KeysAreFamilies(text: Text, a: Action, b: Action)
    ensures (Key(text, a) == Key(text, b) || Opposite(text, a) == Key(text, b)) <==> SameFamily(text.fold, a, b)
  {
    var s, t := a.TagAdd? || a.TagRemove?, b.TagAdd? || b.TagRemove?;
    if s && t {
      KeysOfTags(text, a, b);
    } else if s {
      KeysOfOthers(text, b, a);
    } else if t {
      KeysOfOthers(text, a, b);
    }
  }

  // ------------------------------------------------------------------- reading line by line

  /** The variables of `parse_gll`. */
  datatype Draft = Draft(
    version: bool,
    message: Option<string>,
    reason: Option<string>,
    expected: Option<string>,
    operations: seq<Operation>,
    subjects: map<string, set<string>>)

  ghost predicate HasKey(text: Text, ops: seq<Operation>, work: string, key: string) {
    exists i :: 0 <= i < |ops| && ops[i].work == work && Key(text, ops[i].action) == key
  }

  /** The seen-sets hold the works and the conflict keys of the operations so far. */
  ghost predicate Tracks(text: Text, ops: seq<Operation>, subjects: map<string, set<string>>) {
    && subjects.Keys == Works(ops)
    && forall w, k :: w in subjects ==> (k in subjects[w] <==> HasKey(text, ops, w, k))
  }

  ghost predicate Headers(lines: seq<seq<string>>, n: nat, d: Draft)
    requires n <= |lines|
  {
    && (d.version <==> Says(lines, n, Version))
    && (forall v :: Says(lines, n, Message(v)) <==> d.message == Some(v))
    && (forall v :: Says(lines, n, Reason(v)) <==> d.reason == Some(v))
    && (forall v :: Says(lines, n, ExpectHead(v)) <==> d.expected == Some(v))
  }

  /** The draft after the first `n` lines. */
  ghost predicate Reads(text: Text, lines: seq<seq<string>>, n: nat, d: Draft)
    requires n <= |lines|
  {
    && Clean(text, lines, n)
    && Headers(lines, n, d)
    && d.operations == Operations(lines, n)
    && Tracks(text, d.operations, d.subjects)
  }

  lemma SaysNext(lines: seq<seq<string>>, n: nat, s: Statement)
    requires n < |lines|
    ensures Says(lines, n + 1, s) <==> Says(lines, n, s) || Parse(lines[n]) == Some(s)
  {
    if Says(lines, n, s) {
      var i :| 0 <= i < n && Parse(lines[i]) == Some(s);
      assert 0 <= i < n + 1;
    }
  }

  lemma SpoiledBy(text: Text, lines: seq<seq<string>>, n: nat, s: Statement)
    requires n < |lines| && Says(lines, n, s)
    requires Parse(lines[n]).Some? && Conflict(text, s, Parse(lines[n]).value)
    ensures !Clean(text, lines, |lines|)
  {
    var i :| 0 <= i < n && Parse(lines[i]) == Some(s);
    assert ConflictAt(text, lines, i, n);
  }

  lemma CleanNext(text: Text, lines: seq<seq<string>>, n: nat)
    requires n < |lines| && Clean(text, lines, n) && Parse(lines[n]).Some?
    requires forall s :: Says(lines, n, s) ==> !Conflict(text, s, Parse(lines[n]).value)
    ensures Clean(text, lines, n + 1)
  {
    forall i, j | 0 <= i < j < n + 1 ensures !ConflictAt(text, lines, i, j) {
      if j == n {
        assert Says(lines, n, Parse(lines[i]).value);
      }
    }
  }

  lemma {:induction false} OperationsAreSaid(lines: seq<seq<string>>, n: nat, op: Operation)
    requires n <= |lines|
    ensures op in Operations(lines, n) <==> Says(lines, n, Command(op))
  {
    if n > 0 {
      OperationsAreSaid(lines, n - 1, op);
      SaysNext(lines, n - 1, Command(op));
    }
  }

  lemma FamiliesAreSymmetric(text: Text, a: Action, b: Action)
    ensures SameFamily(text.fold, a, b) <==> SameFamily(text.fold, b, a)
  {
  }

  /** The membership tests find exactly the operations that clash. */
  lemma KeysFindClashes(text: Text, ops: seq<Operation>, subjects: map<string, set<string>>, op: Operation)
    requires Tracks(text, ops, subjects)
    ensures (op.work in subjects
             && (Key(text, op.action) in subjects[op.work] || Opposite(text, op.action) in subjects[op.work]))
            <==> exists i :: 0 <= i < |ops| && Clash(text, ops[i], op)
  {
    if op.work in subjects && (Key(text, op.action) in subjects[op.work] || Opposite(text, op.action) in subjects[op.work]) {
      var k := if Key(text, op.action) in subjects[op.work] then Key(text, op.action) else Opposite(text, op.action);
      assert HasKey(text, ops, op.work, k);
      var i :| 0 <= i < |ops| && ops[i].work == op.work && Key(text, ops[i].action) == k;
      KeysAreFamilies(text, op.action, ops[i].action);
      FamiliesAreSymmetric(text, op.action, ops[i].action);
      assert Clash(text, ops[i], op);
    }
    if i :| 0 <= i < |ops| && Clash(text, ops[i], op) {
      KeysAreFamilies(text, op.action, ops[i].action);
      FamiliesAreSymmetric(text, op.action, ops[i].action);
      assert ops[i] in ops && op.work in Works(ops);
      assert HasKey(text, ops, op.work, Key(text, ops[i].action));
    }
  }

  lemma HasKeyNext(text: Text, ops: seq<Operation>, op: Operation, w: string, k: string)
    ensures HasKey(text, ops + [op], w, k) <==> HasKey(text, ops, w, k) || (op.work == w && Key(text, op.action) == k)
  {
    var more := ops + [op];
    if HasKey(text, ops, w, k) {
      var i :| 0 <= i < |ops| && ops[i].work == w && Key(text, ops[i].action) == k;
      assert more[i] == ops[i];
    }
    if op.work == w && Key(text, op.action) == k {
      assert more[|ops|] == op;
    }
  }

  lemma KeyNeedsWork(text: Text, ops: seq<Operation>, w: string, k: string)
    ensures HasKey(text, ops, w, k) ==> w in Works(ops)
  {
    if i :| 0 <= i < |ops| && ops[i].work == w && Key(text, ops[i].action) == k {
      assert ops[i] in ops;
    }
  }

  lemma TracksNext(text: Text, ops: seq<Operation>, subjects: map<string, set<string>>, op: Operation)
    requires Tracks(text, ops, subjects)
    ensures var seen := if op.work in subjects then subjects[op.work] else {};
            Tracks(text, ops + [op], subjects[op.work := seen + {Key(text, op.action)}])
  {
    var seen := if op.work in subjects then subjects[op.work] else {};
    var more := subjects[op.work := seen + {Key(text, op.action)}];
    forall w, k | w in more ensures k in more[w] <==> HasKey(text, ops + [op], w, k) {
      HasKeyNext(text, ops, op, w, k);
      KeyNeedsWork(text, ops, w, k);
    }
    assert more.Keys == Works(ops + [op]);
  }

  /** The draft with one more statement that is not an operation. */
  function WithHeader(d: Draft, s: Statement): Draft {
    match s
    case Version => d.(version := true)
    case Message(v) => d.(message := Some(v))
    case Reason(v) => d.(reason := Some(v))
    case ExpectHead(v) => d.(expected := Some(v))
    case _ => d
  }

  /** Something of the same kind came before. */
  predicate Repeated(d: Draft, s: Statement) {
    match s
    case Version => d.version
    case Message(_) => d.message.Some?
    case Reason(_) => d.reason.Some?
    case ExpectHead(_) => d.expected.Some?
    case _ => false
  }

  lemma HeadersNext(lines: seq<seq<string>>, n: nat, d: Draft, s: Statement)
    requires n < |lines| && Headers(lines, n, d) && Parse(lines[n]) == Some(s) && !Repeated(d, s)
    ensures Headers(lines, n + 1, WithHeader(d, s))
  {
    var e := WithHeader(d, s);
    SaysNext(lines, n, Version);
    forall v ensures Says(lines, n + 1, Message(v)) <==> e.message == Some(v) {
      SaysNext(lines, n, Message(v));
    }
    forall v ensures Says(lines, n + 1, Reason(v)) <==> e.reason == Some(v) {
      SaysNext(lines, n, Reason(v));
    }
    forall v ensures Says(lines, n + 1, ExpectHead(v)) <==> e.expected == Some(v) {
      SaysNext(lines, n, ExpectHead(v));
    }
  }

  lemma RepeatedSpoils(text: Text, lines: seq<seq<string>>, n: nat, d: Draft, s: Statement)
    requires n < |lines| && Headers(lines, n, d) && Parse(lines[n]) == Some(s) && Repeated(d, s)
    ensures !Clean(text, lines, |lines|)
  {
    var t := match s
      case Version => Version
      case Message(_) => Message(d.message.value)
      case Reason(_) => Reason(d.reason.value)
      case ExpectHead(_) => ExpectHead(d.expected.value)
      case _ => s;
    assert Says(lines, n, t);
    SpoiledBy(text, lines, n, t);
  }

  lemma HeaderIsClean(text: Text, lines: seq<seq<string>>, n: nat, d: Draft, s: Statement)
    requires n < |lines| && Clean(text, lines, n) && Headers(lines, n, d)
    requires Parse(lines[n]) == Some(s) && !s.Command? && !Repeated(d, s)
    ensures Clean(text, lines, n + 1)
  {
    CleanNext(text, lines, n);
  }

  lemma CommandIsClean(text: Text, lines: seq<seq<string>>, n: nat, op: Operation)
    requires n < |lines| && Clean(text, lines, n) && Parse(lines[n]) == Some(Command(op))
    requires forall other :: other in Operations(lines, n) ==> !Clash(text, other, op)
    ensures Clean(text, lines, n + 1)
  {
    forall s | Says(lines, n, s) ensures !Conflict(text, s, Command(op)) {
      if s.Command? {
        OperationsAreSaid(lines, n, s.op);
      }
    }
    CleanNext(text, lines, n);
  }

  method TakeHeader(text: Text, d: Draft, s: Statement, ghost lines: seq<seq<string>>, ghost n: nat) returns (next: Option<Draft>)
    requires n < |lines| && Reads(text, lines, n, d) && Parse(lines[n]) == Some(s) && !s.Command?
    ensures next.None? ==> !Clean(text, lines, |lines|)
    ensures next.Some? ==> Reads(text, lines, n + 1, next.value)
  {
    if Repeated(d, s) {
      RepeatedSpoils(text, lines, n, d, s);
      return None;
    }
    HeadersNext(lines, n, d, s);
    HeaderIsClean(text, lines, n, d, s);
    assert Operations(lines, n + 1) == Operations(lines, n);
    next := Some(WithHeader(d, s));
  }

  lemma CommandSpoils(text: Text, d: Draft, op: Operation, lines: seq<seq<string>>, n: nat, i: nat)
    requires n < |lines| && Reads(text, lines, n, d) && Parse(lines[n]) == Some(Command(op))
    requires i < |d.operations| && Clash(text, d.operations[i], op)
    ensures !Clean(text, lines, |lines|)
  {
    OperationsAreSaid(lines, n, d.operations[i]);
    SpoiledBy(text, lines, n, Command(d.operations[i]));
  }

  function WithCommand(text: Text, d: Draft, op: Operation): Draft {
    var seen := if op.work in d.subjects then d.subjects[op.work] else {};
    d.(operations := d.operations + [op], subjects := d.subjects[op.work := seen + {Key(text, op.action)}])
  }

  lemma CommandReads(text: Text, d: Draft, op: Operation, lines: seq<seq<string>>, n: nat)
    requires n < |lines| && Reads(text, lines, n, d) && Parse(lines[n]) == Some(Command(op))
    requires forall i :: 0 <= i < |d.operations| ==> !Clash(text, d.operations[i], op)
    ensures Reads(text, lines, n + 1, WithCommand(text, d, op))
  {
    HeadersNext(lines, n, d, Command(op));
    CommandIsClean(text, lines, n, op);
    TracksNext(text, d.operations, d.subjects, op);
  }

  method TakeCommand(text: Text, d: Draft, op: Operation, ghost lines: seq<seq<string>>, ghost n: nat) returns (next: Option<Draft>)
    requires n < |lines| && Reads(text, lines, n, d) && Parse(lines[n]) == Some(Command(op))
    ensures next.None? ==> !Clean(text, lines, |lines|)
    ensures next.Some? ==> Reads(text, lines, n + 1, next.value)
  {
    KeysFindClashes(text, d.operations, d.subjects, op);
    var seen := if op.work in d.subjects then d.subjects[op.work] else {};
    if Key(text, op.action) in seen || Opposite(text, op.action) in seen {
      ghost var i :| 0 <= i < |d.operations| && Clash(text, d.operations[i], op);
      CommandSpoils(text, d, op, lines, n, i);
      return None;
    }
    CommandReads(text, d, op, lines, n);
    next := Some(WithCommand(text, d, op));
  }

  /** The body of the loop of `parse_gll`. */
  method TakeLine(text: Text, d: Draft, tokens: seq<string>, ghost lines: seq<seq<string>>, ghost n: nat) returns (next: Option<Draft>)
    requires n < |lines| && Reads(text, lines, n, d) && tokens == lines[n]
    ensures next.None? ==> !Clean(text, lines, |lines|)
    ensures next.Some? ==> Reads(text, lines, n + 1, next.value)
  {
    var s := Parse(tokens);
    if s.None? {
      return None;
    }
    if s.value.Command? {
      next := TakeCommand(text, d, s.value.op, lines, n);
    } else {
      next := TakeHeader(text, d, s.value, lines, n);
    }
  }

  const EMPTY := Draft(false, None, None, None, [], map[])

  lemma ReadsNothing(text: Text, lines: seq<seq<string>>)
    ensures Reads(text, lines, 0, EMPTY)
  {
  }

  /** The checks after the loop. */
  predicate Complete(text: Text, d: Draft) {
    && d.version
    && d.message.Some? && !text.blank(d.message.value)
    && d.operations != []
    && |d.subjects| <= MAX_WORKS
  }

  lemma CompleteIff(text: Text, lines: seq<seq<string>>, d: Draft)
    requires Reads(text, lines, |lines|, d)
    ensures WellFormed(text, lines) <==> Complete(text, d)
    ensures d.message.Some? ==> Says(lines, |lines|, Message(d.message.value))
  {
    assert |d.subjects| == |d.subjects.Keys|;
  }

  /** The loop of `parse_gll`. */
  method ReadLines(text: Text, lines: seq<seq<string>>) returns (draft: Option<Draft>)
    ensures draft.None? ==> !Clean(text, lines, |lines|)
    ensures draft.Some? ==> Reads(text, lines, |lines|, draft.value)
  {
    var d := EMPTY;
    ReadsNothing(text, lines);
    var i := 0;
    while i < |lines|
      invariant 0 <= i <= |lines|
      invariant Reads(text, lines, i, d)
    {
      var next := TakeLine(text, d, lines[i], lines, i);
      if next.None? {
        return None;
      }
      d, i := next.value, i + 1;
    }
    draft := Some(d);
  }

  /** `parse_gll`: a document is accepted exactly when it is well formed, and then it is what its
      lines say. */
  method ParseGll(text: Text, lines: seq<seq<string>>) returns (doc: Option<Document>)
    ensures doc.Some? <==> WellFormed(text, lines)
    ensures doc.Some? ==>
              && Says(lines, |lines|, Message(doc.value.message))
              && (forall v :: Says(lines, |lines|, Reason(v)) <==> doc.value.reason == Some(v))
              && (forall v :: Says(lines, |lines|, ExpectHead(v)) <==> doc.value.expectedHead == Some(v))
              && doc.value.operations == Operations(lines, |lines|)
  {
    var d := ReadLines(text, lines);
    if d.None? {
      return None;
    }
    CompleteIff(text, lines, d.value);
    if !Complete(text, d.value) {
      return None;
    }
    doc := Some(Document(d.value.message.value, d.value.reason, d.value.expected, d.value.operations));
  }

  // --------------------------------------------------- what acceptance means for the library

  /** No two operations of one work touch the same thing. */
  ghost predicate NoClash(text: Text, ops: seq<Operation>) {
    forall i, j :: 0 <= i < j < |ops| ==> !Clash(text, ops[i], ops[j])
  }

  lemma NoClashNext(text: Text, ops: seq<Operation>, op: Operation)
    requires NoClash(text, ops) && forall i :: 0 <= i < |ops| ==> !Clash(text, ops[i], op)
    ensures NoClash(text, ops + [op])
  {
  }

  lemma {:induction false} OperationsDoNotClash(text: Text, lines: seq<seq<string>>, n: nat)
    requires n <= |lines| && Clean(text, lines, n)
    ensures NoClash(text, Operations(lines, n))
  {
    if n > 0 {
      OperationsDoNotClash(text, lines, n - 1);
      var before := Operations(lines, n - 1);
      var s := Parse(lines[n - 1]).value;
      if s.Command? {
        forall i | 0 <= i < |before| ensures !Clash(text, before[i], s.op) {
          OperationsAreSaid(lines, n - 1, before[i]);
          var k :| 0 <= k < n - 1 && Parse(lines[k]) == Some(Command(before[i]));
          assert !ConflictAt(text, lines, k, n - 1);
        }
        NoClashNext(text, before, s.op);
      }
    }
  }

  /** The checker's own reading of ids and tags. */
  function Own(text: Text): Norm {
    Norm(id => id, text.fold, why => why)
  }

  lemma NoClashNoneOpposed(text: Text, n: Norm, ops: seq<Operation>)
    requires NoClash(text, ops) && Finer(text, n)
    ensures NoneOpposed(n, ops)
  {
    forall i, j | 0 <= i < j < |ops| ensures !Opposed(n, ops[i], ops[j]) {
      assert !Clash(text, ops[i], ops[j]);
    }
  }

  /** Whatever the normaliser identifies, the checker identifies too. */
  ghost predicate Finer(text: Text, n: Norm) {
    && (forall u, v :: n.work(u) == n.work(v) ==> u == v)
    && (forall a, b :: n.tag(a) == n.tag(b) ==> text.fold(a) == text.fold(b))
  }

  /** The operations of an accepted document give the same library in every order. */
  lemma AcceptedIsOrderIndependent(text: Text, lines: seq<seq<string>>)
    requires WellFormed(text, lines)
    ensures OrderIndependent(Own(text), Operations(lines, |lines|))
  {
    OperationsDoNotClash(text, lines, |lines|);
    NoClashNoneOpposed(text, Own(text), Operations(lines, |lines|));
    OrderIndependentIff(Own(text), Operations(lines, |lines|));
  }

  /** And each of them achieves what it asks for. */
  lemma AcceptedIsAchieved(text: Text, lines: seq<seq<string>>, lib: Library, k: nat)
    requires WellFormed(text, lines) && k < |Operations(lines, |lines|)| && Operations(lines, |lines|)[k].work in lib
    ensures var ops := Operations(lines, |lines|);
            var w, after := ops[k].work, ApplyAll(Own(text), lib, ops);
            w in after && Achieved(Own(text), lib[w], after[w], ops[k].action)
  {
    var ops := Operations(lines, |lines|);
    OperationsDoNotClash(text, lines, |lines|);
    forall i, j | 0 <= i < j < |ops| ensures GllOperations.Apart(Own(text), ops[i], ops[j]) {
      assert !Clash(text, ops[i], ops[j]);
    }
    EachIsAchieved(Own(text), lib, ops, k);
  }

  // ------------------------------------------------ against the server's normalisation

  /** A command that the server accepts has one operation for each work and family, as it reads
      them.  Its plan then has the effect of the operations, one after the other, in any order. */
  lemma ServerAcceptedIsOrderIndependent(n: Norm, lib: Library, ops: seq<Operation>)
    requires Separate(n, ops)
    ensures OrderIndependent(n, ops) && Carry(n, lib, lib, ops) == ApplyAll(n, lib, ops)
  {
    SeparateIsNoneOpposed(n, ops);
    OrderIndependentIff(n, ops);
    PlannedIsSequential(n, lib, ops, ops);
  }

  lemma ServerAcceptedIsAchieved(n: Norm, lib: Library, ops: seq<Operation>, k: nat)
    requires Separate(n, ops) && k < |ops| && n.work(ops[k].work) in lib
    ensures var w, after := n.work(ops[k].work), Carry(n, lib, lib, ops);
            w in after && Achieved(n, lib[w], after[w], ops[k].action)
  {
    PlannedIsSequential(n, lib, ops, ops);
    EachIsAchieved(n, lib, ops, k);
  }

  /** A document made of one operation after another. */
  function Script(message: string, a: Operation, b: Operation): seq<seq<string>> {
    [["version", "1"], ["message", message], Written(Command(a)), Written(Command(b))]
  }

  lemma ScriptParses(message: string, a: Operation, b: Operation)
    ensures var lines := Script(message, a, b);
            && Parse(lines[0]) == Some(Version) && Parse(lines[1]) == Some(Message(message))
            && Parse(lines[2]) == Some(Command(a)) && Parse(lines[3]) == Some(Command(b))
            && Operations(lines, 4) == [a, b]
  {
    var lines := Script(message, a, b);
    LineRoundTrip(lines[2], Command(a));
    LineRoundTrip(lines[3], Command(b));
    assert Operations(lines, 1) == [] && Operations(lines, 2) == [];
    assert Operations(lines, 3) == [a];
  }

  lemma ScriptIsClean(text: Text, message: string, a: Operation, b: Operation)
    requires !Clash(text, a, b)
    ensures Clean(text, Script(message, a, b), 4)
  {
    ScriptParses(message, a, b);
  }

  lemma WorksOfTwo(a: Operation, b: Operation)
    ensures |Works([a, b])| <= 2
  {
    assert Works([a, b]) == {a.work} + {b.work};
  }

  lemma ScriptIsWellFormed(text: Text, message: string, a: Operation, b: Operation)
    requires !text.blank(message) && !Clash(text, a, b)
    ensures WellFormed(text, Script(message, a, b))
  {
    var lines := Script(message, a, b);
    ScriptIsClean(text, message, a, b);
    ScriptParses(message, a, b);
    WorksOfTwo(a, b);
    assert Says(lines, 4, Version) && Says(lines, 4, Message(message));
  }

  lemma OpposedScript(text: Text, n: Norm, message: string, a: Operation, b: Operation)
    requires !text.blank(message) && !Clash(text, a, b) && Opposed(n, a, b)
    ensures WellFormed(text, Script(message, a, b))
    ensures !OrderIndependent(n, Operations(Script(message, a, b), 4))
  {
    ScriptIsWellFormed(text, message, a, b);
    ScriptParses(message, a, b);
    assert [a, b][0] == a && [a, b][1] == b;
    OpposedDepends(n, [a, b], 0, 1);
  }

  /** Every document that the checker accepts is order independent. */
  ghost predicate Suffices(text: Text, n: Norm) {
    forall lines :: WellFormed(text, lines) ==> OrderIndependent(n, Operations(lines, |lines|))
  }

  lemma FinerSuffices(text: Text, n: Norm)
    requires Finer(text, n)
    ensures Suffices(text, n)
  {
    forall lines | WellFormed(text, lines) ensures OrderIndependent(n, Operations(lines, |lines|)) {
      OperationsDoNotClash(text, lines, |lines|);
      NoClashNoneOpposed(text, n, Operations(lines, |lines|));
      OrderIndependentIff(n, Operations(lines, |lines|));
    }
  }

  lemma CoarserFails(text: Text, n: Norm, message: string)
    requires !Finer(text, n) && !text.blank(message)
    ensures !Suffices(text, n)
  {
    if u, v :| n.work(u) == n.work(v) && u != v {
      OpposedScript(text, n, message, Operation(u, Trash), Operation(v, Restore(None)));
    } else {
      var a, b :| n.tag(a) == n.tag(b) && text.fold(a) != text.fold(b);
      OpposedScript(text, n, message, Operation("w", TagAdd(a)), Operation("w", TagRemove(b)));
    }
  }

  /** For ids and tags read in another way, accepting a document guarantees an order-independent
      result exactly when that reading identifies no more than the checker's own. */
  lemma SufficesIff(text: Text, n: Norm, message: string)
    requires !text.blank(message)
    ensures Suffices(text, n) <==> Finer(text, n)
  {
    if Finer(text, n) {
      FinerSuffices(text, n);
    } else {
      CoarserFails(text, n, message);
    }
  }
}
