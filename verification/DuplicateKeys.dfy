/**
 * The duplicate-member detector: one explicit stack of frames over the token
 * stream in place of recursion over the document.
 */
module DuplicateKeys {
  import opened Text
  import opened Json
  import opened Ordering
  import opened DuplicateWalk
  import JsonPointer

  // Raw pointer tokens linked towards the root; rendered only for hits.
  datatype Path = Root | Child(parent: Path, token: string)

  function Location(p: Path): seq<string> {
    match p
    case Root => []
    case Child(parent, token) => Location(parent) + [token]
  }

  datatype Frame = Frame(
    kind: char,
    path: Path,
    keys: set<string>,
    arrayIndex: nat,
    pendingKey: string,
    hasPendingKey: bool)

  function NewFrame(kind: char, path: Path): Frame {
    Frame(kind, path, {}, 0, "", false)
  }

  predicate Closes(frame: Frame, token: Token) {
    && token.Delim? && !frame.hasPendingKey
    && ((frame.kind == '{' && token.c == '}') || (frame.kind == '[' && token.c == ']'))
  }

  function Push(frames: seq<Frame>, token: Token, parent: Path, pathToken: string): seq<Frame> {
    if token == Delim('{') || token == Delim('[')
    then frames + [NewFrame(token.c, Child(parent, pathToken))]
    else frames
  }

  // ---- The scanner's loop, one token at a time, on any token stream. ----

  datatype Scan = Scan(frames: seq<Frame>, hits: seq<Hit>, stopped: bool)

  function Step(s: Scan, token: Token): Scan
    requires s.frames != []
  {
    var n := |s.frames| - 1;
    var top := s.frames[n];
    if Closes(top, token) then s.(frames := s.frames[..n])
    else if top.kind == '{' then
      if !top.hasPendingKey then
        if !token.Str? then s.(stopped := true)
        else
          var key := token.s;
          Scan(s.frames[n := Named(top, key)], s.hits + Repeat(top, key), s.stopped)
      else
        var frames := s.frames[n := top.(pendingKey := "", hasPendingKey := false)];
        s.(frames := Push(frames, token, top.path, top.pendingKey))
    else
      var frames := s.frames[n := top.(arrayIndex := top.arrayIndex + 1)];
      s.(frames := Push(frames, token, top.path, Decimal(top.arrayIndex)))
  }

  function Run(s: Scan, tokens: seq<Token>): Scan
    decreases |tokens|
  {
    if tokens == [] || s.frames == [] || s.stopped then s
    else Run(Step(s, tokens[0]), tokens[1..])
  }

  lemma {:induction false} RunConcat(s: Scan, a: seq<Token>, b: seq<Token>)
    ensures Run(s, a + b) == Run(Run(s, a), b)
    decreases |a|
  {
    if a == [] {
      assert a + b == b;
    } else if s.frames != [] && !s.stopped {
      assert (a + b)[1..] == a[1..] + b;
      RunConcat(Step(s, a[0]), a[1..], b);
    }
  }

  // The top frame is waiting for a value, which will sit below it at `Slot`.
  predicate Waiting(f: Frame) {
    if f.kind == '{' then f.hasPendingKey else f.kind == '[' && !f.hasPendingKey
  }

  function Slot(f: Frame): string {
    if f.kind == '{' then f.pendingKey else Decimal(f.arrayIndex)
  }

  function Filled(f: Frame): Frame {
    if f.kind == '{' then f.(pendingKey := "", hasPendingKey := false)
    else f.(arrayIndex := f.arrayIndex + 1)
  }

  function OneStep(s: Scan, token: Token): (r: Scan)
    requires s.frames != [] && !s.stopped
    ensures Run(s, [token]) == r
  {
    assert [token][1..] == [];
    Step(s, token)
  }

  lemma RunScalar(below: seq<Frame>, top: Frame, hits: seq<Hit>, token: Token)
    requires Waiting(top) && !token.Delim?
    ensures Run(Scan(below + [top], hits, false), [token]) == Scan(below + [Filled(top)], hits, false)
  {
    var s := Scan(below + [top], hits, false);
    assert OneStep(s, token).frames == below + [Filled(top)];
  }

  lemma RunOpen(below: seq<Frame>, top: Frame, hits: seq<Hit>, open: Token)
    requires Waiting(top) && (open == Delim('{') || open == Delim('['))
    ensures Run(Scan(below + [top], hits, false), [open]) ==
            Scan(below + [Filled(top)] + [NewFrame(open.c, Child(top.path, Slot(top)))], hits, false)
  {
    var s := Scan(below + [top], hits, false);
    assert s.frames[|s.frames| - 1 := Filled(top)] == below + [Filled(top)];
    assert OneStep(s, open) == Step(s, open);
  }

  lemma RunClose(below: seq<Frame>, top: Frame, hits: seq<Hit>, close: Token)
    requires Closes(top, close)
    ensures Run(Scan(below + [top], hits, false), [close]) == Scan(below, hits, false)
  {
    var s := Scan(below + [top], hits, false);
    assert s.frames[..|s.frames| - 1] == below;
    assert OneStep(s, close) == Step(s, close);
  }

  // A container: what its body does between the push and the pop of its frame.
  lemma RunContainer(below: seq<Frame>, top: Frame, hits: seq<Hit>, v: Value, body: seq<Token>,
                     inner: Frame, hits': seq<Hit>)
    requires Waiting(top) && (v.JArr? || v.JObj?)
    requires body == if v.JArr? then ItemTokens(v.items) else MemberTokens(v.members)
    requires Closes(inner, Tokens(v)[|Tokens(v)| - 1])
    requires Run(Scan(below + [Filled(top)] + [NewFrame(Tokens(v)[0].c, Child(top.path, Slot(top)))], hits, false), body)
             == Scan(below + [Filled(top)] + [inner], hits', false)
    ensures Run(Scan(below + [top], hits, false), Tokens(v)) == Scan(below + [Filled(top)], hits', false)
  {
    var open, close := Tokens(v)[0], Tokens(v)[|Tokens(v)| - 1];
    assert Tokens(v) == [open] + (body + [close]);
    RunConcat(Scan(below + [top], hits, false), [open], body + [close]);
    RunOpen(below, top, hits, open);
    RunConcat(Scan(below + [Filled(top)] + [NewFrame(open.c, Child(top.path, Slot(top)))], hits, false), body, [close]);
    RunClose(below + [Filled(top)], inner, hits', close);
  }

  // A whole value below a waiting frame: the frame is filled, the frames under it
  // are as they were, and the hits are those of the recursive walk, in its order.
  lemma {:induction false} RunValue(below: seq<Frame>, top: Frame, hits: seq<Hit>, v: Value)
    requires Waiting(top)
    ensures Run(Scan(below + [top], hits, false), Tokens(v)) ==
            Scan(below + [Filled(top)], hits + Duplicates(v, Location(top.path) + [Slot(top)]), false)
    decreases v, 0
  {
    var at := Location(top.path) + [Slot(top)];
    match v
    case JArr(items) =>
      var inner := NewFrame('[', Child(top.path, Slot(top)));
      RunItems(below + [Filled(top)], inner, hits, items);
      RunContainer(below, top, hits, v, ItemTokens(items), inner.(arrayIndex := |items|),
                   hits + ItemDuplicates(items, at, 0));
    case JObj(members) =>
      var inner := NewFrame('{', Child(top.path, Slot(top)));
      RunMembers(below + [Filled(top)], inner, hits, members);
      RunContainer(below, top, hits, v, MemberTokens(members), inner.(keys := {} + MemberNames(members)),
                   hits + MemberDuplicates(members, at, {}));
    case _ =>
      RunScalar(below, top, hits, Tokens(v)[0]);
      assert Tokens(v) == [Tokens(v)[0]];
      assert hits + [] == hits;
  }

  lemma {:induction false} RunItem(below: seq<Frame>, top: Frame, hits: seq<Hit>, v: Value)
    requires top.kind == '[' && !top.hasPendingKey
    ensures Run(Scan(below + [top], hits, false), Tokens(v)) ==
            Scan(below + [top.(arrayIndex := top.arrayIndex + 1)], hits + Duplicates(v, ItemLocation(top)), false)
    decreases v, 1
  {
    RunValue(below, top, hits, v);
  }

  function ItemLocation(top: Frame): seq<string> {
    Location(top.path) + [Decimal(top.arrayIndex)]
  }

  lemma Regroup(a: seq<Hit>, b: seq<Hit>, c: seq<Hit>)
    ensures a + b + c == a + (b + c)
  {
  }

  lemma {:induction false} RunItems(below: seq<Frame>, top: Frame, hits: seq<Hit>, items: seq<Value>)
    requires top.kind == '[' && !top.hasPendingKey
    ensures Run(Scan(below + [top], hits, false), ItemTokens(items)) ==
            Scan(below + [top.(arrayIndex := top.arrayIndex + |items|)],
                 hits + ItemDuplicates(items, Location(top.path), top.arrayIndex), false)
    decreases items, 1
  {
    if items == [] {
      assert hits + [] == hits;
    } else {
      var first, rest := items[0], items[1..];
      var found := Duplicates(first, ItemLocation(top));
      var top1 := top.(arrayIndex := top.arrayIndex + 1);
      var more := ItemDuplicates(rest, Location(top.path), top1.arrayIndex);
      RunConcat(Scan(below + [top], hits, false), Tokens(first), ItemTokens(rest));
      RunItem(below, top, hits, first);
      RunItems(below, top1, hits + found, rest);
      Regroup(hits, found, more);
      assert top1.(arrayIndex := top1.arrayIndex + |rest|) == top.(arrayIndex := top.arrayIndex + |items|);
    }
  }

  // A member name: recorded, pending, and reported when it was recorded already.
  function Repeat(top: Frame, key: string): seq<Hit> {
    if key in top.keys then [Hit(JsonPointer.Encode(Location(top.path) + [key]), key)] else []
  }

  function Named(top: Frame, key: string): Frame {
    top.(keys := top.keys + {key}, pendingKey := key, hasPendingKey := true)
  }

  lemma RunName(below: seq<Frame>, top: Frame, hits: seq<Hit>, key: string)
    requires top.kind == '{' && !top.hasPendingKey
    ensures Run(Scan(below + [top], hits, false), [Str(key)]) ==
            Scan(below + [Named(top, key)], hits + Repeat(top, key), false)
  {
    var s := Scan(below + [top], hits, false);
    assert OneStep(s, Str(key)).frames == below + [Named(top, key)];
  }

  lemma {:induction false} RunMember(below: seq<Frame>, top: Frame, hits: seq<Hit>, key: string, value: Value)
    requires top.kind == '{' && !top.hasPendingKey && top.pendingKey == ""
    ensures Run(Scan(below + [top], hits, false), [Str(key)] + Tokens(value)) ==
            Scan(below + [top.(keys := top.keys + {key})],
                 hits + Repeat(top, key) + Duplicates(value, Location(top.path) + [key]), false)
    decreases value, 1
  {
    RunConcat(Scan(below + [top], hits, false), [Str(key)], Tokens(value));
    RunName(below, top, hits, key);
    RunValue(below, Named(top, key), hits + Repeat(top, key), value);
    assert Filled(Named(top, key)) == top.(keys := top.keys + {key});
  }

  lemma {:induction false} RunMembers(below: seq<Frame>, top: Frame, hits: seq<Hit>, members: seq<Member>)
    requires top.kind == '{' && !top.hasPendingKey && top.pendingKey == ""
    ensures Run(Scan(below + [top], hits, false), MemberTokens(members)) ==
            Scan(below + [top.(keys := top.keys + MemberNames(members))],
                 hits + MemberDuplicates(members, Location(top.path), top.keys), false)
    decreases members, 1
  {
    if members == [] {
      assert hits + [] == hits;
      assert top.keys + MemberNames(members) == top.keys;
    } else {
      var key, value, rest := members[0].key, members[0].value, members[1..];
      var top1 := top.(keys := top.keys + {key});
      var first := Repeat(top, key) + Duplicates(value, Location(top.path) + [key]);
      var more := MemberDuplicates(rest, Location(top.path), top1.keys);
      RunConcat(Scan(below + [top], hits, false), [Str(key)] + Tokens(value), MemberTokens(rest));
      RunMember(below, top, hits, key, value);
      assert hits + Repeat(top, key) + Duplicates(value, Location(top.path) + [key]) == hits + first;
      RunMembers(below, top1, hits + first, rest);
      KeysUnfold(members);
      assert top1.keys + MemberNames(rest) == top.keys + MemberNames(members);
      Regroup(hits, first, more);
    }
  }

  // The tokens between the delimiters of a container.
  function BodyTokens(v: Value): seq<Token>
    requires v.JArr? || v.JObj?
  {
    if v.JArr? then ItemTokens(v.items) else MemberTokens(v.members)
  }

  lemma DocumentTokens(v: Value, rest: seq<Token>)
    requires v.JArr? || v.JObj?
    ensures Tokens(v)[1..] + rest == BodyTokens(v) + ([Tokens(v)[|Tokens(v)| - 1]] + rest)
  {
    var open, close := Tokens(v)[0], Tokens(v)[|Tokens(v)| - 1];
    assert Tokens(v) == [open] + (BodyTokens(v) + [close]);
    assert Tokens(v)[1..] == BodyTokens(v) + [close];
  }

  // The body below the root frame: everything but the closing token.
  lemma RunBody(v: Value) returns (root: Frame)
    requires v.JArr? || v.JObj?
    ensures Run(Scan([NewFrame(Tokens(v)[0].c, Root)], [], false), BodyTokens(v)) ==
            Scan([root], Duplicates(v, []), false)
    ensures Closes(root, Tokens(v)[|Tokens(v)| - 1])
  {
    var top := NewFrame(Tokens(v)[0].c, Root);
    assert [] + [top] == [top];
    if v.JArr? {
      RunItems([], top, [], v.items);
      root := top.(arrayIndex := |v.items|);
      assert [] + ItemDuplicates(v.items, [], 0) == Duplicates(v, []);
    } else {
      RunMembers([], top, [], v.members);
      root := top.(keys := {} + MemberNames(v.members));
      assert [] + MemberDuplicates(v.members, [], {}) == Duplicates(v, []);
    }
    assert [] + [root] == [root];
  }

  // The whole document: the scanner pops its last frame exactly at the closing
  // token, so whatever follows the document is not looked at.
  lemma RunDocument(v: Value, rest: seq<Token>)
    requires v.JArr? || v.JObj?
    ensures Run(Scan([NewFrame(Tokens(v)[0].c, Root)], [], false), Tokens(v)[1..] + rest) ==
            Scan([], Duplicates(v, []), false)
  {
    var close := Tokens(v)[|Tokens(v)| - 1];
    var s := Scan([NewFrame(Tokens(v)[0].c, Root)], [], false);
    DocumentTokens(v, rest);
    RunConcat(s, BodyTokens(v), [close] + rest);
    var root := RunBody(v);
    CloseDocument(Scan([root], Duplicates(v, []), false), close, rest);
  }

  lemma CloseDocument(s: Scan, close: Token, rest: seq<Token>)
    requires |s.frames| == 1 && !s.stopped && Closes(s.frames[0], close)
    ensures Run(s, [close] + rest) == Scan([], s.hits, false)
  {
    RunConcat(s, [close], rest);
    assert OneStep(s, close) == Scan([], s.hits, false);
  }

  // renderDuplicatePath: collect towards the root, then write back to front.
  method RenderPath(parent: Path, leaf: string) returns (path: string)
    ensures path == JsonPointer.Encode(Location(parent) + [leaf])
    ensures JsonPointer.DecodeFragment(path) == Some(Location(parent) + [leaf])
  {
    var tokens := [leaf];
    var node := parent;
    ghost var whole := Location(parent) + [leaf];
    while node.Child?
      invariant |tokens| + |Location(node)| == |whole|
      invariant Location(node) == whole[..|Location(node)|]
      invariant forall i :: 0 <= i < |tokens| ==> tokens[i] == whole[|whole| - 1 - i]
      decreases node
    {
      ghost var n := |Location(node.parent)|;
      assert Location(node) == Location(node.parent) + [node.token];
      assert node.token == Location(node)[n] == whole[n] && Location(node.parent) == whole[..n];
      tokens := tokens + [node.token];
      node := node.parent;
    }
    path := WriteBackwards(tokens, whole);
    JsonPointer.DecodeOfEncode(whole);
  }

  // The second loop: the tokens were collected leaf first.
  method WriteBackwards(tokens: seq<string>, ghost whole: seq<string>) returns (path: string)
    requires |tokens| == |whole| && forall i :: 0 <= i < |tokens| ==> tokens[i] == whole[|whole| - 1 - i]
    ensures path == JsonPointer.Encode(whole)
  {
    path := "";
    var i := |tokens|;
    while i > 0
      invariant 0 <= i <= |tokens|
      invariant path == JsonPointer.Encode(whole[..|whole| - i])
    {
      i := i - 1;
      ghost var k := |whole| - 1 - i;
      assert tokens[i] == whole[k] && whole[..k + 1] == whole[..k] + [whole[k]];
      JsonPointer.EncodeSnoc(whole[..k], whole[k]);
      path := path + "/" + JsonPointer.Escape(tokens[i]);
      assert path == JsonPointer.Encode(whole[..k + 1]);
    }
    assert whole[..|whole|] == whole;
  }

  // The source formats into a twenty-byte buffer from the back; an int has at most
  // nineteen digits.
  method Itoa(n: nat) returns (s: string)
    requires n < 0x8000_0000_0000_0000
    ensures s == Decimal(n)
  {
    if n == 0 {
      return "0";
    }
    var b := new char[20](_ => '0');
    CeilingOfInt();
    var pos := FillDigits(b, n);
    s := b[pos..];
  }

  method FillDigits(b: array<char>, n: nat) returns (pos: nat)
    requires b.Length > 0 && n < Ceiling(b.Length - 1)
    modifies b
    ensures pos <= b.Length && b[pos..] == Leading(n)
  {
    pos := b.Length;
    var i: nat := n;
    while i > 0
      invariant 1 <= pos <= b.Length && Writes(n, i, pos - 1, b[pos..])
    {
      i := PutDigit(b, n, i, pos);
      pos := pos - 1;
    }
  }

  // With the digits of i still to be written in front, the rest of n is there.
  ghost predicate Writes(n: nat, i: nat, room: nat, written: string) {
    i < Ceiling(room) && Leading(n) == Leading(i) + written
  }

  method PutDigit(b: array<char>, ghost n: nat, i: nat, pos: nat) returns (rest: nat)
    requires 0 < i && 1 <= pos <= b.Length && Writes(n, i, pos - 1, b[pos..])
    modifies b
    ensures rest < i && pos > 1 && Writes(n, rest, pos - 2, b[pos - 1..])
  {
    WritesOne(n, i, pos - 1, b[pos..]);
    rest := i / 10;
    PutBefore(b, pos, DigitChar(i % 10));
  }

  method PutBefore(b: array<char>, pos: nat, digit: char)
    requires 1 <= pos <= b.Length
    modifies b
    ensures b[pos - 1..] == [digit] + old(b[pos..])
  {
    b[pos - 1] := digit;
    assert b[pos..] == old(b[pos..]);
  }

  lemma WritesOne(n: nat, i: nat, room: nat, written: string)
    requires 0 < i && Writes(n, i, room, written)
    ensures room > 0 && Writes(n, i / 10, room - 1, [DigitChar(i % 10)] + written)
  {
    LastDigit(i, room, written);
  }

  function Ceiling(digits: nat): nat {
    if digits == 0 then 1 else 10 * Ceiling(digits - 1)
  }

  // The digits still to be written.
  function Leading(i: nat): string {
    if i == 0 then "" else Decimal(i)
  }

  lemma LastDigit(i: nat, digits: nat, tail: string)
    requires 0 < i < Ceiling(digits)
    ensures digits > 0 && i / 10 < Ceiling(digits - 1)
    ensures Leading(i) + tail == Leading(i / 10) + ([DigitChar(i % 10)] + tail)
  {
    LeadingLast(i);
  }

  lemma LeadingLast(i: nat)
    requires i > 0
    ensures Leading(i) == Leading(i / 10) + [DigitChar(i % 10)]
  {
    if i < 10 {
      assert i / 10 == 0 && i % 10 == i;
    } else {
      assert i / 10 > 0;
    }
  }

  lemma CeilingOfInt()
    ensures Ceiling(19) > 0x8000_0000_0000_0000
  {
    assert Ceiling(4) == 10000;
    assert Ceiling(8) == 1_0000_0000;
    assert Ceiling(12) == 1_0000_0000_0000;
    assert Ceiling(16) == 1_0000_0000_0000_0000;
  }

  // One iteration of the loop, updating the top frame in place.
  method StepFrames(frames: seq<Frame>, found: seq<Hit>, token: Token, ghost bound: nat)
    returns (frames': seq<Frame>, found': seq<Hit>, stopped: bool)
    requires frames != [] && bound < 0x8000_0000_0000_0000
    requires forall f :: f in frames ==> f.arrayIndex < bound
    ensures Scan(frames', found', stopped) == Step(Scan(frames, found, false), token)
    ensures forall f :: f in frames' ==> f.arrayIndex <= bound
  {
    frames', found', stopped := frames, found, false;
    var n := |frames| - 1;
    var top := frames[n];
    assert top in frames;
    if Closes(top, token) {
      frames' := frames[..n];
    } else if top.kind == '{' {
      if !top.hasPendingKey {
        if !token.Str? {
          stopped := true;
          return;
        }
        var key := token.s;
        if key in top.keys {
          var path := RenderPath(top.path, key);
          found' := found + [Hit(path, key)];
        } else {
          assert found + [] == found;
        }
        frames' := frames[n := top.(keys := top.keys + {key}, pendingKey := key, hasPendingKey := true)];
      } else {
        var key := top.pendingKey;
        frames' := frames[n := top.(pendingKey := "", hasPendingKey := false)];
        frames' := Push(frames', token, top.path, key);
      }
    } else {
      var index := top.arrayIndex;
      frames' := frames[n := top.(arrayIndex := top.arrayIndex + 1)];
      var spelled := Itoa(index);
      frames' := Push(frames', token, top.path, spelled);
    }
  }

  // A document's tokens fit an int: the reader caps a document at 4 MiB.
  method DetectDuplicateKeys(tokens: seq<Token>) returns (hits: seq<Hit>)
    requires |tokens| < 0x8000_0000_0000_0000
    ensures forall v, rest :: tokens == Tokens(v) + rest ==> hits == Sort(Duplicates(v, []), HitLess)
    // Apart from the walk: one hit per repeated member, at its pointer, in path order.
    ensures forall v, rest :: tokens == Tokens(v) + rest ==> ReportsAll(v, hits) && SortedByPath(hits)
  {
    hits := SortedFindings(tokens);
    forall v, rest | tokens == Tokens(v) + rest ensures ReportsAll(v, hits) && SortedByPath(hits) {
      SortedReport(v);
    }
  }

  method SortedFindings(tokens: seq<Token>) returns (hits: seq<Hit>)
    requires |tokens| < 0x8000_0000_0000_0000
    ensures forall v, rest :: tokens == Tokens(v) + rest ==> hits == Sort(Duplicates(v, []), HitLess)
  {
    if tokens == [] {
      return [];
    }
    var first := tokens[0];
    if first != Delim('{') && first != Delim('[') {
      forall v, rest | tokens == Tokens(v) + rest ensures Duplicates(v, []) == [] {
        assert first == Tokens(v)[0];
      }
      return [];
    }
    var found := ScanFrames(tokens, first);
    forall v, rest | tokens == Tokens(v) + rest ensures found == Duplicates(v, []) {
      ScanOfDocument(tokens, first, v, rest);
    }
    hits := Sort(found, HitLess);
  }

  lemma ScanOfDocument(tokens: seq<Token>, first: Token, v: Value, rest: seq<Token>)
    requires tokens == Tokens(v) + rest && first == tokens[0] && (first == Delim('{') || first == Delim('['))
    ensures Run(Scan([NewFrame(first.c, Root)], [], false), tokens[1..]) == Scan([], Duplicates(v, []), false)
  {
    assert first == Tokens(v)[0];
    assert v.JArr? || v.JObj?;
    assert tokens[1..] == Tokens(v)[1..] + rest;
    RunDocument(v, rest);
  }

  // The loop: one token at a time, until the last frame is popped.
  method ScanFrames(tokens: seq<Token>, first: Token) returns (found: seq<Hit>)
    requires 0 < |tokens| < 0x8000_0000_0000_0000 && first == tokens[0] && first.Delim?
    ensures found == Run(Scan([NewFrame(first.c, Root)], [], false), tokens[1..]).hits
  {
    var frames := [NewFrame(first.c, Root)];
    found := [];
    var pos := 1;
    ghost var end := Run(Scan(frames, [], false), tokens[1..]);
    var stopped := false;
    while |frames| > 0 && !stopped
      invariant 1 <= pos <= |tokens|
      invariant Run(Scan(frames, found, stopped), tokens[pos..]) == end
      invariant forall f :: f in frames ==> f.arrayIndex < pos
      decreases |tokens| - pos, !stopped
    {
      if pos >= |tokens| {
        break;
      }
      RunUnfold(Scan(frames, found, stopped), tokens, pos);
      frames, found, stopped := StepFrames(frames, found, tokens[pos], pos);
      pos := pos + 1;
    }
  }

  lemma RunUnfold(s: Scan, tokens: seq<Token>, pos: nat)
    requires pos < |tokens| && s.frames != [] && !s.stopped
    ensures Run(s, tokens[pos..]) == Run(Step(s, tokens[pos]), tokens[pos + 1..])
  {
    assert tokens[pos..][1..] == tokens[pos + 1..];
  }
}
