/**
 * The top-level envelope scan of the gate-summary reader with its depth-counting value
 * skipper.
 */
module Reader {
  import opened Text
  import opened Json
  import opened Diagnostics
  import JsonPointer

  // What follows the last token: the end of the input, or bytes that are not JSON;
  // `more` is what the decoder's lookahead answers before it reports them.
  datatype Ending = EndOfInput | SyntaxError(more: bool)

  // The streaming decoder: tokens in order, then the ending.
  class TokenSource {
    const tokens: seq<Token>
    const ending: Ending
    var pos: nat

    ghost predicate Valid()
      reads this
    {
      pos <= |tokens|
    }

    ghost function Rest(): seq<Token>
      requires Valid()
      reads this
    {
      tokens[pos..]
    }

    constructor (tokens: seq<Token>, ending: Ending)
      ensures Valid() && Rest() == this.tokens == tokens && this.ending == ending
    {
      this.tokens, this.ending, pos := tokens, ending, 0;
    }

    method Next() returns (token: Option<Token>)
      requires Valid()
      modifies this
      ensures Valid()
      ensures token == if old(Rest()) == [] then None else Some(old(Rest())[0])
      ensures Rest() == if old(Rest()) == [] then [] else old(Rest())[1..]
    {
      if pos < |tokens| {
        token := Some(tokens[pos]);
        pos := pos + 1;
      } else {
        token := None;
      }
    }

    predicate More()
      requires Valid()
      reads this
    {
      if pos < |tokens| then !IsClose(tokens[pos]) else ending.SyntaxError? && ending.more
    }
  }

  predicate IsOpen(t: Token) { t == Delim('{') || t == Delim('[') }

  predicate IsClose(t: Token) { t == Delim('}') || t == Delim(']') }

  // ---- consumeValue ----

  // What is left after the depth counter has come back to zero.
  function Skip(ts: seq<Token>, depth: nat): (r: Option<seq<Token>>)
    ensures r.Some? ==> |r.value| <= |ts|
  {
    if depth == 0 then Some(ts)
    else if ts == [] then None
    else Skip(ts[1..], depth + Delta(ts[0]))
  }

  lemma {:induction false} SkipOne(t: Token, ts: seq<Token>, depth: nat)
    requires depth >= 1
    ensures Skip([t] + ts, depth) == Skip(ts, depth + Delta(t))
  {
    assert ([t] + ts)[1..] == ts;
  }

  // The skipped tokens undo exactly the depth the counter started from.
  lemma {:induction false} SkipDepth(ts: seq<Token>, depth: nat)
    requires Skip(ts, depth).Some?
    ensures Depth(ts[..|ts| - |Skip(ts, depth).value|]) == 0 - depth
  {
    if depth == 0 {
      assert ts[..0] == [];
    } else {
      SkipDepth(ts[1..], depth + Delta(ts[0]));
      var n := |ts| - |Skip(ts, depth).value|;
      assert ts[..n] == [ts[0]] + ts[1..][..n - 1];
      DepthConcat([ts[0]], ts[1..][..n - 1]);
      assert Depth([ts[0]]) == Delta(ts[0]);
    }
  }

  datatype Consumed = Consumed(first: Token, rest: seq<Token>)

  function Consume(ts: seq<Token>): (r: Option<Consumed>)
    ensures r.Some? ==> |r.value.rest| < |ts|
  {
    if ts == [] then None
    else if !IsOpen(ts[0]) then Some(Consumed(ts[0], ts[1..]))
    else
      var r := Skip(ts[1..], 1);
      if r.None? then None else Some(Consumed(ts[0], r.value))
  }

  method ConsumeValue(dec: TokenSource) returns (first: Option<Token>)
    requires dec.Valid()
    modifies dec
    ensures dec.Valid()
    ensures var r := Consume(old(dec.Rest()));
            if r.None? then first.None? else first == Some(r.value.first) && dec.Rest() == r.value.rest
    ensures forall v, rest :: old(dec.Rest()) == Tokens(v) + rest ==>
              first == Some(Tokens(v)[0]) && dec.Rest() == rest
  {
    ghost var start := dec.Rest();
    forall v, rest | start == Tokens(v) + rest
      ensures Consume(start) == Some(Consumed(Tokens(v)[0], rest))
    {
      ConsumeTree(v, rest);
    }
    first := dec.Next();
    if first.None? || !IsOpen(first.value) {
      return;
    }
    var whole := SkipNested(dec);
    if !whole {
      return None;
    }
  }

  // The depth counter behind an opening token.
  method SkipNested(dec: TokenSource) returns (whole: bool)
    requires dec.Valid()
    modifies dec
    ensures dec.Valid()
    ensures var r := Skip(old(dec.Rest()), 1);
            whole == r.Some? && (whole ==> dec.Rest() == r.value)
  {
    ghost var start := dec.Rest();
    var depth := 1;
    while depth > 0
      invariant dec.Valid() && 0 <= depth
      invariant Skip(start, 1) == Skip(dec.Rest(), depth)
      decreases |dec.tokens| - dec.pos, depth
    {
      ghost var here := dec.Rest();
      var tok := dec.Next();
      if tok.None? {
        return false;
      }
      if IsOpen(tok.value) {
        depth := depth + 1;
      } else if IsClose(tok.value) {
        depth := depth - 1;
      }
    }
    whole := true;
  }

  lemma SkipBracketed(open: char, body: seq<Token>, close: char, rest: seq<Token>, depth: nat)
    requires depth >= 1 && IsOpen(Delim(open)) && IsClose(Delim(close))
    requires Skip(body + ([Delim(close)] + rest), depth + 1) == Skip([Delim(close)] + rest, depth + 1)
    ensures Skip([Delim(open)] + body + [Delim(close)] + rest, depth) == Skip(rest, depth)
  {
    var tail := [Delim(close)] + rest;
    assert [Delim(open)] + body + [Delim(close)] + rest == [Delim(open)] + (body + tail);
    SkipOne(Delim(open), body + tail, depth);
    SkipOne(Delim(close), rest, depth + 1);
  }

  // A whole value leaves the depth counter where it was.
  lemma {:induction false} SkipTree(v: Value, rest: seq<Token>, depth: nat)
    requires depth >= 1
    ensures Skip(Tokens(v) + rest, depth) == Skip(rest, depth)
    decreases v, 0
  {
    match v
    case JArr(items) =>
      SkipItems(items, [Delim(']')] + rest, depth + 1);
      SkipBracketed('[', ItemTokens(items), ']', rest, depth);
    case JObj(members) =>
      SkipMembers(members, [Delim('}')] + rest, depth + 1);
      SkipBracketed('{', MemberTokens(members), '}', rest, depth);
    case _ =>
      SkipOne(Tokens(v)[0], rest, depth);
  }

  lemma {:induction false} SkipItems(items: seq<Value>, rest: seq<Token>, depth: nat)
    requires depth >= 1
    ensures Skip(ItemTokens(items) + rest, depth) == Skip(rest, depth)
    decreases items, 1
  {
    if items == [] {
      assert ItemTokens(items) + rest == rest;
    } else {
      assert ItemTokens(items) + rest == Tokens(items[0]) + (ItemTokens(items[1..]) + rest);
      SkipTree(items[0], ItemTokens(items[1..]) + rest, depth);
      SkipItems(items[1..], rest, depth);
    }
  }

  lemma {:induction false} SkipMembers(members: seq<Member>, rest: seq<Token>, depth: nat)
    requires depth >= 1
    ensures Skip(MemberTokens(members) + rest, depth) == Skip(rest, depth)
    decreases members, 1
  {
    if members == [] {
      assert MemberTokens(members) + rest == rest;
    } else {
      var after := MemberTokens(members[1..]) + rest;
      var tail := Tokens(members[0].value) + after;
      assert MemberTokens(members) + rest == [Str(members[0].key)] + tail;
      SkipOne(Str(members[0].key), tail, depth);
      SkipTree(members[0].value, after, depth);
      SkipMembers(members[1..], rest, depth);
    }
  }

  // Exactly one complete value, at any nesting.
  lemma ConsumeTree(v: Value, rest: seq<Token>)
    ensures Consume(Tokens(v) + rest) == Some(Consumed(Tokens(v)[0], rest))
  {
    var ts := Tokens(v) + rest;
    if v.JArr? || v.JObj? {
      ConsumeBody(v, rest);
    } else {
      assert ts[1..] == rest;
    }
  }

  lemma ConsumeBody(v: Value, rest: seq<Token>)
    requires v.JArr? || v.JObj?
    ensures Skip((Tokens(v) + rest)[1..], 1) == Some(rest)
  {
    var close := if v.JArr? then Delim(']') else Delim('}');
    var body := if v.JArr? then ItemTokens(v.items) else MemberTokens(v.members);
    assert (Tokens(v) + rest)[1..] == body + ([close] + rest);
    if v.JArr? {
      SkipItems(v.items, [close] + rest, 1);
    } else {
      SkipMembers(v.members, [close] + rest, 1);
    }
    SkipOne(close, rest, 1);
  }

  // A value cut short is never taken for a whole one.
  lemma ConsumeCut(v: Value, k: nat)
    requires k < |Tokens(v)|
    ensures Consume(Tokens(v)[..k]).None?
  {
    var ts := Tokens(v)[..k];
    if k > 0 {
      ValueDepth(v);
      assert IsOpen(ts[0]) && Depth([ts[0]]) == 1;
      assert forall n :: 0 < n <= k ==> ts[..n] == Tokens(v)[..n];
      if Skip(ts[1..], 1).Some? {
        SkipDepth(ts[1..], 1);
        var n := |ts| - |Skip(ts[1..], 1).value|;
        assert ts[..n] == [ts[0]] + ts[1..][..n - 1];
        DepthConcat([ts[0]], ts[1..][..n - 1]);
      }
    }
  }

  // ---- scanEnvelope ----

  datatype Envelope = Envelope(
    versionPresent: bool,
    versionToken: Token,
    diagnostics: seq<Diagnostic>,
    malformed: bool,
    trailing: bool)

  const EMPTY := Envelope(false, Null, [], false, false)

  function Malformed(res: Envelope, path: string, message: string): Envelope {
    res.(malformed := true, diagnostics := res.diagnostics + [New(MalformedJson, path, message)])
  }

  function AfterObject(rest: seq<Token>, ending: Ending, res: Envelope): Envelope {
    if rest != [] then
      res.(trailing := true,
           diagnostics := res.diagnostics + [New(TrailingJson, "", "second JSON value follows the document")])
    else if ending.EndOfInput? then res
    else Malformed(res, "", "malformed JSON")
  }

  function WithMember(res: Envelope, key: string, first: Token): Envelope {
    if key == "schema_version" then res.(versionPresent := true, versionToken := first) else res
  }

  predicate MoreTokens(ts: seq<Token>, ending: Ending) {
    if ts == [] then ending.SyntaxError? && ending.more else !IsClose(ts[0])
  }

  function ScanMembers(ts: seq<Token>, ending: Ending, res: Envelope): Envelope
    decreases |ts|
  {
    if !MoreTokens(ts, ending) then
      if ts == [] || ts[0] != Delim('}') then Malformed(res, "", "malformed JSON")
      else AfterObject(ts[1..], ending, res)
    else if ts == [] then Malformed(res, "", "malformed JSON")
    else if !ts[0].Str? then Malformed(res, "/", "object member name is not a string")
    else
      var r := Consume(ts[1..]);
      if r.None? then Malformed(res, "/" + JsonPointer.Escape(ts[0].s), "malformed JSON")
      else ScanMembers(r.value.rest, ending, WithMember(res, ts[0].s, r.value.first))
  }

  function ScanTop(ts: seq<Token>, ending: Ending): Envelope {
    if ts == [] then Malformed(EMPTY, "", "malformed JSON")
    else if ts[0] != Delim('{') then Malformed(EMPTY, "", "top-level JSON value is not an object")
    else ScanMembers(ts[1..], ending, EMPTY)
  }

  method ScanEnvelope(tokens: seq<Token>, ending: Ending) returns (res: Envelope)
    ensures res == ScanTop(tokens, ending)
    ensures forall ms, rest :: tokens == Tokens(JObj(ms)) + rest ==>
              res == AfterObject(rest, ending, MembersSeen(ms, EMPTY))
  {
    forall ms, rest | tokens == Tokens(JObj(ms)) + rest
      ensures ScanTop(tokens, ending) == AfterObject(rest, ending, MembersSeen(ms, EMPTY))
    {
      EnvelopeOfObject(ms, rest, ending);
    }
    res := EMPTY;
    var dec := new TokenSource(tokens, ending);
    var tok := dec.Next();
    if tok.None? {
      return Malformed(res, "", "malformed JSON");
    }
    if tok.value != Delim('{') {
      return Malformed(res, "", "top-level JSON value is not an object");
    }
    while dec.More()
      invariant dec.Valid() && dec.ending == ending && dec.tokens == tokens
      invariant ScanMembers(dec.Rest(), ending, res) == ScanTop(tokens, ending)
      decreases |dec.Rest()|, if dec.More() then 1 else 0
    {
      var keyToken := dec.Next();
      if keyToken.None? {
        return Malformed(res, "", "malformed JSON");
      }
      if !keyToken.value.Str? {
        return Malformed(res, "/", "object member name is not a string");
      }
      var key := keyToken.value.s;
      var first := ConsumeValue(dec);
      if first.None? {
        return Malformed(res, "/" + JsonPointer.Escape(key), "malformed JSON");
      }
      if key == "schema_version" {
        res := res.(versionPresent := true, versionToken := first.value);
      }
    }
    var closing := dec.Next();
    if closing.None? || closing.value != Delim('}') {
      return Malformed(res, "", "malformed JSON");
    }
    var next := dec.Next();
    if next.Some? {
      res := res.(trailing := true,
                  diagnostics := res.diagnostics + [New(TrailingJson, "", "second JSON value follows the document")]);
    } else if !ending.EndOfInput? {
      res := Malformed(res, "", "malformed JSON");
    }
  }

  // What the members of the top-level object contribute: nested members of the same
  // name do not appear here at all.
  function MembersSeen(ms: seq<Member>, res: Envelope): Envelope {
    if ms == [] then res
    else MembersSeen(ms[1..], WithMember(res, ms[0].key, Tokens(ms[0].value)[0]))
  }

  lemma ScanOneMember(key: string, v: Value, after: seq<Token>, ending: Ending, res: Envelope)
    ensures ScanMembers([Str(key)] + (Tokens(v) + after), ending, res) ==
            ScanMembers(after, ending, WithMember(res, key, Tokens(v)[0]))
  {
    assert ([Str(key)] + (Tokens(v) + after))[1..] == Tokens(v) + after;
    ConsumeTree(v, after);
  }

  lemma {:induction false} ScanMembersOfObject(ms: seq<Member>, rest: seq<Token>, ending: Ending, res: Envelope)
    ensures ScanMembers(MemberTokens(ms) + ([Delim('}')] + rest), ending, res) ==
            AfterObject(rest, ending, MembersSeen(ms, res))
  {
    var tail := [Delim('}')] + rest;
    if ms == [] {
      assert MemberTokens(ms) + tail == tail;
      assert tail[1..] == rest;
    } else {
      var after := MemberTokens(ms[1..]) + tail;
      assert MemberTokens(ms) + tail == [Str(ms[0].key)] + (Tokens(ms[0].value) + after);
      ScanOneMember(ms[0].key, ms[0].value, after, ending, res);
      ScanMembersOfObject(ms[1..], rest, ending, WithMember(res, ms[0].key, Tokens(ms[0].value)[0]));
    }
  }

  lemma EnvelopeOfObject(ms: seq<Member>, rest: seq<Token>, ending: Ending)
    ensures ScanTop(Tokens(JObj(ms)) + rest, ending) == AfterObject(rest, ending, MembersSeen(ms, EMPTY))
  {
    assert (Tokens(JObj(ms)) + rest)[1..] == MemberTokens(ms) + ([Delim('}')] + rest);
    ScanMembersOfObject(ms, rest, ending, EMPTY);
  }

  // An object cut short is malformed, wherever the cut is and whatever follows it.
  lemma {:induction false} ScanMembersCut(ms: seq<Member>, k: nat, ending: Ending, res: Envelope)
    requires k <= |MemberTokens(ms)|
    ensures ScanMembers(MemberTokens(ms)[..k], ending, res).malformed
  {
    if k == 0 {
      assert MemberTokens(ms)[..k] == [];
    } else if k - 1 < |Tokens(ms[0].value)| {
      CutInFirst(ms, k, ending, res);
    } else {
      var res' := WithMember(res, ms[0].key, Tokens(ms[0].value)[0]);
      ScanMembersCut(ms[1..], k - 1 - |Tokens(ms[0].value)|, ending, res');
      CutBehindFirst(ms, k, ending, res);
    }
  }

  lemma CutInFirst(ms: seq<Member>, k: nat, ending: Ending, res: Envelope)
    requires ms != [] && 0 < k <= |Tokens(ms[0].value)|
    ensures k <= |MemberTokens(ms)| && ScanMembers(MemberTokens(ms)[..k], ending, res).malformed
  {
    var key, v := ms[0].key, ms[0].value;
    CutWithin(Str(key), Tokens(v), MemberTokens(ms[1..]), k);
    ScanCutMember(key, v, k - 1, ending, res);
  }

  lemma CutBehindFirst(ms: seq<Member>, k: nat, ending: Ending, res: Envelope)
    requires ms != [] && |Tokens(ms[0].value)| < k <= |MemberTokens(ms)|
    requires var v := ms[0].value;
             ScanMembers(MemberTokens(ms[1..])[..k - 1 - |Tokens(v)|], ending, WithMember(res, ms[0].key, Tokens(v)[0])).malformed
    ensures ScanMembers(MemberTokens(ms)[..k], ending, res).malformed
  {
    var key, v := ms[0].key, ms[0].value;
    var cut := MemberTokens(ms[1..])[..k - 1 - |Tokens(v)|];
    CutBehind(Str(key), Tokens(v), MemberTokens(ms[1..]), k);
    ScanOneMember(key, v, cut, ending, res);
  }

  lemma CutBehind(head: Token, value: seq<Token>, more: seq<Token>, k: nat)
    requires |value| < k <= 1 + |value| + |more|
    ensures ([head] + value + more)[..k] == [head] + (value + more[..k - 1 - |value|])
  {
  }

  lemma CutWithin(head: Token, value: seq<Token>, more: seq<Token>, k: nat)
    requires 0 < k <= |value|
    ensures ([head] + value + more)[..k] == [head] + value[..k - 1]
  {
  }

  lemma ScanCutMember(key: string, v: Value, k: nat, ending: Ending, res: Envelope)
    requires k < |Tokens(v)|
    ensures ScanMembers([Str(key)] + Tokens(v)[..k], ending, res).malformed
  {
    var ts := [Str(key)] + Tokens(v)[..k];
    assert ts[1..] == Tokens(v)[..k];
    ConsumeCut(v, k);
  }

  lemma EnvelopeOfCut(v: Value, k: nat, ending: Ending)
    requires k < |Tokens(v)|
    ensures ScanTop(Tokens(v)[..k], ending).malformed
  {
    if k > 0 && v.JObj? {
      assert Tokens(v)[..k][1..] == MemberTokens(v.members)[..k - 1];
      ScanMembersCut(v.members, k - 1, ending, EMPTY);
    }
  }

  lemma FlaggedHasDiagnostic(tokens: seq<Token>, ending: Ending)
    requires ScanTop(tokens, ending).malformed || ScanTop(tokens, ending).trailing
    ensures ScanTop(tokens, ending).diagnostics != []
  {
    if tokens != [] && tokens[0] == Delim('{') {
      ScanFlags(tokens[1..], ending, EMPTY);
    }
  }

  lemma {:induction false} ScanFlags(ts: seq<Token>, ending: Ending, res: Envelope)
    requires !res.malformed && !res.trailing
    ensures var e := ScanMembers(ts, ending, res); e.malformed || e.trailing ==> e.diagnostics != []
    decreases |ts|
  {
    if MoreTokens(ts, ending) && ts != [] && ts[0].Str? {
      var r := Consume(ts[1..]);
      if r.Some? {
        ScanFlags(r.value.rest, ending, WithMember(res, ts[0].s, r.value.first));
      }
    }
  }
}
