/**
 * JSON values and the token stream a streaming decoder delivers for them
 * (RFC 8259, sections 4 and 5). Numbers keep their spelling, objects keep their
 * members in document order, repeated names included.
 */
module Json {
  datatype Token = Delim(c: char) | Str(s: string) | Num(raw: string) | Bool(b: bool) | Null

  datatype Value =
    | JNull
    | JBool(b: bool)
    | JNum(raw: string)
    | JStr(s: string)
    | JArr(items: seq<Value>)
    | JObj(members: seq<Member>)

  datatype Member = Member(key: string, value: Value)

  function Tokens(v: Value): (ts: seq<Token>)
    ensures |ts| >= 1
    decreases v, 0
  {
    match v
    case JNull => [Null]
    case JBool(b) => [Bool(b)]
    case JNum(raw) => [Num(raw)]
    case JStr(s) => [Str(s)]
    case JArr(items) => [Delim('[')] + ItemTokens(items) + [Delim(']')]
    case JObj(members) => [Delim('{')] + MemberTokens(members) + [Delim('}')]
  }

  function ItemTokens(items: seq<Value>): seq<Token>
    decreases items, 1
  {
    if items == [] then [] else Tokens(items[0]) + ItemTokens(items[1..])
  }

  function MemberTokens(members: seq<Member>): seq<Token>
    decreases members, 1
  {
    if members == [] then []
    else [Str(members[0].key)] + Tokens(members[0].value) + MemberTokens(members[1..])
  }

  function Documents(vs: seq<Value>): seq<Token> {
    ItemTokens(vs)
  }

  // No object anywhere in the value repeats a member name.
  predicate DuplicateFree(v: Value) {
    match v
    case JArr(items) => forall i :: 0 <= i < |items| ==> DuplicateFree(items[i])
    case JObj(members) =>
      && (forall i, j :: 0 <= i < j < |members| ==> members[i].key != members[j].key)
      && (forall i :: 0 <= i < |members| ==> DuplicateFree(members[i].value))
    case _ => true
  }

  // How far a token moves the nesting depth.
  function Delta(t: Token): int {
    if t == Delim('{') || t == Delim('[') then 1
    else if t == Delim('}') || t == Delim(']') then -1
    else 0
  }

  function Depth(ts: seq<Token>): int {
    if ts == [] then 0 else Delta(ts[0]) + Depth(ts[1..])
  }

  lemma {:induction false} DepthConcat(a: seq<Token>, b: seq<Token>)
    ensures Depth(a + b) == Depth(a) + Depth(b)
  {
    if a == [] {
      assert a + b == b;
    } else {
      DepthConcat(a[1..], b);
      assert (a + b)[1..] == a[1..] + b;
    }
  }

  // A value is balanced; inside a container every proper prefix is still open.
  lemma {:induction false} ValueDepth(v: Value)
    ensures Depth(Tokens(v)) == 0
    ensures forall k :: 0 < k < |Tokens(v)| ==> Depth(Tokens(v)[..k]) >= 1
    decreases v, 0
  {
    if v.JArr? || v.JObj? {
      var body := if v.JArr? then ItemTokens(v.items) else MemberTokens(v.members);
      if v.JArr? { ItemsDepth(v.items); } else { MembersDepth(v.members); }
      WrappedDepth(Tokens(v)[0], body, Tokens(v)[|Tokens(v)| - 1]);
      assert Tokens(v) == [Tokens(v)[0]] + body + [Tokens(v)[|Tokens(v)| - 1]];
    }
  }

  ghost predicate NeverBelow(ts: seq<Token>) {
    Depth(ts) == 0 && forall k :: 0 <= k <= |ts| ==> Depth(ts[..k]) >= 0
  }

  lemma WrappedDepth(open: Token, body: seq<Token>, close: Token)
    requires Delta(open) == 1 && Delta(close) == -1 && NeverBelow(body)
    ensures Depth([open] + body + [close]) == 0
    ensures forall k :: 0 < k < |body| + 2 ==> Depth(([open] + body + [close])[..k]) >= 1
  {
    var ts := [open] + body + [close];
    DepthConcat([open] + body, [close]);
    DepthConcat([open], body);
    forall k | 0 < k < |body| + 2 ensures Depth(ts[..k]) >= 1 {
      assert ts[..k] == [open] + body[..k - 1];
      DepthConcat([open], body[..k - 1]);
    }
  }

  lemma ConcatNeverBelow(a: seq<Token>, b: seq<Token>)
    requires NeverBelow(a) && NeverBelow(b)
    ensures NeverBelow(a + b)
  {
    DepthConcat(a, b);
    forall k | 0 <= k <= |a + b| ensures Depth((a + b)[..k]) >= 0 {
      if k <= |a| {
        assert (a + b)[..k] == a[..k];
      } else {
        assert (a + b)[..k] == a + b[..k - |a|];
        DepthConcat(a, b[..k - |a|]);
      }
    }
  }

  lemma ValueNeverBelow(v: Value)
    requires Depth(Tokens(v)) == 0
    requires forall k :: 0 < k < |Tokens(v)| ==> Depth(Tokens(v)[..k]) >= 1
    ensures NeverBelow(Tokens(v))
  {
    assert Tokens(v)[..|Tokens(v)|] == Tokens(v);
  }

  lemma {:induction false} ItemsDepth(items: seq<Value>)
    ensures NeverBelow(ItemTokens(items))
    decreases items, 1
  {
    if items != [] {
      ValueDepth(items[0]);
      ValueNeverBelow(items[0]);
      ItemsDepth(items[1..]);
      ConcatNeverBelow(Tokens(items[0]), ItemTokens(items[1..]));
    }
  }

  lemma {:induction false} MembersDepth(members: seq<Member>)
    ensures NeverBelow(MemberTokens(members))
    decreases members, 1
  {
    if members != [] {
      var key := [Str(members[0].key)];
      assert NeverBelow(key) by {
        assert key[..1] == key && key[..0] == [];
      }
      ValueDepth(members[0].value);
      ValueNeverBelow(members[0].value);
      MembersDepth(members[1..]);
      ConcatNeverBelow(key, Tokens(members[0].value));
      ConcatNeverBelow(key + Tokens(members[0].value), MemberTokens(members[1..]));
    }
  }
}
