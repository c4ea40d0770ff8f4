/**
 * JSON Pointer (RFC 6901, sections 3 and 4) as the gate-summary reader writes and
 * reads it: `escapePointer`, `instanceLocationToPointer`, `decodePointerToken` and
 * `decodePointerFragment`.
 */
module JsonPointer {
  import opened Text

  // Two replacements in sequence; the order matters.
  function Escape(token: string): string {
    ReplaceAll(ReplaceAll(token, '~', "~0"), '/', "~1")
  }

  function Encode(location: seq<string>): string {
    if location == [] then "" else "/" + Escape(location[0]) + Encode(location[1..])
  }

  // The loop of instanceLocationToPointer.
  method EncodeLocation(location: seq<string>) returns (pointer: string)
    ensures pointer == Encode(location)
    ensures DecodeFragment(pointer) == Some(location)
  {
    pointer := "";
    for i := 0 to |location|
      invariant pointer + Encode(location[i..]) == Encode(location)
    {
      EncodeHead(location[i..], location[i + 1..]);
      Regroup(pointer, "/" + Escape(location[i]), Encode(location[i + 1..]));
      pointer := pointer + ("/" + Escape(location[i]));
    }
    DecodeOfEncode(location);
  }

  // Unescaping of one raw token; None is the source's `false`.
  function Unescape(raw: string): Option<string> {
    if raw == [] then Some("")
    else if raw[0] != '~' then
      var rest := Unescape(raw[1..]);
      if rest.None? then None else Some([raw[0]] + rest.value)
    else if |raw| == 1 then None
    else
      var rest := Unescape(raw[2..]);
      if rest.None? then None
      else if raw[1] == '0' then Some("~" + rest.value)
      else if raw[1] == '1' then Some("/" + rest.value)
      else None
  }

  lemma {:induction false} UnescapeWithoutTilde(raw: string)
    requires '~' !in raw
    ensures Unescape(raw) == Some(raw)
  {
    if raw != [] {
      UnescapeWithoutTilde(raw[1..]);
      assert raw == [raw[0]] + raw[1..];
    }
  }

  function Prepend<T>(b: seq<T>, r: Option<seq<T>>): Option<seq<T>> {
    if r.None? then None else Some(b + r.value)
  }

  lemma PrependNothing<T>(r: Option<seq<T>>)
    ensures Prepend([], r) == r
  {
    assert r.Some? ==> [] + r.value == r.value;
  }

  lemma PrependTwice<T>(a: seq<T>, b: seq<T>, r: Option<seq<T>>)
    ensures Prepend(a + b, r) == Prepend(a, Prepend(b, r))
  {
    assert r.Some? ==> a + b + r.value == a + (b + r.value);
  }

  // decodePointerToken: the fast path for tokens without '~', then the byte loop
  // with its early failures.
  method DecodeToken(raw: string) returns (r: Option<string>)
    ensures r == Unescape(raw)
  {
    if '~' !in raw {
      UnescapeWithoutTilde(raw);
      return Some(raw);
    }
    var b := "";
    var i := 0;
    assert raw[0..] == raw;
    PrependNothing(Unescape(raw));
    while i < |raw|
      invariant 0 <= i <= |raw|
      invariant Unescape(raw) == Prepend(b, Unescape(raw[i..]))
    {
      if raw[i] != '~' {
        assert raw[i..][1..] == raw[i + 1..];
        PrependTwice(b, [raw[i]], Unescape(raw[i + 1..]));
        b := b + [raw[i]];
        i := i + 1;
        continue;
      }
      if i + 1 >= |raw| {
        return None;
      }
      assert raw[i..][2..] == raw[i + 2..];
      i := i + 1;
      if raw[i] == '0' {
        PrependTwice(b, "~", Unescape(raw[i + 1..]));
        b := b + "~";
      } else if raw[i] == '1' {
        PrependTwice(b, "/", Unescape(raw[i + 1..]));
        b := b + "/";
      } else {
        return None;
      }
      i := i + 1;
    }
    assert raw[i..] == [];
    assert b + "" == b;
    r := Some(b);
  }

  function UnescapeAll(raws: seq<string>): Option<seq<string>> {
    if raws == [] then Some([])
    else
      var head := Unescape(raws[0]);
      var rest := UnescapeAll(raws[1..]);
      if head.None? || rest.None? then None else Some([head.value] + rest.value)
  }

  function DecodeFragment(fragment: string): Option<seq<string>> {
    if fragment == "" then Some([])
    else if fragment[0] != '/' then None
    else UnescapeAll(Split(fragment[1..], '/'))
  }

  // The loop of decodePointerFragment, stopping at the first bad token.
  method DecodePointerFragment(fragment: string) returns (r: Option<seq<string>>)
    ensures r == DecodeFragment(fragment)
    ensures r.Some? <==> exists location :: Encode(location) == fragment
    ensures r.Some? ==> Encode(r.value) == fragment
  {
    FragmentsAreEncodings(fragment);
    if fragment == "" {
      return Some([]);
    }
    if fragment[0] != '/' {
      return None;
    }
    var raws := Split(fragment[1..], '/');
    var tokens: seq<string> := [];
    assert raws[0..] == raws;
    PrependNothing(UnescapeAll(raws));
    for i := 0 to |raws|
      invariant UnescapeAll(raws) == Prepend(tokens, UnescapeAll(raws[i..]))
    {
      var decoded := DecodeToken(raws[i]);
      assert raws[i..][1..] == raws[i + 1..];
      if decoded.None? {
        return None;
      }
      PrependTwice(tokens, [decoded.value], UnescapeAll(raws[i + 1..]));
      tokens := tokens + [decoded.value];
    }
    assert raws[|raws|..] == [];
    assert tokens + [] == tokens;
    r := Some(tokens);
  }

  // The two replacements act on each character independently.
  function EscapeChar(c: char): string {
    if c == '~' then "~0" else if c == '/' then "~1" else [c]
  }

  lemma {:induction false} ReplaceAllConcat(a: string, b: string, c: char, sub: string)
    ensures ReplaceAll(a + b, c, sub) == ReplaceAll(a, c, sub) + ReplaceAll(b, c, sub)
  {
    if a == [] {
      assert a + b == b;
    } else {
      assert (a + b)[1..] == a[1..] + b;
      ReplaceAllConcat(a[1..], b, c, sub);
    }
  }

  lemma EscapeUnfold(token: string)
    requires token != []
    ensures Escape(token) == EscapeChar(token[0]) + Escape(token[1..])
  {
    var first := if token[0] == '~' then "~0" else [token[0]];
    ReplaceAllConcat(first, ReplaceAll(token[1..], '~', "~0"), '/', "~1");
    assert ReplaceAll("~0", '/', "~1") == "~0" by {
      assert "~0"[1..] == "0";
      assert "0"[1..] == "";
    }
    assert ReplaceAll([token[0]], '/', "~1") == if token[0] == '/' then "~1" else [token[0]] by {
      assert [token[0]][1..] == "";
    }
  }

  lemma EscapeConcat(a: string, b: string)
    ensures Escape(a + b) == Escape(a) + Escape(b)
  {
    ReplaceAllConcat(a, b, '~', "~0");
    ReplaceAllConcat(ReplaceAll(a, '~', "~0"), ReplaceAll(b, '~', "~0"), '/', "~1");
  }

  // A slash is written ~1 and a tilde ~0, wherever they are (section 3 of RFC 6901).
  lemma EscapeReserved(a: string, b: string)
    ensures Escape(a + "/" + b) == Escape(a) + "~1" + Escape(b)
    ensures Escape(a + "~" + b) == Escape(a) + "~0" + Escape(b)
  {
    EscapeConcat(a + "/", b);
    EscapeConcat(a, "/");
    EscapeConcat(a + "~", b);
    EscapeConcat(a, "~");
    EscapeUnfold("/");
    EscapeUnfold("~");
    assert "/"[1..] == "" && "~"[1..] == "" && Escape("") == "";
  }

  // Everything else is written as it is.
  lemma {:induction false} EscapePlain(token: string)
    requires '~' !in token && '/' !in token
    ensures Escape(token) == token
  {
    if token != "" {
      EscapeUnfold(token);
      EscapePlain(token[1..]);
      assert token == [token[0]] + token[1..];
    }
  }

  lemma {:induction false} UnescapeOfEscape(token: string)
    ensures Unescape(Escape(token)) == Some(token)
    ensures '/' !in Escape(token)
  {
    if token != [] {
      EscapeUnfold(token);
      UnescapeOfEscape(token[1..]);
      var e := Escape(token);
      var k := |EscapeChar(token[0])|;
      assert e[k..] == Escape(token[1..]);
      assert token == [token[0]] + token[1..];
    }
  }

  lemma {:induction false} EscapeOfUnescape(raw: string)
    requires Unescape(raw).Some? && '/' !in raw
    ensures Escape(Unescape(raw).value) == raw
  {
    if raw != [] {
      var token := Unescape(raw).value;
      var k := if raw[0] == '~' then 2 else 1;
      EscapeOfUnescape(raw[k..]);
      EscapeUnfold(token);
      assert token[1..] == Unescape(raw[k..]).value;
      assert raw == raw[..k] + raw[k..];
      assert EscapeChar(token[0]) == raw[..k];
    }
  }

  function EscapeAll(location: seq<string>): seq<string> {
    if location == [] then [] else [Escape(location[0])] + EscapeAll(location[1..])
  }

  lemma {:induction false} EncodeIsJoin(location: seq<string>)
    requires location != []
    ensures Encode(location) == "/" + Join(EscapeAll(location), '/')
  {
    if |location| == 1 {
      assert EscapeAll(location) == [Escape(location[0])];
    } else {
      var rest := location[1..];
      var tail := Join(EscapeAll(rest), '/');
      EncodeIsJoin(rest);
      assert EscapeAll(location)[1..] == EscapeAll(rest);
      assert |EscapeAll(rest)| > 0;
      assert Join(EscapeAll(location), '/') == Escape(location[0]) + ['/'] + tail;
      assert "/" + Escape(location[0]) + ("/" + tail) == "/" + (Escape(location[0]) + ['/'] + tail);
    }
  }

  lemma {:induction false} UnescapeAllOfEscapeAll(location: seq<string>)
    ensures UnescapeAll(EscapeAll(location)) == Some(location)
    ensures |EscapeAll(location)| == |location|
    ensures forall raw :: raw in EscapeAll(location) ==> '/' !in raw
  {
    if location != [] {
      UnescapeOfEscape(location[0]);
      UnescapeAllOfEscapeAll(location[1..]);
      assert EscapeAll(location)[1..] == EscapeAll(location[1..]);
      assert location == [location[0]] + location[1..];
    }
  }

  lemma {:induction false} EscapeAllOfUnescapeAll(raws: seq<string>)
    requires UnescapeAll(raws).Some?
    requires forall raw :: raw in raws ==> '/' !in raw
    ensures EscapeAll(UnescapeAll(raws).value) == raws
  {
    if raws != [] {
      EscapeOfUnescape(raws[0]);
      EscapeAllOfUnescapeAll(raws[1..]);
      assert UnescapeAll(raws).value[1..] == UnescapeAll(raws[1..]).value;
      assert raws == [raws[0]] + raws[1..];
    }
  }

  // Every location, empty tokens and tokens holding '~' and '/' included, comes back.
  lemma DecodeOfEncode(location: seq<string>)
    ensures DecodeFragment(Encode(location)) == Some(location)
  {
    if location != [] {
      EncodeIsJoin(location);
      UnescapeAllOfEscapeAll(location);
      SplitOfJoin(EscapeAll(location), '/');
      assert Encode(location)[1..] == Join(EscapeAll(location), '/');
    }
  }

  // The other direction: the accepted fragments are exactly the encodings.
  lemma EncodeOfDecode(fragment: string)
    requires DecodeFragment(fragment).Some?
    ensures Encode(DecodeFragment(fragment).value) == fragment
  {
    if fragment != "" {
      var raws := Split(fragment[1..], '/');
      SplitPiecesHaveNoSeparator(fragment[1..], '/');
      EscapeAllOfUnescapeAll(raws);
      EncodeIsJoin(UnescapeAll(raws).value);
      JoinOfSplit(fragment[1..], '/');
      assert fragment == "/" + fragment[1..];
    }
  }

  lemma FragmentsAreEncodings(fragment: string)
    ensures DecodeFragment(fragment).Some? <==> exists location :: Encode(location) == fragment
    ensures DecodeFragment(fragment).Some? ==> Encode(DecodeFragment(fragment).value) == fragment
  {
    if DecodeFragment(fragment).Some? {
      EncodeOfDecode(fragment);
    }
    forall location | Encode(location) == fragment ensures DecodeFragment(fragment).Some? {
      DecodeOfEncode(location);
    }
  }

  // Distinct locations never share a pointer.
  lemma EncodeInjective(a: seq<string>, b: seq<string>)
    requires Encode(a) == Encode(b)
    ensures a == b
  {
    DecodeOfEncode(a);
    DecodeOfEncode(b);
  }

  lemma EncodeHead(a: seq<string>, rest: seq<string>)
    requires a != [] && a == [a[0]] + rest
    ensures Encode(a) == "/" + Escape(a[0]) + Encode(rest)
  {
    assert a[1..] == rest;
  }

  lemma Regroup(a: string, b: string, c: string)
    ensures a + (b + c) == a + b + c
  {
  }

  lemma {:induction false} EncodeConcat(a: seq<string>, b: seq<string>)
    ensures Encode(a + b) == Encode(a) + Encode(b)
  {
    if a == [] {
      assert a + b == b;
    } else {
      var tail := a[1..];
      EncodeConcat(tail, b);
      EncodeHead(a, tail);
      EncodeHead(a + b, tail + b);
      Regroup("/" + Escape(a[0]), Encode(tail), Encode(b));
    }
  }

  lemma EncodeSnoc(a: seq<string>, token: string)
    ensures Encode(a + [token]) == Encode(a) + "/" + Escape(token)
  {
    EncodeConcat(a, [token]);
    assert [token][1..] == [];
    assert Encode([token]) == "/" + Escape(token);
    assert Encode(a) + ("/" + Escape(token)) == Encode(a) + "/" + Escape(token);
  }
}
