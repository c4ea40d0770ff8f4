/**
 * Printing a contract and parsing it back, and the fields and markers in use.
 */
module ContractPrinting {
  import opened Text
  import opened Ordering
  import opened ContractBlock

  // ---- Printing ----

  predicate GoodKey(k: string) {
    k != "" && TrimSpace(k) == k && '=' !in k && '\n' !in k && '<' !in k
  }

  ghost predicate GoodSpecs(specs: seq<FieldSpec>) {
    DistinctKeys(specs) && forall i :: 0 <= i < |specs| ==> GoodKey(specs[i].key)
  }

  predicate Contains(s: string, form: string) {
    exists p :: 0 <= p < |s| && OccursAt(s, form, p)
  }

  // Trimmed, on a single line, not empty and free of markers.
  predicate PlainText(ms: Markers, t: string) {
    t != "" && TrimSpace(t) == t && '\n' !in t && !Contains(t, ms.begin) && !Contains(t, ms.end)
  }

  ghost predicate Printable(ms: Markers, specs: seq<FieldSpec>, c: Contract) {
    && c.Keys == SpecKeys(specs)
    && forall i :: 0 <= i < |specs| ==>
         && specs[i].key in c && OfKind(c[specs[i].key], specs[i].kind)
         && (c[specs[i].key].TextValue? ==> PlainText(ms, c[specs[i].key].text))
  }

  // How the values are spelled.
  function Raws(c: Contract): map<string, string> { map k | k in c :: Encode(c[k]) }

  // The lines may come in any order.
  ghost predicate Ordered(order: seq<string>, m: map<string, string>) {
    Distinct(order) && forall k :: k in order <==> k in m
  }

  function Line(key: string, raw: string): string { key + "=" + raw }

  function Body(m: map<string, string>, order: seq<string>): (r: seq<string>)
    requires forall k :: k in order ==> k in m
    ensures |r| == |order|
    ensures forall i :: 0 <= i < |order| ==> order[i] in m && r[i] == Line(order[i], m[order[i]])
  {
    seq(|order|, i requires 0 <= i < |order| => assert order[i] in order; Line(order[i], m[order[i]]))
  }

  function BlockLines(body: seq<string>): seq<string> { [""] + body + [""] }

  function Print(ms: Markers, body: seq<string>): string {
    ms.begin + Join(BlockLines(body), '\n') + ms.end
  }

  // ---- A printed line ----

  predicate GoodRaw(ms: Markers, raw: string) {
    raw != "" && TrimSpace(raw) == raw && '\n' !in raw && !Contains(raw, ms.begin) && !Contains(raw, ms.end)
  }

  lemma EncodedIsGood(ms: Markers, v: Value, kind: Kind)
    requires GoodMarkers(ms) && OfKind(v, kind) && (v.TextValue? ==> PlainText(ms, v.text))
    ensures GoodRaw(ms, Encode(v))
  {
    if !v.TextValue? {
      var raw := Encode(v);
      EncodedChars(v, '<');
      EncodedChars(v, '\n');
      forall c | IsSpace(c) ensures c !in raw { EncodedChars(v, c); }
      assert raw[0] in raw && raw[|raw| - 1] in raw;
      TrimFixedIff(raw);
      NoMarkerWithout(raw, ms.begin);
      NoMarkerWithout(raw, ms.end);
    }
  }

  lemma NoMarkerWithout(s: string, marker: string)
    requires GoodMarker(marker) && '<' !in s
    ensures !Contains(s, marker)
  {
    forall p | 0 <= p < |s| ensures !OccursAt(s, marker, p) {
      assert s[p] in s;
      assert p <= |s| - |marker| ==> s[p..p + |marker|][0] == s[p];
    }
  }

  lemma PrintedLine(ms: Markers, key: string, raw: string)
    requires GoodKey(key) && GoodRaw(ms, raw)
    ensures !Blank(Line(key, raw)) && EntryOf(Line(key, raw)) == Some(Entry(key, raw))
  {
    var line := Line(key, raw);
    TrimFixedIff(key);
    TrimFixedIff(raw);
    assert line[0] == key[0] && line[|line| - 1] == raw[|raw| - 1];
    TrimFixedIff(line);
    CutOf(key, '=', raw);
    assert line == key + ['='] + raw;
  }

  // A marker has no `=`, so it would lie in the key or in the value.
  lemma LineHasNoMarker(key: string, raw: string, marker: string)
    requires GoodMarker(marker) && '<' !in key && !Contains(raw, marker)
    ensures !Contains(Line(key, raw), marker)
  {
    var line := Line(key, raw);
    assert forall k :: 0 <= k < |key| ==> line[k] == key[k] && key[k] in key;
    forall p | 0 <= p < |line| && OccursAt(line, marker, p) ensures false {
      var found := line[p..p + |marker|];
      assert found[0] == line[p] == '<';
      var q := p - |key| - 1;
      assert q >= 0;
      assert raw[q..q + |marker|] == found;
      assert OccursAt(raw, marker, q);
    }
  }

  // ---- Where the markers are ----

  // A marker has no line break, so an occurrence lies within one line.
  lemma {:induction false} WithinOneLine(lines: seq<string>, marker: string, p: nat) returns (i: nat)
    requires lines != [] && marker != "" && '\n' !in marker && OccursAt(Join(lines, '\n'), marker, p)
    ensures i < |lines| && Contains(lines[i], marker)
  {
    var all := Join(lines, '\n');
    if |lines| == 1 {
      i := 0;
    } else if p <= |lines[0]| {
      i := 0;
      var n := |lines[0]|;
      assert all[n] == '\n';
      assert forall k :: 0 <= k < |marker| ==> all[p + k] == all[p..p + |marker|][k] == marker[k] && marker[k] in marker;
      assert p + |marker| <= n by {
        if p + |marker| > n {
          BreakInside(all, marker, p, n);
        }
      }
      assert lines[0][p..p + |marker|] == all[p..p + |marker|];
      assert OccursAt(lines[0], marker, p);
    } else {
      var rest := Join(lines[1..], '\n');
      var q := p - |lines[0]| - 1;
      assert rest[q..q + |marker|] == all[p..p + |marker|];
      var j := WithinOneLine(lines[1..], marker, q);
      i := j + 1;
    }
  }

  lemma BreakInside(s: string, marker: string, p: nat, n: nat)
    requires OccursAt(s, marker, p) && '\n' !in marker && n < |s| && s[n] == '\n'
    ensures n < p || p + |marker| <= n
  {
    assert forall k :: p <= k < p + |marker| ==> s[k] == s[p..p + |marker|][k - p] && s[k] in marker;
  }

  // Text between two line breaks: an occurrence is before, inside or behind it.
  lemma InThirds(a: string, block: string, z: string, marker: string, p: nat)
    requires GoodMarker(marker) && block != "" && block[0] == '\n' && block[|block| - 1] == '\n'
    requires OccursAt(a + block + z, marker, p)
    ensures OccursAt(a, marker, p) || OccursAt(block, marker, p - |a|) || OccursAt(z, marker, p - |a| - |block|)
  {
    var all := a + block + z;
    var n, e := |a|, |a| + |block|;
    BreakInside(all, marker, p, n);
    BreakInside(all, marker, p, e - 1);
    var q := p + |marker|;
    if p >= e {
      SliceRight(a + block, z, p, q);
    } else {
      SliceLeft(a + block, z, p, q);
      if q <= n { SliceLeft(a, block, p, q); } else { SliceRight(a, block, p, q); }
    }
  }

  lemma SliceLeft(a: string, b: string, i: nat, j: nat)
    requires i <= j <= |a|
    ensures (a + b)[i..j] == a[i..j]
  {
  }

  lemma SliceRight(a: string, b: string, i: nat, j: nat)
    requires |a| <= i <= j <= |a| + |b|
    ensures (a + b)[i..j] == b[i - |a|..j - |a|]
  {
  }

  // A marker occurs in a marker only as the whole of itself.
  lemma MarkerInMarker(ms: Markers, outer: string, marker: string, p: int)
    requires GoodMarkers(ms) && (outer == ms.begin || outer == ms.end) && (marker == ms.begin || marker == ms.end)
    requires OccursAt(outer, marker, p)
    ensures p == 0 && outer == marker
  {
    assert outer[p] == outer[p..p + |marker|][0] == '<';
  }

  lemma PrintedMarkers(ms: Markers, body: seq<string>, marker: string, p: nat)
    requires GoodMarkers(ms) && (marker == ms.begin || marker == ms.end)
    requires forall i :: 0 <= i < |body| ==> !Contains(body[i], marker)
    requires OccursAt(Print(ms, body), marker, p)
    ensures (marker == ms.begin && p == 0) || (marker == ms.end && p == |Print(ms, body)| - |ms.end|)
  {
    var block := Join(BlockLines(body), '\n');
    BlockEnds(body);
    InThirds(ms.begin, block, ms.end, marker, p);
    if OccursAt(ms.begin, marker, p) {
      MarkerInMarker(ms, ms.begin, marker, p);
    } else if OccursAt(ms.end, marker, p - |ms.begin| - |block|) {
      MarkerInMarker(ms, ms.end, marker, p - |ms.begin| - |block|);
    } else {
      NoMarkerInBlock(body, marker, p - |ms.begin|);
    }
  }

  lemma NoMarkerInBlock(body: seq<string>, marker: string, p: nat)
    requires GoodMarker(marker) && forall i :: 0 <= i < |body| ==> !Contains(body[i], marker)
    ensures !OccursAt(Join(BlockLines(body), '\n'), marker, p)
  {
    var lines := BlockLines(body);
    assert forall i :: 0 <= i < |lines| ==> lines[i] == "" || lines[i] == body[i - 1];
    assert forall i :: 0 <= i < |lines| ==> !Contains(lines[i], marker);
    if OccursAt(Join(lines, '\n'), marker, p) {
      var i := WithinOneLine(lines, marker, p);
    }
  }

  lemma BlockEnds(body: seq<string>)
    ensures var block := Join(BlockLines(body), '\n'); block != "" && block[0] == '\n' && block[|block| - 1] == '\n'
  {
    var lines := BlockLines(body);
    assert lines[1..] == body + [""];
    LastBreak(body);
  }

  lemma {:induction false} LastBreak(body: seq<string>)
    ensures var tail := Join(body + [""], '\n'); if body == [] then tail == "" else tail != "" && tail[|tail| - 1] == '\n'
  {
    if body != [] {
      assert (body + [""])[1..] == body[1..] + [""];
      LastBreak(body[1..]);
    }
  }

  lemma PrintIsFramed(ms: Markers, body: seq<string>)
    requires GoodMarkers(ms)
    requires forall i :: 0 <= i < |body| ==> !Contains(body[i], ms.begin) && !Contains(body[i], ms.end)
    ensures var all := Print(ms, body);
            Framed(all, ms, 0, |all| - |ms.end|) && all[|ms.begin|..|all| - |ms.end|] == Join(BlockLines(body), '\n')
  {
    var all := Print(ms, body);
    var e := |all| - |ms.end|;
    assert all[0..|ms.begin|] == ms.begin && all[e..e + |ms.end|] == ms.end;
    forall p: nat ensures OccursAt(all, ms.begin, p) <==> p == 0 {
      if OccursAt(all, ms.begin, p) { PrintedMarkers(ms, body, ms.begin, p); }
    }
    forall p: nat ensures OccursAt(all, ms.end, p) <==> p == e {
      if OccursAt(all, ms.end, p) { PrintedMarkers(ms, body, ms.end, p); }
    }
  }

  // ---- Round trip ----

  ghost predicate GoodFields(ms: Markers, m: map<string, string>) {
    forall k :: k in m ==> GoodKey(k) && GoodRaw(ms, m[k])
  }

  lemma RawsAreGood(ms: Markers, specs: seq<FieldSpec>, c: Contract)
    requires GoodMarkers(ms) && GoodSpecs(specs) && Printable(ms, specs, c)
    ensures GoodFields(ms, Raws(c))
  {
    forall k | k in c ensures GoodKey(k) && GoodRaw(ms, Encode(c[k])) {
      var s :| 0 <= s < |specs| && specs[s].key == k;
      EncodedIsGood(ms, c[k], specs[s].kind);
    }
  }

  lemma BodyLines(ms: Markers, m: map<string, string>, order: seq<string>, i: nat)
    requires GoodMarkers(ms) && GoodFields(ms, m) && Ordered(order, m) && i < |order|
    ensures var line := Body(m, order)[i];
            && Assigns(line, Entry(order[i], m[order[i]]))
            && '\n' !in line && !Contains(line, ms.begin) && !Contains(line, ms.end)
  {
    var k := order[i];
    assert k in order;
    PrintedLine(ms, k, m[k]);
    LineHasNoMarker(k, m[k], ms.begin);
    LineHasNoMarker(k, m[k], ms.end);
  }

  lemma BlankLine()
    ensures Blank("") && LineGood("")
  {
  }

  ghost predicate LinesOf(m: map<string, string>, order: seq<string>, lines: seq<string>) {
    && |lines| == |order| + 2 && lines[0] == "" && lines[|order| + 1] == ""
    && (forall k :: k in order ==> k in m)
    && forall j :: 1 <= j <= |order| ==> order[j - 1] in order && Assigns(lines[j], Entry(order[j - 1], m[order[j - 1]]))
  }

  lemma PrintedBlock(ms: Markers, m: map<string, string>, order: seq<string>)
    requires GoodMarkers(ms) && GoodFields(ms, m) && Ordered(order, m)
    ensures var lines := BlockLines(Body(m, order));
            LinesOf(m, order, lines) && Split(Join(lines, '\n'), '\n') == lines
  {
    var lines := BlockLines(Body(m, order));
    forall j | 1 <= j <= |order|
      ensures order[j - 1] in m && Assigns(lines[j], Entry(order[j - 1], m[order[j - 1]])) && '\n' !in lines[j]
    {
      PrintedBlockLine(ms, m, order, j);
    }
    forall line | line in lines ensures '\n' !in line {
      var j :| 0 <= j < |lines| && lines[j] == line;
      assert j == 0 || j == |order| + 1 || 1 <= j <= |order|;
    }
    SplitOfJoin(lines, '\n');
  }

  lemma BlockLineAt(body: seq<string>, j: nat)
    requires 1 <= j <= |body|
    ensures BlockLines(body)[j] == body[j - 1]
  {
  }

  lemma PrintedBlockLine(ms: Markers, m: map<string, string>, order: seq<string>, j: nat)
    requires GoodMarkers(ms) && GoodFields(ms, m) && Ordered(order, m) && 1 <= j <= |order|
    ensures order[j - 1] in m
    ensures var line := BlockLines(Body(m, order))[j];
            Assigns(line, Entry(order[j - 1], m[order[j - 1]])) && '\n' !in line
  {
    var k := order[j - 1];
    assert k in order;
    BlockLineAt(Body(m, order), j);
    assert BlockLines(Body(m, order))[j] == Line(k, m[k]);
    PrintedLine(ms, k, m[k]);
  }

  lemma PrintedHolds(m: map<string, string>, order: seq<string>, lines: seq<string>)
    requires LinesOf(m, order, lines) && Ordered(order, m)
    ensures Holds(m, lines)
  {
    forall e: Entry ensures (e.key in m && m[e.key] == e.raw) <==> Written(lines, e) {
      if e.key in m && m[e.key] == e.raw {
        FieldWritten(m, order, lines, e);
      }
      if Written(lines, e) {
        WrittenField(m, order, lines, e);
      }
    }
  }

  lemma FieldWritten(m: map<string, string>, order: seq<string>, lines: seq<string>, e: Entry)
    requires LinesOf(m, order, lines) && Ordered(order, m) && e.key in m && m[e.key] == e.raw
    ensures Written(lines, e)
  {
    assert e.key in order;
    var i :| 0 <= i < |order| && order[i] == e.key;
    assert Assigns(lines[i + 1], Entry(order[i + 1 - 1], m[order[i + 1 - 1]]));
  }

  lemma WrittenField(m: map<string, string>, order: seq<string>, lines: seq<string>, e: Entry)
    requires LinesOf(m, order, lines) && Ordered(order, m) && Written(lines, e)
    ensures e.key in m && m[e.key] == e.raw
  {
    BlankLine();
    var j :| 0 <= j < |lines| && Assigns(lines[j], e);
    assert 1 <= j <= |order|;
    assert Assigns(lines[j], Entry(order[j - 1], m[order[j - 1]]));
  }

  lemma PrintedWell(m: map<string, string>, order: seq<string>, lines: seq<string>)
    requires LinesOf(m, order, lines) && Ordered(order, m)
    ensures WellWritten(lines) <==> forall j :: 1 <= j <= |order| ==> !TooLong(lines[j])
  {
    BlankLine();
    forall i, j | 0 <= i < j < |lines| ensures !Clash(lines[i], lines[j]) {
      if 1 <= i && j <= |order| {
        assert order[i - 1] != order[j - 1];
      }
    }
    if WellWritten(lines) {
      forall j | 1 <= j <= |order| ensures !TooLong(lines[j]) { assert LineGood(lines[j]); }
    }
  }

  lemma PrintedTyped(ms: Markers, specs: seq<FieldSpec>, c: Contract)
    requires Printable(ms, specs, c)
    ensures Typed(specs, Raws(c), c)
  {
    forall i | 0 <= i < |specs| ensures Decode(specs[i].kind, Raws(c)[specs[i].key]) == Some(c[specs[i].key]) {
      DecodeOfEncode(specs[i].kind, c[specs[i].key]);
    }
  }

  // What the printed block means, once it is cut out.
  lemma PrintedBlockHoldsIff(ms: Markers, specs: seq<FieldSpec>, c: Contract, order: seq<string>)
    requires GoodMarkers(ms) && GoodFields(ms, Raws(c)) && Typed(specs, Raws(c), c) && Ordered(order, Raws(c))
    ensures BlockHolds(Join(BlockLines(Body(Raws(c), order)), '\n'), specs, c) <==>
              forall i :: 0 <= i < |order| ==> !TooLong(Body(Raws(c), order)[i])
  {
    var body := Body(Raws(c), order);
    var lines := BlockLines(body);
    PrintedBlock(ms, Raws(c), order);
    PrintedHolds(Raws(c), order, lines);
    PrintedWell(Raws(c), order, lines);
    SameTooLong(body);
    assert BlockHolds(Join(lines, '\n'), specs, c) <==> WellWritten(lines);
  }

  lemma SameTooLong(body: seq<string>)
    ensures (forall j :: 1 <= j <= |body| ==> !TooLong(BlockLines(body)[j])) <==>
              forall i :: 0 <= i < |body| ==> !TooLong(body[i])
  {
    var lines := BlockLines(body);
    assert forall i :: 0 <= i < |body| ==> body[i] == lines[i + 1];
    assert forall j :: 1 <= j <= |body| ==> lines[j] == body[j - 1];
  }

  // Any printable contract, its lines in any order, parses back to itself, unless a
  // line is too long for the line scanner; then it does not parse to it.
  lemma RoundTripIff(ms: Markers, specs: seq<FieldSpec>, c: Contract, order: seq<string>)
    requires GoodMarkers(ms) && GoodSpecs(specs) && Printable(ms, specs, c) && Ordered(order, Raws(c))
    ensures Means(Print(ms, Body(Raws(c), order)), ms, specs, c) <==>
              forall i :: 0 <= i < |order| ==> !TooLong(Body(Raws(c), order)[i])
  {
    var body := Body(Raws(c), order);
    var all := Print(ms, body);
    RawsAreGood(ms, specs, c);
    forall i | 0 <= i < |body| ensures !Contains(body[i], ms.begin) && !Contains(body[i], ms.end) {
      BodyLines(ms, Raws(c), order, i);
    }
    PrintIsFramed(ms, body);
    PrintedTyped(ms, specs, c);
    PrintedBlockHoldsIff(ms, specs, c, order);
    MeansIffBlockHolds(all, ms, specs, c, 0, |all| - |ms.end|);
  }

  // ---- The fields and markers in use ----

  function AuthorityMarkers(): Markers {
    Markers("<" + ("!-- LEAMAS:" + ("AUTHORITY-CONTRACT" + ":BEGIN -->")),
            "<" + ("!-- LEAMAS:" + ("AUTHORITY-CONTRACT" + ":END -->")))
  }

  function AuthorityFields(): seq<FieldSpec> {
    [FieldSpec("authority_source", ModeKind), FieldSpec("edit", ModeKind), FieldSpec("focused_verification", ModeKind),
     FieldSpec("affected_verification", ModeKind), FieldSpec("expensive_verification", ModeKind),
     FieldSpec("commit", ModeKind), FieldSpec("push", ModeKind), FieldSpec("tag", ModeKind),
     FieldSpec("history_rewrite", ModeKind), FieldSpec("checkpoint_is_git_publication", BoolKind),
     FieldSpec("unauthorized_expensive_result", TextKind), FieldSpec("frozen_closure_plan_authority", BoolKind)]
  }

  predicate Inner(s: string) {
    forall i :: 0 <= i < |s| ==> s[i] != '<' && s[i] != '\n' && s[i] != '='
  }

  lemma InnerMakesGood(a: string, b: string, c: string)
    requires Inner(a) && Inner(b) && Inner(c)
    ensures GoodMarker("<" + (a + (b + c)))
  {
    var m := "<" + (a + (b + c));
    assert forall i :: 0 < i < |m| ==> m[i] == (a + (b + c))[i - 1];
  }

  lemma AuthorityMarkersGood()
    ensures GoodMarkers(AuthorityMarkers())
  {
    InnerMakesGood("!-- LEAMAS:", "AUTHORITY-CONTRACT", ":BEGIN -->");
    InnerMakesGood("!-- LEAMAS:", "AUTHORITY-CONTRACT", ":END -->");
    var b, e := AuthorityMarkers().begin, AuthorityMarkers().end;
    assert |b| == 40 && |e| == 38;
    assert b[..38][31] == b[31] == ":BEGIN -->"[1] && e[31] == ":END -->"[1];
  }

  predicate KeyChar(c: char) { 'a' <= c <= 'z' || c == '_' }

  predicate PlainKey(k: string) {
    k != "" && forall i :: 0 <= i < |k| ==> KeyChar(k[i])
  }

  lemma PlainKeyGood(k: string)
    requires PlainKey(k)
    ensures GoodKey(k)
  {
    TrimFixedIff(k);
  }

  lemma ReadsPlain(k: string)
    requires k != "" && forall i :: 0 <= i < |k| ==> KeyChar(k[i])
    ensures PlainKey(k)
  {
  }

  lemma AuthorityKeysPlain()
    ensures forall i :: 0 <= i < |AuthorityFields()| ==> PlainKey(AuthorityFields()[i].key)
  {
    ShortKeysPlain();
    LongKeysPlain();
  }

  lemma ShortKeysPlain()
    ensures PlainKey("authority_source") && PlainKey("edit") && PlainKey("commit") && PlainKey("push")
    ensures PlainKey("tag") && PlainKey("history_rewrite")
  {
    ReadsPlain("authority_source");
    ReadsPlain("edit");
    ReadsPlain("commit");
    ReadsPlain("push");
    ReadsPlain("tag");
    ReadsPlain("history_rewrite");
  }

  lemma LongKeysPlain()
    ensures PlainKey("focused_verification") && PlainKey("affected_verification")
    ensures PlainKey("expensive_verification") && PlainKey("checkpoint_is_git_publication")
    ensures PlainKey("unauthorized_expensive_result") && PlainKey("frozen_closure_plan_authority")
  {
    ReadsPlain("focused_verification");
    ReadsPlain("affected_verification");
    ReadsPlain("expensive_verification");
    ReadsPlain("checkpoint_is_git_publication");
    ReadsPlain("unauthorized_expensive_result");
    ReadsPlain("frozen_closure_plan_authority");
  }

  lemma KeysGood(specs: seq<FieldSpec>)
    requires forall i :: 0 <= i < |specs| ==> PlainKey(specs[i].key)
    ensures forall i :: 0 <= i < |specs| ==> GoodKey(specs[i].key)
  {
    forall i | 0 <= i < |specs| ensures GoodKey(specs[i].key) {
      PlainKeyGood(specs[i].key);
    }
  }

  lemma AuthorityKeysDistinct()
    ensures DistinctKeys(AuthorityFields())
  {
    var f := AuthorityFields();
    assert f[1].key[0] == 'e' && f[6].key[0] == 'p';
    assert f[9].key[0] == 'c' && f[10].key[0] == 'u' && f[11].key[0] == 'f';
  }

  // The parser as the program calls it.
  method ParseAuthorityContract(content: string) returns (r: Outcome<Contract>)
    ensures forall c :: Means(content, AuthorityMarkers(), AuthorityFields(), c) <==> r == Ok(c)
  {
    AuthorityMarkersGood();
    AuthorityKeysDistinct();
    r := ParseContractBlock(content, AuthorityMarkers(), AuthorityFields());
  }

  // Printing and parsing the actual contract.
  lemma AuthorityRoundTripIff(c: Contract, order: seq<string>)
    requires Printable(AuthorityMarkers(), AuthorityFields(), c) && Ordered(order, Raws(c))
    ensures Means(Print(AuthorityMarkers(), Body(Raws(c), order)), AuthorityMarkers(), AuthorityFields(), c) <==>
              forall i :: 0 <= i < |order| ==> !TooLong(Body(Raws(c), order)[i])
  {
    AuthorityMarkersGood();
    AuthorityKeysPlain();
    KeysGood(AuthorityFields());
    AuthorityKeysDistinct();
    RoundTripIff(AuthorityMarkers(), AuthorityFields(), c, order);
  }

  // ---- A contract that does not survive ----

  // A contract for any fields, with the given text in its text fields.
  lemma {:induction false} WithText(ms: Markers, specs: seq<FieldSpec>, text: string) returns (c: Contract)
    requires DistinctKeys(specs) && PlainText(ms, text)
    ensures Printable(ms, specs, c)
    ensures forall i :: 0 <= i < |specs| && specs[i].kind == TextKind ==> c[specs[i].key] == TextValue(text)
  {
    if specs == [] {
      c := map[];
    } else {
      var n := |specs| - 1;
      var init, last := specs[..n], specs[n];
      var fewer := WithText(ms, init, text);
      var value := SampleValue(last.kind, text);
      c := fewer[last.key := value];
      assert specs == init + [last];
      OneMore(ms, init, last, fewer, value);
    }
  }

  function SampleValue(kind: Kind, text: string): Value {
    match kind
    case ModeKind => ModeValue(Act)
    case BoolKind => BoolValue(true)
    case TextKind => TextValue(text)
  }

  lemma OneMore(ms: Markers, init: seq<FieldSpec>, last: FieldSpec, fewer: Contract, value: Value)
    requires Printable(ms, init, fewer) && last.key !in SpecKeys(init)
    requires OfKind(value, last.kind) && (value.TextValue? ==> PlainText(ms, value.text))
    ensures Printable(ms, init + [last], fewer[last.key := value])
    ensures forall i :: 0 <= i < |init| ==> fewer[last.key := value][init[i].key] == fewer[init[i].key]
  {
    var specs := init + [last];
    assert forall i :: 0 <= i < |init| ==> specs[i] == init[i] && init[i].key in SpecKeys(init);
    assert specs[|init|] == last;
    assert SpecKeys(specs) == SpecKeys(init) + {last.key};
  }

  lemma RepeatedIsPlain(ms: Markers, n: nat)
    requires GoodMarkers(ms) && n > 0
    ensures PlainText(ms, seq(n, _ => 'x'))
  {
    var text := seq(n, _ => 'x');
    TrimFixedIff(text);
    NoMarkerInside(text, ms.begin);
    NoMarkerInside(text, ms.end);
  }

  lemma NoMarkerInside(text: string, marker: string)
    requires GoodMarker(marker) && '<' !in text
    ensures !Contains(text, marker)
  {
    assert forall p :: OccursAt(text, marker, p) ==> text[p..p + |marker|][0] == text[p];
  }

  lemma {:induction false} Utf8AtLeast(s: string)
    ensures |s| <= Utf8Length(s)
  {
    if s != "" {
      Utf8AtLeast(s[1..]);
    }
  }

  // A printable contract with a text of 65536 characters, with its lines in the order
  // of the fields, does not come back.
  lemma LongTextIsLost() returns (c: Contract, order: seq<string>)
    ensures Printable(AuthorityMarkers(), AuthorityFields(), c) && Ordered(order, Raws(c))
    ensures !Means(Print(AuthorityMarkers(), Body(Raws(c), order)), AuthorityMarkers(), AuthorityFields(), c)
  {
    var specs := AuthorityFields();
    AuthorityMarkersGood();
    AuthorityKeysDistinct();
    RepeatedIsPlain(AuthorityMarkers(), 65536);
    var text := seq(65536, _ => 'x');
    c := WithText(AuthorityMarkers(), specs, text);
    order := KeyOrder(specs, c);
    assert specs[10] == FieldSpec("unauthorized_expensive_result", TextKind);
    Utf8AtLeast(Body(Raws(c), order)[10]);
    AuthorityRoundTripIff(c, order);
  }

  lemma KeyOrder(specs: seq<FieldSpec>, c: Contract) returns (order: seq<string>)
    requires DistinctKeys(specs) && c.Keys == SpecKeys(specs)
    ensures Ordered(order, Raws(c)) && |order| == |specs|
    ensures forall i :: 0 <= i < |specs| ==> order[i] == specs[i].key
  {
    order := seq(|specs|, i requires 0 <= i < |specs| => specs[i].key);
    forall k ensures k in order <==> k in c.Keys {
      if k in c.Keys {
        var i :| 0 <= i < |specs| && specs[i].key == k;
        assert order[i] == k;
      }
    }
  }

  // The example in the source's own comment gives authority_source a value that is no
  // mode: no block with that line is accepted.
  lemma DocumentedExampleRejected(block: string, c: Contract)
    requires Written(Split(block, '\n'), Entry("authority_source", "current_act"))
    ensures !BlockHolds(block, AuthorityFields(), c)
  {
    var lines := Split(block, '\n');
    var e := Entry("authority_source", "current_act");
    assert AuthorityFields()[0] == FieldSpec("authority_source", ModeKind);
    NotAMode();
    forall m | Holds(m, lines) ensures !Typed(AuthorityFields(), m, c) {
      assert e.key in m && m[e.key] == e.raw;
    }
  }

  lemma NotAMode()
    ensures Decode(ModeKind, "current_act") == None
  {
    assert |"current_act"| == 11;
  }
}
