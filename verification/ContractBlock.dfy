/**
 * The authority-contract block of an agent-context file: one BEGIN marker, one END
 * marker, and between them one `key=value` line for every field.
 */
module ContractBlock {
  import opened Text
  import opened Ordering

  // ---- Values ----

  datatype Mode = Act | Explicit | ExplicitExact | Forbidden

  datatype Kind = ModeKind | BoolKind | TextKind

  datatype Value = ModeValue(mode: Mode) | BoolValue(flag: bool) | TextValue(text: string)

  datatype FieldSpec = FieldSpec(key: string, kind: Kind)

  predicate OfKind(v: Value, kind: Kind) {
    match kind
    case ModeKind => v.ModeValue?
    case BoolKind => v.BoolValue?
    case TextKind => v.TextValue? && v.text != ""
  }

  function ModeName(m: Mode): string {
    match m
    case Act => "act"
    case Explicit => "explicit"
    case ExplicitExact => "explicit_exact"
    case Forbidden => "forbidden"
  }

  // The spelling a field is printed with.
  function Encode(v: Value): string {
    match v
    case ModeValue(m) => ModeName(m)
    case BoolValue(b) => if b then "true" else "false"
    case TextValue(t) => t
  }

  // strconv.ParseBool
  function ParseBool(raw: string): Option<bool> {
    if raw in ["1", "t", "T", "TRUE", "true", "True"] then Some(true)
    else if raw in ["0", "f", "F", "FALSE", "false", "False"] then Some(false)
    else None
  }

  function ParseMode(raw: string): Option<Mode> {
    if raw == "act" then Some(Act)
    else if raw == "explicit" then Some(Explicit)
    else if raw == "explicit_exact" then Some(ExplicitExact)
    else if raw == "forbidden" then Some(Forbidden)
    else None
  }

  function Decode(kind: Kind, raw: string): Option<Value> {
    match kind
    case ModeKind => (var m := ParseMode(raw); if m.Some? then Some(ModeValue(m.value)) else None)
    case BoolKind => (var b := ParseBool(raw); if b.Some? then Some(BoolValue(b.value)) else None)
    case TextKind => if raw == "" then None else Some(TextValue(raw))
  }

  lemma DecodeOfEncode(kind: Kind, v: Value)
    requires OfKind(v, kind)
    ensures Decode(kind, Encode(v)) == Some(v)
  {
    match v
    case ModeValue(m) =>
      assert "act" != "explicit" && |"explicit"| != |"explicit_exact"| && |"forbidden"| != |"explicit_exact"|;
    case BoolValue(b) =>
      assert "false"[0] == 'f' && "true"[0] == 't';
    case TextValue(t) =>
  }

  lemma EncodedChars(v: Value, c: char)
    requires !v.TextValue? && (c == '<' || c == '\n' || IsSpace(c))
    ensures Encode(v) != "" && c !in Encode(v)
  {
  }

  // ---- Markers ----

  datatype Markers = Markers(begin: string, end: string)

  // The first character, which both share, comes back nowhere, so occurrences never overlap.
  predicate GoodMarker(m: string) {
    && m != "" && m[0] == '<' && '\n' !in m && '=' !in m
    && forall i :: 0 < i < |m| ==> m[i] != '<'
  }

  predicate GoodMarkers(ms: Markers) {
    && GoodMarker(ms.begin) && GoodMarker(ms.end)
    && !OccursAt(ms.begin, ms.end, 0) && !OccursAt(ms.end, ms.begin, 0)
  }

  function Hits(content: string, marker: string, pos: nat): seq<nat>
    requires marker != "" && pos <= |content|
    decreases |content| - pos
  {
    var found := IndexFrom(content, marker, pos);
    if found.None? then [] else [found.value] + Hits(content, marker, found.value + |marker|)
  }

  // What was found up to pos, and what is still to be found, is all there is.
  ghost predicate Searched(content: string, marker: string, pos: nat, hits: seq<nat>) {
    marker != "" && pos <= |content| && hits + Hits(content, marker, pos) == Hits(content, marker, 0)
  }

  method FindMarker(content: string, marker: string) returns (hits: seq<nat>)
    requires marker != ""
    ensures hits == Hits(content, marker, 0)
  {
    hits := [];
    var i := 0;
    SearchStart(content, marker);
    while true
      invariant Searched(content, marker, i, hits)
      decreases |content| - i
    {
      var found := IndexFrom(content, marker, i);
      if found.None? {
        SearchEnd(content, marker, i, hits);
        return;
      }
      SearchStep(content, marker, i, hits, found.value);
      hits := hits + [found.value];
      i := found.value + |marker|;
    }
  }

  lemma SearchStart(content: string, marker: string)
    requires marker != ""
    ensures Searched(content, marker, 0, [])
  {
  }

  lemma SearchEnd(content: string, marker: string, pos: nat, hits: seq<nat>)
    requires Searched(content, marker, pos, hits) && IndexFrom(content, marker, pos).None?
    ensures hits == Hits(content, marker, 0)
  {
    assert Hits(content, marker, pos) == [];
  }

  lemma SearchStep(content: string, marker: string, pos: nat, hits: seq<nat>, at: nat)
    requires Searched(content, marker, pos, hits) && IndexFrom(content, marker, pos) == Some(at)
    ensures Searched(content, marker, at + |marker|, hits + [at])
  {
    HitsUnfold(content, marker, pos, at);
    Associate(hits, [at], Hits(content, marker, at + |marker|));
  }

  lemma HitsUnfold(content: string, marker: string, pos: nat, at: nat)
    requires marker != "" && pos <= |content| && IndexFrom(content, marker, pos) == Some(at)
    ensures Hits(content, marker, pos) == [at] + Hits(content, marker, at + |marker|)
  {
  }

  lemma Associate(a: seq<nat>, b: seq<nat>, c: seq<nat>)
    ensures a + (b + c) == a + b + c
  {
  }

  lemma MarkersApart(content: string, a: string, b: string, p: nat, q: nat)
    requires GoodMarker(a) && GoodMarker(b) && OccursAt(content, a, p) && OccursAt(content, b, q) && p < q
    ensures p + |a| <= q
  {
    assert content[q] == content[q..q + |b|][0] == '<';
    assert forall k :: p < k < p + |a| ==> content[k] == content[p..p + |a|][k - p] && content[k] != '<';
  }

  // The search finds every occurrence, and each once.
  lemma {:induction false} HitsAreOccurrences(content: string, marker: string, pos: nat)
    requires GoodMarker(marker) && pos <= |content|
    ensures forall p: nat :: p in Hits(content, marker, pos) <==> pos <= p && OccursAt(content, marker, p)
    ensures Distinct(Hits(content, marker, pos))
    decreases |content| - pos
  {
    var found := IndexFrom(content, marker, pos);
    if found.Some? {
      HitsAreOccurrences(content, marker, found.value + |marker|);
      forall p: nat | pos <= p && OccursAt(content, marker, p) ensures p == found.value || found.value + |marker| <= p {
        if found.value < p { MarkersApart(content, marker, marker, found.value, p); }
      }
    }
  }

  ghost predicate Sole(content: string, marker: string, at: nat) {
    forall p: nat :: OccursAt(content, marker, p) <==> p == at
  }

  lemma SoleHit(content: string, marker: string, at: nat)
    requires GoodMarker(marker)
    ensures Hits(content, marker, 0) == [at] <==> Sole(content, marker, at)
  {
    var hits := Hits(content, marker, 0);
    HitsAreOccurrences(content, marker, 0);
    assert |hits| > 1 ==> hits[0] != hits[1];
    if Sole(content, marker, at) {
      assert OccursAt(content, marker, at);
      assert at in hits;
      assert forall i :: 0 <= i < |hits| ==> hits[i] in hits;
      assert forall i :: 0 <= i < |hits| ==> hits[i] == at;
    }
  }

  // ---- Lines ----

  function Utf8Length(s: string): nat {
    if s == "" then 0
    else
      var c := s[0];
      (if c < '\U{80}' then 1 else if c < '\U{800}' then 2 else if c < '\U{10000}' then 3 else 4) + Utf8Length(s[1..])
  }

  // The line scanner gives up on a line that does not fit its 64 KiB buffer.
  predicate TooLong(line: string) { Utf8Length(line) >= 65536 }

  predicate Blank(line: string) { TrimSpace(line) == "" }

  datatype Entry = Entry(key: string, raw: string)

  // What a line that is not blank assigns; None if it is malformed.
  function EntryOf(line: string): Option<Entry> {
    var (key, raw) := Cut(TrimSpace(line), '=');
    if key == "" || raw.None? then None else Some(Entry(TrimSpace(key), TrimSpace(raw.value)))
  }

  predicate LineGood(line: string) {
    !TooLong(line) && (Blank(line) || EntryOf(line).Some?)
  }

  predicate Assigns(line: string, e: Entry) {
    !Blank(line) && EntryOf(line) == Some(e)
  }

  // Lines i and j assign to the same key.
  predicate Clash(a: string, b: string) {
    !Blank(a) && !Blank(b) && EntryOf(a).Some? && EntryOf(b).Some? && EntryOf(a).value.key == EntryOf(b).value.key
  }

  ghost predicate WellWritten(lines: seq<string>) {
    && (forall i :: 0 <= i < |lines| ==> LineGood(lines[i]))
    && (forall i, j :: 0 <= i < j < |lines| ==> !Clash(lines[i], lines[j]))
  }

  ghost predicate Written(lines: seq<string>, e: Entry) {
    exists i :: 0 <= i < |lines| && Assigns(lines[i], e)
  }

  // The map holds what the lines assign and nothing else.
  ghost predicate Holds(m: map<string, string>, lines: seq<string>) {
    forall e: Entry :: (e.key in m && m[e.key] == e.raw) <==> Written(lines, e)
  }

  datatype Error =
    | MissingBegin | MissingEnd | DuplicateBegin | DuplicateEnd | InvertedMarkers
    | MalformedLine | DuplicateKey | MissingRequired | InvalidModeValue | InvalidBoolValue | UnknownKey

  datatype Outcome<T> = Ok(value: T) | Err(error: Error)

  lemma HoldsSnoc(m: map<string, string>, lines: seq<string>, line: string, e: Entry)
    requires Holds(m, lines) && Assigns(line, e) && e.key !in m
    ensures Holds(m[e.key := e.raw], lines + [line])
  {
    var longer := lines + [line];
    forall f: Entry ensures (f.key in m[e.key := e.raw] && m[e.key := e.raw][f.key] == f.raw) <==> Written(longer, f) {
      assert longer[|lines|] == line;
      if Written(lines, f) {
        var i :| 0 <= i < |lines| && Assigns(lines[i], f);
        assert longer[i] == lines[i];
      }
      if Written(longer, f) {
        var i :| 0 <= i < |longer| && Assigns(longer[i], f);
        assert i < |lines| ==> Assigns(lines[i], f);
      }
    }
  }

  lemma HoldsBlank(m: map<string, string>, lines: seq<string>, line: string)
    requires Holds(m, lines) && Blank(line)
    ensures Holds(m, lines + [line])
  {
    var longer := lines + [line];
    forall f: Entry ensures Written(lines, f) <==> Written(longer, f) {
      if i :| 0 <= i < |lines| && Assigns(lines[i], f) { assert longer[i] == lines[i]; }
      if i :| 0 <= i < |longer| && Assigns(longer[i], f) { assert i < |lines|; }
    }
  }

  // A key is in the map exactly when some earlier line clashes with the new one.
  lemma KeyTaken(m: map<string, string>, lines: seq<string>, line: string, e: Entry)
    requires Holds(m, lines) && Assigns(line, e)
    ensures e.key in m <==> exists i :: 0 <= i < |lines| && Clash(lines[i], line)
  {
    if e.key in m {
      assert Written(lines, Entry(e.key, m[e.key]));
      var i :| 0 <= i < |lines| && Assigns(lines[i], Entry(e.key, m[e.key]));
      assert Clash(lines[i], line);
    }
    if i :| 0 <= i < |lines| && Clash(lines[i], line) {
      assert Assigns(lines[i], EntryOf(lines[i]).value);
      assert Written(lines, EntryOf(lines[i]).value);
    }
  }

  method ReadLines(lines: seq<string>) returns (r: Outcome<map<string, string>>)
    ensures r.Ok? <==> WellWritten(lines)
    ensures r.Ok? ==> Holds(r.value, lines)
  {
    var parsed: map<string, string> := map[];
    for i := 0 to |lines|
      invariant WellWritten(lines[..i]) && Holds(parsed, lines[..i])
    {
      assert lines[..i + 1] == lines[..i] + [lines[i]];
      var step := ReadLine(parsed, lines[..i], lines[i]);
      if step.Err? {
        if WellWritten(lines) { WellPrefix(lines, i + 1); }
        return step;
      }
      parsed := step.value;
    }
    assert lines[..|lines|] == lines;
    r := Ok(parsed);
  }

  lemma WellPrefix(lines: seq<string>, n: nat)
    requires n <= |lines| && WellWritten(lines)
    ensures WellWritten(lines[..n])
  {
  }

  // One line more.
  method ReadLine(parsed: map<string, string>, ghost before: seq<string>, raw: string) returns (r: Outcome<map<string, string>>)
    requires WellWritten(before) && Holds(parsed, before)
    ensures r.Ok? <==> WellWritten(before + [raw])
    ensures r.Ok? ==> Holds(r.value, before + [raw])
  {
    assert (before + [raw])[|before|] == raw;
    if !LineGood(raw) {
      return Err(MalformedLine);
    }
    if Blank(raw) {
      HoldsBlank(parsed, before, raw);
      WellSnoc(before, raw);
      return Ok(parsed);
    }
    var entry := EntryOf(raw).value;
    KeyTaken(parsed, before, raw, entry);
    if entry.key in parsed {
      ghost var k :| 0 <= k < |before| && Clash(before[k], raw);
      assert Clash((before + [raw])[k], (before + [raw])[|before|]);
      return Err(DuplicateKey);
    }
    WellSnoc(before, raw);
    HoldsSnoc(parsed, before, raw, entry);
    r := Ok(parsed[entry.key := entry.raw]);
  }

  lemma WellSnoc(lines: seq<string>, line: string)
    requires WellWritten(lines) && LineGood(line)
    requires forall i :: 0 <= i < |lines| ==> !Clash(lines[i], line)
    ensures WellWritten(lines + [line])
  {
  }

  // ---- Fields ----

  predicate Valued(specs: seq<FieldSpec>, m: map<string, string>) {
    forall i :: 0 <= i < |specs| ==> specs[i].key in m && Decode(specs[i].kind, m[specs[i].key]).Some?
  }

  function SpecKeys(specs: seq<FieldSpec>): set<string> {
    set i | 0 <= i < |specs| :: specs[i].key
  }

  ghost predicate DistinctKeys(specs: seq<FieldSpec>) {
    forall i, j :: 0 <= i < j < |specs| ==> specs[i].key != specs[j].key
  }

  method ValidateFields(specs: seq<FieldSpec>, m: map<string, string>) returns (bad: Option<Error>)
    ensures bad.None? <==> Valued(specs, m) && m.Keys <= SpecKeys(specs)
  {
    for i := 0 to |specs|
      invariant Valued(specs[..i], m)
    {
      var spec := specs[i];
      if spec.key !in m {
        return Some(MissingRequired);
      }
      if Decode(spec.kind, m[spec.key]).None? {
        return Some(if spec.kind == BoolKind then InvalidBoolValue else InvalidModeValue);
      }
    }
    bad := if m.Keys <= SpecKeys(specs) then None else Some(UnknownKey);
  }

  // A contract assigns a value to each field.
  type Contract = map<string, Value>

  ghost predicate Typed(specs: seq<FieldSpec>, m: map<string, string>, c: Contract) {
    && m.Keys == c.Keys == SpecKeys(specs)
    && forall i :: 0 <= i < |specs| ==>
         specs[i].key in m && specs[i].key in c && Decode(specs[i].kind, m[specs[i].key]) == Some(c[specs[i].key])
  }

  method Build(specs: seq<FieldSpec>, m: map<string, string>) returns (c: Contract)
    requires Valued(specs, m) && m.Keys <= SpecKeys(specs) && DistinctKeys(specs)
    ensures Typed(specs, m, c)
  {
    assert SpecKeys(specs) <= m.Keys;
    c := map[];
    for i := 0 to |specs|
      invariant c.Keys == SpecKeys(specs[..i])
      invariant forall k :: 0 <= k < i ==> specs[k].key in c && Some(c[specs[k].key]) == Decode(specs[k].kind, m[specs[k].key])
    {
      KeysSnoc(specs, i);
      assert specs[i].key in m;
      c := c[specs[i].key := Decode(specs[i].kind, m[specs[i].key]).value];
    }
    assert specs[..|specs|] == specs;
  }

  lemma KeysSnoc(specs: seq<FieldSpec>, i: nat)
    requires i < |specs|
    ensures SpecKeys(specs[..i + 1]) == SpecKeys(specs[..i]) + {specs[i].key}
  {
    var longer := specs[..i + 1];
    assert longer[i] == specs[i];
    forall k | k in SpecKeys(specs[..i]) ensures k in SpecKeys(longer) {
      var j :| 0 <= j < i && specs[..i][j].key == k;
      assert longer[j].key == k;
    }
    forall k | k in SpecKeys(longer) ensures k in SpecKeys(specs[..i]) + {specs[i].key} {
      var j :| 0 <= j <= i && longer[j].key == k;
      assert j < i ==> specs[..i][j].key == k;
    }
  }

  // ---- The parser ----

  // One BEGIN at b, one END at e, the END behind the BEGIN.
  ghost predicate Framed(content: string, ms: Markers, b: nat, e: nat) {
    Sole(content, ms.begin, b) && Sole(content, ms.end, e) && b + |ms.begin| <= e <= |content|
  }

  // The block assigns each field exactly once, nothing else, and as the contract says.
  ghost predicate BlockHolds(block: string, specs: seq<FieldSpec>, c: Contract) {
    var lines := Split(block, '\n');
    WellWritten(lines) && exists m :: Holds(m, lines) && Typed(specs, m, c)
  }

  ghost predicate MeansAt(content: string, ms: Markers, specs: seq<FieldSpec>, c: Contract, b: nat, e: nat) {
    Framed(content, ms, b, e) && BlockHolds(content[b + |ms.begin|..e], specs, c)
  }

  ghost predicate Means(content: string, ms: Markers, specs: seq<FieldSpec>, c: Contract) {
    exists b: nat, e: nat :: MeansAt(content, ms, specs, c, b, e)
  }

  lemma HoldsUnique(m: map<string, string>, n: map<string, string>, lines: seq<string>)
    requires Holds(m, lines) && Holds(n, lines)
    ensures m == n
  {
    forall k | k in m ensures k in n && n[k] == m[k] {
      assert Written(lines, Entry(k, m[k]));
      assert Entry(k, m[k]).key in n;
    }
    forall k | k in n ensures k in m {
      assert Written(lines, Entry(k, n[k]));
      assert Entry(k, n[k]).key in m;
    }
  }

  lemma TypedUnique(specs: seq<FieldSpec>, m: map<string, string>, c: Contract, d: Contract)
    requires Typed(specs, m, c) && Typed(specs, m, d)
    ensures c == d
  {
    forall k | k in c ensures c[k] == d[k] {
      var i :| 0 <= i < |specs| && specs[i].key == k;
    }
  }

  method ParseBlock(block: string, specs: seq<FieldSpec>) returns (r: Outcome<Contract>)
    requires DistinctKeys(specs)
    ensures forall c :: BlockHolds(block, specs, c) <==> r == Ok(c)
  {
    var lines := Split(block, '\n');
    var read := ReadLines(lines);
    if read.Err? {
      return Err(read.error);
    }
    var m := read.value;
    var bad := ValidateFields(specs, m);
    forall c, n | Holds(n, lines) && Typed(specs, n, c) ensures bad.None? && Typed(specs, m, c) {
      HoldsUnique(m, n, lines);
    }
    if bad.Some? {
      return Err(bad.value);
    }
    var c := Build(specs, m);
    forall d | Typed(specs, m, d) ensures c == d {
      TypedUnique(specs, m, c, d);
    }
    r := Ok(c);
  }

  method FindFrame(content: string, ms: Markers) returns (r: Outcome<(nat, nat)>)
    requires GoodMarkers(ms)
    ensures r.Ok? ==> Framed(content, ms, r.value.0, r.value.1)
    ensures forall b: nat, e: nat :: Framed(content, ms, b, e) ==> r == Ok((b, e))
    ensures r == Err(MissingBegin) <==> forall p: nat :: !OccursAt(content, ms.begin, p)
  {
    var begins := FindMarker(content, ms.begin);
    var ends := FindMarker(content, ms.end);
    forall p: nat ensures begins == [p] <==> Sole(content, ms.begin, p) { SoleHit(content, ms.begin, p); }
    forall p: nat ensures ends == [p] <==> Sole(content, ms.end, p) { SoleHit(content, ms.end, p); }
    HitsAreOccurrences(content, ms.begin, 0);
    if |begins| == 0 {
      return Err(MissingBegin);
    }
    assert begins[0] in begins;
    assert OccursAt(content, ms.begin, begins[0]);
    if |ends| == 0 {
      return Err(MissingEnd);
    }
    if |begins| > 1 {
      return Err(DuplicateBegin);
    }
    if |ends| > 1 {
      return Err(DuplicateEnd);
    }
    var b, e := begins[0], ends[0];
    assert begins == [b] && ends == [e];
    if e <= b {
      return Err(InvertedMarkers);
    }
    MarkersApart(content, ms.begin, ms.end, b, e);
    r := Ok((b, e));
  }

  lemma FrameUnique(content: string, ms: Markers, b: nat, e: nat, b': nat, e': nat)
    requires Framed(content, ms, b, e) && Framed(content, ms, b', e')
    ensures b == b' && e == e'
  {
    assert OccursAt(content, ms.begin, b) && OccursAt(content, ms.end, e);
  }

  lemma MeansIffBlockHolds(content: string, ms: Markers, specs: seq<FieldSpec>, c: Contract, b: nat, e: nat)
    requires Framed(content, ms, b, e)
    ensures Means(content, ms, specs, c) <==> BlockHolds(content[b + |ms.begin|..e], specs, c)
  {
    forall x: nat, y: nat | MeansAt(content, ms, specs, c, x, y) ensures x == b && y == e {
      FrameUnique(content, ms, b, e, x, y);
    }
    assert MeansAt(content, ms, specs, c, b, e) <==> BlockHolds(content[b + |ms.begin|..e], specs, c);
  }

  // Success means exactly one BEGIN, one later END and every field exactly once.
  method ParseContractBlock(content: string, ms: Markers, specs: seq<FieldSpec>) returns (r: Outcome<Contract>)
    requires GoodMarkers(ms) && DistinctKeys(specs)
    ensures forall c :: Means(content, ms, specs, c) <==> r == Ok(c)
  {
    var frame := FindFrame(content, ms);
    if frame.Err? {
      return Err(frame.error);
    }
    var (b, e) := frame.value;
    r := ParseBlock(content[b + |ms.begin|..e], specs);
    forall c: Contract ensures Means(content, ms, specs, c) <==> BlockHolds(content[b + |ms.begin|..e], specs, c) {
      MeansIffBlockHolds(content, ms, specs, c, b, e);
    }
  }
}
