/**
 * The stages of the gate-summary decoder up to version dispatch: the envelope, the
 * duplicate-key stage and the version probe. Every input gets the answer it deserves.
 */
module Decoder {
  import opened Text
  import opened Json
  import opened Diagnostics
  import opened Reader
  import opened DuplicateWalk
  import DuplicateKeys
  import JsonPointer
  import Ordering
  import SchemaErrors

  // What a JSON decoder can deliver: whole values, then possibly a value cut short.
  ghost predicate Grammatical(tokens: seq<Token>) {
    exists vs: seq<Value>, w: Value, k: nat :: Delivers(vs, w, k, tokens)
  }

  predicate Delivers(vs: seq<Value>, w: Value, k: nat, tokens: seq<Token>) {
    k < |Tokens(w)| && tokens == Documents(vs) + Tokens(w)[..k]
  }

  // Either the first value breaks off, or it is whole.
  lemma FirstDelivered(vs: seq<Value>, w: Value, k: nat, tokens: seq<Token>)
    requires Delivers(vs, w, k, tokens)
    ensures vs == [] ==> tokens == Tokens(w)[..k]
    ensures vs != [] ==> tokens == Tokens(vs[0]) + (ItemTokens(vs[1..]) + Tokens(w)[..k])
  {
  }

  // Only one object, ended by the end of the input, passes the envelope.
  lemma EnvelopePasses(tokens: seq<Token>, ending: Ending)
    requires Grammatical(tokens)
    requires !ScanTop(tokens, ending).malformed && !ScanTop(tokens, ending).trailing
    ensures ending.EndOfInput? && exists ms :: tokens == Tokens(JObj(ms))
  {
    var vs: seq<Value>, w: Value, k: nat :| Delivers(vs, w, k, tokens);
    FirstDelivered(vs, w, k, tokens);
    if vs == [] {
      EnvelopeOfCut(w, k, ending);
    } else {
      FirstValuePasses(vs[0], ItemTokens(vs[1..]) + Tokens(w)[..k], ending);
    }
  }

  lemma FirstValuePasses(v: Value, rest: seq<Token>, ending: Ending)
    requires !ScanTop(Tokens(v) + rest, ending).malformed && !ScanTop(Tokens(v) + rest, ending).trailing
    ensures ending.EndOfInput? && exists ms :: Tokens(v) + rest == Tokens(JObj(ms))
  {
    var first := Tokens(v)[0];
    assert (Tokens(v) + rest)[0] == first;
    assert v.JObj?;
    EnvelopeOfObject(v.members, rest, ending);
    assert rest == [] && Tokens(v) + rest == Tokens(JObj(v.members));
  }

  predicate IsIntegerSpelling(s: string) {
    PlainDigits(Unsigned(s))
  }

  function Unsigned(s: string): string { if s != "" && s[0] == '-' then s[1..] else s }

  predicate PlainDigits(digits: string) {
    && digits != ""
    && (forall i :: 0 <= i < |digits| ==> IsDigit(digits[i]))
    && (digits[0] == '0' ==> |digits| == 1)
  }

  datatype Decision = Accept(version: nat) | Refuse(code: Code, raw: string)

  function ClassifyVersion(token: Token): (d: Decision)
    ensures d.Accept? <==> token.Num? && token.raw in {"1", "2", "3"}
    ensures d.Accept? ==> 1 <= d.version <= 3 && token == Num(Decimal(d.version))
    ensures d.Refuse? && token.Num? && IsIntegerSpelling(token.raw) ==> d.code == UnsupportedVersion
    ensures !(token.Num? && IsIntegerSpelling(token.raw)) ==> d.Refuse? && d.code == InvalidVersionType
  {
    assert Decimal(1) == "1" && Decimal(2) == "2" && Decimal(3) == "3";
    match token
    case Null => Refuse(InvalidVersionType, "null")
    case Str(s) => Refuse(InvalidVersionType, s)
    case Bool(b) => Refuse(InvalidVersionType, if b then "true" else "false")
    case Delim(c) => Refuse(InvalidVersionType, if c == '{' then "{" else "[")
    case Num(raw) =>
      if !IsIntegerSpelling(raw) then Refuse(InvalidVersionType, raw)
      else if raw == "1" then Accept(1)
      else if raw == "2" then Accept(2)
      else if raw == "3" then Accept(3)
      else Refuse(UnsupportedVersion, raw)
  }

  // The bounded read, then the tokens of what was read.
  datatype Input = TooLarge | ReadError | Document(tokens: seq<Token>, ending: Ending)

  datatype Outcome = Failed | Rejected(diagnostics: seq<Diagnostic>) | Dispatched(version: nat)

  // The documents that should be dispatched to schema version `k`.
  ghost predicate Dispatchable(input: Input, k: nat) {
    && input.Document? && input.ending.EndOfInput?
    && 1 <= k <= 3
    && exists ms ::
         && input.tokens == Tokens(JObj(ms))
         && DuplicateFree(JObj(ms))
         && Member("schema_version", JNum(Decimal(k))) in ms
  }

  lemma {:induction false} NoVersionMember(ms: seq<Member>, res: Envelope)
    requires forall i :: 0 <= i < |ms| ==> ms[i].key != "schema_version"
    ensures MembersSeen(ms, res) == res
  {
    if ms != [] {
      NoVersionMember(ms[1..], res);
    }
  }

  lemma {:induction false} OneVersionMember(ms: seq<Member>, res: Envelope, i: nat)
    requires i < |ms| && ms[i].key == "schema_version"
    requires forall j :: 0 <= j < |ms| && j != i ==> ms[j].key != "schema_version"
    ensures MembersSeen(ms, res) == res.(versionPresent := true, versionToken := Tokens(ms[i].value)[0])
  {
    if i == 0 {
      NoVersionMember(ms[1..], WithMember(res, ms[0].key, Tokens(ms[0].value)[0]));
    } else {
      OneVersionMember(ms[1..], res, i - 1);
    }
  }

  predicate Probes(e: Envelope, k: nat) {
    var d := ClassifyVersion(e.versionToken);
    e.versionPresent && d.Accept? && d.version == k
  }

  // The probe answers for the one top-level member of that name.
  lemma ProbeIff(ms: seq<Member>, k: nat)
    requires DuplicateFree(JObj(ms))
    ensures Probes(MembersSeen(ms, EMPTY), k) <==>
            1 <= k <= 3 && Member("schema_version", JNum(Decimal(k))) in ms
  {
    if i: nat :| i < |ms| && ms[i].key == "schema_version" {
      OneVersionMember(ms, EMPTY, i);
      var first := Tokens(ms[i].value)[0];
      assert first.Num? <==> ms[i].value.JNum?;
      assert forall m :: m in ms && m.key == "schema_version" ==> m == ms[i];
      assert Decimal(1) == "1" && Decimal(2) == "2" && Decimal(3) == "3";
    } else {
      NoVersionMember(ms, EMPTY);
    }
  }

  lemma EnvelopeOfWholeObject(ms: seq<Member>)
    ensures ScanTop(Tokens(JObj(ms)), EndOfInput) == MembersSeen(ms, EMPTY)
    ensures !MembersSeen(ms, EMPTY).malformed && !MembersSeen(ms, EMPTY).trailing
  {
    EnvelopeOfObject(ms, [], EndOfInput);
    assert Tokens(JObj(ms)) + [] == Tokens(JObj(ms));
    SeenKeepsFlags(ms, EMPTY);
  }

  lemma {:induction false} SeenKeepsFlags(ms: seq<Member>, res: Envelope)
    ensures MembersSeen(ms, res).malformed == res.malformed && MembersSeen(ms, res).trailing == res.trailing
  {
    if ms != [] {
      SeenKeepsFlags(ms[1..], WithMember(res, ms[0].key, Tokens(ms[0].value)[0]));
    }
  }

  lemma DispatchableIff(tokens: seq<Token>, ending: Ending, duplicateFree: bool, k: nat)
    requires Grammatical(tokens)
    requires forall v :: tokens == Tokens(v) ==> (duplicateFree <==> DuplicateFree(v))
    ensures var e := ScanTop(tokens, ending);
            Dispatchable(Document(tokens, ending), k) <==>
            !e.malformed && !e.trailing && duplicateFree && Probes(e, k)
  {
    var e := ScanTop(tokens, ending);
    if !e.malformed && !e.trailing {
      EnvelopePasses(tokens, ending);
      var ms :| tokens == Tokens(JObj(ms));
      EnvelopeOfWholeObject(ms);
      if duplicateFree { ProbeIff(ms, k); }
    }
    if Dispatchable(Document(tokens, ending), k) {
      var ms :| && tokens == Tokens(JObj(ms)) && DuplicateFree(JObj(ms))
                && Member("schema_version", JNum(Decimal(k))) in ms;
      EnvelopeOfWholeObject(ms);
      ProbeIff(ms, k);
    }
  }

  lemma FlaggedNotDispatchable(tokens: seq<Token>, ending: Ending)
    requires ScanTop(tokens, ending).malformed || ScanTop(tokens, ending).trailing
    ensures forall k :: !Dispatchable(Document(tokens, ending), k)
    ensures forall ms :: !(tokens == Tokens(JObj(ms)) && ending.EndOfInput?)
  {
    forall ms | tokens == Tokens(JObj(ms)) && ending.EndOfInput? ensures false {
      EnvelopeOfWholeObject(ms);
    }
  }

  method Reject(findings: seq<Diagnostic>) returns (r: Outcome)
    requires findings != []
    ensures r == Rejected(Emitted(findings)) && r.diagnostics != []
  {
    var ds := new DiagnosticSet();
    AddAll(ds, findings);
    assert ds.Added() == findings;
    var out := ds.Emit();
    r := Rejected(out);
  }

  // ---- What an input deserves, by the text alone ----

  // The text is no JSON object, breaks off, or is followed by something that is no JSON;
  // `path` is the pointer of the top-level member whose value breaks off.
  ghost predicate Broken(tokens: seq<Token>, ending: Ending, path: string) {
    || (path == "" && NoObject(tokens))
    || (path == "" && ending.SyntaxError? && exists ms :: tokens == Tokens(JObj(ms)))
    || (path == "" && exists ms :: tokens == [Delim('{')] + MemberTokens(ms))
    || (exists ms, key, w, k: nat :: BreaksOff(tokens, ms, key, w, k) && path == JsonPointer.Encode([key]))
  }

  // The first value, whole or cut short, is none.
  ghost predicate NoObject(tokens: seq<Token>) {
    || (exists v: Value, rest :: !v.JObj? && tokens == Tokens(v) + rest)
    || (exists v: Value, k: nat :: !v.JObj? && k < |Tokens(v)| && tokens == Tokens(v)[..k])
  }

  // Whole members, then a member whose value is cut short after k tokens.
  ghost predicate BreaksOff(tokens: seq<Token>, ms: seq<Member>, key: string, w: Value, k: nat) {
    k < |Tokens(w)| && tokens == [Delim('{')] + (MemberTokens(ms) + ([Str(key)] + Tokens(w)[..k]))
  }

  ghost predicate Trails(tokens: seq<Token>) {
    exists ms, rest :: rest != [] && tokens == Tokens(JObj(ms)) + rest
  }

  ghost predicate IntegerText(raw: string) {
    exists n: nat :: raw == Decimal(n) || raw == "-" + Decimal(n)
  }

  // What is wrong with the version of a duplicate-free object.
  ghost predicate VersionFault(ms: seq<Member>, code: Code) {
    match code
    case VersionMissing => forall m :: m in ms ==> m.key != "schema_version"
    case UnsupportedVersion =>
      exists raw :: Member("schema_version", JNum(raw)) in ms && IntegerText(raw) && raw !in {"1", "2", "3"}
    case InvalidVersionType =>
      exists v: Value :: Member("schema_version", v) in ms && !(v.JNum? && IntegerText(v.raw))
    case _ => false
  }

  // The one code and path the input is to be rejected with.
  ghost predicate Deserves(input: Input, key: Key) {
    || (input.TooLarge? && key == Key(DocumentTooLarge, ""))
    || (input.Document? && key.code == MalformedJson && Broken(input.tokens, input.ending, key.path))
    || (input.Document? && key == Key(TrailingJson, "") && Trails(input.tokens))
    || (input.Document? && input.ending.EndOfInput? && key.path == "/schema_version"
        && exists ms :: input.tokens == Tokens(JObj(ms)) && DuplicateFree(JObj(ms)) && VersionFault(ms, key.code))
  }

  // One object, the end of the input behind it, with a repeated name somewhere.
  ghost predicate HasRepeats(input: Input, ms: seq<Member>) {
    input == Document(Tokens(JObj(ms)), EndOfInput) && !DuplicateFree(JObj(ms))
  }

  ghost predicate SayDuplicates(ms: seq<Member>, diagnostics: seq<Diagnostic>) {
    forall key :: key in Keys(diagnostics) <==>
      exists p :: Repeats(JObj(ms), p) && key == Key(DuplicateKey, HitOf(JObj(ms), p).path)
  }

  // ---- What the envelope says of such texts ----

  lemma {:induction false} SeenKeepsFindings(ms: seq<Member>, res: Envelope)
    ensures MembersSeen(ms, res).diagnostics == res.diagnostics
  {
    if ms != [] {
      SeenKeepsFindings(ms[1..], WithMember(res, ms[0].key, Tokens(ms[0].value)[0]));
    }
  }

  ghost predicate OnlyMalformed(e: Envelope, path: string) {
    e.malformed && |e.diagnostics| == 1 && KeyOf(e.diagnostics[0]) == Key(MalformedJson, path)
  }

  lemma NoObjectScan(tokens: seq<Token>, ending: Ending)
    requires NoObject(tokens)
    ensures OnlyMalformed(ScanTop(tokens, ending), "")
  {
    if v: Value, rest :| !v.JObj? && tokens == Tokens(v) + rest {
      assert tokens[0] == Tokens(v)[0] != Delim('{');
    } else {
      var v: Value, k: nat :| !v.JObj? && k < |Tokens(v)| && tokens == Tokens(v)[..k];
      assert k > 0 ==> tokens[0] == Tokens(v)[0] != Delim('{');
    }
  }

  lemma SyntaxErrorScan(ms: seq<Member>, ending: Ending)
    requires ending.SyntaxError?
    ensures OnlyMalformed(ScanTop(Tokens(JObj(ms)), ending), "")
  {
    EnvelopeOfObject(ms, [], ending);
    assert Tokens(JObj(ms)) + [] == Tokens(JObj(ms));
    SeenKeepsFindings(ms, EMPTY);
  }

  lemma TrailingScan(ms: seq<Member>, rest: seq<Token>, ending: Ending)
    requires rest != []
    ensures var e := ScanTop(Tokens(JObj(ms)) + rest, ending);
            !e.malformed && e.trailing && |e.diagnostics| == 1 && KeyOf(e.diagnostics[0]) == Key(TrailingJson, "")
  {
    EnvelopeOfObject(ms, rest, ending);
    SeenKeepsFindings(ms, EMPTY);
    SeenKeepsFlags(ms, EMPTY);
  }

  // Whole members are skipped, whatever follows them.
  lemma {:induction false} ScanBehindMembers(ms: seq<Member>, after: seq<Token>, ending: Ending, res: Envelope)
    ensures ScanMembers(MemberTokens(ms) + after, ending, res) == ScanMembers(after, ending, MembersSeen(ms, res))
  {
    if ms == [] {
      assert MemberTokens(ms) + after == after;
    } else {
      var tail := MemberTokens(ms[1..]) + after;
      assert MemberTokens(ms) + after == [Str(ms[0].key)] + (Tokens(ms[0].value) + tail);
      ScanOneMember(ms[0].key, ms[0].value, tail, ending, res);
      ScanBehindMembers(ms[1..], after, ending, WithMember(res, ms[0].key, Tokens(ms[0].value)[0]));
    }
  }

  lemma UnclosedScan(ms: seq<Member>, ending: Ending)
    ensures OnlyMalformed(ScanTop([Delim('{')] + MemberTokens(ms), ending), "")
  {
    assert ([Delim('{')] + MemberTokens(ms))[1..] == MemberTokens(ms) == MemberTokens(ms) + [];
    ScanBehindMembers(ms, [], ending, EMPTY);
    SeenKeepsFindings(ms, EMPTY);
  }

  lemma BreaksOffScan(tokens: seq<Token>, ending: Ending, ms: seq<Member>, key: string, w: Value, k: nat)
    requires BreaksOff(tokens, ms, key, w, k)
    ensures OnlyMalformed(ScanTop(tokens, ending), JsonPointer.Encode([key]))
  {
    var last := [Str(key)] + Tokens(w)[..k];
    assert tokens[1..] == MemberTokens(ms) + last;
    ScanBehindMembers(ms, last, ending, EMPTY);
    SeenKeepsFindings(ms, EMPTY);
    assert last[1..] == Tokens(w)[..k];
    ConsumeCut(w, k);
    OneTokenPointer(key);
  }

  lemma OneTokenPointer(key: string)
    ensures JsonPointer.Encode([key]) == "/" + JsonPointer.Escape(key)
  {
    assert [key][1..] == [] && JsonPointer.Encode([]) == "";
  }

  lemma BrokenScan(tokens: seq<Token>, ending: Ending, path: string)
    requires Broken(tokens, ending, path)
    ensures OnlyMalformed(ScanTop(tokens, ending), path)
  {
    if ms, key, w, k: nat :| BreaksOff(tokens, ms, key, w, k) && path == JsonPointer.Encode([key]) {
      BreaksOffScan(tokens, ending, ms, key, w, k);
    } else if NoObject(tokens) {
      NoObjectScan(tokens, ending);
    } else if ms :| tokens == [Delim('{')] + MemberTokens(ms) {
      UnclosedScan(ms, ending);
    } else {
      var ms :| tokens == Tokens(JObj(ms));
      SyntaxErrorScan(ms, ending);
    }
  }

  // ---- What the probe says of a version ----

  lemma IntegerSpellingIff(raw: string)
    ensures IsIntegerSpelling(raw) <==> IntegerText(raw)
  {
    var digits := Unsigned(raw);
    IndexSpelling(digits);
    SchemaErrors.ArrayIndexTokens(digits);
    if IsIntegerSpelling(raw) {
      var n: nat :| digits == Decimal(n);
      assert raw == Decimal(n) || raw == "-" + Decimal(n);
    }
    if n: nat :| raw == Decimal(n) || raw == "-" + Decimal(n) {
      assert IsDigit(Decimal(n)[0]);
      assert ("-" + Decimal(n))[1..] == Decimal(n);
    }
  }

  lemma IndexSpelling(digits: string)
    ensures SchemaErrors.IsArrayIndexToken(digits) <==> PlainDigits(digits)
  {
    if digits != "" && digits[0] == '0' && |digits| == 1 {
      assert digits == "0";
    }
  }

  lemma FaultProbed(ms: seq<Member>, code: Code)
    requires DuplicateFree(JObj(ms)) && VersionFault(ms, code)
    ensures var e := MembersSeen(ms, EMPTY);
            if e.versionPresent
            then ClassifyVersion(e.versionToken).Refuse? && ClassifyVersion(e.versionToken).code == code
            else code == VersionMissing
  {
    if i: nat :| i < |ms| && ms[i].key == "schema_version" {
      OneVersionMember(ms, EMPTY, i);
      assert ms[i] in ms && forall m :: m in ms && m.key == "schema_version" ==> m == ms[i];
      if ms[i].value.JNum? { IntegerSpellingIff(ms[i].value.raw); }
    } else {
      NoVersionMember(ms, EMPTY);
      assert forall m :: m in ms ==> m.key != "schema_version";
    }
  }

  // What an input deserves shows in its envelope.
  lemma DeservesShows(tokens: seq<Token>, ending: Ending, key: Key)
    requires Deserves(Document(tokens, ending), key)
    ensures var e := ScanTop(tokens, ending);
            if e.malformed || e.trailing then |e.diagnostics| == 1 && KeyOf(e.diagnostics[0]) == key
            else exists ms :: tokens == Tokens(JObj(ms)) && DuplicateFree(JObj(ms)) && ending.EndOfInput?
                              && VersionFault(ms, key.code) && key.path == "/schema_version"
  {
    if key.code == MalformedJson && Broken(tokens, ending, key.path) {
      BrokenScan(tokens, ending, key.path);
    } else if key == Key(TrailingJson, "") && Trails(tokens) {
      var ms, rest :| rest != [] && tokens == Tokens(JObj(ms)) + rest;
      TrailingScan(ms, rest, ending);
    } else {
      var ms :| tokens == Tokens(JObj(ms)) && DuplicateFree(JObj(ms)) && VersionFault(ms, key.code);
      EnvelopeOfWholeObject(ms);
    }
  }

  // ---- Every input is answered ----

  // Where a cut falls: between two members, or after j tokens of the value of member n.
  ghost predicate CutBetween(ms: seq<Member>, k: nat, n: nat)
    requires k <= |MemberTokens(ms)|
  {
    n <= |ms| && MemberTokens(ms)[..k] == MemberTokens(ms[..n])
  }

  ghost predicate CutInside(ms: seq<Member>, k: nat, n: nat, j: nat)
    requires k <= |MemberTokens(ms)|
  {
    && n < |ms| && j < |Tokens(ms[n].value)|
    && MemberTokens(ms)[..k] == MemberTokens(ms[..n]) + ([Str(ms[n].key)] + Tokens(ms[n].value)[..j])
  }

  lemma {:induction false} CutSplits(ms: seq<Member>, k: nat) returns (n: nat, j: nat)
    requires k <= |MemberTokens(ms)|
    ensures CutBetween(ms, k, n) || CutInside(ms, k, n, j)
  {
    n, j := 0, 0;
    if k == 0 {
      assert MemberTokens(ms)[..k] == [] == MemberTokens(ms[..0]);
    } else if k - 1 < |Tokens(ms[0].value)| {
      j := k - 1;
      CutWithin(Str(ms[0].key), Tokens(ms[0].value), MemberTokens(ms[1..]), k);
      assert MemberTokens(ms[..0]) + MemberTokens(ms)[..k] == MemberTokens(ms)[..k];
    } else {
      var k' := k - 1 - |Tokens(ms[0].value)|;
      var m: nat;
      m, j := CutSplits(ms[1..], k');
      n := m + 1;
      CutBehind(Str(ms[0].key), Tokens(ms[0].value), MemberTokens(ms[1..]), k);
      FirstOfMembers(ms, n);
      if CutInside(ms[1..], k', m, j) {
        var last := [Str(ms[n].key)] + Tokens(ms[n].value)[..j];
        Reassociate(Str(ms[0].key), Tokens(ms[0].value), MemberTokens(ms[1..][..m]), last);
      }
    }
  }

  lemma FirstOfMembers(ms: seq<Member>, n: nat)
    requires 0 < n <= |ms|
    ensures MemberTokens(ms[..n]) == [Str(ms[0].key)] + (Tokens(ms[0].value) + MemberTokens(ms[1..][..n - 1]))
  {
    var front := ms[..n];
    assert front[0] == ms[0] && front[1..] == ms[1..][..n - 1];
  }

  lemma Reassociate(t: Token, a: seq<Token>, b: seq<Token>, c: seq<Token>)
    ensures [t] + (a + (b + c)) == [t] + (a + b) + c
  {
  }

  lemma CutIsBroken(w: Value, k: nat, ending: Ending) returns (path: string)
    requires k < |Tokens(w)|
    ensures Broken(Tokens(w)[..k], ending, path)
  {
    var tokens := Tokens(w)[..k];
    path := "";
    if k == 0 {
      assert tokens == Tokens(JNull)[..0];
      assert NoObject(tokens);
    } else if !w.JObj? {
      assert NoObject(tokens);
    } else {
      var ms := w.members;
      var n, j := CutSplits(ms, k - 1);
      assert tokens == [Delim('{')] + MemberTokens(ms)[..k - 1];
      if CutInside(ms, k - 1, n, j) {
        path := JsonPointer.Encode([ms[n].key]);
        assert BreaksOff(tokens, ms[..n], ms[n].key, ms[n].value, j);
      } else {
        assert tokens == [Delim('{')] + MemberTokens(ms[..n]);
      }
    }
  }

  lemma VersionAnswered(ms: seq<Member>)
    requires DuplicateFree(JObj(ms))
    ensures (exists code :: VersionFault(ms, code)) || exists k :: Dispatchable(Document(Tokens(JObj(ms)), EndOfInput), k)
  {
    if i: nat :| i < |ms| && ms[i].key == "schema_version" {
      var v := ms[i].value;
      assert ms[i] == Member("schema_version", v) && ms[i] in ms;
      if !(v.JNum? && IntegerText(v.raw)) {
        assert VersionFault(ms, InvalidVersionType);
      } else if v.raw !in {"1", "2", "3"} {
        assert v == JNum(v.raw);
        assert VersionFault(ms, UnsupportedVersion);
      } else {
        assert Decimal(1) == "1" && Decimal(2) == "2" && Decimal(3) == "3";
        var k := if v.raw == "1" then 1 else if v.raw == "2" then 2 else 3;
        assert Member("schema_version", JNum(Decimal(k))) in ms;
        assert Dispatchable(Document(Tokens(JObj(ms)), EndOfInput), k);
      }
    } else {
      assert VersionFault(ms, VersionMissing);
    }
  }

  ghost predicate Answered(input: Input) {
    || input.ReadError?
    || (exists k :: Dispatchable(input, k))
    || (exists key :: Deserves(input, key))
    || (exists ms :: HasRepeats(input, ms))
  }

  // The four answers cover everything a decoder can deliver.
  lemma EveryInputAnswered(input: Input)
    requires input.Document? ==> Grammatical(input.tokens)
    ensures Answered(input)
  {
    if input.TooLarge? {
      assert Deserves(input, Key(DocumentTooLarge, ""));
    } else if input.Document? {
      var tokens, ending := input.tokens, input.ending;
      var vs: seq<Value>, w: Value, k: nat :| Delivers(vs, w, k, tokens);
      FirstDelivered(vs, w, k, tokens);
      if vs == [] {
        var path := CutIsBroken(w, k, ending);
        assert Deserves(input, Key(MalformedJson, path));
      } else {
        FirstValueAnswered(vs[0], ItemTokens(vs[1..]) + Tokens(w)[..k], ending);
      }
    }
  }

  lemma FirstValueAnswered(v: Value, rest: seq<Token>, ending: Ending)
    ensures Answered(Document(Tokens(v) + rest, ending))
  {
    var input := Document(Tokens(v) + rest, ending);
    if !v.JObj? {
      assert NoObject(input.tokens);
      assert Deserves(input, Key(MalformedJson, ""));
    } else if rest != [] {
      assert v == JObj(v.members);
      assert Deserves(input, Key(TrailingJson, ""));
    } else {
      assert v == JObj(v.members) && input.tokens == Tokens(JObj(v.members));
      if ending.SyntaxError? {
        assert Deserves(input, Key(MalformedJson, ""));
      } else if DuplicateFree(v) {
        VersionAnswered(v.members);
        if code :| VersionFault(v.members, code) {
          assert Deserves(input, Key(code, "/schema_version"));
        }
      } else {
        assert HasRepeats(input, v.members);
      }
    }
  }

  // ---- The stages ----

  // The stages in the source's order, each returning at its first finding.
  method DecodeToDispatch(input: Input) returns (r: Outcome)
    requires input.Document? ==> Grammatical(input.tokens) && |input.tokens| < 0x8000_0000_0000_0000
    ensures forall k :: r == Dispatched(k) <==> Dispatchable(input, k)
    ensures forall key :: Deserves(input, key) ==> r.Rejected? && Keys(r.diagnostics) == [key]
    ensures forall ms :: HasRepeats(input, ms) ==> r.Rejected? && SayDuplicates(ms, r.diagnostics)
    ensures r.Rejected? ==> r.diagnostics != []
    ensures r.Failed? <==> input.ReadError?
  {
    if input.ReadError? {
      return Failed;
    }
    if input.TooLarge? {
      var d := New(DocumentTooLarge, "", "document exceeds 4 MiB cap");
      EmittedOne(d);
      r := Reject([d]);
      return;
    }
    var tokens, ending := input.tokens, input.ending;
    var env := ScanEnvelope(tokens, ending);
    forall key | Deserves(input, key)
      ensures env.malformed || env.trailing ==> |env.diagnostics| == 1 && KeyOf(env.diagnostics[0]) == key
    {
      DeservesShows(tokens, ending, key);
    }
    if env.malformed || env.trailing {
      FlaggedNotDispatchable(tokens, ending);
      FlaggedHasDiagnostic(tokens, ending);
      EmittedOne(env.diagnostics[0]);
      assert |env.diagnostics| == 1 ==> env.diagnostics == [env.diagnostics[0]];
      r := Reject(if env.malformed then env.diagnostics else [env.diagnostics[0]]);
      return;
    }
    EnvelopePasses(tokens, ending);
    r := DecodeObject(tokens, env);
  }

  lemma ObjectDeserves(tokens: seq<Token>, key: Key)
    requires Deserves(Document(tokens, EndOfInput), key)
    requires !ScanTop(tokens, EndOfInput).malformed && !ScanTop(tokens, EndOfInput).trailing
    ensures var e := ScanTop(tokens, EndOfInput);
            && key.path == "/schema_version"
            && (exists v :: tokens == Tokens(v) && DuplicateFree(v))
            && if e.versionPresent
               then ClassifyVersion(e.versionToken).Refuse? && ClassifyVersion(e.versionToken).code == key.code
               else key.code == VersionMissing
  {
    DeservesShows(tokens, EndOfInput, key);
    var ms :| tokens == Tokens(JObj(ms)) && DuplicateFree(JObj(ms)) && VersionFault(ms, key.code);
    EnvelopeOfWholeObject(ms);
    FaultProbed(ms, key.code);
  }

  // One object: the duplicate-key stage, then the version.
  method DecodeObject(tokens: seq<Token>, env: Envelope) returns (r: Outcome)
    requires Grammatical(tokens) && |tokens| < 0x8000_0000_0000_0000
    requires env == ScanTop(tokens, EndOfInput) && !env.malformed && !env.trailing
    ensures forall k :: r == Dispatched(k) <==> Dispatchable(Document(tokens, EndOfInput), k)
    ensures forall key :: Deserves(Document(tokens, EndOfInput), key) ==> r.Rejected? && Keys(r.diagnostics) == [key]
    ensures forall ms :: HasRepeats(Document(tokens, EndOfInput), ms) ==> r.Rejected? && SayDuplicates(ms, r.diagnostics)
    ensures (r.Rejected? ==> r.diagnostics != []) && !r.Failed?
  {
    var hits := DuplicateKeys.DetectDuplicateKeys(tokens);
    DetectorVerdict(tokens, hits);
    forall k ensures Dispatchable(Document(tokens, EndOfInput), k) <==> hits == [] && Probes(env, k) {
      DispatchableIff(tokens, EndOfInput, hits == [], k);
    }
    forall key | Deserves(Document(tokens, EndOfInput), key) ensures hits == [] && VersionKey(env, key) {
      ObjectDeserves(tokens, key);
    }
    if hits != [] {
      r := Reject(HitDiagnostics(hits));
      forall ms | HasRepeats(Document(tokens, EndOfInput), ms) ensures SayDuplicates(ms, r.diagnostics) {
        assert tokens == Tokens(JObj(ms)) + [];
        DuplicatesSaid(ms, hits);
      }
      return;
    }
    r := DecodeVersion(env);
  }

  predicate VersionKey(env: Envelope, key: Key) {
    && key.path == "/schema_version"
    && if env.versionPresent
       then ClassifyVersion(env.versionToken).Refuse? && ClassifyVersion(env.versionToken).code == key.code
       else key.code == VersionMissing
  }

  method DecodeVersion(env: Envelope) returns (r: Outcome)
    ensures forall k :: r == Dispatched(k) <==> Probes(env, k)
    ensures forall key :: VersionKey(env, key) ==> r.Rejected? && Keys(r.diagnostics) == [key]
    ensures (r.Rejected? ==> r.diagnostics != []) && !r.Failed?
  {
    if !env.versionPresent {
      var d := New(VersionMissing, "/schema_version", "schema_version field is absent");
      EmittedOne(d);
      r := Reject([d]);
      return;
    }
    var decision := ClassifyVersion(env.versionToken);
    if decision.Refuse? {
      var d := New(decision.code, "/schema_version", "schema_version=" + decision.raw);
      EmittedOne(d);
      r := Reject([d]);
      return;
    }
    r := Dispatched(decision.version);
  }

  lemma {:induction false} HitKeys(hits: seq<Hit>)
    ensures forall i :: 0 <= i < |hits| ==> KeyOf(HitDiagnostics(hits)[i]) == Key(DuplicateKey, hits[i].path)
  {
    if hits != [] {
      HitKeys(hits[1..]);
    }
  }

  lemma DuplicatesSaid(ms: seq<Member>, hits: seq<Hit>)
    requires ReportsAll(JObj(ms), hits)
    ensures SayDuplicates(ms, Emitted(HitDiagnostics(hits)))
  {
    var ds, v := HitDiagnostics(hits), JObj(ms);
    HitKeys(hits);
    EmittedSameKeys(ds);
    forall key ensures key in Keys(ds) <==> exists p :: Repeats(v, p) && key == Key(DuplicateKey, HitOf(v, p).path) {
      if key in Keys(ds) {
        var i :| 0 <= i < |ds| && Keys(ds)[i] == key;
        ReportedIff(v, hits, hits[i]);
        assert hits[i] in hits;
      }
      if p :| Repeats(v, p) && key == Key(DuplicateKey, HitOf(v, p).path) {
        ReportedIff(v, hits, HitOf(v, p));
        var i :| 0 <= i < |hits| && hits[i] == HitOf(v, p);
        assert Keys(ds)[i] == key;
      }
    }
  }

  function HitDiagnostics(hits: seq<Hit>): (ds: seq<Diagnostic>)
    ensures |ds| == |hits|
  {
    if hits == [] then []
    else [New(DuplicateKey, hits[0].path, "duplicate object member name")] + HitDiagnostics(hits[1..])
  }

  lemma DetectorVerdict(tokens: seq<Token>, hits: seq<Hit>)
    requires forall v, rest :: tokens == Tokens(v) + rest ==>
               hits == Ordering.Sort(Duplicates(v, []), HitLess)
    ensures forall v :: tokens == Tokens(v) ==> (hits == [] <==> DuplicateFree(v))
    ensures forall v :: tokens == Tokens(v) ==>
              hits == Ordering.Sort(Duplicates(v, []), HitLess)
  {
    forall v | tokens == Tokens(v)
      ensures hits == [] <==> DuplicateFree(v)
      ensures hits == Ordering.Sort(Duplicates(v, []), HitLess)
    {
      assert tokens == Tokens(v) + [];
      Ordering.SortPermutes(Duplicates(v, []), HitLess);
      NoDuplicatesIff(v, []);
    }
  }
}
