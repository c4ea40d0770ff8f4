/**
 * Translation of a schema validator's error tree into diagnostics: one rule per
 * leaf kind, on top of the walk of ErrorTree.
 */
module SchemaErrors {
  import opened Text
  import opened Diagnostics
  import opened Ordering
  import opened ErrorTree
  import JsonPointer

  const V2_SCHEMA_ID := "urn:leamas:gate-summary:v2"

  function BaseUrl(url: SchemaUrl): string {
    match url
    case Unparsable(raw) => raw
    case Parsed(base, _) => base
  }

  function FragmentTokens(url: SchemaUrl): seq<string> {
    if url.Unparsable? then []
    else
      var tokens := JsonPointer.DecodeFragment(url.fragment);
      if tokens.None? then [] else tokens.value
  }

  predicate IsTestTotalAnyOf(node: Cause)
    requires node.Cause?
  {
    && node.kind.AnyOf?
    && BaseUrl(node.url) == V2_SCHEMA_ID
    && FragmentTokens(node.url) + ["anyOf"] == ["$defs", "check", "anyOf"]
  }

  predicate IsArrayIndexToken(token: string) {
    || token == "0"
    || (token != "" && '1' <= token[0] <= '9' && forall i :: 1 <= i < |token| ==> IsDigit(token[i]))
  }

  predicate IsStatusLocation(location: seq<string>) {
    || location == ["overall_status"] || location == ["scope_status"] || location == ["parent_status"]
    || (|location| == 3 && location[0] == "checks" && IsArrayIndexToken(location[1]) && location[2] == "status")
  }

  predicate IsOidLocation(location: seq<string>) {
    location == ["execution_head_oid"] || location == ["execution_tree_oid"] || location == ["subject_tree_oid"]
  }

  predicate IsExtrasLocation(location: seq<string>) {
    |location| == 4 && location[0] == "checks" && IsArrayIndexToken(location[1]) && location[2] == "extras"
  }

  predicate IsOutputHashLocation(location: seq<string>) {
    IsExtrasLocation(location) && (location[3] == "stdout_sha256" || location[3] == "stderr_sha256")
  }

  predicate IsDurationLocation(location: seq<string>) {
    IsExtrasLocation(location) && location[3] == "duration_ms"
  }

  // An array index is recognised exactly when it is some number's own spelling.
  lemma ArrayIndexTokens(token: string)
    ensures IsArrayIndexToken(token) <==> exists n: nat :: token == Decimal(n)
  {
    if IsArrayIndexToken(token) {
      var n := ParsedIndex(token);
      assert token == Decimal(n);
    }
    forall n: nat | token == Decimal(n) ensures IsArrayIndexToken(token) {
      DecimalHead(n);
    }
  }

  lemma {:induction false} DecimalHead(n: nat)
    ensures n > 0 ==> Decimal(n)[0] != '0'
  {
    if n >= 10 {
      DecimalHead(n / 10);
    }
  }

  lemma {:induction false} ParsedIndex(token: string) returns (n: nat)
    requires IsArrayIndexToken(token)
    ensures token == Decimal(n)
    ensures n == 0 ==> token == "0"
  {
    var last := |token| - 1;
    assert IsDigit(token[last]);
    var d := token[last] as int - '0' as int;
    assert DigitChar(d) == token[last];
    if last == 0 {
      n := d;
      assert token == [token[0]];
    } else {
      var m := ParsedIndex(token[..last]);
      assert m > 0;
      n := m * 10 + d;
      assert n / 10 == m && n % 10 == d;
      assert token == token[..last] + [token[last]];
    }
  }

  function AppendPointer(base: string, token: string): string {
    base + "/" + JsonPointer.Escape(token)
  }

  function Fanout(code: Code, path: string, names: seq<string>, message: string): seq<Diagnostic> {
    if names == [] then []
    else [New(code, AppendPointer(path, names[0]), message)] + Fanout(code, path, names[1..], message)
  }

  function Limited(node: Cause, path: string, other: string, what: string): Diagnostic
    requires node.Cause? && (node.kind.MaxItems? || node.kind.MaxLength?)
  {
    if BaseUrl(node.url) != V2_SCHEMA_ID then New(SchemaViolation, path, other)
    else Diagnostic(CollectionLimit, path, Signed(node.kind.want), Signed(node.kind.got), what)
  }

  function Signed(n: int): string {
    if n < 0 then "-" + Decimal(-n) else Decimal(n)
  }

  // translateNode.
  function TranslateLeaf(node: Cause): seq<Diagnostic> {
    if node.Nil? then []
    else if node.kind.Required? then TranslateRequired(node)
    else if node.kind.AdditionalProperties? then TranslateUnknown(node)
    else [TranslateOne(node)]
  }

  function TranslateRequired(node: Cause): seq<Diagnostic>
    requires node.Cause? && node.kind.Required?
  {
    if "schema_version" in node.kind.missing then
      [New(Internal, "/schema_version", "schema_version missing after dispatch")]
    else
      Fanout(RequiredFieldMissing, JsonPointer.Encode(node.location), Sort(node.kind.missing, StringLess),
             "required field is missing")
  }

  function TranslateUnknown(node: Cause): seq<Diagnostic>
    requires node.Cause? && node.kind.AdditionalProperties?
  {
    Fanout(UnknownField, JsonPointer.Encode(node.location), Sort(node.kind.properties, StringLess),
           "unknown field rejected by additionalProperties:false")
  }

  function TranslateOne(node: Cause): Diagnostic
    requires node.Cause?
  {
    EmitOne(node, JsonPointer.Encode(node.location))
  }

  function EmitOne(node: Cause, path: string): Diagnostic
    requires node.Cause?
  {
    var at := node.location;
    if IsTestTotalAnyOf(node) then
      New(PartialTestTotals, path, "test totals must all be present or all be absent")
    else if at == ["schema_version"] && (node.kind.Type? || node.kind.Const?) then
      New(Internal, "/schema_version", "schema_version mismatch after dispatch")
    else
      match node.kind
      case Enum =>
        if IsStatusLocation(at) then New(InvalidStatus, path, "invalid status value")
        else New(SchemaViolation, path, "enum mismatch")
      case Type =>
        if IsOidLocation(at) then New(InvalidOid, path, "invalid execution OID")
        else New(SchemaViolation, path, "type mismatch")
      case Pattern =>
        if IsOidLocation(at) then New(InvalidOid, path, "invalid execution OID")
        else if IsOutputHashLocation(at) then
          New(InvalidOutputHash, path, "output hash is not 64 lowercase hex")
        else New(SchemaViolation, path, "pattern mismatch")
      case Minimum =>
        if IsDurationLocation(at) then New(InvalidDuration, path, "duration_ms is negative")
        else New(SchemaViolation, path, "minimum violation")
      case Format =>
        if at == ["generated_at"]
        then New(InvalidTimestamp, "/generated_at", "generated_at must be a valid RFC 3339 timestamp")
        else New(SchemaViolation, path, "format or min-length violation")
      case MinLength =>
        if at == ["generated_at"]
        then New(InvalidTimestamp, "/generated_at", "generated_at must be a valid RFC 3339 timestamp")
        else New(SchemaViolation, path, "format or min-length violation")
      case MaxItems(_, _) => Limited(node, path, "max-items violation", "collection exceeds schema-defined maximum")
      case MaxLength(_, _) => Limited(node, path, "max-length violation", "string exceeds schema-defined maximum")
      case _ => New(SchemaViolation, path, "unmapped selected-schema leaf")
  }

  // ---- Which finding a node gives, by code ----

  // The field of some check that the tokens in `tail` name.
  ghost predicate CheckField(at: seq<string>, tail: seq<string>) {
    exists n: nat :: CheckFieldOf(at, n, tail)
  }

  predicate CheckFieldOf(at: seq<string>, n: nat, tail: seq<string>) {
    at == ["checks", Decimal(n)] + tail
  }

  ghost predicate StatusField(at: seq<string>) {
    at == ["overall_status"] || at == ["scope_status"] || at == ["parent_status"] || CheckField(at, ["status"])
  }

  predicate OidField(at: seq<string>) {
    at == ["execution_head_oid"] || at == ["execution_tree_oid"] || at == ["subject_tree_oid"]
  }

  ghost predicate HashField(at: seq<string>) {
    CheckField(at, ["extras", "stdout_sha256"]) || CheckField(at, ["extras", "stderr_sha256"])
  }

  ghost predicate DurationField(at: seq<string>) {
    CheckField(at, ["extras", "duration_ms"])
  }

  // The anyOf of the check definition of version 2, which is about test totals.
  predicate TotalsRule(node: Cause)
    requires node.Cause?
  {
    && node.kind.AnyOf? && node.url.Parsed? && node.url.base == "urn:leamas:gate-summary:v2"
    && JsonPointer.DecodeFragment(node.url.fragment) == Some(["$defs", "check"])
  }

  predicate LimitRule(node: Cause)
    requires node.Cause?
  {
    && (node.kind.MaxItems? || node.kind.MaxLength?)
    && match node.url { case Unparsable(raw) => raw == "urn:leamas:gate-summary:v2"
                        case Parsed(base, _) => base == "urn:leamas:gate-summary:v2" }
  }

  // The version was settled before validation, so an error about it is internal.
  predicate VersionRule(node: Cause)
    requires node.Cause?
  {
    || (node.kind.Required? && "schema_version" in node.kind.missing)
    || (node.location == ["schema_version"] && (node.kind.Type? || node.kind.Const?))
  }

  // Which of the special rules hold of a node.
  datatype Rules = Rules(
    version: bool, totals: bool, limit: bool, status: bool, oid: bool, hash: bool, duration: bool, timestamp: bool)

  ghost function RulesOf(node: Cause): Rules
    requires node.Cause?
  {
    var at := node.location;
    Rules(VersionRule(node), TotalsRule(node), LimitRule(node), StatusField(at), OidField(at), HashField(at),
          DurationField(at), at == ["generated_at"])
  }

  // A node of this kind, no wrapper, gives a finding with this code.
  predicate GivesCode(kind: Kind, rules: Rules, code: Code) {
    match code
    case RequiredFieldMissing => kind.Required? && !rules.version
    case UnknownField => kind.AdditionalProperties?
    case Internal => rules.version
    case PartialTestTotals => rules.totals
    case InvalidStatus => kind.Enum? && rules.status
    case InvalidOid => (kind.Type? || kind.Pattern?) && rules.oid
    case InvalidOutputHash => kind.Pattern? && rules.hash
    case InvalidDuration => kind.Minimum? && rules.duration
    case InvalidTimestamp => (kind.Format? || kind.MinLength?) && rules.timestamp
    case CollectionLimit => rules.limit
    case SchemaViolation => NoRule(kind, rules)
    case _ => false
  }

  predicate NoRule(kind: Kind, rules: Rules) {
    && !kind.Required? && !kind.AdditionalProperties? && !rules.version && !rules.totals && !rules.limit
    && (kind.Enum? ==> !rules.status)
    && (kind.Type? || kind.Pattern? ==> !rules.oid)
    && (kind.Pattern? ==> !rules.hash)
    && (kind.Minimum? ==> !rules.duration)
    && (kind.Format? || kind.MinLength? ==> !rules.timestamp)
  }

  // Where: at the node itself, except that a missing or unknown field is pointed at.
  ghost predicate GivesPath(node: Cause, key: Key)
    requires node.Cause?
  {
    if key.code == RequiredFieldMissing then node.kind.Required? && PointsAt(key.path, node.location, node.kind.missing)
    else if key.code == UnknownField then
      node.kind.AdditionalProperties? && PointsAt(key.path, node.location, node.kind.properties)
    else if key.code == Internal then key.path == "/schema_version"
    else if key.code == InvalidTimestamp then key.path == "/generated_at"
    else key.path == JsonPointer.Encode(node.location)
  }

  ghost predicate PointsAt(path: string, at: seq<string>, names: seq<string>) {
    exists name :: name in names && path == JsonPointer.Encode(at + [name])
  }

  // What a node of the error tree gives: a nil node is an internal finding, an empty
  // wrapper a violation, any other wrapper nothing.
  ghost predicate Gives(node: Cause, key: Key) {
    if node.Nil? || node.kind.NilKind? then key == Key(Internal, "/")
    else if IsWrapper(node.kind) then node.causes == [] && key == Key(SchemaViolation, JsonPointer.Encode(node.location))
    else GivesCode(node.kind, RulesOf(node), key.code) && GivesPath(node, key)
  }

  lemma CheckFieldIff(at: seq<string>, tail: seq<string>)
    ensures CheckField(at, tail) <==>
              |at| == 2 + |tail| && at[0] == "checks" && IsArrayIndexToken(at[1]) && at[2..] == tail
  {
    if n: nat :| CheckFieldOf(at, n, tail) {
      assert at[1] == Decimal(n) && at[2..] == tail;
      ArrayIndexTokens(at[1]);
    }
    if |at| == 2 + |tail| && at[0] == "checks" && IsArrayIndexToken(at[1]) && at[2..] == tail {
      ArrayIndexTokens(at[1]);
      var n: nat :| at[1] == Decimal(n);
      assert at == ["checks", Decimal(n)] + at[2..];
      assert CheckFieldOf(at, n, tail);
    }
  }

  lemma StatusFields(at: seq<string>)
    ensures IsStatusLocation(at) <==> StatusField(at)
  {
    CheckFieldIff(at, ["status"]);
    if |at| == 3 {
      assert at[2..] == [at[2]];
    }
  }

  lemma ExtrasField(at: seq<string>, name: string)
    ensures CheckField(at, ["extras", name]) <==> IsExtrasLocation(at) && at[3] == name
  {
    CheckFieldIff(at, ["extras", name]);
    if |at| == 4 {
      assert at[2..] == [at[2], at[3]];
    }
  }

  lemma ExtrasFields(at: seq<string>)
    ensures IsOutputHashLocation(at) <==> HashField(at)
    ensures IsDurationLocation(at) <==> DurationField(at)
  {
    ExtrasField(at, "stdout_sha256");
    ExtrasField(at, "stderr_sha256");
    ExtrasField(at, "duration_ms");
  }

  lemma TotalsRuleIff(node: Cause)
    requires node.Cause?
    ensures IsTestTotalAnyOf(node) <==> TotalsRule(node)
  {
    EndsIn(FragmentTokens(node.url), "$defs", "check", "anyOf");
  }

  lemma EndsIn(tokens: seq<string>, a: string, b: string, c: string)
    ensures tokens + [c] == [a, b, c] <==> tokens == [a, b]
  {
    if tokens + [c] == [a, b, c] {
      assert (tokens + [c])[..2] == tokens && [a, b, c][..2] == [a, b];
    }
    assert [a, b] + [c] == [a, b, c];
  }

  lemma {:induction false} FanoutKeys(code: Code, at: seq<string>, names: seq<string>, message: string, key: Key)
    ensures key in Keys(Fanout(code, JsonPointer.Encode(at), names, message)) <==>
              key.code == code && PointsAt(key.path, at, names)
  {
    if names != [] {
      var rest := Fanout(code, JsonPointer.Encode(at), names[1..], message);
      FanoutKeys(code, at, names[1..], message, key);
      JsonPointer.EncodeSnoc(at, names[0]);
      var first := New(code, JsonPointer.Encode(at + [names[0]]), message);
      assert ([first] + rest)[1..] == rest;
      assert Keys([first] + rest) == [KeyOf(first)] + Keys(rest);
      assert names == [names[0]] + names[1..];
    }
  }

  lemma SortedNames(names: seq<string>, at: seq<string>, path: string)
    ensures PointsAt(path, at, Sort(names, StringLess)) <==> PointsAt(path, at, names)
  {
    SortPermutes(names, StringLess);
    PermutationSameElements(Sort(names, StringLess), names);
  }

  predicate OneFinding(node: Cause) {
    node.Cause? && !node.kind.NilKind? && !IsWrapper(node.kind) && !node.kind.Required? && !node.kind.AdditionalProperties?
  }

  // The code of a node with one finding, in the order in which the rules are tried.
  function Selected(kind: Kind, rules: Rules): Code {
    if rules.totals then PartialTestTotals
    else if rules.version then Internal
    else
      match kind
      case Enum => if rules.status then InvalidStatus else SchemaViolation
      case Type => if rules.oid then InvalidOid else SchemaViolation
      case Pattern => if rules.oid then InvalidOid else if rules.hash then InvalidOutputHash else SchemaViolation
      case Minimum => if rules.duration then InvalidDuration else SchemaViolation
      case Format => if rules.timestamp then InvalidTimestamp else SchemaViolation
      case MinLength => if rules.timestamp then InvalidTimestamp else SchemaViolation
      case MaxItems(_, _) => if rules.limit then CollectionLimit else SchemaViolation
      case MaxLength(_, _) => if rules.limit then CollectionLimit else SchemaViolation
      case _ => SchemaViolation
  }

  // No two rules hold of a node at once that would give it two codes.
  predicate Compatible(kind: Kind, rules: Rules) {
    && (rules.version ==> (kind.Type? || kind.Const?) && !rules.oid)
    && (rules.totals ==> kind.AnyOf?) && (rules.limit ==> kind.MaxItems? || kind.MaxLength?)
    && !(rules.oid && rules.hash)
  }

  lemma SelectedIsGiven(kind: Kind, rules: Rules, code: Code)
    requires Compatible(kind, rules) && !kind.Required? && !kind.AdditionalProperties?
    ensures GivesCode(kind, rules, code) <==> code == Selected(kind, rules)
  {
  }

  lemma RulesCompatible(node: Cause)
    requires OneFinding(node)
    ensures Compatible(node.kind, RulesOf(node))
  {
    var at := node.location;
    ExtrasFields(at);
    if at == ["schema_version"] {
      assert |at[0]| == 14;
      assert |"execution_head_oid"| == 18 && |"execution_tree_oid"| == 18 && |"subject_tree_oid"| == 16;
      assert !OidField(at);
    }
  }

  // The rules as the translator tests them.
  function TestedRules(node: Cause): Rules
    requires node.Cause?
  {
    var at := node.location;
    Rules(at == ["schema_version"] && (node.kind.Type? || node.kind.Const?), IsTestTotalAnyOf(node),
          (node.kind.MaxItems? || node.kind.MaxLength?) && BaseUrl(node.url) == V2_SCHEMA_ID,
          IsStatusLocation(at), IsOidLocation(at), IsOutputHashLocation(at), IsDurationLocation(at),
          at == ["generated_at"])
  }

  lemma TestedRulesHold(node: Cause)
    requires OneFinding(node)
    ensures TestedRules(node) == RulesOf(node)
  {
    StatusFields(node.location);
    ExtrasFields(node.location);
    TotalsRuleIff(node);
  }

  // The path of a node with one finding.
  function SelectedPath(kind: Kind, rules: Rules, path: string): string {
    if Selected(kind, rules) == Internal then "/schema_version"
    else if Selected(kind, rules) == InvalidTimestamp then "/generated_at"
    else path
  }

  predicate AtField(kind: Kind) { kind.Enum? || kind.Pattern? || kind.Minimum? }

  lemma FieldKey(node: Cause, path: string)
    requires OneFinding(node) && AtField(node.kind)
    ensures var rules := TestedRules(node);
            KeyOf(EmitOne(node, path)) == Key(Selected(node.kind, rules), SelectedPath(node.kind, rules, path))
  {
  }

  predicate AboutText(kind: Kind) { kind.Format? || kind.MinLength? }

  lemma TextKey(node: Cause, path: string)
    requires OneFinding(node) && AboutText(node.kind)
    ensures var rules := TestedRules(node);
            KeyOf(EmitOne(node, path)) == Key(Selected(node.kind, rules), SelectedPath(node.kind, rules, path))
  {
  }

  lemma LimitKey(node: Cause, path: string)
    requires OneFinding(node) && (node.kind.MaxItems? || node.kind.MaxLength?)
    ensures var rules := TestedRules(node);
            KeyOf(EmitOne(node, path)) == Key(Selected(node.kind, rules), SelectedPath(node.kind, rules, path))
  {
  }

  lemma OtherKey(node: Cause, path: string)
    requires OneFinding(node) && !AtField(node.kind) && !AboutText(node.kind)
    requires !node.kind.MaxItems? && !node.kind.MaxLength?
    ensures var rules := TestedRules(node);
            KeyOf(EmitOne(node, path)) == Key(Selected(node.kind, rules), SelectedPath(node.kind, rules, path))
  {
  }

  lemma EmittedKey(node: Cause, path: string)
    requires OneFinding(node)
    ensures var rules := TestedRules(node);
            KeyOf(EmitOne(node, path)) == Key(Selected(node.kind, rules), SelectedPath(node.kind, rules, path))
  {
    if AtField(node.kind) {
      FieldKey(node, path);
    } else if AboutText(node.kind) {
      TextKey(node, path);
    } else if node.kind.MaxItems? || node.kind.MaxLength? {
      LimitKey(node, path);
    } else {
      OtherKey(node, path);
    }
  }

  lemma OneGives(node: Cause, key: Key)
    requires OneFinding(node)
    ensures key == KeyOf(TranslateOne(node)) <==> Gives(node, key)
  {
    EmittedKey(node, JsonPointer.Encode(node.location));
    TestedRulesHold(node);
    RulesCompatible(node);
    SelectedIsGiven(node.kind, RulesOf(node), key.code);
  }

  lemma RequiredCode(kind: Kind, rules: Rules, code: Code)
    requires kind.Required? && !rules.totals && !rules.limit
    ensures GivesCode(kind, rules, code) <==> code == if rules.version then Internal else RequiredFieldMissing
  {
  }

  // What a node with missing fields gives.
  lemma RequiredRule(node: Cause, key: Key)
    requires node.Cause? && node.kind.Required?
    ensures Gives(node, key) <==>
              if "schema_version" in node.kind.missing then key == Key(Internal, "/schema_version")
              else key.code == RequiredFieldMissing && PointsAt(key.path, node.location, node.kind.missing)
  {
    FanoutRules(node);
    RequiredCode(node.kind, RulesOf(node), key.code);
  }

  lemma RequiredGives(node: Cause, key: Key)
    requires node.Cause? && node.kind.Required?
    ensures key in Keys(TranslateRequired(node)) <==> Gives(node, key)
  {
    var missing := node.kind.missing;
    RequiredRule(node, key);
    if "schema_version" in missing {
      OneKey(New(Internal, "/schema_version", "schema_version missing after dispatch"));
    } else {
      FanoutKeys(RequiredFieldMissing, node.location, Sort(missing, StringLess), "required field is missing", key);
      SortedNames(missing, node.location, key.path);
    }
  }

  lemma UnknownGives(node: Cause, key: Key)
    requires node.Cause? && node.kind.AdditionalProperties?
    ensures key in Keys(TranslateUnknown(node)) <==> Gives(node, key)
  {
    var properties := node.kind.properties;
    UnknownRule(node, key);
    FanoutKeys(UnknownField, node.location, Sort(properties, StringLess),
               "unknown field rejected by additionalProperties:false", key);
    SortedNames(properties, node.location, key.path);
  }

  // What a node with unknown fields gives.
  lemma UnknownRule(node: Cause, key: Key)
    requires node.Cause? && node.kind.AdditionalProperties?
    ensures Gives(node, key) <==> key.code == UnknownField && PointsAt(key.path, node.location, node.kind.properties)
  {
    FanoutRules(node);
    UnknownCode(node.kind, RulesOf(node), key.code);
  }

  lemma UnknownCode(kind: Kind, rules: Rules, code: Code)
    requires kind.AdditionalProperties? && !rules.version && !rules.totals && !rules.limit
    ensures GivesCode(kind, rules, code) <==> code == UnknownField
  {
  }

  // Of a node that fans out only the version rule can hold.
  lemma FanoutRules(node: Cause)
    requires node.Cause? && (node.kind.Required? || node.kind.AdditionalProperties?)
    ensures var rules := RulesOf(node);
            && !rules.totals && !rules.limit
            && (rules.version <==> node.kind.Required? && "schema_version" in node.kind.missing)
  {
  }

  lemma LeafGives(node: Cause, key: Key)
    requires node.Cause? && !node.kind.NilKind? && !IsWrapper(node.kind)
    ensures key in Keys(TranslateLeaf(node)) <==> Gives(node, key)
  {
    if node.kind.Required? {
      RequiredGives(node, key);
    } else if node.kind.AdditionalProperties? {
      UnknownGives(node, key);
    } else {
      OneGives(node, key);
      OneKey(TranslateOne(node));
    }
  }

  lemma OneKey(d: Diagnostic)
    ensures Keys([d]) == [KeyOf(d)]
  {
  }

  lemma OwnGives(node: Cause, key: Key)
    ensures key in Keys(Own(TranslateLeaf, node)) <==> Gives(node, key)
  {
    if node.Cause? && !node.kind.NilKind? && !IsWrapper(node.kind) {
      LeafGives(node, key);
    }
  }

  predicate ProperRoot(root: Cause) { root.Cause? && root.kind.Schema? && root.causes != [] }

  // The findings are those of the nodes reached from the root through wrappers.
  lemma FindingsGiven(root: Cause, key: Key)
    requires ProperRoot(root)
    ensures key in Keys(Findings(root)) <==> exists node :: Reached(root.causes, node) && Gives(node, key)
  {
    var all := WalkAll(TranslateLeaf, root.causes);
    if key in Keys(all) {
      var d := KeyHeld(all, key);
      WalkAllReached(TranslateLeaf, root.causes, d);
      var node :| Reached(root.causes, node) && d in Own(TranslateLeaf, node);
      KeyOfElement(Own(TranslateLeaf, node), d);
      OwnGives(node, key);
    }
    if node :| Reached(root.causes, node) && Gives(node, key) {
      OwnGives(node, key);
      var d := KeyHeld(Own(TranslateLeaf, node), key);
      WalkAllReached(TranslateLeaf, root.causes, d);
      KeyOfElement(all, d);
    }
  }

  // A limit is reported with what it is and what was found.
  predicate StatesLimit(node: Cause, d: Diagnostic) {
    && node.Cause? && (node.kind.MaxItems? || node.kind.MaxLength?)
    && d.path == JsonPointer.Encode(node.location)
    && d.expected == Signed(node.kind.want) && d.observed == Signed(node.kind.got)
  }

  lemma OwnLimit(node: Cause, d: Diagnostic)
    requires d in Own(TranslateLeaf, node) && d.code == CollectionLimit
    ensures StatesLimit(node, d)
  {
    KeyOfElement(Own(TranslateLeaf, node), d);
    OwnGives(node, KeyOf(d));
    assert node.Cause? && LimitRule(node);
    assert d == TranslateOne(node);
    LimitedBy(node);
  }

  lemma LimitedBy(node: Cause)
    requires node.Cause? && LimitRule(node)
    ensures StatesLimit(node, TranslateOne(node))
  {
  }

  lemma LimitStated(root: Cause, d: Diagnostic)
    requires ProperRoot(root) && d in Emitted(Findings(root)) && d.code == CollectionLimit
    ensures exists node :: Reached(root.causes, node) && StatesLimit(node, d)
  {
    var all := Findings(root);
    var m :| 0 <= m < |Emitted(all)| && Emitted(all)[m] == d;
    var i := FirstIndex(all, m);
    WalkAllReached(TranslateLeaf, root.causes, d);
    var node :| Reached(root.causes, node) && d in Own(TranslateLeaf, node);
    OwnLimit(node, d);
  }

  method Translate(root: Cause) returns (out: seq<Diagnostic>)
    ensures out == Emitted(Findings(root))
    ensures ProperRoot(root) ==>
              forall key :: key in Keys(out) <==> exists node :: Reached(root.causes, node) && Gives(node, key)
    ensures !ProperRoot(root) ==> Keys(out) == [Key(Internal, "/")]
  {
    out := EmitFindings(root);
    TranslatedKeys(root);
  }

  method EmitFindings(root: Cause) returns (out: seq<Diagnostic>)
    ensures out == Emitted(Findings(root))
  {
    var ds := new DiagnosticSet();
    if root.Nil? || root.causes == [] || !root.kind.Schema? {
      ds.Add(MalformedRoot());
    } else {
      WalkCauses(TranslateLeaf, root.causes, ds);
    }
    assert ds.Added() == Findings(root);
    out := ds.Emit();
  }

  lemma TranslatedKeys(root: Cause)
    ensures var out := Emitted(Findings(root));
            && (ProperRoot(root) ==>
                  forall key :: key in Keys(out) <==> exists node :: Reached(root.causes, node) && Gives(node, key))
            && (!ProperRoot(root) ==> Keys(out) == [Key(Internal, "/")])
  {
    if ProperRoot(root) {
      EmittedSameKeys(Findings(root));
      forall key ensures key in Keys(Findings(root)) <==> exists node :: Reached(root.causes, node) && Gives(node, key) {
        FindingsGiven(root, key);
      }
    } else {
      EmittedOne(MalformedRoot());
    }
  }

  function Findings(root: Cause): seq<Diagnostic> {
    RootFindings(TranslateLeaf, root)
  }

  // The emitted (code, path) list is the same however the validator orders causes.
  lemma TranslateOrderIndependent(a: Cause, b: Cause)
    requires Reordered(a, b)
    ensures Keys(Emitted(Findings(a))) == Keys(Emitted(Findings(b)))
  {
    RootOrderIndependent(TranslateLeaf, a, b);
  }
}
