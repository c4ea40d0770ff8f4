/**
 * Semantic normalization of a decoded gate summary, versions 2 and 3: exact integers,
 * the cross-field validators, and what passing them means.
 */
module Normalize {
  import opened Text
  import opened Ordering
  import opened Diagnostics
  import SchemaErrors

  // Unknown is the zero value of a status no schema admits.
  datatype GateStatus = Pass | Fail | Skip | Timeout | Unavailable | Unknown

  datatype Lifecycle = Open | Partial | Closed | NoLifecycle

  // ---- Integers keep their spelling ----

  function Magnitude(raw: string): string {
    if raw != "" && raw[0] == '-' then raw[1..] else raw
  }

  // -?(0|[1-9][0-9]*)
  predicate JsonInteger(raw: string) {
    SchemaErrors.IsArrayIndexToken(Magnitude(raw))
  }

  // The zero Integer has an empty spelling and no value.
  function BigInt(raw: string): Option<int> {
    if !JsonInteger(raw) then None
    else
      var size: int := DecimalValue(Magnitude(raw));
      Some(if raw[0] == '-' then -size else size)
  }

  // Every integer is the value of its spelling, and every admitted spelling except
  // minus zero is the spelling of its value: nothing is narrowed.
  lemma IntegerRoundTrip(n: int)
    ensures BigInt(SchemaErrors.Signed(n)) == Some(n)
  {
    var size := if n < 0 then -n else n;
    DecimalRoundTrip(size);
    SchemaErrors.ArrayIndexTokens(Decimal(size));
    assert IsDigit(Decimal(size)[0]);
    if n < 0 {
      assert SchemaErrors.Signed(n)[1..] == Decimal(size);
    }
  }

  lemma SpellingRoundTrip(raw: string)
    requires JsonInteger(raw) && raw != "-0"
    ensures BigInt(raw).Some? && SchemaErrors.Signed(BigInt(raw).value) == raw
  {
    SchemaErrors.ArrayIndexTokens(Magnitude(raw));
    var n: nat :| Magnitude(raw) == Decimal(n);
    DecimalRoundTrip(n);
    if raw[0] == '-' {
      assert raw == "-" + raw[1..];
      assert n == 0 ==> Decimal(n) == "0";
    }
  }

  // ---- Data ----

  // Counts that were absent on the wire keep the empty spelling.
  datatype Totals = Totals(total: string, pass: string, fail: string, skip: string, unavailable: string)

  datatype Check = Check(name: string, status: GateStatus, exitCode: Option<string>, totals: Option<Totals>)

  datatype Scope = Scope(status: Lifecycle, cleanBefore: bool, cleanAfter: bool)

  // ---- What the validators are for ----

  ghost predicate NamesDistinct(checks: seq<Check>) {
    forall i, j :: 0 <= i < j < |checks| ==> checks[i].name != checks[j].name
  }

  function ExitValue(raw: string): int {
    if BigInt(raw).Some? then BigInt(raw).value else 0
  }

  // The frozen relation of status and exit code. A timeout may have any.
  predicate ExitCodeLegal(c: Check) {
    match c.status
    case Pass => c.exitCode.Some? && ExitValue(c.exitCode.value) == 0
    case Fail => c.exitCode.None? || ExitValue(c.exitCode.value) != 0
    case Skip => c.exitCode.None?
    case Unavailable => c.exitCode.None?
    case Timeout => true
    case Unknown => true
  }

  // The components add up to the total, in unbounded arithmetic.
  predicate TotalsLegal(c: Check) {
    c.totals.None? || BigInt(c.totals.value.total).None? ||
    BigInt(c.totals.value.total).value == Components(c.totals.value)
  }

  function Components(t: Totals): int {
    ExitValue(t.pass) + ExitValue(t.fail) + ExitValue(t.skip) + ExitValue(t.unavailable)
  }

  predicate Occurs(checks: seq<Check>, status: GateStatus) {
    exists i :: 0 <= i < |checks| && checks[i].status == status
  }

  // Failure dominates, then unavailability, then success; skips and timeouts do not count.
  function Overall(checks: seq<Check>): GateStatus {
    if Occurs(checks, Fail) then Fail
    else if Occurs(checks, Unavailable) then Unavailable
    else if Occurs(checks, Pass) then Pass
    else Unavailable
  }

  // Failure dominates unavailability, which dominates success.
  lemma OverallDominance(checks: seq<Check>)
    ensures Overall(checks) == Fail <==> exists i :: 0 <= i < |checks| && checks[i].status == Fail
    ensures Overall(checks) == Pass <==>
              && (exists i :: 0 <= i < |checks| && checks[i].status == Pass)
              && (forall i :: 0 <= i < |checks| ==> checks[i].status != Fail && checks[i].status != Unavailable)
    ensures Overall(checks) == Fail || Overall(checks) == Pass || Overall(checks) == Unavailable
  {
  }

  // Checks that neither failed, passed nor were unavailable can be dropped: a summary
  // whose only blemish is a timed-out check is still derived as a pass.
  lemma SilentStatusesIgnored(before: seq<Check>, c: Check, after: seq<Check>)
    requires c.status == Skip || c.status == Timeout || c.status == Unknown
    ensures Overall(before + [c] + after) == Overall(before + after)
  {
    forall status | status == Fail || status == Unavailable || status == Pass
      ensures Occurs(before + [c] + after, status) <==> Occurs(before + after, status)
    {
      OccursInParts(before + [c], after, status);
      OccursInParts(before, [c], status);
      OccursInParts(before, after, status);
    }
  }

  // The source's comment gives "empty or all skipped" as the cases that are unavailable
  // by default. A timed-out check gets there too: the comment is right for a list if
  // and only if no check timed out or another status settles the result.
  lemma DefaultMeansSkippedIff(checks: seq<Check>)
    ensures (DerivedByDefault(checks) ==> AllSkipped(checks)) <==>
              (Occurs(checks, Timeout) || Occurs(checks, Unknown) ==>
                 Occurs(checks, Fail) || Occurs(checks, Unavailable) || Occurs(checks, Pass))
  {
    if !AllSkipped(checks) {
      var i :| 0 <= i < |checks| && checks[i].status != Skip;
      assert Occurs(checks, checks[i].status);
    }
  }

  // Unavailable, though no check is.
  predicate DerivedByDefault(checks: seq<Check>) {
    Overall(checks) == Unavailable && !Occurs(checks, Unavailable)
  }

  predicate AllSkipped(checks: seq<Check>) {
    forall i :: 0 <= i < |checks| ==> checks[i].status == Skip
  }

  lemma TimedOutIsUnavailable(c: Check)
    requires c.status == Timeout
    ensures DerivedByDefault([c]) && !AllSkipped([c])
  {
    assert [c][0] == c;
  }

  lemma OccursInParts(a: seq<Check>, b: seq<Check>, status: GateStatus)
    ensures Occurs(a + b, status) <==> Occurs(a, status) || Occurs(b, status)
  {
    if i :| 0 <= i < |a| && a[i].status == status { assert (a + b)[i] == a[i]; }
    if i :| 0 <= i < |b| && b[i].status == status { assert (a + b)[|a| + i] == b[i]; }
  }

  predicate Clean(scope: Scope) {
    scope.status == Closed ==> scope.cleanBefore && scope.cleanAfter
  }

  // ---- Diagnostics of each validator, by position ----

  function CheckPath(i: nat): string { "/checks/" + Decimal(i) }

  function NamePath(i: nat): string { CheckPath(i) + "/name" }

  function ExitCodePath(i: nat): string { CheckPath(i) + "/extras/exit_code" }

  function NameFinding(name: string, i: nat): Diagnostic {
    Diagnostic(DuplicateCheckName, NamePath(i), "unique check name", name, "duplicate check name: " + name)
  }

  function ExitCodeFinding(c: Check, i: nat): (r: Option<Diagnostic>)
    ensures r.None? <==> ExitCodeLegal(c)
  {
    if ExitCodeLegal(c) then None
    else
      var observed := if c.exitCode.None? then "null" else c.exitCode.value;
      match c.status
      case Pass => Some(Diagnostic(PassExitCodeMismatch, ExitCodePath(i), "0", observed, "pass requires exit_code 0"))
      case Fail => Some(Diagnostic(FailExitCodeMismatch, ExitCodePath(i), "non-zero integer or null", observed, "fail requires non-zero exit_code or null"))
      case Skip => Some(Diagnostic(SkipExitCodeMismatch, ExitCodePath(i), "null", observed, "skip requires exit_code null"))
      case _ => Some(Diagnostic(UnavailableExitCodeMismatch, ExitCodePath(i), "null", observed, "unavailable requires exit_code null"))
  }

  function TotalsFinding(c: Check, i: nat): (r: Option<Diagnostic>)
    ensures r.None? <==> TotalsLegal(c)
  {
    if TotalsLegal(c) then None
    else Some(Diagnostic(TestTotalMismatch, CheckPath(i), SchemaErrors.Signed(Components(c.totals.value)), c.totals.value.total, "test total mismatch"))
  }

  // The diagnostics are those the first n checks give rise to.
  ghost predicate Collected(diags: seq<Diagnostic>, checks: seq<Check>, n: nat, finding: (Check, nat) -> Option<Diagnostic>)
    requires n <= |checks|
  {
    forall d :: d in diags <==> FoundAmong(checks, n, finding, d)
  }

  ghost predicate FoundAmong(checks: seq<Check>, n: nat, finding: (Check, nat) -> Option<Diagnostic>, d: Diagnostic)
    requires n <= |checks|
  {
    exists k: nat :: k < n && finding(checks[k], k) == Some(d)
  }

  lemma CollectStep(diags: seq<Diagnostic>, checks: seq<Check>, n: nat, finding: (Check, nat) -> Option<Diagnostic>)
    requires n < |checks| && Collected(diags, checks, n, finding)
    ensures var found := finding(checks[n], n);
            Collected(if found.Some? then diags + [found.value] else diags, checks, n + 1, finding)
  {
  }

  lemma NothingCollected(diags: seq<Diagnostic>, checks: seq<Check>, finding: (Check, nat) -> Option<Diagnostic>)
    requires Collected(diags, checks, |checks|, finding)
    ensures diags == [] <==> forall k: nat :: k < |checks| ==> finding(checks[k], k).None?
  {
    if diags != [] {
      assert diags[0] in diags;
    }
    if k: nat :| k < |checks| && finding(checks[k], k).Some? {
      assert finding(checks[k], k) == Some(finding(checks[k], k).value);
      assert finding(checks[k], k).value in diags;
    }
  }

  method ValidateCheckNames(checks: seq<Check>) returns (diags: seq<Diagnostic>)
    ensures forall d :: d in diags <==> NameViolation(checks, d)
    ensures diags == [] <==> NamesDistinct(checks)
  {
    diags := [];
    var seen: set<string> := {};
    for k := 0 to |checks|
      invariant forall name :: name in seen <==> exists i :: 0 <= i < k && checks[i].name == name
      invariant forall d :: d in diags <==>
                  exists i, j :: 0 <= i < j < k && checks[i].name == checks[j].name && d == NameFinding(checks[j].name, j)
    {
      if checks[k].name in seen {
        diags := diags + [NameFinding(checks[k].name, k)];
      } else {
        seen := seen + {checks[k].name};
      }
    }
    if diags != [] {
      assert diags[0] in diags;
    }
    forall i, j | 0 <= i < j < |checks| && checks[i].name == checks[j].name ensures diags != [] {
      assert NameFinding(checks[j].name, j) in diags;
    }
  }

  method ValidateExitCodes(checks: seq<Check>) returns (diags: seq<Diagnostic>)
    ensures Collected(diags, checks, |checks|, ExitCodeFinding)
    ensures diags == [] <==> forall i :: 0 <= i < |checks| ==> ExitCodeLegal(checks[i])
  {
    diags := [];
    for i := 0 to |checks|
      invariant Collected(diags, checks, i, ExitCodeFinding)
    {
      CollectStep(diags, checks, i, ExitCodeFinding);
      var found := CheckExitCode(checks[i], i);
      if found.Some? {
        diags := diags + [found.value];
      }
    }
    NothingCollected(diags, checks, ExitCodeFinding);
  }

  // The case analysis of the source, branch by branch.
  method CheckExitCode(c: Check, i: nat) returns (found: Option<Diagnostic>)
    ensures found == ExitCodeFinding(c, i)
  {
    if c.exitCode.None? {
      if c.status == Pass {
        return Some(Diagnostic(PassExitCodeMismatch, ExitCodePath(i), "0", "null", "pass requires exit_code 0"));
      }
      return None;
    }
    var raw := c.exitCode.value;
    var zero := ExitValue(raw) == 0;
    found := None;
    match c.status {
      case Pass =>
        if !zero {
          found := Some(Diagnostic(PassExitCodeMismatch, ExitCodePath(i), "0", raw, "pass requires exit_code 0"));
        }
      case Fail =>
        if zero {
          found := Some(Diagnostic(FailExitCodeMismatch, ExitCodePath(i), "non-zero integer or null", raw, "fail requires non-zero exit_code or null"));
        }
      case Skip =>
        found := Some(Diagnostic(SkipExitCodeMismatch, ExitCodePath(i), "null", raw, "skip requires exit_code null"));
      case Unavailable =>
        found := Some(Diagnostic(UnavailableExitCodeMismatch, ExitCodePath(i), "null", raw, "unavailable requires exit_code null"));
      case _ =>
    }
  }

  // Adds what has a value; an absent count adds nothing.
  method SumTestCounts(t: Totals) returns (sum: int)
    ensures sum == Components(t)
  {
    sum := 0;
    var v := BigInt(t.pass);
    if v.Some? { sum := sum + v.value; }
    v := BigInt(t.fail);
    if v.Some? { sum := sum + v.value; }
    v := BigInt(t.skip);
    if v.Some? { sum := sum + v.value; }
    v := BigInt(t.unavailable);
    if v.Some? { sum := sum + v.value; }
  }

  method ValidateTestTotals(checks: seq<Check>) returns (diags: seq<Diagnostic>)
    ensures Collected(diags, checks, |checks|, TotalsFinding)
    ensures diags == [] <==> forall i :: 0 <= i < |checks| ==> TotalsLegal(checks[i])
  {
    diags := [];
    for i := 0 to |checks|
      invariant Collected(diags, checks, i, TotalsFinding)
    {
      CollectStep(diags, checks, i, TotalsFinding);
      var found := CheckTotals(checks[i], i);
      if found.Some? {
        diags := diags + [found.value];
      }
    }
    NothingCollected(diags, checks, TotalsFinding);
  }

  method CheckTotals(c: Check, i: nat) returns (found: Option<Diagnostic>)
    ensures found == TotalsFinding(c, i)
  {
    if c.totals.None? {
      return None;
    }
    var totals := c.totals.value;
    var expected := SumTestCounts(totals);
    var observed := BigInt(totals.total);
    if observed.None? || expected == observed.value {
      return None;
    }
    found := Some(Diagnostic(TestTotalMismatch, CheckPath(i), SchemaErrors.Signed(expected), totals.total, "test total mismatch"));
  }

  method DeriveOverallStatus(checks: seq<Check>) returns (r: GateStatus)
    ensures r == Overall(checks)
  {
    var hasFail, hasUnavailable, hasPass := false, false, false;
    for i := 0 to |checks|
      invariant hasFail <==> exists k :: 0 <= k < i && checks[k].status == Fail
      invariant hasUnavailable <==> exists k :: 0 <= k < i && checks[k].status == Unavailable
      invariant hasPass <==> exists k :: 0 <= k < i && checks[k].status == Pass
    {
      match checks[i].status
      case Fail => hasFail := true;
      case Unavailable => hasUnavailable := true;
      case Pass => hasPass := true;
      case _ =>
    }
    r := if hasFail then Fail else if hasUnavailable then Unavailable else if hasPass then Pass else Unavailable;
  }

  function StatusName(s: GateStatus): string {
    match s
    case Pass => "pass"
    case Fail => "fail"
    case Skip => "skip"
    case Timeout => "timeout"
    case Unavailable => "unavailable"
    case Unknown => ""
  }

  function OverallFinding(derived: GateStatus, recorded: GateStatus): Diagnostic {
    Diagnostic(OverallStatusMismatch, "/overall_status", StatusName(derived), StatusName(recorded),
               "overall_status mismatch: derived " + StatusName(derived) + ", recorded " + StatusName(recorded))
  }

  method ValidateOverallStatus(checks: seq<Check>, recorded: GateStatus) returns (diags: seq<Diagnostic>)
    ensures diags == if Overall(checks) == recorded then [] else [OverallFinding(Overall(checks), recorded)]
  {
    var derived := DeriveOverallStatus(checks);
    diags := if derived != recorded then [OverallFinding(derived, recorded)] else [];
  }

  method ValidateCleanliness(scope: Scope) returns (diags: seq<Diagnostic>)
    ensures forall d :: d in diags <==> CleanlinessFinding(scope, d)
    ensures diags == [] <==> Clean(scope)
  {
    if scope.status != Closed {
      return [];
    }
    diags := [];
    if !scope.cleanBefore {
      diags := diags + [DirtyBefore()];
    }
    if !scope.cleanAfter {
      diags := diags + [DirtyAfter()];
    }
  }

  predicate CleanlinessFinding(scope: Scope, d: Diagnostic) {
    scope.status == Closed && ((!scope.cleanBefore && d == DirtyBefore()) || (!scope.cleanAfter && d == DirtyAfter()))
  }

  function DirtyBefore(): Diagnostic {
    Diagnostic(ScopeClosedDirtyWorktree, "/worktree_clean_before", "true", "false", "closed scope requires clean worktree before")
  }

  function DirtyAfter(): Diagnostic {
    Diagnostic(ScopeClosedDirtyWorktree, "/worktree_clean_after", "true", "false", "closed scope requires clean worktree after")
  }

  // ---- From the wire to checks, for either version ----

  function ProjectedAll<W>(wire: seq<W>, projected: W -> Check): (checks: seq<Check>)
    ensures |checks| == |wire| && forall i :: 0 <= i < |wire| ==> checks[i] == projected(wire[i])
  {
    seq(|wire|, i requires 0 <= i < |wire| => projected(wire[i]))
  }

  // Stops at the first check that does not project.
  method ProjectChecks<W>(wire: seq<W>, projects: W -> bool, projected: W -> Check)
    returns (checks: Option<seq<Check>>)
    ensures checks.Some? <==> forall i :: 0 <= i < |wire| ==> projects(wire[i])
    ensures checks.Some? ==> checks.value == ProjectedAll(wire, projected)
  {
    var done: seq<Check> := [];
    for i := 0 to |wire|
      invariant |done| == i
      invariant forall k :: 0 <= k < i ==> projects(wire[k]) && done[k] == projected(wire[k])
    {
      if !projects(wire[i]) {
        return None;
      }
      done := done + [projected(wire[i])];
    }
    checks := Some(done);
  }

  // ---- Version 2 ----

  // A check on the wire. Without a total the component counts are not looked at.
  datatype WireCheck = WireCheck(
    name: string, status: GateStatus, duration: string, exitCode: Option<string>, total: Option<string>,
    pass: Option<string>, fail: Option<string>, skip: Option<string>, unavailable: Option<string>)

  predicate Plain(raw: Option<string>) { raw.None? || JsonInteger(raw.value) }

  // Every integer of the check that is looked at is spelled as a plain JSON integer.
  predicate Projects(w: WireCheck) {
    && JsonInteger(w.duration) && Plain(w.exitCode) && Plain(w.total)
    && (w.total.Some? ==> Plain(w.pass) && Plain(w.fail) && Plain(w.skip) && Plain(w.unavailable))
  }

  function OrEmpty(raw: Option<string>): string { if raw.Some? then raw.value else "" }

  function Projected(w: WireCheck): Check {
    Check(w.name, w.status, w.exitCode,
          if w.total.None? then None
          else Some(Totals(w.total.value, OrEmpty(w.pass), OrEmpty(w.fail), OrEmpty(w.skip), OrEmpty(w.unavailable))))
  }

  datatype V2 = V2(checks: seq<WireCheck>, overall: GateStatus, scope: Scope)

  datatype Outcome = Failed | Invalid(diagnostics: seq<Diagnostic>) | Normalized(checks: seq<Check>)

  ghost predicate V2Legal(checks: seq<Check>, overall: GateStatus, scope: Scope) {
    && NamesDistinct(checks)
    && (forall i :: 0 <= i < |checks| ==> ExitCodeLegal(checks[i]))
    && (forall i :: 0 <= i < |checks| ==> TotalsLegal(checks[i]))
    && overall == Overall(checks)
    && Clean(scope)
  }

  ghost predicate NameViolation(checks: seq<Check>, d: Diagnostic) {
    exists i, j :: 0 <= i < j < |checks| && checks[i].name == checks[j].name && d == NameFinding(checks[j].name, j)
  }

  ghost predicate V2Finding(checks: seq<Check>, overall: GateStatus, scope: Scope, d: Diagnostic) {
    || NameViolation(checks, d)
    || FoundAmong(checks, |checks|, ExitCodeFinding, d)
    || FoundAmong(checks, |checks|, TotalsFinding, d)
    || (overall != Overall(checks) && d == OverallFinding(Overall(checks), overall))
    || CleanlinessFinding(scope, d)
  }

  // ---- Which code and path stands for which violated rule ----

  ghost predicate RepeatedName(checks: seq<Check>, path: string) {
    exists i, j :: 0 <= i < j < |checks| && checks[i].name == checks[j].name && path == "/checks/" + Decimal(j) + "/name"
  }

  ghost predicate IllegalExit(checks: seq<Check>, status: GateStatus, path: string) {
    exists i :: 0 <= i < |checks| && checks[i].status == status && !ExitCodeLegal(checks[i])
                && path == "/checks/" + Decimal(i) + "/extras/exit_code"
  }

  ghost predicate WrongTotal(checks: seq<Check>, path: string) {
    exists i :: 0 <= i < |checks| && !TotalsLegal(checks[i]) && path == "/checks/" + Decimal(i)
  }

  predicate DirtyScope(scope: Scope, path: string) {
    && scope.status == Closed
    && ((!scope.cleanBefore && path == "/worktree_clean_before") || (!scope.cleanAfter && path == "/worktree_clean_after"))
  }

  ghost predicate ExitViolation(checks: seq<Check>, key: Key) {
    || (key.code == PassExitCodeMismatch && IllegalExit(checks, Pass, key.path))
    || (key.code == FailExitCodeMismatch && IllegalExit(checks, Fail, key.path))
    || (key.code == SkipExitCodeMismatch && IllegalExit(checks, Skip, key.path))
    || (key.code == UnavailableExitCodeMismatch && IllegalExit(checks, Unavailable, key.path))
  }

  ghost predicate V2Violation(checks: seq<Check>, overall: GateStatus, scope: Scope, key: Key) {
    || (key.code == DuplicateCheckName && RepeatedName(checks, key.path))
    || ExitViolation(checks, key)
    || (key.code == TestTotalMismatch && WrongTotal(checks, key.path))
    || (overall != Overall(checks) && key == Key(OverallStatusMismatch, "/overall_status"))
    || (key.code == ScopeClosedDirtyWorktree && DirtyScope(scope, key.path))
  }

  // Some finding of the kind has the key.
  ghost predicate NameKeyed(checks: seq<Check>, key: Key) {
    exists d :: NameViolation(checks, d) && KeyOf(d) == key
  }

  ghost predicate FindingKeyed(checks: seq<Check>, finding: (Check, nat) -> Option<Diagnostic>, key: Key) {
    exists d :: FoundAmong(checks, |checks|, finding, d) && KeyOf(d) == key
  }

  ghost predicate ScopeKeyed(scope: Scope, key: Key) {
    exists d :: CleanlinessFinding(scope, d) && KeyOf(d) == key
  }

  ghost predicate V2Keyed(checks: seq<Check>, overall: GateStatus, scope: Scope, key: Key) {
    exists d :: V2Finding(checks, overall, scope, d) && KeyOf(d) == key
  }

  lemma NameKeys(checks: seq<Check>, key: Key)
    ensures NameKeyed(checks, key) <==>
            key.code == DuplicateCheckName && RepeatedName(checks, key.path)
  {
    if d :| NameViolation(checks, d) && KeyOf(d) == key {
      var i, j :| 0 <= i < j < |checks| && checks[i].name == checks[j].name && d == NameFinding(checks[j].name, j);
    }
    if key.code == DuplicateCheckName && RepeatedName(checks, key.path) {
      var i, j :| 0 <= i < j < |checks| && checks[i].name == checks[j].name && key.path == "/checks/" + Decimal(j) + "/name";
      assert NameViolation(checks, NameFinding(checks[j].name, j));
    }
  }

  function ExitCodeFault(status: GateStatus): Code {
    match status
    case Pass => PassExitCodeMismatch
    case Fail => FailExitCodeMismatch
    case Skip => SkipExitCodeMismatch
    case _ => UnavailableExitCodeMismatch
  }

  lemma ExitKeys(checks: seq<Check>, key: Key)
    ensures FindingKeyed(checks, ExitCodeFinding, key) <==> ExitViolation(checks, key)
  {
    if d :| FoundAmong(checks, |checks|, ExitCodeFinding, d) && KeyOf(d) == key {
      var i: nat :| i < |checks| && ExitCodeFinding(checks[i], i) == Some(d);
      ExitFindingKey(checks[i], i);
      assert IllegalExit(checks, checks[i].status, key.path);
    }
    if ExitViolation(checks, key) {
      var status := if key.code == PassExitCodeMismatch then Pass else if key.code == FailExitCodeMismatch then Fail
                    else if key.code == SkipExitCodeMismatch then Skip else Unavailable;
      var i := IllegalCheck(checks, status, key.path);
      ExitFindingKey(checks[i], i);
      assert FoundAmong(checks, |checks|, ExitCodeFinding, ExitCodeFinding(checks[i], i).value);
    }
  }

  lemma ExitFindingKey(c: Check, i: nat)
    requires !ExitCodeLegal(c)
    ensures c.status == Pass || c.status == Fail || c.status == Skip || c.status == Unavailable
    ensures KeyOf(ExitCodeFinding(c, i).value) == Key(ExitCodeFault(c.status), "/checks/" + Decimal(i) + "/extras/exit_code")
  {
  }

  lemma IllegalCheck(checks: seq<Check>, status: GateStatus, path: string) returns (i: nat)
    requires IllegalExit(checks, status, path)
    ensures i < |checks| && checks[i].status == status && !ExitCodeLegal(checks[i])
    ensures path == "/checks/" + Decimal(i) + "/extras/exit_code"
  {
    i :| 0 <= i < |checks| && checks[i].status == status && !ExitCodeLegal(checks[i])
         && path == "/checks/" + Decimal(i) + "/extras/exit_code";
  }

  lemma TotalKeys(checks: seq<Check>, key: Key)
    ensures FindingKeyed(checks, TotalsFinding, key) <==>
            key.code == TestTotalMismatch && WrongTotal(checks, key.path)
  {
    if d :| FoundAmong(checks, |checks|, TotalsFinding, d) && KeyOf(d) == key {
      var i: nat :| i < |checks| && TotalsFinding(checks[i], i) == Some(d);
      assert !TotalsLegal(checks[i]);
    }
    if key.code == TestTotalMismatch && WrongTotal(checks, key.path) {
      var i :| 0 <= i < |checks| && !TotalsLegal(checks[i]) && key.path == "/checks/" + Decimal(i);
      var d := TotalsFinding(checks[i], i).value;
      assert FoundAmong(checks, |checks|, TotalsFinding, d) && KeyOf(d) == key;
    }
  }

  lemma ScopeKeys(scope: Scope, key: Key)
    ensures ScopeKeyed(scope, key) <==>
            key.code == ScopeClosedDirtyWorktree && DirtyScope(scope, key.path)
  {
    if key.code == ScopeClosedDirtyWorktree && DirtyScope(scope, key.path) {
      var d := if !scope.cleanBefore && key.path == "/worktree_clean_before" then DirtyBefore() else DirtyAfter();
      assert CleanlinessFinding(scope, d) && KeyOf(d) == key;
    }
  }

  lemma OverallKey(derived: GateStatus, recorded: GateStatus)
    ensures KeyOf(OverallFinding(derived, recorded)) == Key(OverallStatusMismatch, "/overall_status")
  {
  }

  // The keys of the findings are those of the violated rules.
  lemma V2Keys(checks: seq<Check>, overall: GateStatus, scope: Scope, key: Key)
    ensures V2Keyed(checks, overall, scope, key) <==> V2Violation(checks, overall, scope, key)
  {
    if V2Keyed(checks, overall, scope, key) {
      KeyedIsViolation(checks, overall, scope, key);
    }
    if V2Violation(checks, overall, scope, key) {
      ViolationIsKeyed(checks, overall, scope, key);
    }
  }

  lemma KeyedIsViolation(checks: seq<Check>, overall: GateStatus, scope: Scope, key: Key)
    requires V2Keyed(checks, overall, scope, key)
    ensures V2Violation(checks, overall, scope, key)
  {
    var d :| V2Finding(checks, overall, scope, d) && KeyOf(d) == key;
    if NameViolation(checks, d) {
      NameKeys(checks, key);
    } else if FoundAmong(checks, |checks|, ExitCodeFinding, d) {
      ExitKeys(checks, key);
    } else if FoundAmong(checks, |checks|, TotalsFinding, d) {
      TotalKeys(checks, key);
    } else if CleanlinessFinding(scope, d) {
      ScopeKeys(scope, key);
    } else {
      OverallKey(Overall(checks), overall);
    }
  }

  lemma ViolationIsKeyed(checks: seq<Check>, overall: GateStatus, scope: Scope, key: Key)
    requires V2Violation(checks, overall, scope, key)
    ensures V2Keyed(checks, overall, scope, key)
  {
    if key.code == DuplicateCheckName {
      NameKeys(checks, key);
    } else if ExitViolation(checks, key) {
      ExitKeys(checks, key);
    } else if key.code == TestTotalMismatch {
      TotalKeys(checks, key);
    } else if key.code == ScopeClosedDirtyWorktree {
      ScopeKeys(scope, key);
    } else {
      OverallKey(Overall(checks), overall);
      assert V2Finding(checks, overall, scope, OverallFinding(Overall(checks), overall));
    }
  }

  // The canonical report of a set of findings: in precedence order, one per code and
  // path, nothing invented and no violated rule left out.
  ghost predicate Reports(out: seq<Diagnostic>, finding: Diagnostic -> bool) {
    && StrictlySorted(Keys(out), KeyLess)
    && (forall d :: d in out ==> finding(d))
    && (forall d :: finding(d) ==> KeyOf(d) in Keys(out))
  }

  lemma EmittedReports(ds: seq<Diagnostic>, finding: Diagnostic -> bool)
    requires forall d :: d in ds <==> finding(d)
    ensures Reports(Emitted(ds), finding)
  {
    EmittedStrictlySorted(ds);
    EmittedSameKeys(ds);
    forall d | d in Emitted(ds) ensures finding(d) {
      var m :| 0 <= m < |Emitted(ds)| && Emitted(ds)[m] == d;
      var i := FirstIndex(ds, m);
    }
    forall d | finding(d) ensures KeyOf(d) in Keys(Emitted(ds)) {
      var i :| 0 <= i < |ds| && ds[i] == d;
      assert Keys(ds)[i] == KeyOf(d);
    }
  }

  lemma ReportedKeys(out: seq<Diagnostic>, checks: seq<Check>, overall: GateStatus, scope: Scope)
    requires Reports(out, d => V2Finding(checks, overall, scope, d))
    ensures forall key :: key in Keys(out) <==> V2Violation(checks, overall, scope, key)
  {
    forall key ensures key in Keys(out) <==> V2Violation(checks, overall, scope, key) {
      V2Keys(checks, overall, scope, key);
      if key in Keys(out) {
        var i :| 0 <= i < |out| && Keys(out)[i] == key;
        assert out[i] in out && V2Finding(checks, overall, scope, out[i]) && KeyOf(out[i]) == key;
      }
    }
  }

  lemma V2Union(checks: seq<Check>, overall: GateStatus, scope: Scope, names: seq<Diagnostic>,
                exits: seq<Diagnostic>, totals: seq<Diagnostic>, total: seq<Diagnostic>, dirty: seq<Diagnostic>)
    requires forall d :: d in names <==> NameViolation(checks, d)
    requires Collected(exits, checks, |checks|, ExitCodeFinding)
    requires Collected(totals, checks, |checks|, TotalsFinding)
    requires total == if Overall(checks) == overall then [] else [OverallFinding(Overall(checks), overall)]
    requires forall d :: d in dirty <==> CleanlinessFinding(scope, d)
    ensures forall d :: d in names + exits + totals + total + dirty <==> V2Finding(checks, overall, scope, d)
  {
    InParts(names, exits, totals, total, dirty);
  }

  lemma InParts(a: seq<Diagnostic>, b: seq<Diagnostic>, c: seq<Diagnostic>, d: seq<Diagnostic>, e: seq<Diagnostic>)
    ensures forall x :: x in a + b + c + d + e <==> x in a || x in b || x in c || x in d || x in e
  {
  }

  // The findings of all validators, in the order in which they are added.
  method V2Findings(checks: seq<Check>, overall: GateStatus, scope: Scope) returns (all: seq<Diagnostic>)
    ensures all == [] <==> V2Legal(checks, overall, scope)
    ensures forall d :: d in all <==> V2Finding(checks, overall, scope, d)
  {
    var names := ValidateCheckNames(checks);
    var exits := ValidateExitCodes(checks);
    var totals := ValidateTestTotals(checks);
    var total := ValidateOverallStatus(checks, overall);
    var dirty := ValidateCleanliness(scope);
    V2Union(checks, overall, scope, names, exits, totals, total, dirty);
    all := names + exits + totals + total + dirty;
  }

  method Emit(all: seq<Diagnostic>) returns (out: seq<Diagnostic>)
    ensures out == Emitted(all) && (out == [] <==> all == [])
  {
    var ds := new DiagnosticSet();
    AddAll(ds, all);
    assert ds.Added() == all;
    out := ds.Emit();
  }

  method NormalizeV2(doc: V2) returns (r: Outcome)
    ensures r.Failed? <==> exists i :: 0 <= i < |doc.checks| && !Projects(doc.checks[i])
    ensures !r.Failed? ==> (r.Normalized? <==> V2Legal(ProjectedAll(doc.checks, Projected), doc.overall, doc.scope))
    ensures r.Normalized? ==> r.checks == ProjectedAll(doc.checks, Projected)
    ensures r.Invalid? ==> Reports(r.diagnostics, d => V2Finding(ProjectedAll(doc.checks, Projected), doc.overall, doc.scope, d))
    ensures r.Invalid? ==> forall key :: key in Keys(r.diagnostics) <==>
              V2Violation(ProjectedAll(doc.checks, Projected), doc.overall, doc.scope, key)
  {
    var projected := ProjectChecks(doc.checks, Projects, Projected);
    if projected.None? {
      return Failed;
    }
    var all := V2Findings(projected.value, doc.overall, doc.scope);
    var out := Emit(all);
    EmittedReports(all, d => V2Finding(projected.value, doc.overall, doc.scope, d));
    ReportedKeys(out, projected.value, doc.overall, doc.scope);
    r := if |out| > 0 then Invalid(out) else Normalized(projected.value);
  }
}
