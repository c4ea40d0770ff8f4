/**
 * The table of protected operations, and the scan over it.
 */
module ProtectedOps {
  import opened Text
  import opened Prose
  import opened Guards

  // The forms of one operation.
  function FormsOf(op: string, texts: seq<string>): (r: seq<Form>)
    ensures |r| == |texts| && forall i :: 0 <= i < |r| ==> r[i] == Form(op, texts[i])
  {
    seq(|texts|, i requires 0 <= i < |texts| => Form(op, texts[i]))
  }

  function MakeFactorizeTexts(): seq<string> {
    ["make factorize"]
  }

  function MakeGateDupcodeTexts(): seq<string> {
    ["make gate-dupcode"]
  }

  function MakeGateTexts(): seq<string> {
    ["make gate"]
  }

  function RepositoryGateTexts(): seq<string> {
    ["repository gate"]
  }

  function GitCommitTexts(): seq<string> {
    ["git commit", "commit the changes", "commit completed work", "create a commit", "make a commit", "commit"]
  }

  function GitPushTexts(): seq<string> {
    ["git push", "push the commit", "push changes", "push successful work", "push"]
  }

  function GitTagTexts(): seq<string> {
    ["git tag", "git tags", "tag the commit", "create a tag", "tag successful", "tag every", "tag all", "tag"]
  }

  function ForcePushTexts(): seq<string> {
    ["force-push", "force push"]
  }

  function HistoryRewriteTexts(): seq<string> {
    ["rewrite history", "rebase", "amend a commit"]
  }

  function MakeForms(): seq<Form> {
    FormsOf("make_factorize", MakeFactorizeTexts())
    + FormsOf("make_gate_dupcode", MakeGateDupcodeTexts())
    + FormsOf("make_gate", MakeGateTexts())
    + FormsOf("repository_gate", RepositoryGateTexts())
  }

  function GitForms(): seq<Form> {
    FormsOf("git_commit", GitCommitTexts())
    + FormsOf("git_push", GitPushTexts())
    + FormsOf("git_tag", GitTagTexts())
    + FormsOf("force_push", ForcePushTexts())
    + FormsOf("history_rewrite", HistoryRewriteTexts())
  }

  function ProtectedForms(): seq<Form> {
    MakeForms() + GitForms()
  }

  // Position d differs from the start within its first, second or fourth character.
  predicate Apart(text: string, d: nat)
    requires d < |text|
  {
    text[d] != text[0] || (d + 1 < |text| && text[d + 1] != text[1]) || (d + 3 < |text| && text[d + 3] != text[3])
  }

  lemma ApartIsSafe(text: string)
    requires forall d: nat :: 0 < d < |text| && !WordChar(text[d - 1]) ==> Apart(text, d)
    ensures SafeToSkip(text)
  {
    forall d: nat | d < |text| ensures !OverlapsItself(text, d) {
      var n := |text| - d;
      assert forall k :: 0 <= k < n ==> text[d + k] == text[d..][k] && text[k] == text[..n][k];
      if 0 < d && !WordChar(text[d - 1]) {
        assert Apart(text, d);
        assert text[d + 0] == text[d];
      }
    }
  }

  ghost predicate AllSafe(texts: seq<string>) {
    forall t :: t in texts ==> t != "" && SafeToSkip(t)
  }

  lemma MakeFactorizeTextsSafe()
    ensures AllSafe(MakeFactorizeTexts())
  {
    ApartIsSafe("make factorize");
  }

  lemma MakeGateDupcodeTextsSafe()
    ensures AllSafe(MakeGateDupcodeTexts())
  {
    ApartIsSafe("make gate-dupcode");
  }

  lemma MakeGateTextsSafe()
    ensures AllSafe(MakeGateTexts())
  {
    ApartIsSafe("make gate");
  }

  lemma RepositoryGateTextsSafe()
    ensures AllSafe(RepositoryGateTexts())
  {
    ApartIsSafe("repository gate");
  }

  lemma GitCommitTextsSafe()
    ensures AllSafe(GitCommitTexts())
  {
    ApartIsSafe("git commit");
    ApartIsSafe("commit the changes");
    ApartIsSafe("commit completed work");
    ApartIsSafe("create a commit");
    ApartIsSafe("make a commit");
    ApartIsSafe("commit");
  }

  lemma GitPushTextsSafe()
    ensures AllSafe(GitPushTexts())
  {
    ApartIsSafe("git push");
    ApartIsSafe("push the commit");
    ApartIsSafe("push changes");
    ApartIsSafe("push successful work");
    ApartIsSafe("push");
  }

  lemma GitTagTextsSafe()
    ensures AllSafe(GitTagTexts())
  {
    ApartIsSafe("git tag");
    ApartIsSafe("git tags");
    ApartIsSafe("tag the commit");
    ApartIsSafe("create a tag");
    ApartIsSafe("tag successful");
    ApartIsSafe("tag every");
    ApartIsSafe("tag all");
    ApartIsSafe("tag");
  }

  lemma ForcePushTextsSafe()
    ensures AllSafe(ForcePushTexts())
  {
    ApartIsSafe("force-push");
    ApartIsSafe("force push");
  }

  lemma HistoryRewriteTextsSafe()
    ensures AllSafe(HistoryRewriteTexts())
  {
    ApartIsSafe("rewrite history");
    ApartIsSafe("rebase");
    ApartIsSafe("amend a commit");
  }

  lemma FormsOfSafe(op: string, texts: seq<string>)
    requires AllSafe(texts)
    ensures TableSafe(FormsOf(op, texts))
  {
    forall f | f in FormsOf(op, texts) ensures f.text != "" && SafeToSkip(f.text) {
      assert f.text in texts;
    }
  }

  lemma JoinedSafe(a: seq<Form>, b: seq<Form>)
    requires TableSafe(a) && TableSafe(b)
    ensures TableSafe(a + b)
  {
  }

  lemma MakeFormsSafe()
    ensures TableSafe(MakeForms())
  {
    MakeFactorizeTextsSafe();
    MakeGateDupcodeTextsSafe();
    MakeGateTextsSafe();
    RepositoryGateTextsSafe();
    FormsOfSafe("make_factorize", MakeFactorizeTexts());
    FormsOfSafe("make_gate_dupcode", MakeGateDupcodeTexts());
    FormsOfSafe("make_gate", MakeGateTexts());
    FormsOfSafe("repository_gate", RepositoryGateTexts());
  }

  lemma GitFormsSafe()
    ensures TableSafe(GitForms())
  {
    GitCommitTextsSafe();
    GitPushTextsSafe();
    GitTagTextsSafe();
    ForcePushTextsSafe();
    HistoryRewriteTextsSafe();
    FormsOfSafe("git_commit", GitCommitTexts());
    FormsOfSafe("git_push", GitPushTexts());
    FormsOfSafe("git_tag", GitTagTexts());
    FormsOfSafe("force_push", ForcePushTexts());
    FormsOfSafe("history_rewrite", HistoryRewriteTexts());
  }

  // No listed form overlaps itself at a word start.
  lemma ProtectedFormsSafe()
    ensures TableSafe(ProtectedForms())
  {
    MakeFormsSafe();
    GitFormsSafe();
    JoinedSafe(MakeForms(), GitForms());
  }

  // For every unit: the leftmost-longest selection among all word-bounded mentions.
  method FindProtectedOccurrences(unit: string) returns (r: seq<Occurrence>)
    ensures SelectsMentions(ProtectedForms(), unit, r)
  {
    ProtectedFormsSafe();
    r := FindOccurrences(ProtectedForms(), unit);
  }

  // ---- Which occurrences of a directive sub-clause are flagged ----

  datatype Span = Span(start: nat, end: nat)

  predicate Inside(o: Occurrence, span: Span) {
    span.start <= o.start && o.End() <= span.end
  }

  // The occurrence lies within a guard phrase of the unit.
  ghost predicate Guarded(guards: seq<Phrase>, unit: string, o: Occurrence) {
    exists m :: IsMatch(guards, unit, m) && Inside(o, Span(m.start, m.End()))
  }

  // The occurrences outside every guard phrase, in order.
  ghost function Unguarded(guards: seq<Phrase>, unit: string, occs: seq<Occurrence>): seq<Occurrence> {
    if occs == [] then []
    else
      var n := |occs| - 1;
      Unguarded(guards, unit, occs[..n]) + if Guarded(guards, unit, occs[n]) then [] else [occs[n]]
  }

  function Ops(occs: seq<Occurrence>): (r: seq<string>)
    ensures |r| == |occs| && forall i :: 0 <= i < |r| ==> r[i] == occs[i].op
  {
    seq(|occs|, i requires 0 <= i < |occs| => occs[i].op)
  }

  // The spans of all guard phrases of the unit.
  ghost predicate SpansOf(guards: seq<Phrase>, unit: string, spans: seq<Span>) {
    && (forall s :: s in spans ==> exists m :: IsMatch(guards, unit, m) && s == Span(m.start, m.End()))
    && (forall m :: IsMatch(guards, unit, m) ==> Span(m.start, m.End()) in spans)
  }

  method GuardSpans(guards: seq<Phrase>, unit: string) returns (spans: seq<Span>)
    requires AllSound(guards)
    ensures SpansOf(guards, unit, spans)
  {
    var matches := FindGuardMatches(guards, unit);
    spans := [];
    for i := 0 to |matches|
      invariant forall s :: s in spans ==> exists m :: m in matches && s == Span(m.start, m.End())
      invariant forall j :: 0 <= j < i ==> Span(matches[j].start, matches[j].End()) in spans
    {
      assert matches[i] in matches;
      if matches[i].source == NoSource {
        continue;
      }
      spans := spans + [Span(matches[i].start, matches[i].End())];
    }
  }

  method CoveredByAny(o: Occurrence, spans: seq<Span>) returns (covered: bool)
    ensures covered <==> exists s :: s in spans && Inside(o, s)
  {
    for i := 0 to |spans|
      invariant forall j :: 0 <= j < i ==> !Inside(o, spans[j])
    {
      if Inside(o, spans[i]) {
        assert spans[i] in spans;
        return true;
      }
    }
    covered := false;
  }

  method DirectiveOccurrences(guards: seq<Phrase>, occs: seq<Occurrence>, unit: string) returns (left: seq<Occurrence>)
    requires AllSound(guards)
    ensures left == Unguarded(guards, unit, occs)
  {
    var spans := GuardSpans(guards, unit);
    if |spans| == 0 {
      forall o ensures !Guarded(guards, unit, o) { GuardedIffCovered(guards, unit, spans, o); }
      NothingGuarded(guards, unit, occs);
      return occs;
    }
    left := [];
    for i := 0 to |occs|
      invariant left == Unguarded(guards, unit, occs[..i])
    {
      assert occs[..i + 1][..i] == occs[..i];
      var covered := CoveredByAny(occs[i], spans);
      GuardedIffCovered(guards, unit, spans, occs[i]);
      if covered {
        continue;
      }
      left := left + [occs[i]];
    }
    assert occs[..|occs|] == occs;
  }

  lemma GuardedIffCovered(guards: seq<Phrase>, unit: string, spans: seq<Span>, o: Occurrence)
    requires SpansOf(guards, unit, spans)
    ensures Guarded(guards, unit, o) <==> exists s :: s in spans && Inside(o, s)
  {
  }

  lemma {:induction false} NothingGuarded(guards: seq<Phrase>, unit: string, occs: seq<Occurrence>)
    requires forall o :: !Guarded(guards, unit, o)
    ensures Unguarded(guards, unit, occs) == occs
  {
    if occs != [] {
      var n := |occs| - 1;
      NothingGuarded(guards, unit, occs[..n]);
      assert occs == occs[..n] + [occs[n]];
    }
  }

  function NegationPatterns(): seq<string> {
    ["do not ", "don't ", "never ", "is not ", "are not ", "isn't ", "aren't "]
  }

  ghost predicate Negated(unit: string) {
    exists i, p: nat :: 0 <= i < |NegationPatterns()| && OccursAt(unit, NegationPatterns()[i], p)
  }

  method SubClauseHasNegation(unit: string) returns (has: bool)
    ensures has <==> Negated(unit)
  {
    var patterns := NegationPatterns();
    for i := 0 to |patterns|
      invariant forall j, p: nat :: 0 <= j < i ==> !OccursAt(unit, patterns[j], p)
    {
      var found := IndexFrom(unit, patterns[i], 0);
      if found.Some? {
        assert OccursAt(unit, patterns[i], found.value);
        return true;
      }
    }
    has := false;
  }

  // A negation or a guard phrase anywhere in the sub-clause.
  ghost predicate Excused(guards: seq<Phrase>, unit: string) { Negated(unit) || Authorised(guards, unit) }

  // The scan of a sub-clause, with the listed forms and guard phrases.
  method ScanSubClause(unit: string) returns (flagged: seq<string>)
    ensures exists occs :: SelectsMentions(ProtectedForms(), unit, occs)
    ensures forall occs :: SelectsMentions(ProtectedForms(), unit, occs) ==>
              flagged == Flagged(AuthorityGuards(), unit, occs)
  {
    var found := FindProtectedOccurrences(unit);
    OnlySelection(unit, found);
    GuardsSound();
    flagged := FlagOccurrences(AuthorityGuards(), unit, found);
  }

  method FlagOccurrences(guards: seq<Phrase>, unit: string, found: seq<Occurrence>) returns (flagged: seq<string>)
    requires AllSound(guards)
    ensures flagged == Flagged(guards, unit, found)
  {
    var left := DirectiveOccurrences(guards, found, unit);
    if |left| == 0 {
      return [];
    }
    if |left| == 1 {
      var negated := SubClauseHasNegation(unit);
      if negated {
        return [];
      }
      var authorised := UnitHasAuthoritySource(guards, unit);
      if authorised {
        return [];
      }
      return [left[0].op];
    }
    flagged := [];
    for i := 0 to |left|
      invariant flagged == Ops(left)[..i]
    {
      flagged := flagged + [left[i].op];
    }
  }

  lemma OnlySelection(unit: string, found: seq<Occurrence>)
    requires SelectsMentions(ProtectedForms(), unit, found)
    ensures forall occs :: SelectsMentions(ProtectedForms(), unit, occs) ==> occs == found
  {
    ProtectedFormsSafe();
    forall occs | SelectsMentions(ProtectedForms(), unit, occs) ensures occs == found {
      MentionsSelectedOnce(ProtectedForms(), unit, occs, found);
    }
  }

  // Two or more are all reported, whatever the excuse.
  ghost function Flagged(guards: seq<Phrase>, unit: string, occs: seq<Occurrence>): seq<string> {
    var left := Unguarded(guards, unit, occs);
    if |left| == 1 && Excused(guards, unit) then [] else Ops(left)
  }

  lemma {:induction false} UnguardedMeans(guards: seq<Phrase>, unit: string, occs: seq<Occurrence>, o: Occurrence)
    ensures o in Unguarded(guards, unit, occs) <==> o in occs && !Guarded(guards, unit, o)
  {
    if occs != [] {
      var n := |occs| - 1;
      UnguardedMeans(guards, unit, occs[..n], o);
      assert occs == occs[..n] + [occs[n]];
    }
  }

  // Nothing is reported exactly if nothing is unguarded, or one occurrence is and the
  // sub-clause has a negation or a guard phrase; otherwise every unguarded occurrence is.
  lemma FlaggedIff(guards: seq<Phrase>, unit: string, occs: seq<Occurrence>)
    ensures var left, flagged := Unguarded(guards, unit, occs), Flagged(guards, unit, occs);
            && (flagged == [] <==> left == [] || (|left| == 1 && (Negated(unit) || Authorised(guards, unit))))
            && (flagged != [] ==> |flagged| == |left| && forall i :: 0 <= i < |left| ==> flagged[i] == left[i].op)
  {
  }

  // Fail closed: a word-bounded mention of a protected operation goes unreported only if
  // an accepted occurrence shuts it out, a guard phrase covers it, or it is the only one
  // that none covers and the sub-clause has a negation or a guard phrase.
  lemma UnreportedOnlyIfExcused(guards: seq<Phrase>, unit: string, occs: seq<Occurrence>, c: Occurrence)
    requires SelectsMentions(ProtectedForms(), unit, occs)
    requires Mention(ProtectedForms(), unit, c) && c.op !in Flagged(guards, unit, occs)
    ensures Blocked(occs, c) || Guarded(guards, unit, c) || (Unguarded(guards, unit, occs) == [c] && Excused(guards, unit))
  {
    if c in occs && !Guarded(guards, unit, c) {
      UnguardedMeans(guards, unit, occs, c);
      SoleUnreported(guards, unit, occs, c);
    }
  }

  lemma SoleUnreported(guards: seq<Phrase>, unit: string, occs: seq<Occurrence>, c: Occurrence)
    requires c in Unguarded(guards, unit, occs) && c.op !in Flagged(guards, unit, occs)
    ensures Unguarded(guards, unit, occs) == [c] && Excused(guards, unit)
  {
    var left := Unguarded(guards, unit, occs);
    var i :| 0 <= i < |left| && left[i] == c;
    assert Ops(left)[i] == c.op;
  }
}
