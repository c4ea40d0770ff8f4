/**
 * Authority guard phrases: every phrase names an authority, and the search finds every
 * place of every phrase.
 */
module Guards {
  import opened Text

  datatype Source = NoSource | CurrentAct | ValidatedPlan

  datatype Phrase = Phrase(source: Source, text: string)

  datatype Match = Match(source: Source, text: string, start: nat) {
    function End(): nat { start + |text| }
  }

  // ---- The table ----

  // Each phrase about the act comes in two spellings.
  function ByAct(head: string, tail: string): seq<Phrase> {
    [Phrase(CurrentAct, head + ("the current act" + tail)), Phrase(CurrentAct, head + ("the act" + tail))]
  }

  function AuthorisedPhrases(): seq<Phrase> {
    ByAct("explicitly authorized by ", "")
    + ByAct("when ", " authorizes this exact command")
    + ByAct("only when ", " authorizes")
    + ByAct("unless ", " explicitly authorizes")
  }

  function DelegatedPhrases(): seq<Phrase> {
    ByAct("when delegated by ", "")
    + ByAct("only when explicitly delegated by ", "")
    + ByAct("when ", " delegates")
    + ByAct("only when ", " delegates")
    + ByAct("only if delegated by ", "")
  }

  function GitPhrases(): seq<Phrase> {
    ByAct("only when ", " delegates commit authority")
    + ByAct("only when ", " delegates push authority")
    + ByAct("only when ", " delegates tag authority")
  }

  function ByPlan(plan: string): seq<Phrase> {
    [Phrase(ValidatedPlan, "when declared by " + plan), Phrase(ValidatedPlan, "when authorized by " + plan)]
  }

  function PlanPhrases(): seq<Phrase> {
    ByPlan("the validated closure plan")
    + ByPlan("the frozen closure plan")
    + [Declares("the validated closure plan"), Declares("the frozen closure plan")]
  }

  function Declares(plan: string): Phrase { Phrase(ValidatedPlan, "when " + (plan + " declares")) }

  function AuthorityGuards(): seq<Phrase> {
    AuthorisedPhrases() + DelegatedPhrases() + GitPhrases() + PlanPhrases()
  }

  // ---- Phrases that do not overlap themselves ----

  // No proper prefix is a suffix too.
  predicate Unbordered(text: string) {
    forall d :: 0 < d < |text| ==> text[d..] != text[..|text| - d]
  }

  // The pair is not in the text, and the text does not end where it could begin.
  predicate Without(text: string, a: char, b: char) {
    && text != "" && text[|text| - 1] != a
    && forall i :: 0 <= i < |text| - 1 ==> !(text[i] == a && text[i + 1] == b)
  }

  lemma WithoutJoined(s: string, t: string, a: char, b: char)
    requires Without(s, a, b) && (t == "" || Without(t, a, b))
    ensures Without(s + t, a, b)
  {
    var joined := s + t;
    forall i | 0 <= i < |joined| - 1 ensures !(joined[i] == a && joined[i + 1] == b) {
      if i >= |s| { assert joined[i] == t[i - |s|] && joined[i + 1] == t[i + 1 - |s|]; }
    }
  }

  // The first two characters differ and come back nowhere together.
  predicate Opens(text: string) {
    && |text| >= 2 && text[0] != text[1] && text[|text| - 1] != text[0]
    && forall i :: 1 <= i < |text| - 1 ==> !(text[i] == text[0] && text[i + 1] == text[1])
  }

  lemma OpensAlone(text: string)
    requires Opens(text)
    ensures text != "" && Unbordered(text)
  {
    forall d | 0 < d < |text| ensures text[d..] != text[..|text| - d] {
      assert text[d] == text[d..][0] && text[0] == text[..|text| - d][0];
      if d + 1 < |text| {
        assert text[d + 1] == text[d..][1] && text[1] == text[..|text| - d][1];
      }
    }
  }

  // Names an authority, and is found by a search that resumes behind each match.
  ghost predicate Sound(p: Phrase) { p.source != NoSource && p.text != "" && Unbordered(p.text) }

  ghost predicate AllSound(table: seq<Phrase>) {
    forall p :: p in table ==> Sound(p)
  }

  lemma OpensJoined(head: string, tail: string)
    requires Opens(head) && Without(tail, head[0], head[1])
    ensures head + tail != "" && Unbordered(head + tail)
  {
    var text := head + tail;
    forall i | 1 <= i < |text| - 1 ensures !(text[i] == text[0] && text[i + 1] == text[1]) {
      if i >= |head| { assert text[i] == tail[i - |head|] && text[i + 1] == tail[i + 1 - |head|]; }
    }
    OpensAlone(text);
  }

  lemma ByActSound(head: string, tail: string)
    requires Opens(head) && (tail == "" || Without(tail, head[0], head[1]))
    requires Without("the current act", head[0], head[1]) && Without("the act", head[0], head[1])
    ensures AllSound(ByAct(head, tail))
  {
    WithoutJoined("the current act", tail, head[0], head[1]);
    WithoutJoined("the act", tail, head[0], head[1]);
    OpensJoined(head, "the current act" + tail);
    OpensJoined(head, "the act" + tail);
  }

  lemma JoinedSound()
    ensures forall a, b {:trigger AllSound(a + b)} :: AllSound(a) && AllSound(b) ==> AllSound(a + b)
  {
  }

  lemma AuthorisedSound()
    ensures AllSound(AuthorisedPhrases())
  {
    ExplicitlySound();
    ByActSound("when ", " authorizes this exact command");
    ByActSound("only when ", " authorizes");
    JoinedSound();
  }

  lemma ExplicitlySound()
    ensures AllSound(ByAct("explicitly authorized by ", "")) && AllSound(ByAct("unless ", " explicitly authorizes"))
  {
    ByActSound("explicitly authorized by ", "");
    ByActSound("unless ", " explicitly authorizes");
  }

  lemma DelegatedSound()
    ensures AllSound(DelegatedPhrases())
  {
    ByActSound("when delegated by ", "");
    ByActSound("only when explicitly delegated by ", "");
    ByActSound("when ", " delegates");
    ByActSound("only when ", " delegates");
    ByActSound("only if delegated by ", "");
    JoinedSound();
  }

  lemma GitSound()
    ensures AllSound(GitPhrases())
  {
    ByActSound("only when ", " delegates commit authority");
    ByActSound("only when ", " delegates push authority");
    ByActSound("only when ", " delegates tag authority");
    JoinedSound();
  }

  lemma ByPlanSound(plan: string)
    requires Without(plan, 'w', 'h')
    ensures AllSound(ByPlan(plan)) && Sound(Declares(plan))
  {
    OpensJoined("when declared by ", plan);
    OpensJoined("when authorized by ", plan);
    WithoutJoined(plan, " declares", 'w', 'h');
    OpensJoined("when ", plan + " declares");
  }

  lemma PlanSound()
    ensures AllSound(PlanPhrases())
  {
    ByPlanSound("the validated closure plan");
    ByPlanSound("the frozen closure plan");
    JoinedSound();
  }

  lemma GuardsSound()
    ensures AllSound(AuthorityGuards())
  {
    AuthorisedSound();
    DelegatedSound();
    GitSound();
    PlanSound();
    JoinedSound();
  }

  // ---- The search ----

  predicate IsMatch(table: seq<Phrase>, unit: string, m: Match) {
    Phrase(m.source, m.text) in table && OccursAt(unit, m.text, m.start)
  }

  // Two occurrences that overlap show the text overlapping itself.
  lemma OverlapIsBorder(unit: string, text: string, at: nat, i: nat)
    requires OccursAt(unit, text, at) && OccursAt(unit, text, i) && at < i < at + |text|
    ensures text[i - at..] == text[..|text| - (i - at)]
  {
    var d, n := i - at, |text|;
    forall k | 0 <= k < n - d ensures text[d..][k] == text[..n - d][k] {
      assert text[d..][k] == unit[at..at + n][d + k] == unit[i + k] == unit[i..i + n][k];
    }
  }

  method FindPhrase(unit: string, text: string) returns (starts: seq<nat>)
    requires text != "" && Unbordered(text)
    ensures forall i: nat :: i in starts <==> OccursAt(unit, text, i)
  {
    starts := [];
    var pos := 0;
    while true
      invariant pos <= |unit|
      invariant forall i: nat :: i in starts <==> i < pos && OccursAt(unit, text, i)
      decreases |unit| - pos
    {
      var found := IndexFrom(unit, text, pos);
      if found.None? {
        break;
      }
      var at := found.value;
      forall i: nat | at < i && OccursAt(unit, text, i) ensures at + |text| <= i {
        if i < at + |text| { OverlapIsBorder(unit, text, at, i); }
      }
      starts, pos := starts + [at], at + |text|;
      if pos >= |unit| {
        break;
      }
    }
  }

  // Every place of every phrase, and nothing else.
  method FindGuardMatches(table: seq<Phrase>, unit: string) returns (matches: seq<Match>)
    requires AllSound(table)
    ensures forall m :: m in matches <==> IsMatch(table, unit, m)
    ensures forall m :: m in matches ==> m.source != NoSource
  {
    matches := [];
    for t := 0 to |table|
      invariant forall m :: m in matches <==> IsMatch(table[..t], unit, m)
    {
      var found := PhraseMatches(unit, table[t]);
      assert table[..t + 1] == table[..t] + [table[t]];
      matches := matches + found;
    }
    assert table[..|table|] == table;
    MatchesAreNamed(table, unit);
  }

  method PhraseMatches(unit: string, p: Phrase) returns (found: seq<Match>)
    requires Sound(p)
    ensures forall m :: m in found <==> Phrase(m.source, m.text) == p && OccursAt(unit, m.text, m.start)
  {
    var starts := FindPhrase(unit, p.text);
    found := [];
    for h := 0 to |starts|
      invariant forall m :: m in found <==> Phrase(m.source, m.text) == p && m.start in starts[..h]
    {
      assert starts[..h + 1] == starts[..h] + [starts[h]];
      found := found + [Match(p.source, p.text, starts[h])];
    }
    assert starts[..|starts|] == starts;
  }

  lemma MatchesAreNamed(table: seq<Phrase>, unit: string)
    requires AllSound(table)
    ensures forall m :: IsMatch(table, unit, m) ==> m.source != NoSource
  {
    forall m | IsMatch(table, unit, m) ensures m.source != NoSource {
      assert Sound(Phrase(m.source, m.text));
    }
  }

  // The unit has a guard phrase.
  ghost predicate Authorised(table: seq<Phrase>, unit: string) {
    exists m :: IsMatch(table, unit, m)
  }

  method UnitHasAuthoritySource(table: seq<Phrase>, unit: string) returns (has: bool)
    requires AllSound(table)
    ensures has <==> Authorised(table, unit)
  {
    var matches := FindGuardMatches(table, unit);
    for i := 0 to |matches|
      invariant forall j :: 0 <= j < i ==> matches[j].source == NoSource
    {
      if matches[i].source != NoSource {
        assert matches[i] in matches;
        return true;
      }
    }
    has := false;
  }
}
