/**
 * Protected-operation occurrences in a prose unit: every word-bounded mention of a
 * listed form, overlaps resolved leftmost first and longest first.
 */
module Prose {
  import opened Text
  import opened Ordering

  datatype Form = Form(op: string, text: string)

  datatype Occurrence = Occurrence(op: string, text: string, start: nat) {
    function End(): nat { start + |text| }
  }

  predicate WordChar(c: char) {
    'a' <= c <= 'z' || 'A' <= c <= 'Z' || IsDigit(c) || c == '_' || c == '-'
  }

  // The form is there and is no part of a longer word on either side.
  predicate Bounded(unit: string, form: string, start: int) {
    && OccursAt(unit, form, start)
    && (start > 0 ==> !WordChar(unit[start - 1]))
    && (start + |form| < |unit| ==> !WordChar(unit[start + |form|]))
  }

  // ---- The search for one form ----

  // What the search reports from `pos` on: it resumes behind every textual match,
  // bounded or not.
  function Hits(unit: string, form: string, pos: nat): seq<nat>
    requires pos <= |unit| && form != ""
    decreases |unit| - pos
  {
    var found := IndexFrom(unit, form, pos);
    if found.None? then []
    else (if Bounded(unit, form, found.value) then [found.value] else []) + Hits(unit, form, found.value + |form|)
  }

  // The hits so far and those from `pos` on are all of them.
  ghost predicate Searching(unit: string, form: string, pos: nat, hits: seq<nat>) {
    form != "" && pos <= |unit| && hits + Hits(unit, form, pos) == Hits(unit, form, 0)
  }

  lemma HitsUnfold(unit: string, form: string, pos: nat, at: nat)
    requires form != "" && pos <= |unit| && IndexFrom(unit, form, pos) == Some(at)
    ensures Bounded(unit, form, at) ==> Hits(unit, form, pos) == [at] + Hits(unit, form, at + |form|)
    ensures !Bounded(unit, form, at) ==> Hits(unit, form, pos) == Hits(unit, form, at + |form|)
  {
  }

  lemma Regroup(a: seq<nat>, b: seq<nat>, c: seq<nat>)
    ensures a + (b + c) == a + b + c
  {
  }

  function WithHit(unit: string, form: string, at: nat, hits: seq<nat>): seq<nat> {
    if Bounded(unit, form, at) then hits + [at] else hits
  }

  lemma SearchStep(unit: string, form: string, pos: nat, hits: seq<nat>, at: nat)
    requires Searching(unit, form, pos, hits) && IndexFrom(unit, form, pos) == Some(at)
    ensures Searching(unit, form, at + |form|, WithHit(unit, form, at, hits))
    ensures pos < at + |form| <= |unit|
  {
    HitsUnfold(unit, form, pos, at);
    if Bounded(unit, form, at) {
      Regroup(hits, [at], Hits(unit, form, at + |form|));
    }
  }

  // Nothing is left to be found.
  predicate Ended(unit: string, form: string, pos: nat) {
    pos == |unit| || (pos < |unit| && IndexFrom(unit, form, pos).None?)
  }

  lemma SearchEnd(unit: string, form: string, pos: nat, hits: seq<nat>)
    requires Searching(unit, form, pos, hits) && Ended(unit, form, pos)
    ensures hits == Hits(unit, form, 0)
  {
    assert IndexFrom(unit, form, |unit|).None?;
    assert Hits(unit, form, pos) == [];
  }

  lemma SearchStart(unit: string, form: string)
    requires form != ""
    ensures Searching(unit, form, 0, [])
  {
  }

  method SearchForm(unit: string, form: string) returns (hits: seq<nat>)
    requires form != ""
    ensures hits == Hits(unit, form, 0)
  {
    hits := [];
    var pos, done := 0, false;
    SearchStart(unit, form);
    while !done
      invariant Searching(unit, form, pos, hits)
      invariant done ==> Ended(unit, form, pos)
      decreases !done, |unit| - pos
    {
      done, pos, hits := SearchOnce(unit, form, pos, hits);
    }
    SearchEnd(unit, form, pos, hits);
  }

  // One iteration of the search, its early exits included.
  method SearchOnce(unit: string, form: string, pos: nat, hits: seq<nat>) returns (done: bool, pos': nat, hits': seq<nat>)
    requires Searching(unit, form, pos, hits)
    ensures Searching(unit, form, pos', hits')
    ensures if done then Ended(unit, form, pos') else pos < pos' <= |unit|
  {
    var found := IndexFrom(unit, form, pos);
    if found.None? {
      return true, pos, hits;
    }
    var at := found.value;
    SearchStep(unit, form, pos, hits, at);
    pos', hits' := at + |form|, WithHit(unit, form, at, hits);
    done := pos' >= |unit|;
  }

  lemma {:induction false} HitsAreBounded(unit: string, form: string, pos: nat)
    requires pos <= |unit| && form != ""
    ensures forall i :: i in Hits(unit, form, pos) ==> Bounded(unit, form, i)
    decreases |unit| - pos
  {
    var found := IndexFrom(unit, form, pos);
    if found.Some? {
      HitsAreBounded(unit, form, found.value + |form|);
    }
  }

  // A later word of the form begins a copy of the form that runs over its end.
  predicate OverlapsItself(form: string, d: nat) {
    0 < d < |form| && !WordChar(form[d - 1]) && form[d..] == form[..|form| - d]
  }

  predicate SafeToSkip(form: string) {
    forall d: nat :: d < |form| ==> !OverlapsItself(form, d)
  }

  // A bounded match that starts inside another match shows the form overlapping itself.
  lemma MatchInsideMatch(unit: string, form: string, at: nat, i: nat)
    requires OccursAt(unit, form, at) && Bounded(unit, form, i) && at < i < at + |form|
    ensures OverlapsItself(form, i - at)
  {
    var d := i - at;
    var n := |form|;
    assert form[d - 1] == unit[at..at + n][d - 1] == unit[i - 1];
    forall k | 0 <= k < n - d ensures form[d..][k] == form[..n - d][k] {
      assert form[d..][k] == unit[at..at + n][d + k] == unit[i + k] == unit[i..i + n][k];
    }
  }

  lemma {:induction false} HitsComplete(unit: string, form: string, pos: nat, i: nat)
    requires pos <= |unit| && form != "" && SafeToSkip(form)
    requires pos <= i && Bounded(unit, form, i)
    ensures i in Hits(unit, form, pos)
    decreases |unit| - pos
  {
    var at := MatchBefore(unit, form, pos, i);
    if at == i {
      HitFirst(unit, form, pos, at);
    } else {
      HitsComplete(unit, form, at + |form|, i);
      HitLater(unit, form, pos, at, i);
    }
  }

  lemma HitFirst(unit: string, form: string, pos: nat, at: nat)
    requires form != "" && pos <= |unit| && IndexFrom(unit, form, pos) == Some(at) && Bounded(unit, form, at)
    ensures at in Hits(unit, form, pos)
  {
    HitsUnfold(unit, form, pos, at);
    assert Hits(unit, form, pos)[0] == at;
  }

  lemma HitLater(unit: string, form: string, pos: nat, at: nat, i: nat)
    requires form != "" && pos <= |unit| && IndexFrom(unit, form, pos) == Some(at)
    requires i in Hits(unit, form, at + |form|)
    ensures i in Hits(unit, form, pos)
  {
    HitsUnfold(unit, form, pos, at);
  }

  // The next match is the occurrence at i, or ends before it.
  lemma MatchBefore(unit: string, form: string, pos: nat, i: nat) returns (at: nat)
    requires pos <= |unit| && form != "" && SafeToSkip(form) && pos <= i && Bounded(unit, form, i)
    ensures IndexFrom(unit, form, pos) == Some(at) && pos <= at && (at == i || at + |form| <= i)
  {
    assert OccursAt(unit, form, i);
    at := IndexFrom(unit, form, pos).value;
    if at < i < at + |form| {
      MatchInsideMatch(unit, form, at, i);
    }
  }

  // For a form that overlaps itself, a unit with one bounded occurrence and no hit: a
  // word character spoils the first match and the search then skips the second.
  function Spoiler(form: string): char
    requires form != ""
  {
    if form[0] == 'a' then 'b' else 'a'
  }

  function Unfound(form: string, d: nat): string
    requires OverlapsItself(form, d)
  {
    [Spoiler(form)] + form[..d] + form
  }

  lemma UnfoundMatches(form: string, d: nat)
    requires OverlapsItself(form, d)
    ensures var unit := Unfound(form, d);
            OccursAt(unit, form, 1) && !OccursAt(unit, form, 0) && !Bounded(unit, form, 1) && Bounded(unit, form, 1 + d)
  {
    var unit, n := Unfound(form, d), |form|;
    assert unit[1 + d..1 + d + n] == form;
    assert unit[d] == form[d - 1];
    forall k | 0 <= k < n ensures unit[1..1 + n][k] == form[k] {
      if k >= d {
        assert unit[1 + k] == form[k - d] == form[..n - d][k - d] == form[d..][k - d];
      }
    }
    assert unit[1..1 + n] == form;
    assert unit[0..n][0] == unit[0] != form[0];
  }

  lemma UnfoundHasNoHits(form: string, d: nat)
    requires OverlapsItself(form, d)
    ensures Hits(Unfound(form, d), form, 0) == []
  {
    var unit := Unfound(form, d);
    UnfoundMatches(form, d);
    var found := IndexFrom(unit, form, 0);
    assert found == Some(1);
    assert IndexFrom(unit, form, 1 + |form|).None?;
  }

  // Skipping by the form length loses nothing, in any unit, exactly when the form does
  // not overlap itself at a word start.
  lemma SearchCompleteIff(form: string)
    requires form != ""
    ensures SafeToSkip(form) <==>
              forall unit, i: nat :: Bounded(unit, form, i) ==> i in Hits(unit, form, 0)
  {
    if SafeToSkip(form) {
      forall unit: string, i: nat | Bounded(unit, form, i) ensures i in Hits(unit, form, 0) {
        HitsComplete(unit, form, 0, i);
      }
    } else {
      var d: nat :| d < |form| && OverlapsItself(form, d);
      UnfoundMatches(form, d);
      UnfoundHasNoHits(form, d);
      assert Bounded(Unfound(form, d), form, 1 + d);
    }
  }

  // ---- Resolving overlaps ----

  predicate Overlap(a: Occurrence, b: Occurrence) {
    a.start < b.End() && b.start < a.End()
  }

  // Leftmost first, then longest, then by operation.
  predicate Before(a: Occurrence, b: Occurrence) {
    if a.start != b.start then a.start < b.start
    else if |a.text| != |b.text| then |a.text| > |b.text|
    else StringLess(a.op, b.op)
  }

  predicate StartsBefore(a: Occurrence, b: Occurrence) {
    if a.start != b.start then a.start < b.start else StringLess(a.op, b.op)
  }

  lemma BeforeIsOrder()
    ensures StrictOrder(Before) && StrictOrder(StartsBefore)
  {
    StringLessIsStrictTotal();
  }

  lemma BeforeTotal(unit: string, a: Occurrence, b: Occurrence)
    requires OccursAt(unit, a.text, a.start) && OccursAt(unit, b.text, b.start)
    ensures a == b || Before(a, b) || Before(b, a)
  {
    StringLessTotal(a.op, b.op);
  }

  ghost predicate Disjoint(r: seq<Occurrence>) {
    forall i, j :: 0 <= i < j < |r| ==> r[i].End() <= r[j].start
  }

  // `c` is shut out by an earlier or longer occurrence of `r`.
  ghost predicate Blocked(r: seq<Occurrence>, c: Occurrence) {
    exists o :: o in r && Overlap(o, c) && Before(o, c)
  }

  // The leftmost-longest selection from a set of occurrences: in order of position,
  // disjoint, and leaving out only what an earlier or longer member shuts out.
  ghost predicate Selects(among: Occurrence -> bool, r: seq<Occurrence>) {
    && (forall o :: o in r ==> among(o) && o.text != "")
    && Disjoint(r)
    && (forall c :: among(c) ==> c in r || Blocked(r, c))
  }

  lemma NoOverlapInside(r: seq<Occurrence>, a: Occurrence, b: Occurrence)
    requires Disjoint(r) && a in r && b in r && Overlap(a, b)
    ensures a == b
  {
  }

  lemma {:induction false} SelectionContained(among: Occurrence -> bool, a: seq<Occurrence>, b: seq<Occurrence>, i: nat)
    requires Selects(among, a) && Selects(among, b) && i < |a|
    ensures a[i] in b
  {
    if a[i] !in b {
      assert a[i] in a;
      assert Blocked(b, a[i]);
      var o :| o in b && Overlap(o, a[i]) && Before(o, a[i]);
      BeforeIsOrder();
      if o in a {
        NoOverlapInside(a, o, a[i]);
      } else {
        assert Blocked(a, o);
        var p :| p in a && Overlap(p, o) && Before(p, o);
        var k :| 0 <= k < |a| && a[k] == p;
        assert Before(p, a[i]);
        SelectionContained(among, a, b, k);
        NoOverlapInside(b, p, o);
      }
    }
  }

  // There is only one such selection.
  lemma SelectionUnique(among: Occurrence -> bool, a: seq<Occurrence>, b: seq<Occurrence>)
    requires Selects(among, a) && Selects(among, b)
    ensures a == b
  {
    BeforeIsOrder();
    forall o ensures o in a <==> o in b {
      if o in a { var i :| 0 <= i < |a| && a[i] == o; SelectionContained(among, a, b, i); }
      if o in b { var i :| 0 <= i < |b| && b[i] == o; SelectionContained(among, b, a, i); }
    }
    assert forall i :: 0 <= i < |a| ==> a[i] in a && a[i].text != "";
    assert forall i :: 0 <= i < |b| ==> b[i] in b && b[i].text != "";
    StrictlySortedUnique(a, b, StartsBefore);
  }

  // The library sort promises no more than this.
  method SortBy(s: seq<Occurrence>, less: (Occurrence, Occurrence) -> bool) returns (r: seq<Occurrence>)
    requires StrictOrder(less)
    ensures Sorted(r, less) && multiset(r) == multiset(s)
  {
    r := Sort(s, less);
    SortSorts(s, less);
    SortPermutes(s, less);
  }

  // The first n candidates have been dealt with.
  ghost predicate Settled(candidates: seq<Occurrence>, accepted: seq<Occurrence>, n: nat)
    requires n <= |candidates|
  {
    && Disjoint(accepted)
    && (forall o :: o in accepted ==> o in candidates[..n])
    && (forall c :: c in candidates[..n] ==> c in accepted || Blocked(accepted, c))
  }

  lemma SettleBlocked(unit: string, candidates: seq<Occurrence>, accepted: seq<Occurrence>, n: nat, o: Occurrence)
    requires n < |candidates| && Settled(candidates, accepted, n) && Sorted(candidates, Before)
    requires forall c :: c in candidates ==> c.text != "" && OccursAt(unit, c.text, c.start)
    requires o in accepted && Overlap(o, candidates[n])
    ensures Settled(candidates, accepted, n + 1)
  {
    var c := candidates[n];
    assert c in candidates && o in candidates[..n];
    assert candidates[..n + 1] == candidates[..n] + [c];
    BeforeTotal(unit, o, c);
  }

  lemma AcceptKeeps(candidates: seq<Occurrence>, accepted: seq<Occurrence>, n: nat)
    requires n < |candidates| && Settled(candidates, accepted, n) && Sorted(candidates, Before)
    requires forall c :: c in candidates ==> c.text != ""
    requires forall o :: o in accepted ==> !Overlap(o, candidates[n])
    ensures Settled(candidates, accepted + [candidates[n]], n + 1)
  {
    var c := candidates[n];
    var longer := accepted + [c];
    assert c in candidates;
    assert candidates[..n + 1] == candidates[..n] + [c];
    forall j | 0 <= j < |accepted| ensures accepted[j].End() <= c.start {
      assert accepted[j] in accepted && accepted[j] in candidates[..n];
    }
    forall d | d in candidates[..n] ensures d in longer || Blocked(longer, d) {
      if Blocked(accepted, d) {
        var o :| o in accepted && Overlap(o, d) && Before(o, d);
        assert o in longer;
      }
    }
  }

  method Resolve(unit: string, candidates: seq<Occurrence>) returns (accepted: seq<Occurrence>)
    requires Sorted(candidates, Before)
    requires forall c :: c in candidates ==> c.text != "" && OccursAt(unit, c.text, c.start)
    ensures Selects(c => c in candidates, accepted)
  {
    accepted := [];
    for i := 0 to |candidates|
      invariant Settled(candidates, accepted, i)
    {
      var c := candidates[i];
      var overlaps := Overlapping(accepted, c);
      if overlaps {
        var o :| o in accepted && Overlap(o, c);
        SettleBlocked(unit, candidates, accepted, i, o);
        continue;
      }
      AcceptKeeps(candidates, accepted, i);
      accepted := accepted + [c];
    }
  }

  method Overlapping(accepted: seq<Occurrence>, c: Occurrence) returns (found: bool)
    ensures found <==> exists o :: o in accepted && Overlap(o, c)
  {
    for j := 0 to |accepted|
      invariant forall k :: 0 <= k < j ==> !Overlap(accepted[k], c)
    {
      var o := accepted[j];
      if !(c.End() <= o.start || c.start >= o.End()) {
        assert o in accepted && Overlap(o, c);
        return true;
      }
    }
    found := false;
  }

  // ---- The whole scan ----

  // A word-bounded mention of a listed form.
  predicate Mention(table: seq<Form>, unit: string, o: Occurrence) {
    Form(o.op, o.text) in table && Bounded(unit, o.text, o.start)
  }

  ghost predicate Hit(table: seq<Form>, unit: string, o: Occurrence) {
    Form(o.op, o.text) in table && o.text != "" && o.start in Hits(unit, o.text, 0)
  }

  ghost predicate TableSafe(table: seq<Form>) {
    forall f :: f in table ==> f.text != "" && SafeToSkip(f.text)
  }

  method CollectCandidates(table: seq<Form>, unit: string) returns (candidates: seq<Occurrence>)
    requires forall f :: f in table ==> f.text != ""
    ensures forall o :: o in candidates <==> Hit(table, unit, o)
  {
    candidates := [];
    for t := 0 to |table|
      invariant forall o :: o in candidates <==> Hit(table[..t], unit, o)
    {
      var form := table[t];
      assert form in table;
      var found := FormHits(form, unit);
      HitSnoc(table, t, unit);
      candidates := candidates + found;
    }
    assert table[..|table|] == table;
  }

  // The hits of one form, as occurrences.
  method FormHits(form: Form, unit: string) returns (found: seq<Occurrence>)
    requires form.text != ""
    ensures forall o :: o in found <==> Form(o.op, o.text) == form && o.start in Hits(unit, form.text, 0)
  {
    var hits := SearchForm(unit, form.text);
    found := AsOccurrences(form, hits);
  }

  method AsOccurrences(form: Form, hits: seq<nat>) returns (found: seq<Occurrence>)
    ensures forall o :: o in found <==> Form(o.op, o.text) == form && o.start in hits
  {
    found := [];
    for h := 0 to |hits|
      invariant forall o :: o in found <==> Form(o.op, o.text) == form && o.start in hits[..h]
    {
      assert hits[..h + 1] == hits[..h] + [hits[h]];
      found := found + [Occurrence(form.op, form.text, hits[h])];
    }
    assert hits[..|hits|] == hits;
  }

  lemma HitSnoc(table: seq<Form>, t: nat, unit: string)
    requires t < |table| && forall f :: f in table ==> f.text != ""
    ensures forall o :: Hit(table[..t + 1], unit, o) <==>
              Hit(table[..t], unit, o) || (Form(o.op, o.text) == table[t] && o.start in Hits(unit, table[t].text, 0))
  {
    assert table[t] in table;
    assert table[..t + 1] == table[..t] + [table[t]];
  }

  lemma HitsAreMentions(table: seq<Form>, unit: string)
    ensures forall o :: Hit(table, unit, o) ==> Mention(table, unit, o)
    ensures TableSafe(table) ==> forall o :: Mention(table, unit, o) ==> Hit(table, unit, o)
  {
    forall o | Hit(table, unit, o) ensures Mention(table, unit, o) {
      HitsAreBounded(unit, o.text, 0);
    }
    if TableSafe(table) {
      forall o | Mention(table, unit, o) ensures Hit(table, unit, o) {
        HitsComplete(unit, o.text, 0, o.start);
      }
    }
  }

  method FindOccurrences(table: seq<Form>, unit: string) returns (r: seq<Occurrence>)
    requires forall f :: f in table ==> f.text != ""
    ensures forall o :: o in r ==> Mention(table, unit, o)
    ensures TableSafe(table) ==> SelectsMentions(table, unit, r)
  {
    BeforeIsOrder();
    HitsAreMentions(table, unit);
    var found := CollectCandidates(table, unit);
    var candidates := SortBy(found, Before);
    PermutationSameElements(candidates, found);
    var accepted := Resolve(unit, candidates);
    r := SortBy(accepted, StartsBefore);
    AlreadySorted(c => c in candidates, accepted, r);
  }

  ghost predicate SelectsMentions(table: seq<Form>, unit: string, r: seq<Occurrence>) {
    && (forall o :: o in r ==> Mention(table, unit, o))
    && Disjoint(r)
    && (forall c :: Mention(table, unit, c) ==> c in r || Blocked(r, c))
  }

  lemma AlreadySorted(among: Occurrence -> bool, accepted: seq<Occurrence>, r: seq<Occurrence>)
    requires Selects(among, accepted)
    requires Sorted(r, StartsBefore) && multiset(r) == multiset(accepted)
    ensures r == accepted
  {
    BeforeIsOrder();
    PermutationSameElements(r, accepted);
    StrictOnceSorted(among, accepted, r);
    StrictlySortedUnique(accepted, r, StartsBefore);
  }

  lemma StrictOnceSorted(among: Occurrence -> bool, accepted: seq<Occurrence>, r: seq<Occurrence>)
    requires Selects(among, accepted)
    requires Sorted(r, StartsBefore) && multiset(r) == multiset(accepted)
    ensures StrictlySorted(accepted, StartsBefore) && StrictlySorted(r, StartsBefore)
  {
    PermutationSameElements(r, accepted);
    assert forall i :: 0 <= i < |accepted| ==> accepted[i] in accepted && accepted[i].text != "";
    assert forall i, j :: 0 <= i < j < |accepted| ==> accepted[i] != accepted[j];
    PermutationKeepsDistinct(accepted, r);
    forall i, j | 0 <= i < j < |r| ensures StartsBefore(r[i], r[j]) {
      assert r[i] in accepted && r[j] in accepted;
    }
  }

  // For every mention there is an accepted occurrence in its place: one that starts to
  // the left of it, or in the same place and is no shorter.
  lemma LeftmostLongest(table: seq<Form>, unit: string, r: seq<Occurrence>, c: Occurrence)
    requires forall f :: f in table ==> f.text != ""
    requires SelectsMentions(table, unit, r) && Mention(table, unit, c)
    ensures exists o :: o in r && o.start < c.End() && c.start < o.End()
                        && (o.start < c.start || (o.start == c.start && |o.text| >= |c.text|))
  {
    assert Form(c.op, c.text) in table;
    if c in r {
      assert c.start < c.End();
    } else {
      var o :| o in r && Overlap(o, c) && Before(o, c);
    }
  }

  lemma MentionsSelectedOnce(table: seq<Form>, unit: string, a: seq<Occurrence>, b: seq<Occurrence>)
    requires forall f :: f in table ==> f.text != ""
    requires SelectsMentions(table, unit, a) && SelectsMentions(table, unit, b)
    ensures a == b
  {
    SelectionUnique((o: Occurrence) => Mention(table, unit, o), a, b);
  }
}
