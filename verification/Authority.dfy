/**
 * Which closure candidate is authoritative: the one whose commit descends from the
 * commits of all the others, or none.
 */
module Authority {
  import opened Text
  import opened Ordering
  import opened Ancestry

  datatype Candidate = Candidate(tagName: string, actId: string, tagObject: string, closureCommit: string)

  predicate CandidateLess(a: Candidate, b: Candidate) {
    if a.closureCommit != b.closureCommit then StringLess(a.closureCommit, b.closureCommit)
    else if a.actId != b.actId then StringLess(a.actId, b.actId)
    else StringLess(a.tagName, b.tagName)
  }

  function Commits(candidates: seq<Candidate>): (r: seq<string>)
    ensures |r| == |candidates| && forall i :: 0 <= i < |r| ==> r[i] == candidates[i].closureCommit
  {
    seq(|candidates|, i requires 0 <= i < |candidates| => candidates[i].closureCommit)
  }

  // The candidates of `some` that are maximal among `all`.
  function MaximalOf(some: seq<Candidate>, all: seq<Candidate>, ancestor: (string, string) -> bool): seq<Candidate> {
    if some == [] then []
    else
      var n := |some| - 1;
      MaximalOf(some[..n], all, ancestor)
      + if Maximal(ancestor, Commits(all), some[n].closureCommit) then [some[n]] else []
  }

  lemma CandidateLessIsOrder()
    ensures StrictOrder(CandidateLess)
    ensures forall a: Candidate, b: Candidate :: a.tagName != b.tagName ==> CandidateLess(a, b) || CandidateLess(b, a)
  {
    forall a: Candidate, b: Candidate
      ensures !CandidateLess(a, a) && (a.tagName != b.tagName ==> CandidateLess(a, b) || CandidateLess(b, a))
    {
      StringLessIrreflexive(a.tagName);
      StringLessTotal(a.closureCommit, b.closureCommit);
      StringLessTotal(a.actId, b.actId);
      StringLessTotal(a.tagName, b.tagName);
    }
    forall a: Candidate, b: Candidate, c: Candidate | CandidateLess(a, b) && CandidateLess(b, c)
      ensures CandidateLess(a, c)
    {
      CandidateLessTransitive(a, b, c);
    }
  }

  lemma CandidateLessTransitive(a: Candidate, b: Candidate, c: Candidate)
    requires CandidateLess(a, b) && CandidateLess(b, c)
    ensures CandidateLess(a, c)
  {
    if a.closureCommit != b.closureCommit && b.closureCommit != c.closureCommit {
      StringLessTransitive(a.closureCommit, b.closureCommit, c.closureCommit);
      StringLessIrreflexive(a.closureCommit);
    } else if a.closureCommit == b.closureCommit == c.closureCommit {
      if a.actId != b.actId && b.actId != c.actId {
        StringLessTransitive(a.actId, b.actId, c.actId);
        StringLessIrreflexive(a.actId);
      } else if a.actId == b.actId == c.actId {
        StringLessTransitive(a.tagName, b.tagName, c.tagName);
      }
    }
  }

  lemma CommitsSameElements(a: seq<Candidate>, b: seq<Candidate>)
    requires multiset(a) == multiset(b)
    ensures forall c :: c in Commits(a) <==> c in Commits(b)
  {
    PermutationSameElements(a, b);
    forall c | c in Commits(a) ensures c in Commits(b) {
      var i :| 0 <= i < |a| && Commits(a)[i] == c;
      assert a[i] in b;
      var j :| 0 <= j < |b| && b[j] == a[i];
      assert Commits(b)[j] == c;
    }
    forall c | c in Commits(b) ensures c in Commits(a) {
      var i :| 0 <= i < |b| && Commits(b)[i] == c;
      assert b[i] in a;
      var j :| 0 <= j < |a| && a[j] == b[i];
      assert Commits(a)[j] == c;
    }
  }

  // How often a candidate is kept: as often as it was given, or not at all.
  lemma {:induction false} MaximalOfCounts(some: seq<Candidate>, all: seq<Candidate>, ancestor: (string, string) -> bool, c: Candidate)
    ensures multiset(MaximalOf(some, all, ancestor))[c] ==
              if Maximal(ancestor, Commits(all), c.closureCommit) then multiset(some)[c] else 0
  {
    if some != [] {
      var n := |some| - 1;
      var init, last := some[..n], some[n];
      MaximalOfCounts(init, all, ancestor, c);
      assert some == init + [last];
      SnocCounts(init, last, c);
      SnocCounts(MaximalOf(init, all, ancestor), last, c);
    }
  }

  lemma SnocCounts(s: seq<Candidate>, last: Candidate, c: Candidate)
    ensures multiset(s + [last])[c] == multiset(s)[c] + if c == last then 1 else 0
    ensures s + [] == s
  {
  }

  // The kept multiset depends only on the multiset given.
  lemma MaximalOfPermutation(a: seq<Candidate>, b: seq<Candidate>, ancestor: (string, string) -> bool)
    requires multiset(a) == multiset(b)
    ensures multiset(MaximalOf(a, a, ancestor)) == multiset(MaximalOf(b, b, ancestor))
  {
    CommitsSameElements(a, b);
    forall c: Candidate
      ensures multiset(MaximalOf(a, a, ancestor))[c] == multiset(MaximalOf(b, b, ancestor))[c]
    {
      MaximalOfCounts(a, a, ancestor, c);
      MaximalOfCounts(b, b, ancestor, c);
    }
  }

  // Keeping some of a sorted sequence leaves it sorted.
  lemma {:induction false} MaximalOfSorted(some: seq<Candidate>, all: seq<Candidate>, ancestor: (string, string) -> bool)
    requires Sorted(some, CandidateLess)
    ensures Sorted(MaximalOf(some, all, ancestor), CandidateLess)
    ensures forall c :: c in MaximalOf(some, all, ancestor) ==> c in some
  {
    if some != [] {
      var n := |some| - 1;
      var before := MaximalOf(some[..n], all, ancestor);
      MaximalOfSorted(some[..n], all, ancestor);
      forall i | 0 <= i < |before| ensures !CandidateLess(some[n], before[i]) {
        assert before[i] in some[..n];
        var k :| 0 <= k < n && some[k] == before[i];
      }
    }
  }

  lemma MaximalOfSnoc(all: seq<Candidate>, ancestor: (string, string) -> bool, i: nat)
    requires i < |all|
    ensures MaximalOf(all[..i + 1], all, ancestor) ==
            if Maximal(ancestor, Commits(all), all[i].closureCommit) then MaximalOf(all[..i], all, ancestor) + [all[i]]
            else MaximalOf(all[..i], all, ancestor)
  {
    assert all[..i + 1][..i] == all[..i];
  }

  // The library sort promises no more than this.
  method SortCandidates(candidates: seq<Candidate>) returns (ordered: seq<Candidate>)
    ensures Sorted(ordered, CandidateLess) && multiset(ordered) == multiset(candidates)
  {
    ordered := Sort(candidates, CandidateLess);
    CandidateLessIsOrder();
    SortSorts(candidates, CandidateLess);
    SortPermutes(candidates, CandidateLess);
  }

  lemma NotMaximal(ancestor: (string, string) -> bool, commits: seq<string>, i: nat, j: nat)
    requires i < |commits| && j < |commits| && StrictlyBelow(ancestor, commits[i], commits[j])
    ensures !Maximal(ancestor, commits, commits[i])
  {
    assert commits[j] in commits;
  }

  // Clear the mark of every candidate with a strict descendant among the others.
  method MarkMaximal(ordered: seq<Candidate>, ancestor: (string, string) -> bool) returns (keep: array<bool>)
    ensures keep.Length == |ordered|
    ensures forall k :: 0 <= k < |ordered| ==>
              keep[k] == Maximal(ancestor, Commits(ordered), ordered[k].closureCommit)
  {
    ghost var commits := Commits(ordered);
    keep := new bool[|ordered|](_ => true);
    for i := 0 to |ordered|
      invariant forall k :: 0 <= k < i ==> keep[k] == Maximal(ancestor, commits, commits[k])
      invariant forall k :: i <= k < |ordered| ==> keep[k]
    {
      ClearIfBelow(ordered, ancestor, keep, i);
    }
  }

  // The inner loop.
  method ClearIfBelow(ordered: seq<Candidate>, ancestor: (string, string) -> bool, keep: array<bool>, i: nat)
    requires i < |ordered| == keep.Length && keep[i]
    modifies keep
    ensures keep[i] == Maximal(ancestor, Commits(ordered), Commits(ordered)[i])
    ensures forall k :: 0 <= k < |ordered| && k != i ==> keep[k] == old(keep[k])
  {
    ghost var commits := Commits(ordered);
    for j := 0 to |ordered|
      invariant forall k :: 0 <= k < j ==> !StrictlyBelow(ancestor, commits[i], commits[k])
      invariant forall k :: 0 <= k < |ordered| ==> keep[k] == old(keep[k])
    {
      if i == j || ordered[i].closureCommit == ordered[j].closureCommit {
        continue;
      }
      if ancestor(ordered[i].closureCommit, ordered[j].closureCommit) {
        NotMaximal(ancestor, commits, i, j);
        keep[i] := false;
        break;
      }
    }
  }

  method CollectKept(ordered: seq<Candidate>, keep: array<bool>, ghost ancestor: (string, string) -> bool)
    returns (result: seq<Candidate>)
    requires keep.Length == |ordered|
    requires forall k :: 0 <= k < |ordered| ==>
               keep[k] == Maximal(ancestor, Commits(ordered), ordered[k].closureCommit)
    ensures result == MaximalOf(ordered, ordered, ancestor)
  {
    result := [];
    for i := 0 to |ordered|
      invariant result == MaximalOf(ordered[..i], ordered, ancestor)
    {
      MaximalOfSnoc(ordered, ancestor, i);
      if keep[i] {
        result := result + [ordered[i]];
      }
    }
    assert ordered[..|ordered|] == ordered;
  }

  method SelectMaximalCandidates(candidates: seq<Candidate>, ancestor: Option<(string, string) -> bool>)
    returns (r: Option<seq<Candidate>>)
    ensures r.None? <==> ancestor.None?
    ensures r.Some? ==>
              && Sorted(r.value, CandidateLess)
              && multiset(r.value) == multiset(MaximalOf(candidates, candidates, ancestor.value))
  {
    if ancestor.None? {
      return None;
    }
    if candidates == [] {
      return Some([]);
    }
    var ordered := SortCandidates(candidates);
    var keep := MarkMaximal(ordered, ancestor.value);
    var result := CollectKept(ordered, keep, ancestor.value);
    MaximalOfSorted(ordered, ordered, ancestor.value);
    MaximalOfPermutation(ordered, candidates, ancestor.value);
    r := Some(result);
  }

  // Tag names are distinct in a repository, so the selection does not depend on the
  // order in which refs were listed.
  lemma SelectionOrderIndependent(a: seq<Candidate>, b: seq<Candidate>, ancestor: (string, string) -> bool,
                                  ra: seq<Candidate>, rb: seq<Candidate>)
    requires multiset(a) == multiset(b)
    requires forall i, j :: 0 <= i < j < |a| ==> a[i].tagName != a[j].tagName
    requires Sorted(ra, CandidateLess) && multiset(ra) == multiset(MaximalOf(a, a, ancestor))
    requires Sorted(rb, CandidateLess) && multiset(rb) == multiset(MaximalOf(b, b, ancestor))
    ensures ra == rb
  {
    MaximalOfPermutation(a, b, ancestor);
    KeptAreStrictlySorted(a, ancestor, ra);
    KeptAreStrictlySorted(a, ancestor, rb);
    PermutationSameElements(ra, rb);
    CandidateLessIsOrder();
    StrictlySortedUnique(ra, rb, CandidateLess);
  }

  lemma KeptAreStrictlySorted(a: seq<Candidate>, ancestor: (string, string) -> bool, kept: seq<Candidate>)
    requires forall i, j :: 0 <= i < j < |a| ==> a[i].tagName != a[j].tagName
    requires Sorted(kept, CandidateLess) && multiset(kept) == multiset(MaximalOf(a, a, ancestor))
    ensures StrictlySorted(kept, CandidateLess)
  {
    CandidateLessIsOrder();
    DistinctCount(a);
    forall i, j | 0 <= i < j < |kept| ensures CandidateLess(kept[i], kept[j]) {
      MaximalOfCounts(a, a, ancestor, kept[i]);
      MaximalOfCounts(a, a, ancestor, kept[j]);
      assert kept[i] in multiset(kept) && kept[j] in multiset(kept);
      assert kept[i] in a && kept[j] in a;
      if kept[i] == kept[j] {
        TwicePresent(kept, i, j);
      }
    }
  }

  // ---- What Resolve makes of the selection ----

  datatype Resolution = Resolved(candidate: Candidate) | Ambiguous | NoTaggedCandidate

  // Exactly one of the given candidates is at this commit, and every other one is at a
  // strict ancestor of it.
  ghost predicate Dominates(candidates: seq<Candidate>, ancestor: (string, string) -> bool, k: nat)
    requires k < |candidates|
  {
    forall i :: 0 <= i < |candidates| && i != k ==>
      StrictlyBelow(ancestor, candidates[i].closureCommit, candidates[k].closureCommit)
  }

  lemma {:induction false} OneKept(some: seq<Candidate>, all: seq<Candidate>, ancestor: (string, string) -> bool)
    returns (k: nat)
    requires |MaximalOf(some, all, ancestor)| == 1
    ensures k < |some| && MaximalOf(some, all, ancestor) == [some[k]]
    ensures forall i :: 0 <= i < |some| ==> (Maximal(ancestor, Commits(all), some[i].closureCommit) <==> i == k)
  {
    var n := |some| - 1;
    if Maximal(ancestor, Commits(all), some[n].closureCommit) {
      k := n;
      NoneKept(some[..n], all, ancestor);
      assert forall i :: 0 <= i < n ==> some[i] == some[..n][i];
    } else {
      k := OneKept(some[..n], all, ancestor);
      assert forall i :: 0 <= i < n ==> some[i] == some[..n][i];
    }
  }

  lemma {:induction false} NoneKept(some: seq<Candidate>, all: seq<Candidate>, ancestor: (string, string) -> bool)
    ensures MaximalOf(some, all, ancestor) == [] <==>
              forall i :: 0 <= i < |some| ==> !Maximal(ancestor, Commits(all), some[i].closureCommit)
  {
    if some != [] {
      var n := |some| - 1;
      NoneKept(some[..n], all, ancestor);
      assert forall i :: 0 <= i < n ==> some[i] == some[..n][i];
    }
  }

  lemma {:induction false} OnlyOneMaximal(some: seq<Candidate>, all: seq<Candidate>, ancestor: (string, string) -> bool, k: nat)
    requires k < |some|
    requires forall i :: 0 <= i < |some| ==> (Maximal(ancestor, Commits(all), some[i].closureCommit) <==> i == k)
    ensures MaximalOf(some, all, ancestor) == [some[k]]
  {
    var n := |some| - 1;
    assert forall i :: 0 <= i < n ==> some[i] == some[..n][i];
    if k == n {
      NoneKept(some[..n], all, ancestor);
    } else {
      OnlyOneMaximal(some[..n], all, ancestor, k);
    }
  }

  // Under a partial order one candidate is selected alone exactly when it dominates.
  lemma AloneIffDominates(candidates: seq<Candidate>, ancestor: (string, string) -> bool, k: nat)
    requires PartialOrder(ancestor, Commits(candidates)) && k < |candidates|
    ensures Dominates(candidates, ancestor, k) <==>
              forall i :: 0 <= i < |candidates| ==>
                (Maximal(ancestor, Commits(candidates), candidates[i].closureCommit) <==> i == k)
  {
    var commits := Commits(candidates);
    assert forall i :: 0 <= i < |candidates| ==> commits[i] in commits;
    if Dominates(candidates, ancestor, k) {
      assert OverAllOthers(ancestor, commits, commits[k]);
      SoleMaximalIsGreatest(ancestor, commits, commits[k]);
    }
    if forall i :: 0 <= i < |candidates| ==> (Maximal(ancestor, commits, candidates[i].closureCommit) <==> i == k) {
      assert forall a :: a in commits ==> (Maximal(ancestor, commits, a) <==> a == commits[k]);
      SoleMaximalIsGreatest(ancestor, commits, commits[k]);
    }
  }

  lemma SomethingIsMaximal(candidates: seq<Candidate>, ancestor: (string, string) -> bool)
    requires PartialOrder(ancestor, Commits(candidates)) && candidates != []
    ensures MaximalOf(candidates, candidates, ancestor) != []
  {
    var commits := Commits(candidates);
    assert commits[0] in commits;
    var top := BelowSomeMaximal(ancestor, commits, commits[0]);
    var i :| 0 <= i < |commits| && commits[i] == top;
    NoneKept(candidates, candidates, ancestor);
    assert candidates[i].closureCommit == top;
  }

  // The part of Resolve between discovering the tagged candidates and falling back to
  // the local manifest. The ancestry callback is always given.
  method Resolve(candidates: seq<Candidate>, ancestor: (string, string) -> bool) returns (r: Resolution)
    ensures PartialOrder(ancestor, Commits(candidates)) ==> ResolvesTo(candidates, ancestor, r)
    ensures candidates == [] ==> r == NoTaggedCandidate
  {
    var selected := SelectMaximalCandidates(candidates, Some(ancestor));
    var maximal := selected.value;
    ghost var kept := MaximalOf(candidates, candidates, ancestor);
    assert |maximal| == |multiset(maximal)| == |multiset(kept)| == |kept|;
    if |maximal| > 1 {
      r := Ambiguous;
    } else if |maximal| == 1 {
      assert maximal[0] in multiset(kept);
      r := Resolved(maximal[0]);
    } else {
      r := NoTaggedCandidate;
    }
    if PartialOrder(ancestor, Commits(candidates)) {
      ResolutionIsRight(candidates, ancestor, r);
    }
  }

  // The dominating candidate if there is one; ambiguity if there are candidates and
  // none of them dominates.
  ghost predicate ResolvesTo(candidates: seq<Candidate>, ancestor: (string, string) -> bool, r: Resolution) {
    && (r == NoTaggedCandidate <==> candidates == [])
    && (forall k: nat :: k < |candidates| && Dominates(candidates, ancestor, k) ==> r == Resolved(candidates[k]))
    && (r.Resolved? ==>
          exists k: nat :: k < |candidates| && candidates[k] == r.candidate && Dominates(candidates, ancestor, k))
  }

  lemma ResolutionIsRight(candidates: seq<Candidate>, ancestor: (string, string) -> bool, r: Resolution)
    requires PartialOrder(ancestor, Commits(candidates))
    requires var kept := MaximalOf(candidates, candidates, ancestor);
             r == if |kept| > 1 then Ambiguous else if |kept| == 1 then Resolved(kept[0]) else NoTaggedCandidate
    ensures ResolvesTo(candidates, ancestor, r)
  {
    var kept := MaximalOf(candidates, candidates, ancestor);
    forall k: nat | k < |candidates| && Dominates(candidates, ancestor, k) ensures kept == [candidates[k]] {
      AloneIffDominates(candidates, ancestor, k);
      OnlyOneMaximal(candidates, candidates, ancestor, k);
    }
    if candidates != [] {
      SomethingIsMaximal(candidates, ancestor);
    }
    if |kept| == 1 {
      var k := OneKept(candidates, candidates, ancestor);
      AloneIffDominates(candidates, ancestor, k);
    }
  }
}
