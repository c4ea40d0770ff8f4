/**
 * Finding the closure commit: the commit whose tree binds the canonical paths to the
 * expected blobs and that is an ancestor of every other such commit.
 */
module ClosureCommit {
  import opened Text
  import opened Ordering
  import opened Ancestry

  datatype Selector = Selector(paths: seq<string>, blobs: seq<string>, subject: string)

  // What git answers; None is a failed command. Answers have no surrounding space.
  datatype Repository = Repository(
    recent: Option<seq<string>>,
    history: Option<seq<string>>,
    tree: string -> Option<string>,
    blob: (string, string) -> Option<string>,
    isAncestor: (string, string) -> bool)

  datatype Match = Match(commit: string, tree: string, blobs: map<string, string>)

  datatype Outcome =
    | Found(match_: Match)
    | Malformed
    | NoListing
    | NoMatch
    | Incomparable
    | SubjectNotAncestor

  predicate WellFormed(sel: Selector) {
    sel.paths != [] && |sel.paths| == |sel.blobs|
  }

  function Lower(c: char): char {
    if 'A' <= c <= 'Z' then c - 'A' + 'a' else c
  }

  predicate EqualFold(a: string, b: string) {
    |a| == |b| && forall i :: 0 <= i < |a| ==> Lower(a[i]) == Lower(b[i])
  }

  // The commits searched: the recent ones, or all of them when there are none.
  function Listing(repo: Repository): Option<seq<string>> {
    if repo.recent.Some? && exists i :: 0 <= i < |repo.recent.value| && repo.recent.value[i] != ""
    then repo.recent
    else repo.history
  }

  method IndexOf(list: seq<string>, value: string) returns (index: int)
    ensures index == -1 <==> value !in list
    ensures index != -1 ==> 0 <= index < |list| && list[index] == value && value !in list[..index]
  {
    for i := 0 to |list|
      invariant value !in list[..i]
    {
      if list[i] == value {
        return i;
      }
    }
    index := -1;
  }

  // The blob that goes with the first occurrence of a path.
  ghost predicate FirstBlob(sel: Selector, path: string, blob: string) {
    exists i :: 0 <= i < |sel.paths| && i < |sel.blobs| && sel.paths[i] == path && path !in sel.paths[..i] && sel.blobs[i] == blob
  }

  lemma FirstBlobUnique(sel: Selector, path: string, a: string, b: string)
    requires FirstBlob(sel, path, a) && FirstBlob(sel, path, b)
    ensures a == b
  {
    var i :| 0 <= i < |sel.paths| && i < |sel.blobs| && sel.paths[i] == path && path !in sel.paths[..i] && sel.blobs[i] == a;
    var j :| 0 <= j < |sel.paths| && j < |sel.blobs| && sel.paths[j] == path && path !in sel.paths[..j] && sel.blobs[j] == b;
    assert forall k :: 0 <= k < j ==> sel.paths[k] in sel.paths[..j];
    assert forall k :: 0 <= k < i ==> sel.paths[k] in sel.paths[..i];
  }

  // The commit resolves, and every path in it is the blob the selector pairs with it.
  ghost predicate Satisfies(sel: Selector, repo: Repository, commit: string) {
    && repo.tree(commit).Some?
    && forall p, b :: FirstBlob(sel, p, b) ==> HasBlob(repo, commit, p, b)
  }

  predicate HasBlob(repo: Repository, commit: string, path: string, expected: string) {
    var actual := repo.blob(commit, path);
    actual.Some? && EqualFold(actual.value, expected)
  }

  // The listed commits that satisfy the selector, in order.
  ghost function Matches(sel: Selector, repo: Repository, list: seq<string>): seq<string> {
    if list == [] then []
    else
      var n := |list| - 1;
      Matches(sel, repo, list[..n]) + if list[n] != "" && Satisfies(sel, repo, list[n]) then [list[n]] else []
  }

  predicate Dominated(commits: seq<string>, isAncestor: (string, string) -> bool, i: nat)
    requires i < |commits|
  {
    exists j :: 0 <= j < |commits| && j != i && isAncestor(commits[j], commits[i])
  }

  // Those of the first n commits that no other commit of the list precedes.
  function Survivors(commits: seq<string>, isAncestor: (string, string) -> bool, n: nat): seq<string>
    requires n <= |commits|
  {
    if n == 0 then []
    else Survivors(commits, isAncestor, n - 1) + if Dominated(commits, isAncestor, n - 1) then [] else [commits[n - 1]]
  }

  // The commit chosen among the matches, or None when several are incomparable.
  function Chosen(commits: seq<string>, isAncestor: (string, string) -> bool): Option<string>
    requires commits != []
  {
    if |commits| == 1 then Some(commits[0])
    else
      var left := Survivors(commits, isAncestor, |commits|);
      if |left| > 1 then None
      else if |left| == 1 then Some(left[0])
      else Some(commits[0])
  }

  // ---- The search ----

  method SortPaths(paths: seq<string>) returns (sorted: seq<string>)
    ensures multiset(sorted) == multiset(paths) && Sorted(sorted, StringLess)
    ensures forall p :: p in sorted <==> p in paths
  {
    sorted := Sort(paths, StringLess);
    StringLessIsStrictTotal();
    SortSorts(paths, StringLess);
    SortPermutes(paths, StringLess);
    PermutationSameElements(sorted, paths);
  }

  method PairBlobs(sel: Selector) returns (paths: seq<string>, blobs: seq<string>)
    requires WellFormed(sel)
    ensures multiset(paths) == multiset(sel.paths) && Sorted(paths, StringLess)
    ensures |blobs| == |paths| && forall i :: 0 <= i < |paths| ==> FirstBlob(sel, paths[i], blobs[i])
  {
    paths := SortPaths(sel.paths);
    blobs := [];
    for i := 0 to |paths|
      invariant |blobs| == i && forall k :: 0 <= k < i ==> FirstBlob(sel, paths[k], blobs[k])
    {
      assert paths[i] in sel.paths;
      var original := IndexOf(sel.paths, paths[i]);
      blobs := blobs + [sel.blobs[original]];
    }
  }

  // The blobs a commit has at these paths.
  function BlobsAt(repo: Repository, commit: string, paths: seq<string>): map<string, string> {
    map p | p in paths && repo.blob(commit, p).Some? :: repo.blob(commit, p).value
  }

  lemma BlobsSnoc(repo: Repository, commit: string, paths: seq<string>, i: nat)
    requires i < |paths| && repo.blob(commit, paths[i]).Some?
    ensures BlobsAt(repo, commit, paths[..i + 1]) ==
            BlobsAt(repo, commit, paths[..i])[paths[i] := repo.blob(commit, paths[i]).value]
  {
    assert paths[..i + 1] == paths[..i] + [paths[i]];
  }

  ghost predicate Paired(sel: Selector, paths: seq<string>, blobs: seq<string>) {
    && WellFormed(sel) && multiset(paths) == multiset(sel.paths)
    && |blobs| == |paths| && forall i :: 0 <= i < |paths| ==> FirstBlob(sel, paths[i], blobs[i])
  }

  lemma PairsSatisfy(sel: Selector, paths: seq<string>, blobs: seq<string>, repo: Repository, commit: string)
    requires Paired(sel, paths, blobs) && repo.tree(commit).Some?
    requires forall k :: 0 <= k < |paths| ==> HasBlob(repo, commit, paths[k], blobs[k])
    ensures Satisfies(sel, repo, commit) && BlobsAt(repo, commit, paths) == BlobsAt(repo, commit, sel.paths)
  {
    PermutationSameElements(paths, sel.paths);
    forall p, b | FirstBlob(sel, p, b) ensures HasBlob(repo, commit, p, b) {
      assert p in sel.paths && p in paths;
      var k :| 0 <= k < |paths| && paths[k] == p;
      FirstBlobUnique(sel, p, b, blobs[k]);
    }
  }

  method CheckCommit(ghost sel: Selector, paths: seq<string>, blobs: seq<string>, repo: Repository, commit: string)
    returns (r: Option<Match>)
    requires Paired(sel, paths, blobs)
    ensures r.Some? <==> Satisfies(sel, repo, commit)
    ensures r.Some? ==> r.value == MatchOf(sel, repo, commit)
  {
    var tree := repo.tree(commit);
    if tree.None? {
      return None;
    }
    var found: map<string, string> := map[];
    for i := 0 to |paths|
      invariant forall k :: 0 <= k < i ==> HasBlob(repo, commit, paths[k], blobs[k])
      invariant found == BlobsAt(repo, commit, paths[..i])
    {
      var actual := repo.blob(commit, paths[i]);
      if actual.None? || !EqualFold(actual.value, blobs[i]) {
        assert FirstBlob(sel, paths[i], blobs[i]) && !HasBlob(repo, commit, paths[i], blobs[i]);
        return None;
      }
      BlobsSnoc(repo, commit, paths, i);
      found := found[paths[i] := actual.value];
    }
    assert paths[..|paths|] == paths;
    PairsSatisfy(sel, paths, blobs, repo, commit);
    r := Some(Match(commit, tree.value, found));
  }

  ghost function MatchOf(sel: Selector, repo: Repository, commit: string): Match
    requires repo.tree(commit).Some?
  {
    Match(commit, repo.tree(commit).value, BlobsAt(repo, commit, sel.paths))
  }

  ghost predicate AreMatches(sel: Selector, repo: Repository, matches: seq<Match>, commits: seq<string>) {
    |matches| == |commits| && forall k :: 0 <= k < |matches| ==>
      matches[k].commit == commits[k] && repo.tree(commits[k]).Some? && matches[k] == MatchOf(sel, repo, commits[k])
  }

  method CollectMatches(sel: Selector, repo: Repository, list: seq<string>) returns (matches: seq<Match>)
    requires WellFormed(sel)
    ensures AreMatches(sel, repo, matches, Matches(sel, repo, list))
  {
    var paths, blobs := PairBlobs(sel);
    matches := [];
    for i := 0 to |list|
      invariant AreMatches(sel, repo, matches, Matches(sel, repo, list[..i]))
    {
      assert list[..i + 1][..i] == list[..i];
      if list[i] == "" {
        continue;
      }
      var one := CheckCommit(sel, paths, blobs, repo, list[i]);
      if one.None? {
        continue;
      }
      matches := matches + [one.value];
    }
    assert list[..|list|] == list;
  }

  function CommitsOf(matches: seq<Match>): (r: seq<string>)
    ensures |r| == |matches| && forall i :: 0 <= i < |r| ==> r[i] == matches[i].commit
  {
    seq(|matches|, i requires 0 <= i < |matches| => matches[i].commit)
  }

  // Clear the mark of every match that another match precedes.
  method MarkSurvivors(matches: seq<Match>, isAncestor: (string, string) -> bool) returns (keep: array<bool>)
    ensures keep.Length == |matches|
    ensures forall k :: 0 <= k < |matches| ==> keep[k] == !Dominated(CommitsOf(matches), isAncestor, k)
  {
    ghost var commits := CommitsOf(matches);
    keep := new bool[|matches|](_ => true);
    for i := 0 to |matches|
      invariant forall k :: 0 <= k < i ==> keep[k] == !Dominated(commits, isAncestor, k)
      invariant forall k :: i <= k < |matches| ==> keep[k]
    {
      for j := 0 to |matches|
        invariant forall k :: 0 <= k < j && k != i ==> !isAncestor(commits[k], commits[i])
        invariant forall k :: 0 <= k < i ==> keep[k] == !Dominated(commits, isAncestor, k)
        invariant forall k :: i <= k < |matches| ==> keep[k]
      {
        if i == j || !keep[i] {
          continue;
        }
        if isAncestor(matches[j].commit, matches[i].commit) {
          assert isAncestor(commits[j], commits[i]);
          assert Dominated(commits, isAncestor, i);
          keep[i] := false;
          break;
        }
      }
    }
  }

  method Choose(sel: Selector, repo: Repository, matches: seq<Match>) returns (r: Option<Match>)
    requires matches != []
    ensures var c := Chosen(CommitsOf(matches), repo.isAncestor);
            if c.None? then r.None? else r.Some? && r.value in matches && r.value.commit == c.value
  {
    ghost var commits := CommitsOf(matches);
    var kept := matches;
    if |matches| > 1 {
      var keep := MarkSurvivors(matches, repo.isAncestor);
      var filtered: seq<Match> := [];
      for i := 0 to |matches|
        invariant CommitsOf(filtered) == Survivors(commits, repo.isAncestor, i)
        invariant forall m :: m in filtered ==> m in matches
      {
        ghost var before := filtered;
        if keep[i] {
          filtered := filtered + [matches[i]];
          assert CommitsOf(filtered) == CommitsOf(before) + [commits[i]];
        }
      }
      if |filtered| > 1 {
        return None;
      }
      if |filtered| == 1 {
        kept := filtered;
        assert CommitsOf(filtered)[0] == filtered[0].commit;
      }
    }
    r := Some(kept[0]);
  }

  method FindClosureCommit(sel: Selector, repo: Repository) returns (r: Outcome)
    ensures r.Malformed? <==> !WellFormed(sel)
    ensures r.NoListing? <==> WellFormed(sel) && Listing(repo).None?
    ensures WellFormed(sel) && Listing(repo).Some? ==> Finds(sel, repo, Matches(sel, repo, Listing(repo).value), r)
  {
    if sel.paths == [] || |sel.paths| != |sel.blobs| {
      return Malformed;
    }
    var list := Listing(repo);
    if list.None? {
      return NoListing;
    }
    var matches := CollectMatches(sel, repo, list.value);
    ghost var commits := Matches(sel, repo, list.value);
    assert CommitsOf(matches) == commits;
    if |matches| == 0 {
      return NoMatch;
    }
    var chosen := Choose(sel, repo, matches);
    if chosen.None? {
      return Incomparable;
    }
    if sel.subject != "" && !repo.isAncestor(sel.subject, chosen.value.commit) {
      return SubjectNotAncestor;
    }
    r := Found(chosen.value);
  }

  ghost predicate Finds(sel: Selector, repo: Repository, commits: seq<string>, r: Outcome) {
    if commits == [] then r.NoMatch?
    else
      match Chosen(commits, repo.isAncestor)
      case None => r.Incomparable?
      case Some(c) =>
        if sel.subject == "" || repo.isAncestor(sel.subject, c)
        then repo.tree(c).Some? && r == Found(MatchOf(sel, repo, c))
        else r.SubjectNotAncestor?
  }

  // ---- What the choice means ----

  ghost predicate Least(commits: seq<string>, isAncestor: (string, string) -> bool, c: string) {
    c in commits && forall d :: d in commits && d != c ==> isAncestor(c, d)
  }

  function Flipped(isAncestor: (string, string) -> bool): (string, string) -> bool {
    (a, b) => isAncestor(b, a)
  }

  lemma DominatedIffNotMaximal(commits: seq<string>, isAncestor: (string, string) -> bool, i: nat)
    requires i < |commits| && Distinct(commits)
    ensures Dominated(commits, isAncestor, i) <==> !Maximal(Flipped(isAncestor), commits, commits[i])
  {
    if Dominated(commits, isAncestor, i) {
      var j :| 0 <= j < |commits| && j != i && isAncestor(commits[j], commits[i]);
      assert commits[j] in commits && StrictlyBelow(Flipped(isAncestor), commits[i], commits[j]);
    }
    if !Maximal(Flipped(isAncestor), commits, commits[i]) {
      var b :| b in commits && StrictlyBelow(Flipped(isAncestor), commits[i], b);
      var j :| 0 <= j < |commits| && commits[j] == b;
      assert isAncestor(commits[j], commits[i]);
    }
  }

  lemma {:induction false} SurvivorsNone(commits: seq<string>, isAncestor: (string, string) -> bool, n: nat)
    requires n <= |commits|
    ensures Survivors(commits, isAncestor, n) == [] <==> forall i :: 0 <= i < n ==> Dominated(commits, isAncestor, i)
  {
    if n > 0 { SurvivorsNone(commits, isAncestor, n - 1); }
  }

  // One survivor, and which one it is.
  lemma {:induction false} SurvivorsOne(commits: seq<string>, isAncestor: (string, string) -> bool, n: nat, k: nat)
    requires k < n <= |commits| && !Dominated(commits, isAncestor, k)
    requires forall i :: 0 <= i < n && i != k ==> Dominated(commits, isAncestor, i)
    ensures Survivors(commits, isAncestor, n) == [commits[k]]
  {
    if k == n - 1 {
      SurvivorsNone(commits, isAncestor, n - 1);
    } else {
      SurvivorsOne(commits, isAncestor, n - 1, k);
    }
  }

  lemma {:induction false} SoleSurvivor(commits: seq<string>, isAncestor: (string, string) -> bool, n: nat) returns (k: nat)
    requires n <= |commits| && |Survivors(commits, isAncestor, n)| == 1
    ensures k < n && Survivors(commits, isAncestor, n) == [commits[k]] && !Dominated(commits, isAncestor, k)
    ensures forall i :: 0 <= i < n && i != k ==> Dominated(commits, isAncestor, i)
  {
    if Dominated(commits, isAncestor, n - 1) {
      k := SoleSurvivor(commits, isAncestor, n - 1);
    } else {
      k := n - 1;
      SurvivorsNone(commits, isAncestor, n - 1);
    }
  }

  // No other match descends from match i.
  ghost predicate NoDescendant(commits: seq<string>, isAncestor: (string, string) -> bool, i: nat)
    requires i < |commits|
  {
    forall j :: 0 <= j < |commits| && j != i ==> !isAncestor(commits[i], commits[j])
  }

  // The source's comment says that descendants survive. What survives has no match
  // descending from it, in all cases, if and only if no match descends from another.
  lemma DescendantsSurviveIff(commits: seq<string>, isAncestor: (string, string) -> bool)
    requires Distinct(commits) && PartialOrder(Flipped(isAncestor), commits)
    ensures (forall i: nat :: i < |commits| && !Dominated(commits, isAncestor, i) ==> NoDescendant(commits, isAncestor, i)) <==>
              (forall i: nat :: i < |commits| ==> NoDescendant(commits, isAncestor, i))
  {
    if i: nat, j :| i < |commits| && 0 <= j < |commits| && j != i && isAncestor(commits[i], commits[j]) {
      var k := SurvivorWithDescendant(commits, isAncestor, i, j);
    }
  }

  lemma SurvivorWithDescendant(commits: seq<string>, isAncestor: (string, string) -> bool, i: nat, j: nat) returns (k: nat)
    requires Distinct(commits) && PartialOrder(Flipped(isAncestor), commits)
    requires i < |commits| && j < |commits| && i != j && isAncestor(commits[i], commits[j])
    ensures k < |commits| && !Dominated(commits, isAncestor, k) && !NoDescendant(commits, isAncestor, k)
  {
    var up := Flipped(isAncestor);
    var low := BelowSomeMaximal(up, commits, commits[i]);
    k :| 0 <= k < |commits| && commits[k] == low;
    DominatedIffNotMaximal(commits, isAncestor, k);
    if k != i {
      assert up(commits[i], low);
    }
  }

  // Of a commit and its descendant the commit itself is chosen.
  lemma AncestorChosen(a: string, b: string, isAncestor: (string, string) -> bool)
    requires a != b && isAncestor(a, b) && !isAncestor(b, a)
    ensures Chosen([a, b], isAncestor) == Some(a)
  {
    var commits := [a, b];
    assert PartialOrder(Flipped(isAncestor), commits);
    assert commits[0] == a && commits[1] == b;
    ChosenIsLeast(commits, isAncestor, a);
  }

  // Under a partial order, with every commit listed once, the chosen commit is the one
  // match that is an ancestor of all the other matches; the choice fails exactly when
  // no match is.
  lemma ChosenIsLeast(commits: seq<string>, isAncestor: (string, string) -> bool, c: string)
    requires commits != [] && Distinct(commits) && PartialOrder(Flipped(isAncestor), commits)
    ensures Chosen(commits, isAncestor) == Some(c) <==> Least(commits, isAncestor, c)
  {
    var up := Flipped(isAncestor);
    forall i | 0 <= i < |commits| ensures Dominated(commits, isAncestor, i) <==> !Maximal(up, commits, commits[i]) {
      DominatedIffNotMaximal(commits, isAncestor, i);
    }
    assert c in commits ==> (Least(commits, isAncestor, c) <==> OverAllOthers(up, commits, c));
    if Least(commits, isAncestor, c) {
      LeastIsChosen(commits, isAncestor, c);
    }
    if Chosen(commits, isAncestor) == Some(c) {
      ChosenIsLower(commits, isAncestor, c);
    }
  }

  lemma LeastIsChosen(commits: seq<string>, isAncestor: (string, string) -> bool, c: string)
    requires commits != [] && Distinct(commits) && PartialOrder(Flipped(isAncestor), commits)
    requires Least(commits, isAncestor, c)
    ensures Chosen(commits, isAncestor) == Some(c)
  {
    var up := Flipped(isAncestor);
    assert OverAllOthers(up, commits, c);
    SoleMaximalIsGreatest(up, commits, c);
    var k :| 0 <= k < |commits| && commits[k] == c;
    forall i | 0 <= i < |commits| ensures Dominated(commits, isAncestor, i) <==> i != k {
      DominatedIffNotMaximal(commits, isAncestor, i);
      assert commits[i] in commits;
    }
    SurvivorsOne(commits, isAncestor, |commits|, k);
  }

  lemma ChosenIsLower(commits: seq<string>, isAncestor: (string, string) -> bool, c: string)
    requires commits != [] && Distinct(commits) && PartialOrder(Flipped(isAncestor), commits)
    requires Chosen(commits, isAncestor) == Some(c)
    ensures Least(commits, isAncestor, c)
  {
    var up := Flipped(isAncestor);
    assert commits[0] in commits;
    var top := BelowSomeMaximal(up, commits, commits[0]);
    var t :| 0 <= t < |commits| && commits[t] == top;
    DominatedIffNotMaximal(commits, isAncestor, t);
    SurvivorsNone(commits, isAncestor, |commits|);
    if |commits| > 1 {
      var k := SoleSurvivor(commits, isAncestor, |commits|);
      forall a | a in commits ensures Maximal(up, commits, a) <==> a == c {
        var i :| 0 <= i < |commits| && commits[i] == a;
        DominatedIffNotMaximal(commits, isAncestor, i);
      }
      SoleMaximalIsGreatest(up, commits, c);
      assert OverAllOthers(up, commits, c);
    }
  }

  // ---- Does a match honour every pair of the selector? ----

  ghost predicate HonoursAllPairs(sel: Selector, repo: Repository, commit: string) {
    forall i :: 0 <= i < |sel.paths| && i < |sel.blobs| ==> HasBlob(repo, commit, sel.paths[i], sel.blobs[i])
  }

  // Repeated paths ask for the same blob.
  ghost predicate PairsAgree(sel: Selector) {
    forall i, b :: 0 <= i < |sel.paths| && i < |sel.blobs| && FirstBlob(sel, sel.paths[i], b) ==> EqualFold(b, sel.blobs[i])
  }

  lemma {:induction false} HasFirstBlob(sel: Selector, i: nat) returns (b: string)
    requires WellFormed(sel) && i < |sel.paths|
    ensures FirstBlob(sel, sel.paths[i], b)
  {
    if sel.paths[i] in sel.paths[..i] {
      var j :| 0 <= j < i && sel.paths[j] == sel.paths[i];
      b := HasFirstBlob(sel, j);
    } else {
      b := sel.blobs[i];
    }
  }

  function PairedBlob(sel: Selector, path: string, n: nat): Option<string>
    requires n <= |sel.paths| == |sel.blobs|
  {
    if n == 0 then None
    else
      var earlier := PairedBlob(sel, path, n - 1);
      if earlier.Some? then earlier else if sel.paths[n - 1] == path then Some(sel.blobs[n - 1]) else None
  }

  lemma {:induction false} PairedBlobIsFirst(sel: Selector, path: string, n: nat)
    requires n <= |sel.paths| == |sel.blobs|
    ensures PairedBlob(sel, path, n).None? <==> path !in sel.paths[..n]
    ensures PairedBlob(sel, path, n).Some? ==> FirstBlob(sel, path, PairedBlob(sel, path, n).value)
  {
    if n > 0 {
      PairedBlobIsFirst(sel, path, n - 1);
      assert sel.paths[..n] == sel.paths[..n - 1] + [sel.paths[n - 1]];
    }
  }

  lemma AgreeingPairsHonoured(sel: Selector, repo: Repository, commit: string)
    requires WellFormed(sel) && PairsAgree(sel) && Satisfies(sel, repo, commit)
    ensures HonoursAllPairs(sel, repo, commit)
  {
    forall i | 0 <= i < |sel.paths| && i < |sel.blobs| ensures HasBlob(repo, commit, sel.paths[i], sel.blobs[i]) {
      var b := HasFirstBlob(sel, i);
      assert HasBlob(repo, commit, sel.paths[i], b);
    }
  }

  // A repository whose every commit holds just the first blob of every path.
  function FirstBlobsOnly(sel: Selector): Repository
    requires WellFormed(sel)
  {
    Repository(None, None, c => Some(""), (c, p) => PairedBlob(sel, p, |sel.paths|), (a, b) => false)
  }

  lemma FirstBlobsSuffice(sel: Selector, commit: string, path: string, b: string)
    requires WellFormed(sel) && FirstBlob(sel, path, b)
    ensures FirstBlobsOnly(sel).blob(commit, path) == Some(b)
    ensures HasBlob(FirstBlobsOnly(sel), commit, path, b)
  {
    PairedBlobIsFirst(sel, path, |sel.paths|);
    assert sel.paths[..|sel.paths|] == sel.paths;
    FirstBlobUnique(sel, path, b, PairedBlob(sel, path, |sel.paths|).value);
  }

  lemma ClashingPairNotHonoured(sel: Selector)
    requires WellFormed(sel) && !PairsAgree(sel)
    ensures Satisfies(sel, FirstBlobsOnly(sel), "") && !HonoursAllPairs(sel, FirstBlobsOnly(sel), "")
  {
    forall p, b | FirstBlob(sel, p, b) ensures HasBlob(FirstBlobsOnly(sel), "", p, b) {
      FirstBlobsSuffice(sel, "", p, b);
    }
    var i, b :| 0 <= i < |sel.paths| && i < |sel.blobs| && FirstBlob(sel, sel.paths[i], b) && !EqualFold(b, sel.blobs[i]);
    FirstBlobsSuffice(sel, "", sel.paths[i], b);
    assert !HasBlob(FirstBlobsOnly(sel), "", sel.paths[i], sel.blobs[i]);
  }

  // The pairing looks a path up by its first occurrence, so a repeated path with a
  // different blob is never checked: the search honours the selector in every
  // repository exactly when repeated paths ask for the same blob.
  lemma SelectorHonouredIffPairsAgree(sel: Selector)
    requires WellFormed(sel)
    ensures PairsAgree(sel) <==>
              forall repo, commit: string :: Satisfies(sel, repo, commit) ==> HonoursAllPairs(sel, repo, commit)
  {
    if PairsAgree(sel) {
      forall repo, commit: string | Satisfies(sel, repo, commit) ensures HonoursAllPairs(sel, repo, commit) {
        AgreeingPairsHonoured(sel, repo, commit);
      }
    } else {
      ClashingPairNotHonoured(sel);
    }
  }

  lemma RepeatedPathIgnored(repo: Repository, commit: string)
    requires repo.tree(commit).Some? && repo.blob(commit, "plan.md") == Some("aa")
    ensures Satisfies(Selector(["plan.md", "plan.md"], ["aa", "bb"], ""), repo, commit)
    ensures !HonoursAllPairs(Selector(["plan.md", "plan.md"], ["aa", "bb"], ""), repo, commit)
  {
    var sel := Selector(["plan.md", "plan.md"], ["aa", "bb"], "");
    assert sel.paths[..0] == [] && sel.paths[..1] == ["plan.md"];
    assert sel.paths[0] == "plan.md" && FirstBlob(sel, "plan.md", "aa");
    forall p, b | FirstBlob(sel, p, b) ensures HasBlob(repo, commit, p, b) {
      assert p == "plan.md";
      FirstBlobUnique(sel, p, b, "aa");
    }
    assert sel.blobs[1] == "bb" && sel.paths[1] == "plan.md";
    assert !EqualFold("aa", "bb") by { assert Lower("aa"[0]) != Lower("bb"[0]); }
    assert !HasBlob(repo, commit, sel.paths[1], sel.blobs[1]);
  }
}
