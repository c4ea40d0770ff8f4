/**
 * The version 3 rules: aggregate counts, the four name lists, overall status and
 * cleanliness.
 */
module NormalizeV3 {
  import opened Text
  import opened Ordering
  import opened Diagnostics
  import opened Normalize
  import SchemaErrors

  datatype Counts = Counts(total: int, pass: int, fail: int, timeout: int, skip: int, unavailable: int)

  datatype NameLists = NameLists(failed: seq<string>, timeout: seq<string>, skipped: seq<string>, unavailable: seq<string>)

  datatype WireCheck = WireCheck(
    name: string, status: GateStatus, duration: string, canonicalExit: Option<string>, rawExit: Option<string>)

  datatype V3 = V3(checks: seq<WireCheck>, overall: GateStatus, scope: Scope, counts: Counts, lists: NameLists)

  // ---- Counts ----

  const TWO_63 := 0x8000_0000_0000_0000
  const TWO_64 := 0x1_0000_0000_0000_0000

  predicate Int64(n: int) { -TWO_63 <= n < TWO_63 }

  // Machine addition wraps around.
  function Add64(a: int, b: int): int {
    var sum := a + b;
    if sum >= TWO_63 then sum - TWO_64 else if sum < -TWO_63 then sum + TWO_64 else sum
  }

  function Sum(c: Counts): int { c.pass + c.fail + c.timeout + c.skip + c.unavailable }

  function MachineSum(c: Counts): int {
    Add64(Add64(Add64(Add64(c.pass, c.fail), c.timeout), c.skip), c.unavailable)
  }

  predicate CountsFit(c: Counts) {
    Int64(c.total) && Int64(c.pass) && Int64(c.fail) && Int64(c.timeout) && Int64(c.skip) && Int64(c.unavailable)
  }

  predicate CountsAccepted(c: Counts, checks: nat) {
    c.total == checks && MachineSum(c) == c.total
  }

  function CountsKey(): Key { Key(TestTotalMismatch, "/counts/total") }

  method ValidateV3Counts(c: Counts, checks: nat) returns (diags: seq<Diagnostic>)
    ensures diags == [] <==> CountsAccepted(c, checks)
    ensures forall d :: d in diags ==> KeyOf(d) == CountsKey()
  {
    diags := [];
    if c.total != checks {
      var message := "counts.total disagrees with len(checks)";
      diags := diags + [Diagnostic(TestTotalMismatch, "/counts/total", SchemaErrors.Signed(checks), SchemaErrors.Signed(c.total), message)];
    }
    var sum := MachineSum(c);
    if sum != c.total {
      var message := "counts.total disagrees with pass+fail+timeout+skip+unavailable";
      diags := diags + [Diagnostic(TestTotalMismatch, "/counts/total", SchemaErrors.Signed(sum), SchemaErrors.Signed(c.total), message)];
    }
  }

  // How many checks have the status.
  function Tally(checks: seq<Check>, status: GateStatus): nat {
    if checks == [] then 0
    else Tally(checks[1..], status) + if checks[0].status == status then 1 else 0
  }

  predicate Honest(c: Counts, checks: seq<Check>) {
    && c.total == |checks|
    && c.pass == Tally(checks, Pass) && c.fail == Tally(checks, Fail) && c.timeout == Tally(checks, Timeout)
    && c.skip == Tally(checks, Skip) && c.unavailable == Tally(checks, Unavailable)
  }

  lemma {:induction false} TallySum(checks: seq<Check>)
    ensures Tally(checks, Pass) + Tally(checks, Fail) + Tally(checks, Timeout) + Tally(checks, Skip)
            + Tally(checks, Unavailable) + Tally(checks, Unknown) == |checks|
  {
    if checks != [] {
      TallySum(checks[1..]);
    }
  }

  lemma {:induction false} NoTally(checks: seq<Check>, status: GateStatus)
    ensures Tally(checks, status) == 0 <==> forall i :: 0 <= i < |checks| ==> checks[i].status != status
  {
    if checks != [] {
      NoTally(checks[1..], status);
      assert forall i :: 0 < i < |checks| ==> checks[i] == checks[1..][i - 1];
    }
  }

  // True counts are accepted. The other way round fails: the statuses are not counted.
  lemma HonestCountsAccepted(c: Counts, checks: seq<Check>)
    requires |checks| < TWO_63 && forall i :: 0 <= i < |checks| ==> checks[i].status != Unknown
    requires Honest(c, checks)
    ensures CountsAccepted(c, |checks|)
  {
    TallySum(checks);
    NoTally(checks, Unknown);
  }

  lemma DishonestCountsAccepted(check: Check)
    requires check.status == Pass
    ensures var c := Counts(1, 0, 1, 0, 0, 0);
            CountsFit(c) && CountsAccepted(c, 1) && !Honest(c, [check])
  {
    assert Tally([check], Pass) == 1;
  }

  // The components of non-negative accepted counts add up to the total exactly when
  // their sum does not wrap around.
  lemma AcceptedSumExactIff(c: Counts, checks: nat)
    requires CountsFit(c) && CountsAccepted(c, checks)
    requires c.pass >= 0 && c.fail >= 0 && c.timeout >= 0 && c.skip >= 0 && c.unavailable >= 0
    ensures Sum(c) == c.total <==> Sum(c) < TWO_63
  {
  }

  // Acceptance by itself never guarantees true counts: for every list of checks, the
  // empty one included, some non-negative counts are accepted and false.
  lemma SomeFalseCountsAccepted(checks: seq<Check>) returns (c: Counts)
    requires |checks| < TWO_63
    ensures CountsFit(c) && CountsAccepted(c, |checks|) && !Honest(c, checks)
    ensures c.pass >= 0 && c.fail >= 0 && c.timeout >= 0 && c.skip >= 0 && c.unavailable >= 0
  {
    if checks == [] {
      c := Counts(0, TWO_63 - 1, TWO_63 - 1, 2, 0, 0);
    } else if Tally(checks, Pass) == 0 {
      c := Counts(|checks|, |checks|, 0, 0, 0, 0);
    } else {
      c := Counts(|checks|, 0, |checks|, 0, 0, 0);
    }
  }

  // ---- Name lists ----

  // The non-empty names of the checks with this status, in check order.
  function NamesWith(checks: seq<Check>, want: GateStatus): seq<string> {
    if checks == [] then []
    else
      var n := |checks| - 1;
      NamesWith(checks[..n], want) + if checks[n].status == want && checks[n].name != "" then [checks[n].name] else []
  }

  predicate HasName(checks: seq<Check>, want: GateStatus, name: string) {
    name != "" && exists i :: 0 <= i < |checks| && checks[i].status == want && checks[i].name == name
  }

  lemma {:induction false} NamesWithMeans(checks: seq<Check>, want: GateStatus, name: string)
    ensures name in NamesWith(checks, want) <==> HasName(checks, want, name)
  {
    if checks != [] {
      var n := |checks| - 1;
      NamesWithMeans(checks[..n], want, name);
      assert forall i :: 0 <= i < n ==> checks[i] == checks[..n][i];
    }
  }

  method CollectNamesByStatus(checks: seq<Check>, want: GateStatus) returns (names: seq<string>)
    ensures Sorted(names, StringLess) && multiset(names) == multiset(NamesWith(checks, want))
    ensures forall name :: name in names <==> HasName(checks, want, name)
  {
    var found: seq<string> := [];
    for i := 0 to |checks|
      invariant found == NamesWith(checks[..i], want)
    {
      assert checks[..i + 1][..i] == checks[..i];
      if checks[i].status == want && checks[i].name != "" {
        found := found + [checks[i].name];
      }
    }
    assert checks[..|checks|] == checks;
    names := Sort(found, StringLess);
    StringLessIsStrictTotal();
    SortSorts(found, StringLess);
    SortPermutes(found, StringLess);
    PermutationSameElements(names, found);
    forall name ensures name in names <==> HasName(checks, want, name) {
      NamesWithMeans(checks, want, name);
    }
  }

  // The recorded list has no repetition and names exactly those checks.
  ghost predicate ListLegal(recorded: seq<string>, checks: seq<Check>, want: GateStatus) {
    Distinct(recorded) && forall name :: name in recorded <==> HasName(checks, want, name)
  }

  function ListPath(want: GateStatus): string {
    match want
    case Fail => "/failed_names"
    case Timeout => "/timeout_names"
    case Skip => "/skipped_names"
    case _ => "/unavailable_names"
  }

  function ListKey(want: GateStatus): Key { Key(DuplicateCheckName, ListPath(want)) }

  // Counts the recorded names, then goes through the counts in no particular order.
  method RepeatedNames(recorded: seq<string>, path: string) returns (diags: seq<Diagnostic>)
    ensures diags == [] <==> Distinct(recorded)
    ensures forall d :: d in diags ==> KeyOf(d) == Key(DuplicateCheckName, path)
  {
    var seen: map<string, nat> := map[];
    for i := 0 to |recorded|
      invariant forall n :: n in seen <==> n in recorded[..i]
      invariant forall n :: n in seen ==> seen[n] == multiset(recorded[..i])[n]
    {
      assert recorded[..i + 1] == recorded[..i] + [recorded[i]];
      var n := recorded[i];
      seen := seen[n := (if n in seen then seen[n] else 0) + 1];
    }
    assert recorded[..|recorded|] == recorded;
    DistinctIffCounts(recorded);
    diags := [];
    var left := seen.Keys;
    while left != {}
      invariant left <= seen.Keys
      invariant diags == [] <==> forall n :: n in seen.Keys && n !in left ==> seen[n] <= 1
      invariant forall d :: d in diags ==> KeyOf(d) == Key(DuplicateCheckName, path)
      decreases |left|
    {
      var n :| n in left;
      left := left - {n};
      if seen[n] > 1 {
        diags := diags + [New(DuplicateCheckName, path, n)];
      }
    }
  }

  lemma DistinctIffCounts(s: seq<string>)
    ensures Distinct(s) <==> forall n :: n in s ==> multiset(s)[n] <= 1
  {
    if Distinct(s) {
      DistinctCount(s);
    } else {
      var i, j :| 0 <= i < j < |s| && s[i] == s[j];
      TwicePresent(s, i, j);
    }
  }

  method MissingFrom(names: seq<string>, other: seq<string>, path: string) returns (diags: seq<Diagnostic>)
    ensures diags == [] <==> forall n :: n in names ==> n in other
    ensures forall d :: d in diags ==> KeyOf(d) == Key(DuplicateCheckName, path)
  {
    var known := set n | n in other;
    diags := [];
    for i := 0 to |names|
      invariant diags == [] <==> forall n :: n in names[..i] ==> n in other
      invariant forall d :: d in diags ==> KeyOf(d) == Key(DuplicateCheckName, path)
    {
      assert names[..i + 1] == names[..i] + [names[i]];
      if names[i] !in known {
        diags := diags + [New(DuplicateCheckName, path, names[i])];
      }
    }
    assert names[..|names|] == names;
  }

  method CompareNameList(recorded: seq<string>, derived: seq<string>, path: string) returns (diags: seq<Diagnostic>)
    ensures diags == [] <==> Distinct(recorded) && forall n :: n in recorded <==> n in derived
    ensures forall d :: d in diags ==> KeyOf(d) == Key(DuplicateCheckName, path)
  {
    var repeated := RepeatedNames(recorded, path);
    var extra := MissingFrom(recorded, derived, path);
    var missing := MissingFrom(derived, recorded, path);
    diags := repeated + extra + missing;
  }

  method ValidateList(recorded: seq<string>, checks: seq<Check>, want: GateStatus) returns (diags: seq<Diagnostic>)
    ensures diags == [] <==> ListLegal(recorded, checks, want)
    ensures forall k :: k in Keys(diags) <==> !ListLegal(recorded, checks, want) && k == ListKey(want)
  {
    var derived := CollectNamesByStatus(checks, want);
    diags := CompareNameList(recorded, derived, ListPath(want));
    OneKey(diags, ListKey(want));
  }

  ghost predicate ListsLegal(lists: NameLists, checks: seq<Check>) {
    && ListLegal(lists.failed, checks, Fail)
    && ListLegal(lists.timeout, checks, Timeout)
    && ListLegal(lists.skipped, checks, Skip)
    && ListLegal(lists.unavailable, checks, Unavailable)
  }

  // ---- When accepted lists are sorted ----

  predicate Named(c: Check, want: GateStatus) { c.status == want && c.name != "" }

  // All checks of this status that have a name have the same one.
  ghost predicate OneName(checks: seq<Check>, want: GateStatus) {
    forall i, j :: 0 <= i < j < |checks| && Named(checks[i], want) && Named(checks[j], want) ==>
      checks[i].name == checks[j].name
  }

  function Elements(s: seq<string>): set<string> { set x | x in s }

  lemma {:induction false} Listing(names: set<string>) returns (list: seq<string>)
    ensures Distinct(list) && forall n :: n in list <==> n in names
  {
    if names == {} {
      list := [];
    } else {
      var n :| n in names;
      var rest := Listing(names - {n});
      list := [n] + rest;
      assert forall i :: 0 < i < |list| ==> list[i] == rest[i - 1] && list[i] in rest;
    }
  }

  // Two names in the wrong order, then the others.
  lemma UnsortedListing(names: set<string>, low: string, high: string) returns (list: seq<string>)
    requires low in names && high in names && StringLess(low, high)
    ensures Distinct(list) && (forall n :: n in list <==> n in names) && !Sorted(list, StringLess)
  {
    var rest := Listing(names - {low, high});
    StringLessIsStrictTotal();
    list := [high, low] + rest;
    assert forall i :: 2 <= i < |list| ==> list[i] == rest[i - 2] && list[i] in rest;
    assert list[0] == high && list[1] == low;
  }

  lemma TwoNames(checks: seq<Check>, want: GateStatus) returns (low: string, high: string)
    requires !OneName(checks, want)
    ensures HasName(checks, want, low) && HasName(checks, want, high) && StringLess(low, high)
  {
    var i, j :| 0 <= i < j < |checks| && Named(checks[i], want) && Named(checks[j], want)
                && checks[i].name != checks[j].name;
    var a, b := checks[i].name, checks[j].name;
    StringLessTotal(a, b);
    low, high := (if StringLess(a, b) then a else b), (if StringLess(a, b) then b else a);
  }

  lemma SameName(checks: seq<Check>, want: GateStatus, a: string, b: string)
    requires OneName(checks, want) && HasName(checks, want, a) && HasName(checks, want, b)
    ensures a == b
  {
    var i :| 0 <= i < |checks| && checks[i].status == want && checks[i].name == a;
    var j :| 0 <= j < |checks| && checks[j].status == want && checks[j].name == b;
    assert Named(checks[i], want) && Named(checks[j], want);
  }

  lemma OneNameSorted(recorded: seq<string>, checks: seq<Check>, want: GateStatus)
    requires OneName(checks, want) && forall n :: n in recorded ==> HasName(checks, want, n)
    ensures Sorted(recorded, StringLess)
  {
    forall i, j | 0 <= i < j < |recorded| ensures !StringLess(recorded[j], recorded[i]) {
      SameName(checks, want, recorded[i], recorded[j]);
      StringLessIrreflexive(recorded[i]);
    }
  }

  // The source's comment says that the names must be sorted. Every list that passes is
  // sorted if and only if no two checks with that status have different names.
  lemma LegalListsSortedIff(checks: seq<Check>, want: GateStatus)
    ensures (forall recorded :: ListLegal(recorded, checks, want) ==> Sorted(recorded, StringLess)) <==>
              OneName(checks, want)
  {
    if OneName(checks, want) {
      forall recorded | ListLegal(recorded, checks, want) ensures Sorted(recorded, StringLess) {
        OneNameSorted(recorded, checks, want);
      }
    } else {
      var low, high := TwoNames(checks, want);
      var names := Elements(NamesWith(checks, want));
      forall n ensures n in names <==> HasName(checks, want, n) { NamesWithMeans(checks, want, n); }
      var recorded := UnsortedListing(names, low, high);
      assert ListLegal(recorded, checks, want);
    }
  }

  lemma UnsortedListAccepted(checks: seq<Check>, want: GateStatus)
    requires |checks| == 2 && checks[0].status == checks[1].status == want
    requires checks[0].name == "a" && checks[1].name == "b"
    ensures ListLegal(["b", "a"], checks, want) && !Sorted(["b", "a"], StringLess)
  {
    assert StringLess("a", "b");
    assert "a" != "b";
    var recorded := ["b", "a"];
    assert recorded[0] == "b" && recorded[1] == "a";
  }

  // ---- When accepted counts are true ----

  // The checks of this status have non-empty names, no two of them the same.
  ghost predicate NamesTell(checks: seq<Check>, want: GateStatus) {
    && (forall i :: 0 <= i < |checks| && checks[i].status == want ==> checks[i].name != "")
    && (forall i, j :: 0 <= i < j < |checks| && checks[i].status == checks[j].status == want ==>
          checks[i].name != checks[j].name)
  }

  lemma {:induction false} DistinctSize(s: seq<string>)
    ensures |Elements(s)| <= |s|
    ensures |Elements(s)| == |s| <==> Distinct(s)
  {
    if s != [] {
      var n := |s| - 1;
      var init, last := s[..n], s[n];
      DistinctSize(init);
      assert s == init + [last];
      assert Elements(s) == Elements(init) + {last};
      if last in init {
        var i :| 0 <= i < n && init[i] == last;
        assert s[i] == s[n];
        assert Elements(s) == Elements(init);
      } else {
        assert forall i :: 0 <= i < n ==> s[i] == init[i] && s[i] in init;
      }
    }
  }

  lemma {:induction false} TallySnoc(checks: seq<Check>, last: Check, want: GateStatus)
    ensures Tally(checks + [last], want) == Tally(checks, want) + if last.status == want then 1 else 0
  {
    if checks == [] {
      assert checks + [last] == [last];
    } else {
      TallySnoc(checks[1..], last, want);
      assert (checks + [last])[1..] == checks[1..] + [last];
    }
  }

  // The names collected are at most as many as the checks; they are as many and all
  // different exactly when the names tell the checks apart.
  lemma {:induction false} NamesWithLength(checks: seq<Check>, want: GateStatus)
    ensures |NamesWith(checks, want)| <= Tally(checks, want)
    ensures |NamesWith(checks, want)| == Tally(checks, want) && Distinct(NamesWith(checks, want)) <==>
              NamesTell(checks, want)
  {
    if checks != [] {
      var n := |checks| - 1;
      var init, last := checks[..n], checks[n];
      assert checks == init + [last];
      NamesWithLength(init, want);
      TallySnoc(init, last, want);
      if last.status == want && last.name != "" {
        LastNameTells(init, last, want);
      } else {
        assert NamesWith(checks, want) == NamesWith(init, want);
        UnnamedTells(init, last, want);
      }
    }
  }

  lemma UnnamedTells(init: seq<Check>, last: Check, want: GateStatus)
    requires last.status != want || last.name == ""
    ensures NamesTell(init + [last], want) <==> NamesTell(init, want) && last.status != want
  {
    var checks := init + [last];
    assert checks[|init|] == last;
    assert forall i :: 0 <= i < |init| ==> checks[i] == init[i];
    if NamesTell(checks, want) {
      forall i, j | 0 <= i < j < |init| && init[i].status == init[j].status == want
        ensures init[i].name != init[j].name
      {
        assert checks[i] == init[i] && checks[j] == init[j];
      }
    }
  }

  lemma LastNameTells(init: seq<Check>, last: Check, want: GateStatus)
    requires last.status == want && last.name != ""
    ensures NamesTell(init + [last], want) <==> NamesTell(init, want) && last.name !in NamesWith(init, want)
    ensures Distinct(NamesWith(init, want) + [last.name]) <==>
              Distinct(NamesWith(init, want)) && last.name !in NamesWith(init, want)
  {
    var checks, names := init + [last], NamesWith(init, want);
    var longer := names + [last.name];
    NamesWithMeans(init, want, last.name);
    assert forall i :: 0 <= i < |init| ==> checks[i] == init[i];
    assert checks[|init|] == last && longer[|names|] == last.name;
    assert forall i :: 0 <= i < |names| ==> longer[i] == names[i];
    if last.name in names {
      var i :| 0 <= i < |names| && names[i] == last.name;
      assert longer[i] == longer[|names|];
      var j :| 0 <= j < |init| && init[j].status == want && init[j].name == last.name;
      assert checks[j].name == checks[|init|].name;
    }
    if NamesTell(checks, want) {
      assert forall i, j :: 0 <= i < j < |init| ==> checks[i] == init[i] && checks[j] == init[j];
    }
    if Distinct(longer) {
      assert forall i, j :: 0 <= i < j < |names| ==> longer[i] == names[i] && longer[j] == names[j];
    }
  }

  // A legal list is as long as the number of its checks exactly when the names tell
  // those checks apart, and never longer.
  lemma ListLengthIsTally(recorded: seq<string>, checks: seq<Check>, want: GateStatus)
    requires ListLegal(recorded, checks, want)
    ensures |recorded| <= Tally(checks, want)
    ensures |recorded| == Tally(checks, want) <==> NamesTell(checks, want)
  {
    var names := NamesWith(checks, want);
    forall name ensures name in recorded <==> name in names { NamesWithMeans(checks, want, name); }
    assert Elements(recorded) == Elements(names);
    DistinctSize(recorded);
    DistinctSize(names);
    NamesWithLength(checks, want);
  }

  // The lengths of the name lists are the counts recorded beside them.
  predicate CountsMatchLists(c: Counts, lists: NameLists) {
    && c.fail == |lists.failed| && c.timeout == |lists.timeout|
    && c.skip == |lists.skipped| && c.unavailable == |lists.unavailable|
  }

  ghost predicate AllNamesTell(checks: seq<Check>) {
    NamesTell(checks, Fail) && NamesTell(checks, Timeout) && NamesTell(checks, Skip) && NamesTell(checks, Unavailable)
  }

  // Accepted counts beside legal lists: where names tell checks apart they are true if
  // and only if they agree with the lengths of the lists, which the validator never
  // compares; and where they agree they are true if and only if names tell checks apart.
  lemma AcceptedHonestIff(c: Counts, lists: NameLists, checks: seq<Check>)
    requires |checks| < TWO_63 && forall i :: 0 <= i < |checks| ==> checks[i].status != Unknown
    requires CountsFit(c) && CountsAccepted(c, |checks|) && ListsLegal(lists, checks)
    ensures AllNamesTell(checks) ==> (Honest(c, checks) <==> CountsMatchLists(c, lists))
    ensures CountsMatchLists(c, lists) ==> (Honest(c, checks) <==> AllNamesTell(checks))
  {
    ListLengthIsTally(lists.failed, checks, Fail);
    ListLengthIsTally(lists.timeout, checks, Timeout);
    ListLengthIsTally(lists.skipped, checks, Skip);
    ListLengthIsTally(lists.unavailable, checks, Unavailable);
    TallySum(checks);
    NoTally(checks, Unknown);
  }

  ghost predicate ListViolation(lists: NameLists, checks: seq<Check>, k: Key) {
    || (!ListLegal(lists.failed, checks, Fail) && k == Key(DuplicateCheckName, "/failed_names"))
    || (!ListLegal(lists.timeout, checks, Timeout) && k == Key(DuplicateCheckName, "/timeout_names"))
    || (!ListLegal(lists.skipped, checks, Skip) && k == Key(DuplicateCheckName, "/skipped_names"))
    || (!ListLegal(lists.unavailable, checks, Unavailable) && k == Key(DuplicateCheckName, "/unavailable_names"))
  }

  lemma KeysOfPair(a: seq<Diagnostic>, b: seq<Diagnostic>)
    ensures Keys(a + b) == Keys(a) + Keys(b)
  {
  }

  lemma KeysJoin(a: seq<Diagnostic>, b: seq<Diagnostic>, c: seq<Diagnostic>, d: seq<Diagnostic>)
    ensures forall k :: k in Keys(a + b + c + d) <==> k in Keys(a) || k in Keys(b) || k in Keys(c) || k in Keys(d)
  {
    KeysOfPair(a, b);
    KeysOfPair(a + b, c);
    KeysOfPair(a + b + c, d);
  }

  // All diagnostics share one key, so the key is present exactly when there is one.
  lemma OneKey(diags: seq<Diagnostic>, key: Key)
    requires forall d :: d in diags ==> KeyOf(d) == key
    ensures forall k :: k in Keys(diags) <==> diags != [] && k == key
  {
    forall k | k in Keys(diags) ensures diags != [] && k == key {
      var i :| 0 <= i < |diags| && Keys(diags)[i] == k;
      assert diags[i] in diags;
    }
    if diags != [] {
      assert diags[0] in diags && Keys(diags)[0] == key;
    }
  }

  method ValidateV3NameLists(lists: NameLists, checks: seq<Check>) returns (diags: seq<Diagnostic>)
    ensures diags == [] <==> ListsLegal(lists, checks)
    ensures forall k :: k in Keys(diags) <==> ListViolation(lists, checks, k)
  {
    var failed := ValidateList(lists.failed, checks, Fail);
    var timeout := ValidateList(lists.timeout, checks, Timeout);
    var skipped := ValidateList(lists.skipped, checks, Skip);
    var unavailable := ValidateList(lists.unavailable, checks, Unavailable);
    diags := failed + timeout + skipped + unavailable;
    KeysJoin(failed, timeout, skipped, unavailable);
  }

  // ---- Version 3 as a whole ----

  predicate Projects(w: WireCheck) {
    JsonInteger(w.duration) && Plain(w.canonicalExit) && Plain(w.rawExit)
  }

  function Projected(w: WireCheck): Check { Check(w.name, w.status, w.canonicalExit, None) }

  // Neither check names nor status and exit code pairs are looked at in version 3.
  ghost predicate V3Legal(doc: V3, checks: seq<Check>) {
    && CountsAccepted(doc.counts, |checks|)
    && ListsLegal(doc.lists, checks)
    && doc.overall == Overall(checks)
    && Clean(doc.scope)
  }

  // The rule that a code and path stand for is violated.
  ghost predicate V3Violation(doc: V3, checks: seq<Check>, k: Key) {
    || (!CountsAccepted(doc.counts, |checks|) && k == Key(TestTotalMismatch, "/counts/total"))
    || ListViolation(doc.lists, checks, k)
    || (doc.overall != Overall(checks) && k == Key(OverallStatusMismatch, "/overall_status"))
    || (k.code == ScopeClosedDirtyWorktree && DirtyScope(doc.scope, k.path))
  }

  lemma KeysMean(diags: seq<Diagnostic>, finding: Diagnostic -> bool)
    requires forall d :: d in diags <==> finding(d)
    ensures forall k :: k in Keys(diags) <==> exists d :: finding(d) && k == KeyOf(d)
  {
    forall k ensures k in Keys(diags) <==> exists d :: finding(d) && k == KeyOf(d) {
      if k in Keys(diags) {
        var i :| 0 <= i < |diags| && Keys(diags)[i] == k;
        assert finding(diags[i]);
      }
      if d :| finding(d) && k == KeyOf(d) {
        var i :| 0 <= i < |diags| && diags[i] == d;
        assert Keys(diags)[i] == k;
      }
    }
  }

  lemma OverallKeys(diags: seq<Diagnostic>, derived: GateStatus, recorded: GateStatus)
    requires diags == if derived == recorded then [] else [OverallFinding(derived, recorded)]
    ensures forall k :: k in Keys(diags) <==> derived != recorded && k == Key(OverallStatusMismatch, "/overall_status")
  {
    OverallKey(derived, recorded);
    OneKey(diags, Key(OverallStatusMismatch, "/overall_status"));
  }

  lemma DirtyKeys(diags: seq<Diagnostic>, scope: Scope)
    requires forall d :: d in diags <==> CleanlinessFinding(scope, d)
    ensures forall k :: k in Keys(diags) <==> k.code == ScopeClosedDirtyWorktree && DirtyScope(scope, k.path)
  {
    KeysMean(diags, d => CleanlinessFinding(scope, d));
    forall k ensures k in Keys(diags) <==> k.code == ScopeClosedDirtyWorktree && DirtyScope(scope, k.path) {
      ScopeKeys(scope, k);
    }
  }

  method V3Findings(doc: V3, checks: seq<Check>) returns (all: seq<Diagnostic>)
    ensures all == [] <==> V3Legal(doc, checks)
    ensures forall k :: k in Keys(all) <==> V3Violation(doc, checks, k)
  {
    var counts := ValidateV3Counts(doc.counts, |checks|);
    OneKey(counts, CountsKey());
    var names := ValidateV3NameLists(doc.lists, checks);
    var overall := ValidateOverallStatus(checks, doc.overall);
    OverallKeys(overall, Overall(checks), doc.overall);
    var dirty := ValidateCleanliness(doc.scope);
    DirtyKeys(dirty, doc.scope);
    all := counts + names + overall + dirty;
    V3Keys(doc, checks, counts, names, overall, dirty);
  }

  lemma V3Keys(doc: V3, checks: seq<Check>, counts: seq<Diagnostic>, names: seq<Diagnostic>,
               overall: seq<Diagnostic>, dirty: seq<Diagnostic>)
    requires forall k :: k in Keys(counts) <==>
               !CountsAccepted(doc.counts, |checks|) && k == Key(TestTotalMismatch, "/counts/total")
    requires forall k :: k in Keys(names) <==> ListViolation(doc.lists, checks, k)
    requires forall k :: k in Keys(overall) <==>
               Overall(checks) != doc.overall && k == Key(OverallStatusMismatch, "/overall_status")
    requires forall k :: k in Keys(dirty) <==> k.code == ScopeClosedDirtyWorktree && DirtyScope(doc.scope, k.path)
    ensures forall k :: k in Keys(counts + names + overall + dirty) <==> V3Violation(doc, checks, k)
  {
    KeysJoin(counts, names, overall, dirty);
  }

  method NormalizeV3(doc: V3) returns (r: Outcome)
    ensures r.Failed? <==> exists i :: 0 <= i < |doc.checks| && !Projects(doc.checks[i])
    ensures !r.Failed? ==> (r.Normalized? <==> V3Legal(doc, ProjectedAll(doc.checks, Projected)))
    ensures r.Normalized? ==> r.checks == ProjectedAll(doc.checks, Projected)
    ensures r.Invalid? ==>
              && StrictlySorted(Keys(r.diagnostics), KeyLess)
              && forall k :: k in Keys(r.diagnostics) <==> V3Violation(doc, ProjectedAll(doc.checks, Projected), k)
  {
    var projected := ProjectChecks(doc.checks, Projects, Projected);
    if projected.None? {
      return Failed;
    }
    var all := V3Findings(doc, projected.value);
    var out := Emit(all);
    EmittedStrictlySorted(all);
    EmittedSameKeys(all);
    r := if |out| > 0 then Invalid(out) else Normalized(projected.value);
  }
}
