/**
 * The ordered, deduplicated diagnostic list of the gate-summary reader.
 */
module Diagnostics {
  import opened Ordering

  datatype Diagnostic = Diagnostic(code: Code, path: string, expected: string, observed: string, message: string)

  function New(code: Code, path: string, message: string): Diagnostic {
    Diagnostic(code, path, "", "", message)
  }

  // The closed GS_* code registry; every producer in the package uses one of these.
  datatype Code =
    | DocumentTooLarge | MalformedJson | TrailingJson | DuplicateKey | VersionMissing
    | InvalidVersionType | UnsupportedVersion | UnknownField | RequiredFieldMissing | SchemaViolation
    | InvalidTimestamp | InvalidStatus | InvalidOid | CollectionLimit | DuplicateCheckName
    | PassExitCodeMismatch | FailExitCodeMismatch | SkipExitCodeMismatch | UnavailableExitCodeMismatch
    | InvalidDuration | InvalidOutputHash | PartialTestTotals | TestTotalMismatch | OverallStatusMismatch
    | ScopeClosedDirtyWorktree | NormalizationFailure | Internal

  // The frozen precedence; lower is emitted earlier.
  function Precedence(code: Code): nat {
    match code
    case DocumentTooLarge => 1
    case MalformedJson => 2
    case TrailingJson => 3
    case DuplicateKey => 4
    case VersionMissing => 5
    case InvalidVersionType => 6
    case UnsupportedVersion => 7
    case UnknownField => 8
    case RequiredFieldMissing => 9
    case SchemaViolation => 10
    case InvalidTimestamp => 11
    case InvalidStatus => 12
    case InvalidOid => 13
    case CollectionLimit => 14
    case DuplicateCheckName => 15
    case PassExitCodeMismatch => 16
    case FailExitCodeMismatch => 17
    case SkipExitCodeMismatch => 18
    case UnavailableExitCodeMismatch => 19
    case InvalidDuration => 20
    case InvalidOutputHash => 21
    case PartialTestTotals => 22
    case TestTotalMismatch => 23
    case OverallStatusMismatch => 24
    case ScopeClosedDirtyWorktree => 25
    case NormalizationFailure => 26
    case Internal => 27
  }

  lemma PrecedenceInjective(a: Code, b: Code)
    ensures Precedence(a) == Precedence(b) ==> a == b
  {
  }

  // The registry, most urgent first.
  function Registry(): seq<Code> {
    [DocumentTooLarge, MalformedJson, TrailingJson, DuplicateKey, VersionMissing, InvalidVersionType,
     UnsupportedVersion, UnknownField, RequiredFieldMissing, SchemaViolation, InvalidTimestamp, InvalidStatus,
     InvalidOid, CollectionLimit, DuplicateCheckName, PassExitCodeMismatch, FailExitCodeMismatch,
     SkipExitCodeMismatch, UnavailableExitCodeMismatch, InvalidDuration, InvalidOutputHash, PartialTestTotals,
     TestTotalMismatch, OverallStatusMismatch, ScopeClosedDirtyWorktree, NormalizationFailure, Internal]
  }

  lemma PrecedenceIsPlace(code: Code)
    ensures 1 <= Precedence(code) <= |Registry()| && Registry()[Precedence(code) - 1] == code
  {
  }

  datatype Key = Key(code: Code, path: string)

  function KeyOf(d: Diagnostic): Key { Key(d.code, d.path) }

  predicate KeyLess(a: Key, b: Key) {
    if Precedence(a.code) != Precedence(b.code) then Precedence(a.code) < Precedence(b.code)
    else StringLess(a.path, b.path)
  }

  datatype Encountered = Encountered(index: nat, d: Diagnostic)

  predicate EncounterLess(a: Encountered, b: Encountered) {
    if Precedence(a.d.code) != Precedence(b.d.code) then Precedence(a.d.code) < Precedence(b.d.code)
    else if a.d.path != b.d.path then StringLess(a.d.path, b.d.path)
    else a.index < b.index
  }

  // Items in encounter order, numbered from one.
  function Numbered(ds: seq<Diagnostic>): (items: seq<Encountered>) {
    seq(|ds|, i requires 0 <= i < |ds| => Encountered(i + 1, ds[i]))
  }

  // The first item of each key, in encounter order.
  function Firsts(items: seq<Encountered>): seq<Encountered> {
    if items == [] then []
    else
      var n := |items| - 1;
      var rest := Firsts(items[..n]);
      if KeyOf(items[n].d) in KeySet(items[..n]) then rest else rest + [items[n]]
  }

  function KeySet(items: seq<Encountered>): set<Key> {
    set i | 0 <= i < |items| :: KeyOf(items[i].d)
  }

  function Contents(items: seq<Encountered>): (ds: seq<Diagnostic>)
    ensures |ds| == |items|
    ensures forall i :: 0 <= i < |ds| ==> ds[i] == items[i].d
  {
    if items == [] then [] else [items[0].d] + Contents(items[1..])
  }

  function Emitted(ds: seq<Diagnostic>): seq<Diagnostic> {
    Contents(Sort(Firsts(Numbered(ds)), EncounterLess))
  }

  function Keys(ds: seq<Diagnostic>): (ks: seq<Key>)
    ensures |ks| == |ds|
    ensures forall i :: 0 <= i < |ds| ==> ks[i] == KeyOf(ds[i])
  {
    if ds == [] then [] else [KeyOf(ds[0])] + Keys(ds[1..])
  }

  class DiagnosticSet {
    var items: seq<Encountered>
    var encounter: nat

    ghost predicate Valid()
      reads this
    {
      encounter == |items| && forall i :: 0 <= i < |items| ==> items[i].index == i + 1
    }

    ghost function Added(): seq<Diagnostic>
      reads this
    {
      Contents(items)
    }

    constructor ()
      ensures Valid() && Added() == []
    {
      items, encounter := [], 0;
    }

    method Add(d: Diagnostic)
      requires Valid()
      modifies this
      ensures Valid() && Added() == old(Added()) + [d]
    {
      encounter := encounter + 1;
      items := items + [Encountered(encounter, d)];
    }

    method Emit() returns (out: seq<Diagnostic>)
      requires Valid()
      ensures out == Emitted(Added())
      ensures |out| == 0 <==> |items| == 0
    {
      out := EmitItems(items);
      assert items == Numbered(Added());
    }
  }

  method AddAll(ds: DiagnosticSet, found: seq<Diagnostic>)
    requires ds.Valid()
    modifies ds
    ensures ds.Valid() && ds.Added() == old(ds.Added()) + found
  {
    assert found[..0] == [];
    for i := 0 to |found|
      invariant ds.Valid() && ds.Added() == old(ds.Added()) + found[..i]
    {
      ds.Add(found[i]);
      assert found[..i + 1] == found[..i] + [found[i]];
    }
    assert found[..|found|] == found;
  }

  // The first loop of emit, over the `seen` map.
  method Deduplicate(items: seq<Encountered>) returns (uniq: seq<Encountered>)
    ensures uniq == Firsts(items)
    ensures uniq == [] <==> items == []
  {
    var seen: set<Key> := {};
    uniq := [];
    for i := 0 to |items|
      invariant seen == KeySet(items[..i])
      invariant uniq == Firsts(items[..i])
      invariant i > 0 ==> uniq != []
    {
      var key := KeyOf(items[i].d);
      assert items[..i + 1][..i] == items[..i];
      KeySetSnoc(items, i);
      if key !in seen {
        seen := seen + {key};
        uniq := uniq + [items[i]];
      }
    }
    assert items[..|items|] == items;
  }

  method EmitItems(items: seq<Encountered>) returns (out: seq<Diagnostic>)
    ensures out == Contents(Sort(Firsts(items), EncounterLess))
    ensures |out| == 0 <==> |items| == 0
  {
    var uniq := Deduplicate(items);
    var sorted := Sort(uniq, EncounterLess);
    SortPermutes(uniq, EncounterLess);
    out := Unwrap(sorted);
  }

  // The last loop of emit.
  method Unwrap(sorted: seq<Encountered>) returns (out: seq<Diagnostic>)
    ensures out == Contents(sorted)
  {
    out := [];
    for i := 0 to |sorted|
      invariant |out| == i
      invariant forall j :: 0 <= j < i ==> out[j] == sorted[j].d
    {
      out := out + [sorted[i].d];
    }
    assert out == Contents(sorted);
  }

  lemma KeySetSnoc(items: seq<Encountered>, n: nat)
    requires n < |items|
    ensures KeySet(items[..n + 1]) == KeySet(items[..n]) + {KeyOf(items[n].d)}
  {
    var longer := items[..n + 1];
    assert longer[n] == items[n];
    forall k | k in KeySet(items[..n]) ensures k in KeySet(longer) {
      var i :| 0 <= i < n && KeyOf(items[..n][i].d) == k;
      assert longer[i] == items[..n][i];
    }
    forall k | k in KeySet(longer) ensures k in KeySet(items[..n]) + {KeyOf(items[n].d)} {
      var i :| 0 <= i < n + 1 && KeyOf(longer[i].d) == k;
      assert i < n ==> longer[i] == items[..n][i];
    }
  }

  // Every kept item is the first of its key; every key keeps one.
  lemma {:induction false} FirstsSpec(items: seq<Encountered>)
    ensures forall u :: u in Firsts(items) ==>
              exists i :: 0 <= i < |items| && items[i] == u && KeyOf(u.d) !in KeySet(items[..i])
    ensures KeySet(Firsts(items)) == KeySet(items)
    ensures forall i, j :: 0 <= i < j < |Firsts(items)| ==> KeyOf(Firsts(items)[i].d) != KeyOf(Firsts(items)[j].d)
  {
    if items != [] {
      var n := |items| - 1;
      var front := items[..n];
      FirstsSpec(front);
      KeySetSnoc(items, n);
      assert items[..n + 1] == items;
      var rest := Firsts(front);
      forall u | u in Firsts(items)
        ensures exists i :: 0 <= i < |items| && items[i] == u && KeyOf(u.d) !in KeySet(items[..i])
      {
        if u in rest {
          var i :| 0 <= i < |front| && front[i] == u && KeyOf(u.d) !in KeySet(front[..i]);
          assert items[..i] == front[..i] && items[i] == u;
        } else {
          assert u == items[n];
        }
      }
      if KeyOf(items[n].d) !in KeySet(front) {
        var all := rest + [items[n]];
        KeySetSnoc(all, |rest|);
        assert all[..|rest|] == rest && all[..|rest| + 1] == all;
        forall i, j | 0 <= i < j < |all| ensures KeyOf(all[i].d) != KeyOf(all[j].d) {
          if j == |rest| { assert KeyOf(rest[i].d) in KeySet(rest); }
        }
      }
    }
  }

  lemma EncounterLessIsStrictOrder()
    ensures StrictOrder(EncounterLess)
  {
    StringLessIsStrictTotal();
  }

  // Where an emitted entry was first added, and where an added entry is emitted.
  lemma FirstIndex(ds: seq<Diagnostic>, m: nat) returns (i: nat)
    requires m < |Emitted(ds)|
    ensures i < |ds| && ds[i] == Emitted(ds)[m]
    ensures forall j :: 0 <= j < i ==> KeyOf(ds[j]) != KeyOf(ds[i])
  {
    var items := Numbered(ds);
    var uniq := Firsts(items);
    var sorted := Sort(uniq, EncounterLess);
    FirstsSpec(items);
    SortPermutes(uniq, EncounterLess);
    PermutationSameElements(sorted, uniq);
    assert sorted[m] in uniq;
    i :| 0 <= i < |items| && items[i] == sorted[m] && KeyOf(sorted[m].d) !in KeySet(items[..i]);
    forall j | 0 <= j < i ensures KeyOf(ds[j]) != KeyOf(ds[i]) {
      assert KeyOf(items[..i][j].d) in KeySet(items[..i]);
    }
  }

  // The item kept for the key of item i.
  lemma FirstOfKey(items: seq<Encountered>, i: nat) returns (kept: Encountered)
    requires i < |items|
    ensures kept in Firsts(items) && KeyOf(kept.d) == KeyOf(items[i].d)
  {
    FirstsSpec(items);
    assert KeyOf(items[i].d) in KeySet(items);
    var uniq := Firsts(items);
    var k :| 0 <= k < |uniq| && KeyOf(uniq[k].d) == KeyOf(items[i].d);
    kept := uniq[k];
  }

  lemma EmittedIndex(ds: seq<Diagnostic>, i: nat) returns (m: nat)
    requires i < |ds|
    ensures m < |Emitted(ds)| && KeyOf(Emitted(ds)[m]) == KeyOf(ds[i])
  {
    var uniq := Firsts(Numbered(ds));
    var sorted := Sort(uniq, EncounterLess);
    var kept := FirstOfKey(Numbered(ds), i);
    m := SortedPlace(uniq, kept);
    assert Emitted(ds)[m] == sorted[m].d;
  }

  lemma SortedPlace(uniq: seq<Encountered>, kept: Encountered) returns (m: nat)
    requires kept in uniq
    ensures m < |Sort(uniq, EncounterLess)| && Sort(uniq, EncounterLess)[m] == kept
  {
    var sorted := Sort(uniq, EncounterLess);
    SortPermutes(uniq, EncounterLess);
    PermutationSameElements(sorted, uniq);
    assert kept in sorted;
    m :| 0 <= m < |sorted| && sorted[m] == kept;
  }

  // Distinct keys survive the sort.
  lemma SortedKeysDistinct(uniq: seq<Encountered>, sorted: seq<Encountered>)
    requires multiset(sorted) == multiset(uniq)
    requires forall i, j :: 0 <= i < j < |uniq| ==> KeyOf(uniq[i].d) != KeyOf(uniq[j].d)
    ensures forall i, j :: 0 <= i < j < |sorted| ==> KeyOf(sorted[i].d) != KeyOf(sorted[j].d)
  {
    assert Distinct(uniq);
    PermutationKeepsDistinct(uniq, sorted);
    PermutationSameElements(sorted, uniq);
    forall i, j | 0 <= i < j < |sorted| ensures KeyOf(sorted[i].d) != KeyOf(sorted[j].d) {
      assert sorted[i] in uniq && sorted[j] in uniq;
    }
  }

  lemma KeyLessIsStrictOrder()
    ensures StrictOrder(KeyLess)
  {
    StringLessIsStrictTotal();
  }

  lemma DistinctInOrder(a: Encountered, b: Encountered)
    requires !EncounterLess(b, a) && KeyOf(a.d) != KeyOf(b.d)
    ensures KeyLess(KeyOf(a.d), KeyOf(b.d))
  {
    StringLessTotal(a.d.path, b.d.path);
    PrecedenceInjective(a.d.code, b.d.code);
  }

  lemma SortedFirsts(ds: seq<Diagnostic>)
    ensures var sorted := Sort(Firsts(Numbered(ds)), EncounterLess);
            && Sorted(sorted, EncounterLess)
            && (forall i, j :: 0 <= i < j < |sorted| ==> KeyOf(sorted[i].d) != KeyOf(sorted[j].d))
            && (forall i :: 0 <= i < |sorted| ==> sorted[i].d in ds)
  {
    var items := Numbered(ds);
    var uniq := Firsts(items);
    var sorted := Sort(uniq, EncounterLess);
    FirstsSpec(items);
    SortPermutes(uniq, EncounterLess);
    EncounterLessIsStrictOrder();
    SortSorts(uniq, EncounterLess);
    SortedKeysDistinct(uniq, sorted);
    PermutationSameElements(sorted, uniq);
    forall i | 0 <= i < |sorted| ensures sorted[i].d in ds {
      assert sorted[i] in uniq;
      var k :| 0 <= k < |items| && items[k] == sorted[i];
      assert ds[k] == sorted[i].d;
    }
  }

  // Sorted by precedence, then path, with one entry per (code, path).
  lemma EmittedStrictlySorted(ds: seq<Diagnostic>)
    ensures StrictlySorted(Keys(Emitted(ds)), KeyLess)
  {
    SortedFirsts(ds);
    var sorted := Sort(Firsts(Numbered(ds)), EncounterLess);
    forall i, j | 0 <= i < j < |sorted| ensures KeyLess(Keys(Emitted(ds))[i], Keys(Emitted(ds))[j]) {
      assert sorted[i].d in ds && sorted[j].d in ds;
      DistinctInOrder(sorted[i], sorted[j]);
    }
  }

  // The codes come out in the order of the registry.
  lemma EmittedFollowsRegistry(ds: seq<Diagnostic>, i: nat, j: nat, a: nat, b: nat)
    requires i < j < |Emitted(ds)| && a < |Registry()| && b < |Registry()|
    requires Registry()[a] == Emitted(ds)[i].code && Registry()[b] == Emitted(ds)[j].code
    ensures a <= b
  {
    EmittedStrictlySorted(ds);
    assert KeyLess(Keys(Emitted(ds))[i], Keys(Emitted(ds))[j]);
    PlaceIsPrecedence(a);
    PlaceIsPrecedence(b);
  }

  lemma PlaceIsPrecedence(a: nat)
    requires a < |Registry()|
    ensures Precedence(Registry()[a]) == a + 1
  {
  }

  ghost predicate FirstAt(ds: seq<Diagnostic>, i: nat, d: Diagnostic) {
    i < |ds| && ds[i] == d && forall j :: 0 <= j < i ==> KeyOf(ds[j]) != KeyOf(d)
  }

  // Each emitted entry is the first one added with its (code, path).
  lemma EmittedKeepsFirst(ds: seq<Diagnostic>, m: nat)
    requires m < |Emitted(ds)|
    ensures exists i: nat :: FirstAt(ds, i, Emitted(ds)[m])
  {
    var i := FirstIndex(ds, m);
    assert FirstAt(ds, i, Emitted(ds)[m]);
  }

  // A single finding is emitted as it is.
  lemma EmittedOne(d: Diagnostic)
    ensures Emitted([d]) == [d]
  {
    var items := Numbered([d]);
    assert items == [Encountered(1, d)] && items[..0] == [];
    assert Firsts(items) == [] + [items[0]];
    assert Firsts(items) == items && items[1..] == [];
    assert Sort(items, EncounterLess) == items;
    assert Contents(items) == [d];
  }

  // Every added (code, path) is emitted, and nothing else.
  lemma EmittedSameKeys(ds: seq<Diagnostic>)
    ensures forall k :: k in Keys(Emitted(ds)) <==> k in Keys(ds)
  {
    forall k | k in Keys(ds) ensures k in Keys(Emitted(ds)) {
      var i :| 0 <= i < |ds| && Keys(ds)[i] == k;
      var m := EmittedIndex(ds, i);
      assert Keys(Emitted(ds))[m] == k;
    }
    forall k | k in Keys(Emitted(ds)) ensures k in Keys(ds) {
      var m :| 0 <= m < |Emitted(ds)| && Keys(Emitted(ds))[m] == k;
      var i := FirstIndex(ds, m);
      assert Keys(ds)[i] == k;
    }
  }

  // The emitted (code, path) sequence does not depend on the order of additions,
  // nor on how often each was added.
  lemma EmittedOrderIndependent(ds: seq<Diagnostic>, es: seq<Diagnostic>)
    requires forall k :: k in Keys(ds) <==> k in Keys(es)
    ensures Keys(Emitted(ds)) == Keys(Emitted(es))
  {
    EmittedStrictlySorted(ds);
    EmittedStrictlySorted(es);
    EmittedSameKeys(ds);
    EmittedSameKeys(es);
    KeyLessIsStrictOrder();
    StrictlySortedUnique(Keys(Emitted(ds)), Keys(Emitted(es)), KeyLess);
  }
}
