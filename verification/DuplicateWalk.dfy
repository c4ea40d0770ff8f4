/**
 * What the duplicate-member detector should report: a recursive walk of the document,
 * and apart from that walk where the repeated members of a document are.
 */
module DuplicateWalk {
  import opened Text
  import opened Json
  import opened Ordering
  import JsonPointer

  datatype Hit = Hit(path: string, key: string)

  // ---- What the detector should report: a recursive walk of the document. ----

  function Duplicates(v: Value, at: seq<string>): seq<Hit>
    decreases v, 0
  {
    match v
    case JArr(items) => ItemDuplicates(items, at, 0)
    case JObj(members) => MemberDuplicates(members, at, {})
    case _ => []
  }

  function ItemDuplicates(items: seq<Value>, at: seq<string>, index: nat): seq<Hit>
    decreases items, 1
  {
    if items == [] then []
    else Duplicates(items[0], at + [Decimal(index)]) + ItemDuplicates(items[1..], at, index + 1)
  }

  function MemberDuplicates(members: seq<Member>, at: seq<string>, seen: set<string>): seq<Hit>
    decreases members, 1
  {
    if members == [] then []
    else
      var key := members[0].key;
      (if key in seen then [Hit(JsonPointer.Encode(at + [key]), key)] else [])
      + Duplicates(members[0].value, at + [key])
      + MemberDuplicates(members[1..], at, seen + {key})
  }

  predicate HitLess(a: Hit, b: Hit) {
    if a.path != b.path then StringLess(a.path, b.path) else StringLess(a.key, b.key)
  }

  function MemberNames(members: seq<Member>): set<string> {
    set i | 0 <= i < |members| :: members[i].key
  }

  lemma KeysUnfold(members: seq<Member>)
    requires members != []
    ensures MemberNames(members) == {members[0].key} + MemberNames(members[1..])
  {
    var rest := members[1..];
    forall k | k in MemberNames(members) ensures k in {members[0].key} + MemberNames(rest) {
      var i :| 0 <= i < |members| && members[i].key == k;
      assert i == 0 || rest[i - 1].key == k;
    }
    forall k | k in MemberNames(rest) ensures k in MemberNames(members) {
      var i :| 0 <= i < |rest| && rest[i].key == k;
      assert members[i + 1].key == k;
    }
  }

  // ---- Where the repeated members are ----

  // Arrays and objects have children, each reached by a pointer token: the decimal of
  // its index, or the name of the member.
  function ChildCount(v: Value): nat {
    match v
    case JArr(items) => |items|
    case JObj(members) => |members|
    case _ => 0
  }

  function ChildAt(v: Value, n: nat): (c: Value)
    requires n < ChildCount(v)
    ensures c < v
  {
    if v.JArr? then v.items[n] else v.members[n].value
  }

  function TokenAt(v: Value, n: nat): string
    requires n < ChildCount(v)
  {
    if v.JArr? then Decimal(n) else v.members[n].key
  }

  // Child numbers lead from the root to an object, `member` is one of its members.
  datatype Place = Place(path: seq<nat>, member: nat)

  function Node(v: Value, path: seq<nat>): Option<Value>
    decreases |path|
  {
    if path == [] then Some(v)
    else if path[0] < ChildCount(v) then Node(ChildAt(v, path[0]), path[1..])
    else None
  }

  function TokensTo(v: Value, path: seq<nat>): seq<string>
    requires Node(v, path).Some?
    decreases |path|
  {
    if path == [] then [] else [TokenAt(v, path[0])] + TokensTo(ChildAt(v, path[0]), path[1..])
  }

  // An earlier member of the object has the same name.
  predicate RepeatsMember(v: Value, n: nat) {
    v.JObj? && n < |v.members| && exists i :: 0 <= i < n && v.members[i].key == v.members[n].key
  }

  predicate Repeats(v: Value, p: Place) {
    Node(v, p.path).Some? && RepeatsMember(Node(v, p.path).value, p.member)
  }

  // The hit for a repeated member: the pointer of its object and its name, and its name.
  function HitBelow(v: Value, at: seq<string>, p: Place): Hit
    requires Repeats(v, p)
  {
    var key := Node(v, p.path).value.members[p.member].key;
    Hit(JsonPointer.Encode(at + TokensTo(v, p.path) + [key]), key)
  }

  function HitOf(v: Value, p: Place): Hit
    requires Repeats(v, p)
  {
    var key := Node(v, p.path).value.members[p.member].key;
    Hit(JsonPointer.Encode(TokensTo(v, p.path) + [key]), key)
  }

  // ---- The walk finds each of them once ----

  // The repeated members below v from child n on, in the order of the walk.
  function Places(v: Value): seq<Place>
    decreases v, 1, 0
  {
    PlacesFrom(v, 0)
  }

  function PlacesFrom(v: Value, n: nat): seq<Place>
    requires n <= ChildCount(v)
    decreases v, 0, ChildCount(v) - n
  {
    if n == ChildCount(v) then [] else PlacesOf(v, n, Places(ChildAt(v, n))) + PlacesFrom(v, n + 1)
  }

  // Child n itself and the places below it.
  function PlacesOf(v: Value, n: nat, below: seq<Place>): seq<Place> {
    (if RepeatsMember(v, n) then [Place([], n)] else []) + Under(n, below)
  }

  function Under(n: nat, places: seq<Place>): (r: seq<Place>)
    ensures |r| == |places|
    ensures forall i :: 0 <= i < |r| ==> r[i] == Place([n] + places[i].path, places[i].member)
  {
    seq(|places|, i requires 0 <= i < |places| => Place([n] + places[i].path, places[i].member))
  }

  // The hits are those of the places, one by one.
  ghost predicate Matches(v: Value, at: seq<string>, hits: seq<Hit>, places: seq<Place>) {
    && |hits| == |places|
    && forall i :: 0 <= i < |places| ==> Repeats(v, places[i]) && hits[i] == HitBelow(v, at, places[i])
  }

  lemma MatchesConcat(v: Value, at: seq<string>, a: seq<Hit>, p: seq<Place>, b: seq<Hit>, q: seq<Place>)
    requires Matches(v, at, a, p) && Matches(v, at, b, q)
    ensures Matches(v, at, a + b, p + q)
  {
  }

  lemma BelowChild(v: Value, at: seq<string>, n: nat, p: Place)
    requires n < ChildCount(v) && Repeats(ChildAt(v, n), p)
    ensures var q := Place([n] + p.path, p.member);
            Repeats(v, q) && HitBelow(v, at, q) == HitBelow(ChildAt(v, n), at + [TokenAt(v, n)], p)
  {
    var path, tail := [n] + p.path, TokensTo(ChildAt(v, n), p.path);
    assert path[1..] == p.path;
    assert at + ([TokenAt(v, n)] + tail) == at + [TokenAt(v, n)] + tail;
  }

  lemma UnderMatches(v: Value, at: seq<string>, n: nat, hits: seq<Hit>, places: seq<Place>)
    requires n < ChildCount(v) && Matches(ChildAt(v, n), at + [TokenAt(v, n)], hits, places)
    ensures Matches(v, at, hits, Under(n, places))
  {
    forall i | 0 <= i < |places|
      ensures Repeats(v, Under(n, places)[i]) && hits[i] == HitBelow(v, at, Under(n, places)[i])
    {
      BelowChild(v, at, n, places[i]);
    }
  }

  lemma OwnMatches(v: Value, at: seq<string>, n: nat)
    requires RepeatsMember(v, n)
    ensures var key := v.members[n].key;
            Matches(v, at, [Hit(JsonPointer.Encode(at + [key]), key)], [Place([], n)])
  {
    assert at + TokensTo(v, []) == at;
  }

  lemma {:induction false} WalkMatches(v: Value, at: seq<string>)
    ensures Matches(v, at, Duplicates(v, at), Places(v))
    decreases v, 1, 0
  {
    match v
    case JArr(items) =>
      assert items[0..] == items;
      ItemsMatch(v, at, 0);
    case JObj(members) =>
      assert members[0..] == members && MemberNames(members[..0]) == {};
      MembersMatch(v, at, 0);
    case _ =>
  }

  lemma {:induction false} ItemsMatch(v: Value, at: seq<string>, n: nat)
    requires v.JArr? && n <= |v.items|
    ensures Matches(v, at, ItemDuplicates(v.items[n..], at, n), PlacesFrom(v, n))
    decreases v, 0, ChildCount(v) - n
  {
    if n < |v.items| {
      var found := Duplicates(v.items[n], at + [Decimal(n)]);
      WalkMatches(v.items[n], at + [Decimal(n)]);
      UnderMatches(v, at, n, found, Places(v.items[n]));
      ItemsMatch(v, at, n + 1);
      assert v.items[n..][1..] == v.items[n + 1..];
      assert PlacesOf(v, n, Places(v.items[n])) == Under(n, Places(v.items[n]));
      MatchesConcat(v, at, found, Under(n, Places(v.items[n])), ItemDuplicates(v.items[n + 1..], at, n + 1), PlacesFrom(v, n + 1));
    }
  }

  lemma RepeatsIffSeen(v: Value, n: nat)
    requires v.JObj? && n < |v.members|
    ensures RepeatsMember(v, n) <==> v.members[n].key in MemberNames(v.members[..n])
    ensures MemberNames(v.members[..n + 1]) == MemberNames(v.members[..n]) + {v.members[n].key}
  {
    var ms := v.members;
    assert forall i :: 0 <= i < n ==> ms[..n][i] == ms[i] && ms[..n + 1][i] == ms[i];
    assert ms[..n + 1][n] == ms[n];
    forall k | k in MemberNames(ms[..n + 1]) ensures k in MemberNames(ms[..n]) + {ms[n].key} {
      var i :| 0 <= i < n + 1 && ms[..n + 1][i].key == k;
      assert i < n ==> ms[..n][i].key == k;
    }
    forall k | k in MemberNames(ms[..n]) ensures k in MemberNames(ms[..n + 1]) {
      var i :| 0 <= i < n && ms[..n][i].key == k;
      assert ms[..n + 1][i].key == k;
    }
  }

  lemma {:induction false} MembersMatch(v: Value, at: seq<string>, n: nat)
    requires v.JObj? && n <= |v.members|
    ensures Matches(v, at, MemberDuplicates(v.members[n..], at, MemberNames(v.members[..n])), PlacesFrom(v, n))
    decreases v, 0, ChildCount(v) - n
  {
    if n < |v.members| {
      var m := v.members[n];
      WalkMatches(m.value, at + [m.key]);
      MemberMatches(v, at, n, Duplicates(m.value, at + [m.key]), Places(m.value));
      MembersMatch(v, at, n + 1);
      MemberStep(v, at, n);
      MatchesConcat(v, at, MemberHits(v, at, n), PlacesOf(v, n, Places(m.value)),
                    MemberDuplicates(v.members[n + 1..], at, MemberNames(v.members[..n + 1])), PlacesFrom(v, n + 1));
    }
  }

  // What the walk reports for member n and below it.
  function MemberHits(v: Value, at: seq<string>, n: nat): seq<Hit>
    requires v.JObj? && n < |v.members|
  {
    var m := v.members[n];
    (if RepeatsMember(v, n) then [Hit(JsonPointer.Encode(at + [m.key]), m.key)] else []) + Duplicates(m.value, at + [m.key])
  }

  lemma MemberStep(v: Value, at: seq<string>, n: nat)
    requires v.JObj? && n < |v.members|
    ensures MemberDuplicates(v.members[n..], at, MemberNames(v.members[..n])) ==
              MemberHits(v, at, n) + MemberDuplicates(v.members[n + 1..], at, MemberNames(v.members[..n + 1]))
  {
    RepeatsIffSeen(v, n);
    assert v.members[n..][0] == v.members[n] && v.members[n..][1..] == v.members[n + 1..];
  }

  lemma MemberMatches(v: Value, at: seq<string>, n: nat, found: seq<Hit>, below: seq<Place>)
    requires v.JObj? && n < |v.members| && found == Duplicates(v.members[n].value, at + [v.members[n].key])
    requires Matches(v.members[n].value, at + [v.members[n].key], found, below)
    ensures Matches(v, at, MemberHits(v, at, n), PlacesOf(v, n, below))
  {
    var key := v.members[n].key;
    UnderMatches(v, at, n, found, below);
    if RepeatsMember(v, n) {
      OwnMatches(v, at, n);
      MatchesConcat(v, at, [Hit(JsonPointer.Encode(at + [key]), key)], [Place([], n)], found, Under(n, below));
    } else {
      assert [] + found == found && [] + Under(n, below) == Under(n, below);
    }
  }

  // The child of v that a place is at or below.
  function Lead(p: Place): nat { if p.path == [] then p.member else p.path[0] }

  lemma {:induction false} PlacesComplete(v: Value, p: Place)
    requires Repeats(v, p)
    ensures p in Places(v)
    decreases |p.path|
  {
    var n := Lead(p);
    var below := Places(ChildAt(v, n));
    if p.path == [] {
      assert p == Place([], n) && p in PlacesOf(v, n, below);
    } else {
      var q := Place(p.path[1..], p.member);
      PlacesComplete(ChildAt(v, n), q);
      var i :| 0 <= i < |below| && below[i] == q;
      assert [n] + p.path[1..] == p.path;
      assert Under(n, below)[i] == p;
    }
    PlacesOfFound(v, 0, n, p);
  }

  lemma {:induction false} PlacesOfFound(v: Value, from: nat, n: nat, p: Place)
    requires from <= n < ChildCount(v) && p in PlacesOf(v, n, Places(ChildAt(v, n)))
    ensures p in PlacesFrom(v, from)
    decreases n - from
  {
    if from < n {
      PlacesOfFound(v, from + 1, n, p);
    }
  }

  lemma {:induction false} PlacesDistinct(v: Value)
    ensures Distinct(Places(v))
    decreases v, 1, 0
  {
    PlacesFromDistinct(v, 0);
  }

  lemma {:induction false} PlacesFromDistinct(v: Value, n: nat)
    requires n <= ChildCount(v)
    ensures Distinct(PlacesFrom(v, n)) && forall p :: p in PlacesFrom(v, n) ==> n <= Lead(p)
    decreases v, 0, ChildCount(v) - n
  {
    if n < ChildCount(v) {
      PlacesDistinct(ChildAt(v, n));
      PlacesFromDistinct(v, n + 1);
      PlacesOfDistinct(v, n, Places(ChildAt(v, n)));
      DistinctConcat(PlacesOf(v, n, Places(ChildAt(v, n))), PlacesFrom(v, n + 1));
    }
  }

  lemma PlacesOfDistinct(v: Value, n: nat, below: seq<Place>)
    requires Distinct(below)
    ensures Distinct(PlacesOf(v, n, below)) && forall p :: p in PlacesOf(v, n, below) ==> Lead(p) == n
  {
    var under := Under(n, below);
    forall i, j | 0 <= i < j < |under| ensures under[i] != under[j] {
      assert ([n] + below[i].path)[1..] == below[i].path && ([n] + below[j].path)[1..] == below[j].path;
    }
    DistinctConcat(if RepeatsMember(v, n) then [Place([], n)] else [], under);
  }

  lemma DistinctConcat<T>(a: seq<T>, b: seq<T>)
    requires Distinct(a) && Distinct(b) && forall x :: x in a ==> x !in b
    ensures Distinct(a + b)
  {
    forall i, j | 0 <= i < j < |a + b| ensures (a + b)[i] != (a + b)[j] {
      if i < |a| <= j { assert a[i] in a && b[j - |a|] in b; }
    }
  }

  function HitsOf(v: Value, places: seq<Place>): (hits: seq<Hit>)
    requires forall p :: p in places ==> Repeats(v, p)
    ensures |hits| == |places|
  {
    seq(|places|, i requires 0 <= i < |places| => assert places[i] in places; HitOf(v, places[i]))
  }

  // The list has one hit for every repeated member of the document, wherever that is,
  // and no other.
  ghost predicate ReportsAll(v: Value, hits: seq<Hit>) {
    exists places: seq<Place> ::
      && Distinct(places)
      && (forall p :: p in places <==> Repeats(v, p))
      && multiset(hits) == multiset(HitsOf(v, places))
  }

  lemma WalkReportsAll(v: Value)
    ensures ReportsAll(v, Duplicates(v, []))
  {
    var hits, places := Duplicates(v, []), Places(v);
    WalkMatches(v, []);
    PlacesDistinct(v);
    forall p ensures p in places <==> Repeats(v, p) {
      if Repeats(v, p) { PlacesComplete(v, p); }
    }
    forall i | 0 <= i < |places| ensures hits[i] == HitsOf(v, places)[i] {
      assert places[i] in places;
      assert [] + TokensTo(v, places[i].path) == TokensTo(v, places[i].path);
    }
    assert hits == HitsOf(v, places);
  }

  // A hit is reported if and only if it is that of some repeated member.
  lemma ReportedIff(v: Value, hits: seq<Hit>, h: Hit)
    requires ReportsAll(v, hits)
    ensures h in hits <==> exists p :: Repeats(v, p) && HitOf(v, p) == h
  {
    var places :| && Distinct(places) && (forall p :: p in places <==> Repeats(v, p))
                  && multiset(hits) == multiset(HitsOf(v, places));
    PermutationSameElements(hits, HitsOf(v, places));
    HitsOfIff(v, places, h);
  }

  lemma HitsOfIff(v: Value, places: seq<Place>, h: Hit)
    requires forall p :: p in places <==> Repeats(v, p)
    ensures h in HitsOf(v, places) <==> exists p :: Repeats(v, p) && HitOf(v, p) == h
  {
    var hits := HitsOf(v, places);
    if h in hits {
      var i :| 0 <= i < |places| && hits[i] == h;
      assert places[i] in places;
    }
    if p :| Repeats(v, p) && HitOf(v, p) == h {
      var i :| 0 <= i < |places| && places[i] == p;
      assert hits[i] == h;
    }
  }

  // ---- The order of the report ----

  lemma HitLessTransitive(a: Hit, b: Hit, c: Hit)
    requires HitLess(a, b) && HitLess(b, c)
    ensures HitLess(a, c)
  {
    if a.path == b.path && b.path == c.path {
      StringLessTransitive(a.key, b.key, c.key);
    } else if a.path != b.path && b.path != c.path {
      StringLessTransitive(a.path, b.path, c.path);
      if a.path == c.path { StringLessIrreflexive(a.path); }
    }
  }

  lemma HitLessTotal(a: Hit, b: Hit)
    ensures !HitLess(a, a)
    ensures a == b || HitLess(a, b) || HitLess(b, a)
  {
    StringLessIrreflexive(a.key);
    StringLessTotal(a.path, b.path);
    StringLessTotal(a.key, b.key);
  }

  lemma HitLessIsStrictTotal()
    ensures StrictTotal(HitLess)
  {
    forall a, b: Hit ensures !HitLess(a, a) && (a == b || HitLess(a, b) || HitLess(b, a)) {
      HitLessTotal(a, b);
    }
    forall a, b, c: Hit | HitLess(a, b) && HitLess(b, c) ensures HitLess(a, c) {
      HitLessTransitive(a, b, c);
    }
  }

  ghost predicate SortedByPath(hits: seq<Hit>) {
    forall i, j :: 0 <= i < j < |hits| ==> !StringLess(hits[j].path, hits[i].path)
  }

  lemma SortedReport(v: Value)
    ensures var hits := Sort(Duplicates(v, []), HitLess); ReportsAll(v, hits) && SortedByPath(hits)
  {
    HitLessIsStrictTotal();
    WalkReportsAll(v);
    SortPermutes(Duplicates(v, []), HitLess);
    SortSorts(Duplicates(v, []), HitLess);
    var hits := Sort(Duplicates(v, []), HitLess);
    forall i, j | 0 <= i < j < |hits| ensures !StringLess(hits[j].path, hits[i].path) {
      assert !HitLess(hits[j], hits[i]);
      StringLessIrreflexive(hits[i].path);
    }
  }

  // The order of the report is fixed: any sorted arrangement of the hits of the
  // recursive walk, however it was produced, is the list returned.
  lemma SortedHitsUnique(v: Value, hits: seq<Hit>)
    requires Sorted(hits, HitLess) && multiset(hits) == multiset(Duplicates(v, []))
    ensures hits == Sort(Duplicates(v, []), HitLess)
  {
    HitLessIsStrictTotal();
    SortSorts(Duplicates(v, []), HitLess);
    SortPermutes(Duplicates(v, []), HitLess);
    SortedPermutationUnique(hits, Sort(Duplicates(v, []), HitLess), HitLess);
  }

  // Nothing is reported exactly when no object at any depth repeats a name.
  lemma {:induction false} NoDuplicatesIff(v: Value, at: seq<string>)
    ensures Duplicates(v, at) == [] <==> DuplicateFree(v)
    decreases v, 0
  {
    match v
    case JArr(items) => NoItemDuplicatesIff(items, at, 0);
    case JObj(members) => NoMemberDuplicatesIff(members, at, {});
    case _ =>
  }

  lemma {:induction false} NoItemDuplicatesIff(items: seq<Value>, at: seq<string>, index: nat)
    ensures ItemDuplicates(items, at, index) == [] <==>
            forall i :: 0 <= i < |items| ==> DuplicateFree(items[i])
    decreases items, 1
  {
    if items != [] {
      NoDuplicatesIff(items[0], at + [Decimal(index)]);
      NoItemDuplicatesIff(items[1..], at, index + 1);
      assert forall i :: 0 < i < |items| ==> items[i] == items[1..][i - 1];
      assert forall i :: 0 <= i < |items[1..]| ==> items[1..][i] == items[i + 1];
    }
  }

  ghost predicate FreshKeys(members: seq<Member>, seen: set<string>) {
    && (forall i :: 0 <= i < |members| ==> members[i].key !in seen)
    && (forall i, j :: 0 <= i < j < |members| ==> members[i].key != members[j].key)
  }

  lemma FreshKeysUnfold(members: seq<Member>, seen: set<string>)
    requires members != []
    ensures FreshKeys(members, seen) <==>
            members[0].key !in seen && FreshKeys(members[1..], seen + {members[0].key})
  {
    var rest := members[1..];
    assert forall i :: 0 <= i < |rest| ==> rest[i] == members[i + 1];
    if FreshKeys(rest, seen + {members[0].key}) && members[0].key !in seen {
      forall i, j | 0 <= i < j < |members| ensures members[i].key != members[j].key {
        assert members[j] == rest[j - 1];
        if i > 0 { assert members[i] == rest[i - 1]; }
      }
      forall i | 0 <= i < |members| ensures members[i].key !in seen {
        if i > 0 { assert members[i] == rest[i - 1]; }
      }
    }
  }

  lemma {:induction false} NoMemberDuplicatesIff(members: seq<Member>, at: seq<string>, seen: set<string>)
    ensures MemberDuplicates(members, at, seen) == [] <==>
            FreshKeys(members, seen) && forall i :: 0 <= i < |members| ==> DuplicateFree(members[i].value)
    decreases members, 1
  {
    if members != [] {
      var key := members[0].key;
      FreshKeysUnfold(members, seen);
      NoDuplicatesIff(members[0].value, at + [key]);
      NoMemberDuplicatesIff(members[1..], at, seen + {key});
      assert forall i :: 0 < i < |members| ==> members[i] == members[1..][i - 1];
      assert forall i :: 0 <= i < |members[1..]| ==> members[1..][i] == members[i + 1];
    }
  }
}
