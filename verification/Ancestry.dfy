/**
 * Finite partial orders of commits, as `git merge-base --is-ancestor` answers them.
 */
module Ancestry {

  // What the answers must satisfy among the given commits. Nothing is asked of the
  // answers for a commit and itself.
  ghost predicate PartialOrder(precedes: (string, string) -> bool, commits: seq<string>) {
    && (forall a, b :: a in commits && b in commits && precedes(a, b) && precedes(b, a) ==> a == b)
    && (forall a, b, c :: a in commits && b in commits && c in commits && precedes(a, b) && precedes(b, c) ==>
          precedes(a, c))
  }

  predicate StrictlyBelow(precedes: (string, string) -> bool, a: string, b: string) {
    a != b && precedes(a, b)
  }

  predicate Maximal(precedes: (string, string) -> bool, commits: seq<string>, a: string) {
    forall b :: b in commits ==> !StrictlyBelow(precedes, a, b)
  }

  function Above(precedes: (string, string) -> bool, commits: seq<string>, a: string): set<string> {
    set b | b in commits && StrictlyBelow(precedes, a, b)
  }

  lemma AboveShrinks(precedes: (string, string) -> bool, commits: seq<string>, a: string, b: string)
    requires PartialOrder(precedes, commits) && a in commits && b in commits
    requires StrictlyBelow(precedes, a, b)
    ensures Above(precedes, commits, b) < Above(precedes, commits, a)
  {
    assert b in Above(precedes, commits, a) && b !in Above(precedes, commits, b);
    forall c | c in Above(precedes, commits, b) ensures c in Above(precedes, commits, a) {
      assert precedes(a, c);
    }
  }

  lemma SmallerSet<T>(a: set<T>, b: set<T>)
    requires a < b
    ensures |a| < |b|
  {
    assert b == a + (b - a);
    assert |b| == |a| + |b - a|;
  }

  // Climbing ends: every commit is, or is below, a maximal one.
  lemma {:induction false} BelowSomeMaximal(precedes: (string, string) -> bool, commits: seq<string>, a: string)
    returns (top: string)
    requires PartialOrder(precedes, commits) && a in commits
    ensures top in commits && Maximal(precedes, commits, top)
    ensures top == a || StrictlyBelow(precedes, a, top)
    decreases |Above(precedes, commits, a)|
  {
    if Maximal(precedes, commits, a) {
      return a;
    }
    var b :| b in commits && StrictlyBelow(precedes, a, b);
    AboveShrinks(precedes, commits, a, b);
    SmallerSet(Above(precedes, commits, b), Above(precedes, commits, a));
    top := BelowSomeMaximal(precedes, commits, b);
    assert precedes(a, top);
  }

  ghost predicate OverAllOthers(precedes: (string, string) -> bool, commits: seq<string>, top: string) {
    top in commits && forall a :: a in commits && a != top ==> precedes(a, top)
  }

  // In a partial order, exactly one maximal commit and one commit over all the others
  // are the same thing.
  lemma SoleMaximalIsGreatest(precedes: (string, string) -> bool, commits: seq<string>, top: string)
    requires PartialOrder(precedes, commits) && top in commits
    ensures OverAllOthers(precedes, commits, top) <==>
              forall a :: a in commits ==> (Maximal(precedes, commits, a) <==> a == top)
  {
    if OverAllOthers(precedes, commits, top) {
      forall a | a in commits ensures Maximal(precedes, commits, a) <==> a == top {
        if a != top { assert StrictlyBelow(precedes, a, top); }
      }
    }
    if forall a :: a in commits ==> (Maximal(precedes, commits, a) <==> a == top) {
      forall a | a in commits && a != top ensures precedes(a, top) {
        var m := BelowSomeMaximal(precedes, commits, a);
      }
    }
  }
}
