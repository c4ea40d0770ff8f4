/**
 * The walk over a schema validator's error tree: an explicit stack in place of
 * recursion. What a leaf contributes is a parameter here.
 */
module ErrorTree {
  import opened Diagnostics
  import opened Ordering
  import JsonPointer

  // The error kinds the translator tells apart; `NilKind` is a nil interface or a
  // nil pointer in it.
  datatype Kind =
    | NilKind
    | Schema | Group | Reference
    | Required(missing: seq<string>)
    | AdditionalProperties(properties: seq<string>)
    | AnyOf | Type | Const | Enum | Pattern | Minimum | Format | MinLength
    | MaxItems(got: int, want: int)
    | MaxLength(got: int, want: int)
    | Other

  // A schema URL: the URL parser either rejects it or yields a base and a fragment.
  datatype SchemaUrl = Unparsable(raw: string) | Parsed(base: string, fragment: string)

  datatype Cause =
    | Nil
    | Cause(kind: Kind, location: seq<string>, url: SchemaUrl, causes: seq<Cause>)

  predicate IsWrapper(kind: Kind) { kind.Schema? || kind.Group? || kind.Reference? }

  type Leaf = Cause -> seq<Diagnostic>

  // ---- The recursive left-to-right walk ----

  function Walk(leaf: Leaf, node: Cause): seq<Diagnostic>
    decreases node, 0
  {
    if node.Nil? || node.kind.NilKind? then [New(Internal, "/", "malformed schema validation cause")]
    else if IsWrapper(node.kind) then
      if node.causes == [] then [New(SchemaViolation, JsonPointer.Encode(node.location), "empty wrapper")]
      else WalkAll(leaf, node.causes)
    else leaf(node)
  }

  function WalkAll(leaf: Leaf, causes: seq<Cause>): seq<Diagnostic>
    decreases causes, 1
  {
    if causes == [] then [] else Walk(leaf, causes[0]) + WalkAll(leaf, causes[1..])
  }

  // ---- The explicit stack ----

  function Size(node: Cause): nat
    decreases node, 0
  {
    if node.Nil? then 1 else 1 + SizeAll(node.causes)
  }

  function SizeAll(causes: seq<Cause>): nat
    decreases causes, 1
  {
    if causes == [] then 0 else Size(causes[0]) + SizeAll(causes[1..])
  }

  lemma {:induction false} SizeAllConcat(a: seq<Cause>, b: seq<Cause>)
    ensures SizeAll(a + b) == SizeAll(a) + SizeAll(b)
    decreases |a|
  {
    if a == [] {
      assert a + b == b;
    } else {
      SizeAllConcat(a[1..], b);
      assert (a + b)[1..] == a[1..] + b;
    }
  }

  lemma {:induction false} WalkAllConcat(leaf: Leaf, a: seq<Cause>, b: seq<Cause>)
    ensures WalkAll(leaf, a + b) == WalkAll(leaf, a) + WalkAll(leaf, b)
    decreases |a|
  {
    if a == [] {
      assert a + b == b;
    } else {
      var first, tail := Walk(leaf, a[0]), a[1..];
      WalkAllConcat(leaf, tail, b);
      WalkAllHead(leaf, a[0], tail, a);
      WalkAllHead(leaf, a[0], tail + b, a + b);
      Associate(first, WalkAll(leaf, tail), WalkAll(leaf, b));
    }
  }

  lemma WalkAllHead(leaf: Leaf, head: Cause, tail: seq<Cause>, causes: seq<Cause>)
    requires causes == [head] + tail
    ensures WalkAll(leaf, causes) == Walk(leaf, head) + WalkAll(leaf, tail)
  {
    assert causes[0] == head && causes[1..] == tail;
  }

  lemma Associate(a: seq<Diagnostic>, b: seq<Diagnostic>, c: seq<Diagnostic>)
    ensures a + (b + c) == a + b + c
  {
  }

  // The stack read from its top.
  function FromTop(stack: seq<Cause>): (s: seq<Cause>)
    ensures |s| == |stack|
    ensures forall i :: 0 <= i < |s| ==> s[i] == stack[|stack| - 1 - i]
  {
    seq(|stack|, i requires 0 <= i < |stack| => stack[|stack| - 1 - i])
  }

  // Pushing back to front puts the first cause on top.
  method PushReversed(stack: seq<Cause>, causes: seq<Cause>) returns (s: seq<Cause>)
    ensures FromTop(s) == causes + FromTop(stack)
  {
    s := stack;
    var i := |causes|;
    while i > 0
      invariant 0 <= i <= |causes|
      invariant FromTop(s) == causes[i..] + FromTop(stack)
    {
      i := i - 1;
      s := s + [causes[i]];
      assert FromTop(s) == [causes[i]] + FromTop(s[..|s| - 1]);
      assert s[..|s| - 1] + [causes[i]] == s;
      assert causes[i..] == [causes[i]] + causes[i + 1..];
    }
    assert causes[0..] == causes;
  }

  // What one visit adds itself, and what it leaves on the stack.
  function Own(leaf: Leaf, node: Cause): seq<Diagnostic> {
    if node.Nil? || node.kind.NilKind? then [New(Internal, "/", "malformed schema validation cause")]
    else if IsWrapper(node.kind) then
      if node.causes == [] then [New(SchemaViolation, JsonPointer.Encode(node.location), "empty wrapper")] else []
    else leaf(node)
  }

  function Below(node: Cause): seq<Cause> {
    if node.Cause? && IsWrapper(node.kind) then node.causes else []
  }

  lemma WalkUnfold(leaf: Leaf, node: Cause)
    ensures Walk(leaf, node) == Own(leaf, node) + WalkAll(leaf, Below(node))
    ensures SizeAll(Below(node)) < Size(node)
  {
  }

  method Visit(leaf: Leaf, node: Cause, stack: seq<Cause>, ds: DiagnosticSet) returns (s: seq<Cause>)
    requires ds.Valid()
    modifies ds
    ensures ds.Valid() && ds.Added() == old(ds.Added()) + Own(leaf, node)
    ensures FromTop(s) == Below(node) + FromTop(stack)
  {
    s := stack;
    if node.Nil? || node.kind.NilKind? {
      ds.Add(New(Internal, "/", "malformed schema validation cause"));
    } else if IsWrapper(node.kind) {
      if |node.causes| == 0 {
        ds.Add(New(SchemaViolation, JsonPointer.Encode(node.location), "empty wrapper"));
      } else {
        s := PushReversed(stack, node.causes);
      }
    } else {
      var found := leaf(node);
      AddAll(ds, found);
    }
  }

  // One visit moves the head of the pending walk into what was added.
  lemma VisitAdvances(leaf: Leaf, node: Cause, rest: seq<Cause>, added: seq<Diagnostic>)
    ensures added + WalkAll(leaf, [node] + rest) == added + Own(leaf, node) + WalkAll(leaf, Below(node) + rest)
    ensures SizeAll(Below(node) + rest) < SizeAll([node] + rest)
  {
    assert ([node] + rest)[1..] == rest;
    WalkUnfold(leaf, node);
    WalkAllConcat(leaf, Below(node), rest);
    SizeAllConcat(Below(node), rest);
    Regroup(added, Own(leaf, node), WalkAll(leaf, Below(node)), WalkAll(leaf, rest));
  }

  lemma Regroup(a: seq<Diagnostic>, b: seq<Diagnostic>, c: seq<Diagnostic>, d: seq<Diagnostic>)
    ensures a + (b + c + d) == a + b + (c + d)
  {
  }

  method WalkCauses(leaf: Leaf, causes: seq<Cause>, ds: DiagnosticSet)
    requires ds.Valid()
    modifies ds
    ensures ds.Valid()
    ensures ds.Added() == old(ds.Added()) + WalkAll(leaf, causes)
  {
    ghost var target := ds.Added() + WalkAll(leaf, causes);
    var stack := PushReversed([], causes);
    ghost var todo := causes;
    assert causes + FromTop([]) == causes;
    while |stack| > 0
      invariant ds.Valid()
      invariant todo == FromTop(stack)
      invariant ds.Added() + WalkAll(leaf, todo) == target
      decreases SizeAll(todo)
    {
      var last := |stack| - 1;
      var node := stack[last];
      ghost var rest := FromTop(stack[..last]);
      assert todo == [node] + rest;
      VisitAdvances(leaf, node, rest, ds.Added());
      stack := Visit(leaf, node, stack[..last], ds);
      todo := Below(node) + rest;
    }
    assert ds.Added() + [] == ds.Added();
  }

  // ---- The order in which the validator lists causes does not matter ----

  lemma {:induction false} WalkAllElements(leaf: Leaf, causes: seq<Cause>, d: Diagnostic)
    ensures d in WalkAll(leaf, causes) <==> exists i :: 0 <= i < |causes| && d in Walk(leaf, causes[i])
  {
    if causes != [] {
      WalkAllElements(leaf, causes[1..], d);
      if i :| 0 <= i < |causes| && d in Walk(leaf, causes[i]) {
        assert i > 0 ==> causes[i] == causes[1..][i - 1];
      }
      if i :| 0 <= i < |causes[1..]| && d in Walk(leaf, causes[1..][i]) {
        assert causes[1..][i] == causes[i + 1];
      }
    }
  }

  // The node is one of the causes, or below a wrapper that is.
  ghost predicate Reached(causes: seq<Cause>, node: Cause)
    decreases causes
  {
    exists i :: 0 <= i < |causes| &&
      (causes[i] == node || (causes[i].Cause? && IsWrapper(causes[i].kind) && Reached(causes[i].causes, node)))
  }

  // The walk reports what the nodes reached through wrappers have to say, and no more.
  lemma {:induction false} WalkAllReached(leaf: Leaf, causes: seq<Cause>, d: Diagnostic)
    ensures d in WalkAll(leaf, causes) <==> exists node :: Reached(causes, node) && d in Own(leaf, node)
    decreases causes
  {
    WalkAllElements(leaf, causes, d);
    if i :| 0 <= i < |causes| && d in Walk(leaf, causes[i]) {
      WalkUnfold(leaf, causes[i]);
      if d in Own(leaf, causes[i]) {
        assert Reached(causes, causes[i]);
      } else {
        WalkAllReached(leaf, Below(causes[i]), d);
        var node :| Reached(Below(causes[i]), node) && d in Own(leaf, node);
        assert Reached(causes, node);
      }
    }
    if node :| Reached(causes, node) && d in Own(leaf, node) {
      var i :| 0 <= i < |causes| &&
        (causes[i] == node || (causes[i].Cause? && IsWrapper(causes[i].kind) && Reached(causes[i].causes, node)));
      WalkUnfold(leaf, causes[i]);
      if causes[i] != node {
        WalkAllReached(leaf, Below(causes[i]), d);
      }
      assert d in Walk(leaf, causes[i]);
    }
  }

  // The same tree with the causes of any of its wrappers listed in another order.
  ghost predicate Reordered(a: Cause, b: Cause)
    decreases a, 0
  {
    || a == b
    || (&& a.Cause? && b.Cause? && IsWrapper(a.kind)
        && a == b.(causes := a.causes)
        && ReorderedAll(a.causes, b.causes))
  }

  ghost predicate ReorderedAll(xs: seq<Cause>, ys: seq<Cause>)
    decreases xs, 1
  {
    exists zs: seq<Cause> ::
      && multiset(zs) == multiset(ys)
      && |zs| == |xs|
      && forall i :: 0 <= i < |xs| ==> Reordered(xs[i], zs[i])
  }

  lemma {:induction false} ReorderedWalk(leaf: Leaf, a: Cause, b: Cause, k: Key)
    requires Reordered(a, b)
    ensures k in Keys(Walk(leaf, a)) <==> k in Keys(Walk(leaf, b))
    decreases a, 0
  {
    if a != b {
      var zs: seq<Cause> :| && multiset(zs) == multiset(b.causes) && |zs| == |a.causes|
                            && forall i :: 0 <= i < |a.causes| ==> Reordered(a.causes[i], zs[i]);
      assert |zs| == |multiset(zs)| == |multiset(b.causes)| == |b.causes|;
      ReorderedWalkAll(leaf, a.causes, zs, b.causes, k);
    }
  }

  // k is the key of something the walk of one of the causes reports.
  ghost predicate Reported(leaf: Leaf, causes: seq<Cause>, i: nat, k: Key) {
    i < |causes| && k in Keys(Walk(leaf, causes[i]))
  }

  lemma ReportedIff(leaf: Leaf, causes: seq<Cause>, k: Key)
    ensures k in Keys(WalkAll(leaf, causes)) <==> exists i: nat :: Reported(leaf, causes, i, k)
  {
    if k in Keys(WalkAll(leaf, causes)) {
      var d := KeyHeld(WalkAll(leaf, causes), k);
      WalkAllElements(leaf, causes, d);
      var i: nat :| 0 <= i < |causes| && d in Walk(leaf, causes[i]);
      KeyOfElement(Walk(leaf, causes[i]), d);
      assert Reported(leaf, causes, i, k);
    }
    forall i: nat | Reported(leaf, causes, i, k) ensures k in Keys(WalkAll(leaf, causes)) {
      var d := KeyHeld(Walk(leaf, causes[i]), k);
      WalkAllElements(leaf, causes, d);
      KeyOfElement(WalkAll(leaf, causes), d);
    }
  }

  lemma KeyHeld(diags: seq<Diagnostic>, k: Key) returns (d: Diagnostic)
    requires k in Keys(diags)
    ensures d in diags && KeyOf(d) == k
  {
    var n :| 0 <= n < |diags| && Keys(diags)[n] == k;
    d := diags[n];
  }

  lemma KeyOfElement(diags: seq<Diagnostic>, d: Diagnostic)
    requires d in diags
    ensures KeyOf(d) in Keys(diags)
  {
    var n :| 0 <= n < |diags| && diags[n] == d;
    assert Keys(diags)[n] == KeyOf(d);
  }

  lemma {:induction false} ReorderedWalkAll(leaf: Leaf, xs: seq<Cause>, zs: seq<Cause>, ys: seq<Cause>, k: Key)
    requires multiset(zs) == multiset(ys) && |zs| == |xs|
    requires forall i :: 0 <= i < |xs| ==> Reordered(xs[i], zs[i])
    ensures k in Keys(WalkAll(leaf, xs)) <==> k in Keys(WalkAll(leaf, ys))
    decreases xs, 1
  {
    ReportedIff(leaf, xs, k);
    ReportedIff(leaf, ys, k);
    PermutationSameElements(zs, ys);
    if i: nat :| Reported(leaf, xs, i, k) {
      ReorderedWalk(leaf, xs[i], zs[i], k);
      assert zs[i] in ys;
      var j: nat :| j < |ys| && ys[j] == zs[i];
      assert Reported(leaf, ys, j, k);
    }
    if j: nat :| Reported(leaf, ys, j, k) {
      assert ys[j] in zs;
      var i: nat :| i < |zs| && zs[i] == ys[j];
      ReorderedWalk(leaf, xs[i], zs[i], k);
      assert Reported(leaf, xs, i, k);
    }
  }

  // Reordering keeps whether there are causes at all.
  lemma ReorderedShape(a: Cause, b: Cause)
    requires Reordered(a, b) && a != b
    ensures a.Cause? && b.Cause? && a.kind == b.kind && (a.causes == [] <==> b.causes == [])
    ensures IsWrapper(a.kind)
  {
    var zs: seq<Cause> :| && multiset(zs) == multiset(b.causes) && |zs| == |a.causes|
                          && forall i :: 0 <= i < |a.causes| ==> Reordered(a.causes[i], zs[i]);
    assert |zs| == |multiset(zs)| == |multiset(b.causes)| == |b.causes|;
  }

  lemma ReorderedRoots(leaf: Leaf, a: Cause, b: Cause)
    requires Reordered(a, b) && a.Cause? && b.Cause?
    ensures Keys(Emitted(WalkAll(leaf, a.causes))) == Keys(Emitted(WalkAll(leaf, b.causes)))
  {
    if a != b {
      var zs: seq<Cause> :| && multiset(zs) == multiset(b.causes) && |zs| == |a.causes|
                            && forall i :: 0 <= i < |a.causes| ==> Reordered(a.causes[i], zs[i]);
      forall k ensures k in Keys(WalkAll(leaf, a.causes)) <==> k in Keys(WalkAll(leaf, b.causes)) {
        ReorderedWalkAll(leaf, a.causes, zs, b.causes, k);
      }
      EmittedOrderIndependent(WalkAll(leaf, a.causes), WalkAll(leaf, b.causes));
    }
  }

  // What a validation error as a whole amounts to: its root must be a schema wrapper
  // with causes.
  function RootFindings(leaf: Leaf, root: Cause): seq<Diagnostic> {
    if root.Nil? || root.causes == [] || !root.kind.Schema? then [MalformedRoot()] else WalkAll(leaf, root.causes)
  }

  function MalformedRoot(): Diagnostic {
    New(Internal, "/", "malformed schema validation root")
  }

  lemma RootOrderIndependent(leaf: Leaf, a: Cause, b: Cause)
    requires Reordered(a, b)
    ensures Keys(Emitted(RootFindings(leaf, a))) == Keys(Emitted(RootFindings(leaf, b)))
  {
    if a != b {
      ReorderedShape(a, b);
      ReorderedRoots(leaf, a, b);
    }
  }
}
