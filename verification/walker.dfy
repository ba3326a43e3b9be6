/**
 The parent-recording walker of walk/ast.go.

 `WalkNode` is a pre-order, depth-first traversal: it calls the visitor on a
 node, and only if the visitor answers `true` does it descend into the node's
 children, in the order `Syntax.Children` gives. Just before descending into a
 child it records `child -> node` in the parent map. The visitor threads an
 accumulator of the caller's choosing through the traversal (a fold), which is
 how the closures of the source keep their findings.

 In the source the parent map is one process-wide table that is emptied only
 at start-up (`Cleanup`); here every walk starts from an empty map and returns
 the map it built. Nodes are identified by their paths from the root.
 */
module Walker {
  import opened Syntax

  /** Child path to parent path. */
  type ParentMap = map<Path, Path>

  /** Called on each visited node with its path and the current accumulator;
      answers whether to descend into the node's children, and the new
      accumulator. */
  type Visitor<!A> = (Path, Node, A) -> (bool, A)

  datatype State<A> = State(parents: ParentMap, acc: A)

  /** `p` lies strictly inside the subtree at `at`. */
  predicate Below(at: Path, p: Path) {
    |at| < |p| && p[..|at|] == at
  }

  /** The path of the node that owns the field `p` was reached through. */
  function Parent(p: Path): Path
    requires p != []
  {
    p[..|p| - 1]
  }

  /** Visit `n` (found at `at`), then, unless the visitor prunes it, its
      children in order. */
  function WalkNode<A>(n: Node, at: Path, visit: Visitor<A>, s: State<A>): State<A>
    decreases Size(n), 1
  {
    var (more, acc) := visit(at, n, s.acc);
    if !more then State(s.parents, acc)
    else WalkChildren(n, 0, at, visit, State(s.parents, acc))
  }

  /** Walk the children of `n` from index `i` on, recording each child's
      parent just before walking into it. */
  function WalkChildren<A>(n: Node, i: nat, at: Path, visit: Visitor<A>, s: State<A>): State<A>
    requires i <= |Children(n)|
    decreases Size(n), 0, |Children(n)| - i
  {
    if i == |Children(n)| then s
    else
      ChildSmaller(n, i);
      var child := at + [i];
      var s' := WalkNode(Children(n)[i], child, visit, State(s.parents[child := at], s.acc));
      WalkChildren(n, i + 1, at, visit, s')
  }

  /** The walk of a whole tree, starting from an empty parent map. An absent
      tree is not visited at all. */
  function Walk<A>(root: Option<Node>, visit: Visitor<A>, acc: A): (r: State<A>)
    ensures root.None? ==> r.parents == map[] && r.acc == acc
  {
    match root
    case None => State(map[], acc)
    case Some(n) => WalkNode(n, [], visit, State(map[], acc))
  }

  /** The lookup of walk/ast.go: it always reports success; a node without an
      entry, or an absent node, has an absent parent. */
  function GetParent(parents: ParentMap, node: Option<Path>): (r: (Option<Path>, bool))
    ensures r.1
    ensures r.0.Some? <==> node.Some? && node.value in parents
    ensures r.0.Some? ==> r.0.value == parents[node.value]
  {
    if node.Some? && node.value in parents then (Some(parents[node.value]), true)
    else (None, true)
  }

  /** A visitor that never prunes, such as the one the scanner's first pass
      uses to fill the parent map. */
  ghost predicate NeverPrunes<A(!new)>(visit: Visitor<A>) {
    forall p, n, a :: visit(p, n, a).0
  }

  // ---------------------------------------------------------------------------
  // The parent map a walk builds.

  lemma BelowChild(at: Path, i: nat, k: Path)
    ensures Below(at + [i], k) <==> Below(at, k) && k[|at|] == i && |k| > |at| + 1
  {
    if Below(at + [i], k) {
      assert k[..|at|] == k[..|at| + 1][..|at|];
    }
    if Below(at, k) && k[|at|] == i && |k| > |at| + 1 {
      assert k[..|at| + 1] == k[..|at|] + [k[|at|]];
    }
  }

  /** The node at `k` below `at` lies in the subtree of child `k[|at|]`. */
  lemma NodeAtThroughChild(n: Node, at: Path, k: Path)
    requires Below(at, k)
    requires k[|at|] < |Children(n)|
    ensures NodeAt(n, k[|at|..]) == NodeAt(Children(n)[k[|at|]], k[|at| + 1..])
  {
    assert k[|at|..][0] == k[|at|];
    assert k[|at|..][1..] == k[|at| + 1..];
  }

  /** Every entry of `m` is still in `m'`, unchanged. */
  ghost predicate Keeps(m: ParentMap, m': ParentMap) {
    forall k :: k in m ==> k in m' && m'[k] == m[k]
  }

  /** Every entry of `m'` that `m` lacks is for a node strictly inside the
      subtree of `n` at `at`, from child index `from` on, and maps that node to
      its structural parent. */
  ghost predicate AddsBelow(n: Node, at: Path, from: nat, m: ParentMap, m': ParentMap) {
    forall k :: k in m' && k !in m ==>
      Below(at, k) && k[|at|] >= from && m'[k] == Parent(k) && NodeAt(n, k[|at|..]).Some?
  }

  /** Each child of `n` from index `from` on has an entry. */
  ghost predicate ChildrenRecorded(n: Node, at: Path, from: nat, m: ParentMap) {
    forall j :: from <= j < |Children(n)| ==> at + [j] in m
  }

  /** A walk of the subtree at `at` adds entries only for nodes strictly inside
      that subtree, each mapped to its structural parent, and keeps every entry
      it started with. If the visitor descends into the subtree's root, every
      child of the root gets an entry, whatever the visitor then does with
      that child; if the visitor prunes the root, no entry is added. */
  lemma {:induction false} WalkNodeParents<A>(n: Node, at: Path, visit: Visitor<A>, s: State<A>)
    requires forall k :: k in s.parents ==> !Below(at, k)
    ensures Keeps(s.parents, WalkNode(n, at, visit, s).parents)
    ensures AddsBelow(n, at, 0, s.parents, WalkNode(n, at, visit, s).parents)
    ensures visit(at, n, s.acc).0 ==> ChildrenRecorded(n, at, 0, WalkNode(n, at, visit, s).parents)
    ensures !visit(at, n, s.acc).0 ==> WalkNode(n, at, visit, s).parents == s.parents
    decreases Size(n), 1
  {
    var (more, acc) := visit(at, n, s.acc);
    if more {
      WalkChildrenParents(n, 0, at, visit, State(s.parents, acc));
    }
  }

  lemma {:induction false} WalkChildrenParents<A>(n: Node, i: nat, at: Path, visit: Visitor<A>, s: State<A>)
    requires i <= |Children(n)|
    requires forall k :: k in s.parents && Below(at, k) ==> k[|at|] < i
    ensures Keeps(s.parents, WalkChildren(n, i, at, visit, s).parents)
    ensures AddsBelow(n, at, i, s.parents, WalkChildren(n, i, at, visit, s).parents)
    ensures ChildrenRecorded(n, at, i, WalkChildren(n, i, at, visit, s).parents)
    decreases Size(n), 0, |Children(n)| - i
  {
    if i < |Children(n)| {
      ChildSmaller(n, i);
      var child := at + [i];
      var c := Children(n)[i];
      var s1 := State(s.parents[child := at], s.acc);
      FreshChild(at, i, s.parents);
      WalkNodeParents(c, child, visit, s1);
      var r1 := WalkNode(c, child, visit, s1);
      FreshAfterChild(c, at, i, s1.parents, r1.parents);
      WalkChildrenParents(n, i + 1, at, visit, r1);
      var r := WalkChildren(n, i + 1, at, visit, r1);
      assert r == WalkChildren(n, i, at, visit, s);
      StepAddsBelow(n, at, i, s.parents, r1.parents, r.parents);
    }
  }

  /** Before child `i` is walked, no entry lies below it. */
  lemma FreshChild(at: Path, i: nat, m: ParentMap)
    requires forall k :: k in m && Below(at, k) ==> k[|at|] < i
    ensures at + [i] !in m
    ensures forall k :: k in m[at + [i] := at] ==> !Below(at + [i], k)
    ensures forall k :: k in m[at + [i] := at] && Below(at, k) ==> k[|at|] < i + 1
  {
    assert Below(at, at + [i]) && (at + [i])[|at|] == i;
    forall k | k in m[at + [i] := at]
      ensures !Below(at + [i], k)
    {
      BelowChild(at, i, k);
    }
  }

  /** After child `i` is walked, no entry lies below a later child. */
  lemma FreshAfterChild(c: Node, at: Path, i: nat, m1: ParentMap, r1: ParentMap)
    requires forall k :: k in m1 && Below(at, k) ==> k[|at|] < i + 1
    requires AddsBelow(c, at + [i], 0, m1, r1)
    ensures forall k :: k in r1 && Below(at, k) ==> k[|at|] < i + 1
  {
    forall k | k in r1 && Below(at, k)
      ensures k[|at|] < i + 1
    {
      if k !in m1 {
        BelowChild(at, i, k);
      }
    }
  }

  /** The bookkeeping of one step of `WalkChildrenParents`: child `i` was
      recorded, its own walk added entries below it, later children added
      entries below themselves. */
  lemma StepAddsBelow(n: Node, at: Path, i: nat, m: ParentMap, m1: ParentMap, r: ParentMap)
    requires i < |Children(n)|
    requires at + [i] !in m
    requires Keeps(m[at + [i] := at], m1)
    requires AddsBelow(Children(n)[i], at + [i], 0, m[at + [i] := at], m1)
    requires Keeps(m1, r)
    requires AddsBelow(n, at, i + 1, m1, r)
    requires ChildrenRecorded(n, at, i + 1, r)
    ensures Keeps(m, r)
    ensures AddsBelow(n, at, i, m, r)
    ensures ChildrenRecorded(n, at, i, r)
  {
    var child := at + [i];
    assert child in m1;
    forall k | k in r && k !in m
      ensures Below(at, k) && k[|at|] >= i && r[k] == Parent(k) && NodeAt(n, k[|at|..]).Some?
    {
      if k == child {
        assert k[..|at|] == at;
        assert Parent(k) == at;
        assert k[|at|..] == [i];
      } else if k !in m1 {
      } else {
        assert k !in m[child := at];
        BelowChild(at, i, k);
        NodeAtThroughChild(n, at, k);
        assert k[|at| + 1..] == k[|child|..];
      }
    }
  }

  /** Every node strictly inside the subtree of `n` at `at` has an entry. */
  ghost predicate RecordsSubtree(n: Node, at: Path, m: ParentMap) {
    forall q :: q != [] && NodeAt(n, q).Some? ==> at + q in m
  }

  /** Every node in the subtrees of the children of `n` from index `from` on,
      the children included, has an entry. */
  ghost predicate RecordsChildSubtrees(n: Node, at: Path, from: nat, m: ParentMap) {
    forall j, q :: from <= j < |Children(n)| && NodeAt(Children(n)[j], q).Some? ==> at + [j] + q in m
  }

  /** With a visitor that never prunes, every node strictly inside the subtree
      at `at` gets an entry. */
  lemma {:induction false} WalkNodeComplete<A(!new)>(n: Node, at: Path, visit: Visitor<A>, s: State<A>)
    requires NeverPrunes(visit)
    requires forall k :: k in s.parents ==> !Below(at, k)
    ensures RecordsSubtree(n, at, WalkNode(n, at, visit, s).parents)
    decreases Size(n), 1
  {
    var (more, acc) := visit(at, n, s.acc);
    assert more;
    WalkChildrenComplete(n, 0, at, visit, State(s.parents, acc));
    ChildSubtreesAreSubtree(n, at, WalkNode(n, at, visit, s).parents);
  }

  lemma ChildSubtreesAreSubtree(n: Node, at: Path, m: ParentMap)
    requires RecordsChildSubtrees(n, at, 0, m)
    ensures RecordsSubtree(n, at, m)
  {
    forall q | q != [] && NodeAt(n, q).Some?
      ensures at + q in m
    {
      var j, rest := FirstStep(n, q);
      assert at + q == at + [j] + rest;
    }
  }

  /** A nonempty path to a node starts with a child's index and continues
      inside that child. */
  lemma FirstStep(n: Node, q: Path) returns (j: nat, rest: Path)
    requires q != [] && NodeAt(n, q).Some?
    ensures q == [j] + rest
    ensures j < |Children(n)| && NodeAt(Children(n)[j], rest).Some?
  {
    j, rest := q[0], q[1..];
  }

  lemma {:induction false} WalkChildrenComplete<A(!new)>(n: Node, i: nat, at: Path, visit: Visitor<A>, s: State<A>)
    requires NeverPrunes(visit)
    requires i <= |Children(n)|
    requires forall k :: k in s.parents && Below(at, k) ==> k[|at|] < i
    ensures RecordsChildSubtrees(n, at, i, WalkChildren(n, i, at, visit, s).parents)
    decreases Size(n), 0, |Children(n)| - i
  {
    if i < |Children(n)| {
      ChildSmaller(n, i);
      var child := at + [i];
      var c := Children(n)[i];
      var s1 := State(s.parents[child := at], s.acc);
      FreshChild(at, i, s.parents);
      WalkNodeParents(c, child, visit, s1);
      WalkNodeComplete(c, child, visit, s1);
      var r1 := WalkNode(c, child, visit, s1);
      FreshAfterChild(c, at, i, s1.parents, r1.parents);
      WalkChildrenParents(n, i + 1, at, visit, r1);
      WalkChildrenComplete(n, i + 1, at, visit, r1);
      var r := WalkChildren(n, i + 1, at, visit, r1);
      assert r == WalkChildren(n, i, at, visit, s);
      StepRecords(n, at, i, s1.parents, r1.parents, r.parents);
    }
  }

  /** The bookkeeping of one step of `WalkChildrenComplete`. */
  lemma StepRecords(n: Node, at: Path, i: nat, m1: ParentMap, r1: ParentMap, r: ParentMap)
    requires i < |Children(n)|
    requires at + [i] in m1
    requires Keeps(m1, r1)
    requires RecordsSubtree(Children(n)[i], at + [i], r1)
    requires Keeps(r1, r)
    requires RecordsChildSubtrees(n, at, i + 1, r)
    ensures RecordsChildSubtrees(n, at, i, r)
  {
    forall q | NodeAt(Children(n)[i], q).Some?
      ensures at + [i] + q in r
    {
      if q == [] {
        assert at + [i] + q == at + [i];
      }
    }
  }

  /** The parent of a node exists, and the node is its child at the index the
      path ends with. */
  lemma ParentOwnsChild(root: Node, p: Path)
    requires p != [] && NodeAt(root, p).Some?
    ensures NodeAt(root, Parent(p)).Some?
    ensures p[|p| - 1] < |Children(NodeAt(root, Parent(p)).value)|
    ensures Children(NodeAt(root, Parent(p)).value)[p[|p| - 1]] == NodeAt(root, p).value
  {
    assert p == Parent(p) + [p[|p| - 1]];
    NodeAtAppend(root, Parent(p), [p[|p| - 1]]);
  }

  /** After a walk that never prunes, such as the scanner's first pass: every
      node reached through a child field has an entry, naming the node that
      owns that field; the root and nothing else lacks one. */
  lemma FullWalkParents<A(!new)>(root: Node, visit: Visitor<A>, acc: A)
    requires NeverPrunes(visit)
    ensures forall p :: p in Walk(Some(root), visit, acc).parents <==> p != [] && NodeAt(root, p).Some?
    ensures forall p :: p in Walk(Some(root), visit, acc).parents ==>
      var parent := Walk(Some(root), visit, acc).parents[p];
      && parent == Parent(p)
      && NodeAt(root, parent).Some?
      && p[|p| - 1] < |Children(NodeAt(root, parent).value)|
      && Children(NodeAt(root, parent).value)[p[|p| - 1]] == NodeAt(root, p).value
  {
    var s := State(map[], acc);
    WalkNodeParents(root, [], visit, s);
    WalkNodeComplete(root, [], visit, s);
    RootParents(root, Walk(Some(root), visit, acc).parents);
  }

  /** A map built from nothing by a walk from the root that records the whole
      tree: its keys are the nodes other than the root, each mapped to the node
      that owns it. */
  lemma RootParents(root: Node, m: ParentMap)
    requires AddsBelow(root, [], 0, map[], m)
    requires RecordsSubtree(root, [], m)
    ensures forall p :: p in m <==> p != [] && NodeAt(root, p).Some?
    ensures forall p :: p in m ==>
      && m[p] == Parent(p)
      && NodeAt(root, m[p]).Some?
      && p[|p| - 1] < |Children(NodeAt(root, m[p]).value)|
      && Children(NodeAt(root, m[p]).value)[p[|p| - 1]] == NodeAt(root, p).value
  {
    RootKeys(root, m);
    forall p | p in m
      ensures NodeAt(root, Parent(p)).Some?
      ensures p[|p| - 1] < |Children(NodeAt(root, Parent(p)).value)|
      ensures Children(NodeAt(root, Parent(p)).value)[p[|p| - 1]] == NodeAt(root, p).value
    {
      ParentOwnsChild(root, p);
    }
  }

  lemma RootKeys(root: Node, m: ParentMap)
    requires AddsBelow(root, [], 0, map[], m)
    requires RecordsSubtree(root, [], m)
    ensures forall p :: p in m <==> p != [] && NodeAt(root, p).Some?
    ensures forall p :: p in m ==> p != [] && m[p] == Parent(p)
  {
    forall p | p in m
      ensures p != [] && NodeAt(root, p).Some? && m[p] == Parent(p)
    {
      assert p[0..] == p;
    }
    forall p | p != [] && NodeAt(root, p).Some?
      ensures p in m
    {
      assert [] + p == p;
    }
  }

  // ---------------------------------------------------------------------------
  // The order of the visitor's calls.

  /** `visit`, additionally logging the path of every node it is called on. */
  function Traced<A>(visit: Visitor<A>): Visitor<(seq<Path>, A)> {
    (p: Path, n: Node, la: (seq<Path>, A)) =>
      var (more, a) := visit(p, n, la.1);
      (more, (la.0 + [p], a))
  }

  lemma TracedCall<A>(visit: Visitor<A>, p: Path, n: Node, log: seq<Path>, a: A)
    ensures Traced(visit)(p, n, (log, a)) == (visit(p, n, a).0, (log + [p], visit(p, n, a).1))
  {
  }

  /** A walk only appends to the log, and its first call is on the root of
      the subtree it walks. */
  lemma {:induction false} NodeLogGrows<A>(n: Node, at: Path, visit: Visitor<A>, m: ParentMap, log: seq<Path>, a: A)
    ensures var t := WalkNode(n, at, Traced(visit), State(m, (log, a)));
      |t.acc.0| > |log| && t.acc.0[..|log|] == log && t.acc.0[|log|] == at
    decreases Size(n), 1
  {
    TracedCall(visit, at, n, log, a);
    var (more, a1) := visit(at, n, a);
    var log1 := log + [at];
    if more {
      ChildrenLogGrows(n, 0, at, visit, m, log1, a1);
      var t := WalkChildren(n, 0, at, Traced(visit), State(m, (log1, a1)));
      assert t == WalkNode(n, at, Traced(visit), State(m, (log, a)));
      assert t.acc.0[..|log|] == log1[..|log|];
      assert t.acc.0[|log|] == log1[|log|];
    } else {
      assert log1[..|log|] == log;
    }
  }

  lemma {:induction false} ChildrenLogGrows<A>(n: Node, i: nat, at: Path, visit: Visitor<A>, m: ParentMap, log: seq<Path>, a: A)
    requires i <= |Children(n)|
    ensures var t := WalkChildren(n, i, at, Traced(visit), State(m, (log, a)));
      |t.acc.0| >= |log| && t.acc.0[..|log|] == log
    decreases Size(n), 0, |Children(n)| - i
  {
    if i < |Children(n)| {
      ChildSmaller(n, i);
      var child := at + [i];
      var t1 := WalkNode(Children(n)[i], child, Traced(visit), State(m[child := at], (log, a)));
      NodeLogGrows(Children(n)[i], child, visit, m[child := at], log, a);
      assert t1 == State(t1.parents, (t1.acc.0, t1.acc.1));
      ChildrenLogGrows(n, i + 1, at, visit, t1.parents, t1.acc.0, t1.acc.1);
      var t := WalkChildren(n, i + 1, at, Traced(visit), t1);
      assert t == WalkChildren(n, i, at, Traced(visit), State(m, (log, a)));
      assert t.acc.0[..|log|] == t.acc.0[..|t1.acc.0|][..|log|];
    }
  }

  /** A call in either of two successive extensions of `log` is in the whole
      extension. */
  lemma InExtension(log: seq<Path>, s1: seq<Path>, s: seq<Path>, x: Path)
    requires |s1| >= |log| && s1[..|log|] == log
    requires |s| >= |s1| && s[..|s1|] == s1
    requires x in s1[|log|..] || x in s[|s1|..]
    ensures |s| >= |log| && x in s[|log|..]
  {
    assert s[|log|..] == s1[|log|..] + s[|s1|..];
  }

  // The pre-order of paths.

  /** `p` comes before `q` in pre-order: `p` is a proper prefix of `q`, or
      at the first index where the two differ `p` has the smaller child
      index. */
  predicate Precedes(p: Path, q: Path)
    decreases |p|
  {
    if p == [] then q != []
    else q != [] && (p[0] < q[0] || (p[0] == q[0] && Precedes(p[1..], q[1..])))
  }

  /** Each path strictly precedes every later one. */
  predicate InPreOrder(calls: seq<Path>) {
    forall k, l :: 0 <= k < l < |calls| ==> Precedes(calls[k], calls[l])
  }

  lemma {:induction false} PrecedesIrreflexive(p: Path)
    ensures !Precedes(p, p)
    decreases |p|
  {
    if p != [] {
      PrecedesIrreflexive(p[1..]);
    }
  }

  /** A sequence in pre-order repeats no path. */
  lemma InPreOrderDistinct(calls: seq<Path>)
    requires InPreOrder(calls)
    ensures forall k, l :: 0 <= k < l < |calls| ==> calls[k] != calls[l]
  {
    forall k, l | 0 <= k < l < |calls|
      ensures calls[k] != calls[l]
    {
      PrecedesIrreflexive(calls[k]);
    }
  }

  /** A node precedes every node strictly inside its subtree. */
  lemma {:induction false} PrefixPrecedes(at: Path, x: Path)
    requires Below(at, x)
    ensures Precedes(at, x)
    decreases |at|
  {
    if at != [] {
      assert x[1..][..|at| - 1] == at[1..];
      PrefixPrecedes(at[1..], x[1..]);
    }
  }

  /** Below a common node, everything under an earlier child precedes
      everything under a later one. */
  lemma {:induction false} BranchPrecedes(at: Path, x: Path, y: Path)
    requires Below(at, x) && Below(at, y) && x[|at|] < y[|at|]
    ensures Precedes(x, y)
    decreases |at|
  {
    if at != [] {
      assert x[0] == at[0] == y[0];
      assert x[1..][..|at| - 1] == at[1..] && y[1..][..|at| - 1] == at[1..];
      BranchPrecedes(at[1..], x[1..], y[1..]);
    }
  }

  lemma InPreOrderAppend(a: seq<Path>, b: seq<Path>)
    requires InPreOrder(a) && InPreOrder(b)
    requires forall k, l :: 0 <= k < |a| && 0 <= l < |b| ==> Precedes(a[k], b[l])
    ensures InPreOrder(a + b)
  {
    forall k, l | 0 <= k < l < |a + b|
      ensures Precedes((a + b)[k], (a + b)[l])
    {
      if l < |a| {
        assert (a + b)[k] == a[k] && (a + b)[l] == a[l];
      } else if k < |a| {
        assert (a + b)[k] == a[k] && (a + b)[l] == b[l - |a|];
      } else {
        assert (a + b)[k] == b[k - |a|] && (a + b)[l] == b[l - |a|];
      }
    }
  }

  // The calls of a walk.

  /** Every call is on a node strictly inside the subtree of `n` at `at`. */
  ghost predicate Inside(n: Node, at: Path, calls: seq<Path>) {
    forall k :: 0 <= k < |calls| ==> Below(at, calls[k]) && NodeAt(n, calls[k][|at|..]).Some?
  }

  /** Every call is on a node whose parent is `at` or was called on earlier. */
  ghost predicate ParentsFirst(at: Path, calls: seq<Path>) {
    forall k :: 0 <= k < |calls| ==>
      calls[k] != [] && (Parent(calls[k]) == at || Parent(calls[k]) in calls[..k])
  }

  /** The calls strictly inside the subtree of `n` at `at`, in pre-order. */
  ghost predicate BelowCalls(n: Node, at: Path, calls: seq<Path>) {
    Inside(n, at, calls) && ParentsFirst(at, calls) && InPreOrder(calls)
  }

  /** The calls `calls` of a walk of the subtree of `n` at `at` are in
      pre-order: the first is on `n` itself, every other call is on a node of
      the subtree, a node is called on only after its parent, and each call
      strictly precedes every later one in pre-order, so no node is called on
      twice. */
  ghost predicate PreOrderCalls(n: Node, at: Path, calls: seq<Path>) {
    && |calls| > 0 && calls[0] == at
    && Inside(n, at, calls[1..]) && ParentsFirst(at, calls[1..])
    && InPreOrder(calls)
  }

  /** Every call lies below a child of index `from` or later. */
  ghost predicate FromChild(at: Path, from: nat, calls: seq<Path>) {
    forall k :: 0 <= k < |calls| ==> |at| < |calls[k]| && calls[k][|at|] >= from
  }

  /** Each child of `n` from index `from` on is called on. */
  ghost predicate CoversChildren(n: Node, at: Path, from: nat, calls: seq<Path>) {
    forall j :: from <= j < |Children(n)| ==> at + [j] in calls
  }

  /** The calls of a walk of the children of `n` from index `from` on. */
  ghost predicate ChildCalls(n: Node, at: Path, from: nat, calls: seq<Path>) {
    BelowCalls(n, at, calls) && FromChild(at, from, calls) && CoversChildren(n, at, from, calls)
  }

  /** Logging the calls changes nothing else: the parent map and the
      accumulator come out as without the log. The log is extended by the
      walk's calls, in pre-order. When the visitor descends into the subtree's
      root, each of its children is called on, whatever the visitor does with
      the earlier ones; when it prunes the root, the root is the only call. */
  lemma {:induction false} TracedWalkNode<A>(n: Node, at: Path, visit: Visitor<A>, m: ParentMap, log: seq<Path>, a: A)
    ensures var r := WalkNode(n, at, visit, State(m, a));
      var t := WalkNode(n, at, Traced(visit), State(m, (log, a)));
      && t.parents == r.parents && t.acc.1 == r.acc
      && |t.acc.0| > |log| && t.acc.0[..|log|] == log
      && PreOrderCalls(n, at, t.acc.0[|log|..])
      && (visit(at, n, a).0 ==> CoversChildren(n, at, 0, t.acc.0[|log|..]))
      && (!visit(at, n, a).0 ==> t.acc.0[|log|..] == [at])
    decreases Size(n), 1
  {
    TracedCall(visit, at, n, log, a);
    var (more, a1) := visit(at, n, a);
    var log1 := log + [at];
    if more {
      TracedWalkChildren(n, 0, at, visit, m, log1, a1);
      var t := WalkChildren(n, 0, at, Traced(visit), State(m, (log1, a1)));
      assert t == WalkNode(n, at, Traced(visit), State(m, (log, a)));
      assert t.acc.0[|log|..] == [at] + t.acc.0[|log1|..];
      NodeCalls(n, at, t.acc.0[|log1|..]);
    } else {
      assert log1[|log|..] == [at];
    }
  }

  lemma {:induction false} TracedWalkChildren<A>(n: Node, i: nat, at: Path, visit: Visitor<A>, m: ParentMap, log: seq<Path>, a: A)
    requires i <= |Children(n)|
    ensures var r := WalkChildren(n, i, at, visit, State(m, a));
      var t := WalkChildren(n, i, at, Traced(visit), State(m, (log, a)));
      && t.parents == r.parents && t.acc.1 == r.acc
      && |t.acc.0| >= |log| && t.acc.0[..|log|] == log
      && ChildCalls(n, at, i, t.acc.0[|log|..])
    decreases Size(n), 0, |Children(n)| - i
  {
    if i == |Children(n)| {
      assert WalkChildren(n, i, at, Traced(visit), State(m, (log, a))).acc.0[|log|..] == [];
    } else {
      ChildSmaller(n, i);
      var child := at + [i];
      var c := Children(n)[i];
      var m1 := m[child := at];
      TracedWalkNode(c, child, visit, m1, log, a);
      var r1 := WalkNode(c, child, visit, State(m1, a));
      var t1 := WalkNode(c, child, Traced(visit), State(m1, (log, a)));
      TracedWalkChildren(n, i + 1, at, visit, r1.parents, t1.acc.0, r1.acc);
      var r := WalkChildren(n, i + 1, at, visit, r1);
      var t := WalkChildren(n, i + 1, at, Traced(visit), t1);
      assert t1 == State(r1.parents, (t1.acc.0, r1.acc));
      assert r == WalkChildren(n, i, at, visit, State(m, a));
      assert t == WalkChildren(n, i, at, Traced(visit), State(m, (log, a)));
      StepTraced(n, at, i, log, t1.acc.0, t.acc.0);
    }
  }

  /** The logs of one step of `TracedWalkChildren`: `log` extended to `s1` by
      child `i`'s walk, then to `s` by the later children's. */
  lemma StepTraced(n: Node, at: Path, i: nat, log: seq<Path>, s1: seq<Path>, s: seq<Path>)
    requires i < |Children(n)|
    requires |s1| > |log| && s1[..|log|] == log && PreOrderCalls(Children(n)[i], at + [i], s1[|log|..])
    requires |s| >= |s1| && s[..|s1|] == s1 && ChildCalls(n, at, i + 1, s[|s1|..])
    ensures |s| >= |log| && s[..|log|] == log && ChildCalls(n, at, i, s[|log|..])
  {
    assert s[|log|..] == s1[|log|..] + s[|s1|..];
    StepCalls(n, at, i, s1[|log|..], s[|s1|..]);
    assert s[..|log|] == s1[..|log|];
  }

  /** One step of `TracedWalkChildren`: the calls of child `i`'s walk followed
      by those of the later children. */
  lemma StepCalls(n: Node, at: Path, i: nat, mine: seq<Path>, rest: seq<Path>)
    requires i < |Children(n)|
    requires PreOrderCalls(Children(n)[i], at + [i], mine)
    requires ChildCalls(n, at, i + 1, rest)
    ensures ChildCalls(n, at, i, mine + rest)
  {
    ChildSubtreeCalls(n, at, i, mine);
    InsideAppend(n, at, mine, rest);
    ParentsFirstAppend(at, mine, rest);
    FromChildAppend(at, i, mine, rest);
    forall k, l | 0 <= k < |mine| && 0 <= l < |rest|
      ensures Precedes(mine[k], rest[l])
    {
      BranchPrecedes(at, mine[k], rest[l]);
    }
    InPreOrderAppend(mine, rest);
    assert (mine + rest)[0] == at + [i];
  }

  /** The calls of a walk of child `i` lie below that child, within the
      subtree of `n`. */
  lemma ChildSubtreeCalls(n: Node, at: Path, i: nat, mine: seq<Path>)
    requires i < |Children(n)|
    requires PreOrderCalls(Children(n)[i], at + [i], mine)
    ensures Inside(n, at, mine) && ParentsFirst(at, mine)
    ensures forall k :: 0 <= k < |mine| ==> |at| < |mine[k]| && mine[k][|at|] == i
  {
    var child := at + [i];
    var below := mine[1..];
    forall k | 0 <= k < |mine|
      ensures Below(at, mine[k]) && mine[k][|at|] == i && NodeAt(n, mine[k][|at|..]).Some?
    {
      var x := mine[k];
      if k == 0 {
        assert x[|at|..] == [i];
        assert x[..|at|] == at;
      } else {
        assert x == below[k - 1];
        BelowChild(at, i, x);
        NodeAtThroughChild(n, at, x);
        assert x[|at| + 1..] == x[|child|..];
      }
    }
    forall k | 0 <= k < |mine|
      ensures mine[k] != [] && (Parent(mine[k]) == at || Parent(mine[k]) in mine[..k])
    {
      if k == 0 {
        assert Parent(child) == at;
      } else {
        var x := below[k - 1];
        assert mine[k] == x;
        assert Parent(x) == child || Parent(x) in below[..k - 1];
        assert mine[..k] == [child] + below[..k - 1];
      }
    }
  }

  lemma InsideAppend(n: Node, at: Path, a: seq<Path>, b: seq<Path>)
    requires Inside(n, at, a) && Inside(n, at, b)
    ensures Inside(n, at, a + b)
  {
    forall k | 0 <= k < |a + b|
      ensures Below(at, (a + b)[k]) && NodeAt(n, (a + b)[k][|at|..]).Some?
    {
      if k >= |a| {
        assert (a + b)[k] == b[k - |a|];
      }
    }
  }

  lemma ParentsFirstAppend(at: Path, a: seq<Path>, b: seq<Path>)
    requires ParentsFirst(at, a) && ParentsFirst(at, b)
    ensures ParentsFirst(at, a + b)
  {
    forall k | 0 <= k < |a + b|
      ensures (a + b)[k] != [] && (Parent((a + b)[k]) == at || Parent((a + b)[k]) in (a + b)[..k])
    {
      if k < |a| {
        assert (a + b)[..k] == a[..k];
      } else {
        var x := b[k - |a|];
        assert (a + b)[k] == x;
        assert Parent(x) == at || Parent(x) in b[..k - |a|];
        assert (a + b)[..k] == a + b[..k - |a|];
      }
    }
  }

  /** Calls all below child `i`, then calls below children after `i`, are
      calls below children from `i` on. */
  lemma FromChildAppend(at: Path, i: nat, a: seq<Path>, b: seq<Path>)
    requires forall k :: 0 <= k < |a| ==> |at| < |a[k]| && a[k][|at|] == i
    requires FromChild(at, i + 1, b)
    ensures FromChild(at, i, a + b)
  {
    forall k | 0 <= k < |a + b|
      ensures |at| < |(a + b)[k]| && (a + b)[k][|at|] >= i
    {
      if k >= |a| {
        assert (a + b)[k] == b[k - |a|];
      }
    }
  }

  /** The calls of a walk that descends into the root: the root, then the
      children's calls. */
  lemma NodeCalls(n: Node, at: Path, rest: seq<Path>)
    requires ChildCalls(n, at, 0, rest)
    ensures PreOrderCalls(n, at, [at] + rest)
    ensures CoversChildren(n, at, 0, [at] + rest)
  {
    assert ([at] + rest)[1..] == rest;
    forall l | 0 <= l < |rest|
      ensures Precedes([at][0], rest[l])
    {
      PrefixPrecedes(at, rest[l]);
    }
    InPreOrderAppend([at], rest);
  }

  // ---------------------------------------------------------------------------
  // What the accumulator can become.

  /** Every call of `visit` on a node of the subtree of `n` at `at` keeps
      `inv` true of the accumulator. */
  ghost predicate KeepsOn<A(!new)>(n: Node, at: Path, visit: Visitor<A>, inv: A -> bool) {
    forall q, a :: NodeAt(n, q).Some? && inv(a) ==> inv(visit(at + q, NodeAt(n, q).value, a).1)
  }

  lemma KeepsOnChild<A(!new)>(n: Node, at: Path, visit: Visitor<A>, inv: A -> bool, i: nat)
    requires KeepsOn(n, at, visit, inv)
    requires i < |Children(n)|
    ensures KeepsOn(Children(n)[i], at + [i], visit, inv)
  {
    forall q, a | NodeAt(Children(n)[i], q).Some? && inv(a)
      ensures inv(visit(at + [i] + q, NodeAt(Children(n)[i], q).value, a).1)
    {
      assert ([i] + q)[0] == i && ([i] + q)[1..] == q;
      assert NodeAt(n, [i] + q) == NodeAt(Children(n)[i], q);
      assert at + [i] + q == at + ([i] + q);
    }
  }

  /** The accumulator changes only through the visitor: an invariant that
      every call on a node of the subtree keeps, the whole walk keeps. */
  lemma {:induction false} WalkKeeps<A(!new)>(n: Node, at: Path, visit: Visitor<A>, inv: A -> bool, s: State<A>)
    requires KeepsOn(n, at, visit, inv)
    requires inv(s.acc)
    ensures inv(WalkNode(n, at, visit, s).acc)
    decreases Size(n), 1
  {
    assert NodeAt(n, []) == Some(n) && at + [] == at;
    var (more, acc) := visit(at, n, s.acc);
    if more {
      WalkChildrenKeep(n, 0, at, visit, inv, State(s.parents, acc));
    }
  }

  lemma {:induction false} WalkChildrenKeep<A(!new)>(n: Node, i: nat, at: Path, visit: Visitor<A>, inv: A -> bool, s: State<A>)
    requires i <= |Children(n)|
    requires KeepsOn(n, at, visit, inv)
    requires inv(s.acc)
    ensures inv(WalkChildren(n, i, at, visit, s).acc)
    decreases Size(n), 0, |Children(n)| - i
  {
    if i < |Children(n)| {
      ChildSmaller(n, i);
      var child := at + [i];
      var s1 := State(s.parents[child := at], s.acc);
      KeepsOnChild(n, at, visit, inv, i);
      WalkKeeps(Children(n)[i], child, visit, inv, s1);
      WalkChildrenKeep(n, i + 1, at, visit, inv, WalkNode(Children(n)[i], child, visit, s1));
    }
  }

  // ---------------------------------------------------------------------------
  // The accumulator as a replay of the calls.

  /** The accumulator obtained by calling `visit`, in order, on the nodes of
      `root` at the paths `calls`, threading only the accumulator. */
  function Replay<A>(root: Node, visit: Visitor<A>, calls: seq<Path>, a: A): A
    decreases |calls|
  {
    if calls == [] then a
    else
      var next := match NodeAt(root, calls[0])
        case Some(n) => visit(calls[0], n, a).1
        case None => a;
      Replay(root, visit, calls[1..], next)
  }

  lemma {:induction false} ReplayAppend<A>(root: Node, visit: Visitor<A>, c1: seq<Path>, c2: seq<Path>, a: A)
    ensures Replay(root, visit, c1 + c2, a) == Replay(root, visit, c2, Replay(root, visit, c1, a))
    decreases |c1|
  {
    if c1 == [] {
      assert c1 + c2 == c2;
    } else {
      assert (c1 + c2)[0] == c1[0];
      assert (c1 + c2)[1..] == c1[1..] + c2;
      var next := match NodeAt(root, c1[0])
        case Some(n) => visit(c1[0], n, a).1
        case None => a;
      ReplayAppend(root, visit, c1[1..], c2, next);
    }
  }

  /** The accumulator a walk of the subtree at `at` of `root` hands back is
      the replay of the calls the walk made, as the log records them. */
  lemma {:induction false} WalkReplays<A>(root: Node, n: Node, at: Path, visit: Visitor<A>, m: ParentMap, log: seq<Path>, a: A)
    requires NodeAt(root, at) == Some(n)
    ensures var t := WalkNode(n, at, Traced(visit), State(m, (log, a)));
      && |t.acc.0| >= |log| && t.acc.0[..|log|] == log
      && t.acc.1 == Replay(root, visit, t.acc.0[|log|..], a)
    decreases Size(n), 1
  {
    TracedCall(visit, at, n, log, a);
    var (more, a1) := visit(at, n, a);
    var log1 := log + [at];
    if more {
      WalkChildrenReplay(root, n, 0, at, visit, m, log1, a1);
      var t := WalkChildren(n, 0, at, Traced(visit), State(m, (log1, a1)));
      assert t == WalkNode(n, at, Traced(visit), State(m, (log, a)));
      StepNodeReplay(root, visit, n, at, log, t.acc.0, a);
    } else {
      StepNodeReplay(root, visit, n, at, log, log1, a);
    }
  }

  /** A log that extends `log` by a call on `at` and then more: replaying the
      whole extension is replaying the call on `at`, then the rest. */
  lemma StepNodeReplay<A>(root: Node, visit: Visitor<A>, n: Node, at: Path, log: seq<Path>, s: seq<Path>, a: A)
    requires NodeAt(root, at) == Some(n)
    requires |s| > |log| && s[..|log| + 1] == log + [at]
    ensures s[..|log|] == log
    ensures Replay(root, visit, s[|log|..], a) == Replay(root, visit, s[|log| + 1..], visit(at, n, a).1)
  {
    var calls := s[|log|..];
    assert calls[0] == s[..|log| + 1][|log|] == at;
    assert calls[1..] == s[|log| + 1..];
    assert s[..|log|] == s[..|log| + 1][..|log|];
  }

  lemma {:induction false} WalkChildrenReplay<A>(root: Node, n: Node, i: nat, at: Path, visit: Visitor<A>, m: ParentMap, log: seq<Path>, a: A)
    requires NodeAt(root, at) == Some(n)
    requires i <= |Children(n)|
    ensures var t := WalkChildren(n, i, at, Traced(visit), State(m, (log, a)));
      && |t.acc.0| >= |log| && t.acc.0[..|log|] == log
      && t.acc.1 == Replay(root, visit, t.acc.0[|log|..], a)
    decreases Size(n), 0, |Children(n)| - i
  {
    if i == |Children(n)| {
      assert log[|log|..] == [];
    } else {
      ChildSmaller(n, i);
      var child := at + [i];
      var c := Children(n)[i];
      NodeAtAppend(root, at, [i]);
      assert [i][1..] == [];
      assert NodeAt(root, child) == Some(c);
      WalkReplays(root, c, child, visit, m[child := at], log, a);
      var t1 := WalkNode(c, child, Traced(visit), State(m[child := at], (log, a)));
      WalkChildrenReplay(root, n, i + 1, at, visit, t1.parents, t1.acc.0, t1.acc.1);
      assert t1 == State(t1.parents, (t1.acc.0, t1.acc.1));
      var t := WalkChildren(n, i + 1, at, Traced(visit), t1);
      assert t == WalkChildren(n, i, at, Traced(visit), State(m, (log, a)));
      StepReplay(root, visit, log, t1.acc.0, t.acc.0, a);
    }
  }

  /** The logs of one step of `WalkChildrenReplay`: `log` extended to `s1`,
      then to `s`; replaying the two extensions in turn is replaying the
      whole. */
  lemma StepReplay<A>(root: Node, visit: Visitor<A>, log: seq<Path>, s1: seq<Path>, s: seq<Path>, a: A)
    requires |s1| >= |log| && s1[..|log|] == log
    requires |s| >= |s1| && s[..|s1|] == s1
    ensures |s| >= |log| && s[..|log|] == log
    ensures Replay(root, visit, s[|log|..], a)
      == Replay(root, visit, s[|s1|..], Replay(root, visit, s1[|log|..], a))
  {
    assert s[|log|..] == s1[|log|..] + s[|s1|..];
    ReplayAppend(root, visit, s1[|log|..], s[|s1|..], a);
    assert s[..|log|] == s1[..|log|];
  }

  /** A visitor whose decision to descend does not depend on the accumulator,
      that leaves the accumulator as it is when it descends, and that replaces
      it by a value of its own, independent of the old one, when it prunes. */
  ghost predicate Overwrites<A(!new)>(visit: Visitor<A>) {
    forall p, n, a, b ::
      && visit(p, n, a).0 == visit(p, n, b).0
      && (visit(p, n, a).0 ==> visit(p, n, a).1 == a)
      && (!visit(p, n, a).0 ==> visit(p, n, a).1 == visit(p, n, b).1)
  }

  /** Whether `visit` prunes at the node of `root` at `p`. */
  predicate PrunesAt<A>(root: Node, visit: Visitor<A>, p: Path, a: A) {
    NodeAt(root, p).Some? && !visit(p, NodeAt(root, p).value, a).0
  }

  /** With an overwriting visitor, calls that all descend leave the
      accumulator as it was. */
  lemma {:induction false} ReplayNoPrune<A(!new)>(root: Node, visit: Visitor<A>, calls: seq<Path>, a: A)
    requires Overwrites(visit)
    requires forall k :: 0 <= k < |calls| ==> !PrunesAt(root, visit, calls[k], a)
    ensures Replay(root, visit, calls, a) == a
    decreases |calls|
  {
    if calls != [] {
      assert !PrunesAt(root, visit, calls[0], a);
      assert forall k :: 0 <= k < |calls[1..]| ==> calls[1..][k] == calls[k + 1];
      ReplayNoPrune(root, visit, calls[1..], a);
    }
  }

  /** With an overwriting visitor, the accumulator after a sequence of calls
      is the value the last pruning call put there. */
  lemma {:induction false} ReplayLastPrune<A(!new)>(root: Node, visit: Visitor<A>, calls: seq<Path>, a: A, k: nat)
    requires Overwrites(visit)
    requires k < |calls| && PrunesAt(root, visit, calls[k], a)
    requires forall l :: k < l < |calls| ==> !PrunesAt(root, visit, calls[l], a)
    ensures Replay(root, visit, calls, a) == visit(calls[k], NodeAt(root, calls[k]).value, a).1
    decreases |calls|
  {
    var rest := calls[1..];
    assert forall l :: 0 <= l < |rest| ==> rest[l] == calls[l + 1];
    var next := match NodeAt(root, calls[0])
      case Some(n) => visit(calls[0], n, a).1
      case None => a;
    assert Replay(root, visit, calls, a) == Replay(root, visit, rest, next);
    assert forall p :: PrunesAt(root, visit, p, next) == PrunesAt(root, visit, p, a);
    if k == 0 {
      ReplayNoPrune(root, visit, rest, next);
    } else {
      ReplayLastPrune(root, visit, rest, next, k - 1);
      var x := calls[k];
      assert visit(x, NodeAt(root, x).value, next).1 == visit(x, NodeAt(root, x).value, a).1;
    }
  }

  // ---------------------------------------------------------------------------
  // Which nodes a walk reaches.

  /** `visit` descends, whatever the accumulator, into every node of the
      subtree at `at` on the way from its root down to `q`, `q` excluded. */
  ghost predicate DescendsAlong<A(!new)>(n: Node, at: Path, visit: Visitor<A>, q: Path) {
    forall k, b :: 0 <= k < |q| && NodeAt(n, q[..k]).Some? ==>
      visit(at + q[..k], NodeAt(n, q[..k]).value, b).0
  }

  lemma DescendsAlongChild<A(!new)>(n: Node, at: Path, visit: Visitor<A>, q: Path)
    requires q != [] && q[0] < |Children(n)|
    requires DescendsAlong(n, at, visit, q)
    ensures DescendsAlong(Children(n)[q[0]], at + [q[0]], visit, q[1..])
  {
    var i := q[0];
    var c := Children(n)[i];
    forall k, b | 0 <= k < |q[1..]| && NodeAt(c, q[1..][..k]).Some?
      ensures visit(at + [i] + q[1..][..k], NodeAt(c, q[1..][..k]).value, b).0
    {
      var r := q[..k + 1];
      assert r[0] == i && r[1..] == q[1..][..k];
      assert NodeAt(n, r) == NodeAt(c, q[1..][..k]);
      assert at + r == at + [i] + q[1..][..k];
    }
  }

  /** A visitor that descends along a nonempty path descends into the root. */
  lemma DescendsAtRoot<A(!new)>(n: Node, at: Path, visit: Visitor<A>, q: Path, a: A)
    requires q != []
    requires DescendsAlong(n, at, visit, q)
    ensures visit(at, n, a).0
  {
    assert q[..0] == [] && at + q[..0] == at;
    assert NodeAt(n, q[..0]) == Some(n);
  }

  /** A call on `at + q`, found among the calls after the one on `at`, is
      among the calls from that one on. */
  lemma ReachedThroughChild(log: seq<Path>, at: Path, s: seq<Path>, q: Path)
    requires q != []
    requires |s| >= |log| + 1 && s[..|log| + 1] == log + [at]
    requires at + [q[0]] + q[1..] in s[|log| + 1..]
    ensures |s| >= |log| && at + q in s[|log|..]
  {
    assert at + [q[0]] + q[1..] == at + q;
    assert s[|log| + 1..] == s[|log|..][1..];
  }

  /** Every node to which the visitor descends all the way is called on,
      whatever the visitor does elsewhere. */
  lemma {:induction false} Reached<A(!new)>(n: Node, at: Path, visit: Visitor<A>, m: ParentMap, log: seq<Path>, a: A, q: Path)
    requires NodeAt(n, q).Some?
    requires DescendsAlong(n, at, visit, q)
    ensures var t := WalkNode(n, at, Traced(visit), State(m, (log, a)));
      |t.acc.0| >= |log| && at + q in t.acc.0[|log|..]
    decreases Size(n), 1
  {
    if q != [] {
      var i := q[0];
      DescendsAtRoot(n, at, visit, q, a);
      TracedCall(visit, at, n, log, a);
      var a1 := visit(at, n, a).1;
      var log1 := log + [at];
      DescendsAlongChild(n, at, visit, q);
      ReachedChildren(n, 0, at, visit, m, log1, a1, i, q[1..]);
      ChildrenLogGrows(n, 0, at, visit, m, log1, a1);
      var t := WalkChildren(n, 0, at, Traced(visit), State(m, (log1, a1)));
      assert t == WalkNode(n, at, Traced(visit), State(m, (log, a)));
      ReachedThroughChild(log, at, t.acc.0, q);
    } else {
      NodeLogGrows(n, at, visit, m, log, a);
      assert at + q == at;
      var t := WalkNode(n, at, Traced(visit), State(m, (log, a)));
      assert t.acc.0[|log|..][0] == at;
    }
  }

  lemma {:induction false} ReachedChildren<A(!new)>(n: Node, i: nat, at: Path, visit: Visitor<A>, m: ParentMap, log: seq<Path>, a: A, j: nat, q: Path)
    requires i <= j < |Children(n)|
    requires NodeAt(Children(n)[j], q).Some?
    requires DescendsAlong(Children(n)[j], at + [j], visit, q)
    ensures var t := WalkChildren(n, i, at, Traced(visit), State(m, (log, a)));
      |t.acc.0| >= |log| && at + [j] + q in t.acc.0[|log|..]
    decreases Size(n), 0, |Children(n)| - i
  {
    ChildSmaller(n, i);
    var child := at + [i];
    var c := Children(n)[i];
    var t1 := WalkNode(c, child, Traced(visit), State(m[child := at], (log, a)));
    NodeLogGrows(c, child, visit, m[child := at], log, a);
    assert t1 == State(t1.parents, (t1.acc.0, t1.acc.1));
    var t := WalkChildren(n, i + 1, at, Traced(visit), t1);
    assert t == WalkChildren(n, i, at, Traced(visit), State(m, (log, a)));
    ChildrenLogGrows(n, i + 1, at, visit, t1.parents, t1.acc.0, t1.acc.1);
    if i == j {
      Reached(c, child, visit, m[child := at], log, a, q);
    } else {
      ReachedChildren(n, i + 1, at, visit, t1.parents, t1.acc.0, t1.acc.1, j, q);
    }
    InExtension(log, t1.acc.0, t.acc.0, at + [j] + q);
  }

  /** The visitor's decision to descend does not depend on the accumulator. */
  ghost predicate DecidesAlone<A(!new)>(visit: Visitor<A>) {
    forall p, n, a, b :: visit(p, n, a).0 == visit(p, n, b).0
  }

  lemma DescendsAlongFromChild<A(!new)>(n: Node, at: Path, visit: Visitor<A>, q: Path)
    requires q != [] && q[0] < |Children(n)|
    requires forall b :: visit(at, n, b).0
    requires DescendsAlong(Children(n)[q[0]], at + [q[0]], visit, q[1..])
    ensures DescendsAlong(n, at, visit, q)
  {
    var i := q[0];
    var c := Children(n)[i];
    forall k, b | 0 <= k < |q| && NodeAt(n, q[..k]).Some?
      ensures visit(at + q[..k], NodeAt(n, q[..k]).value, b).0
    {
      if k == 0 {
        assert q[..0] == [] && at + q[..0] == at;
      } else {
        var r := q[1..][..k - 1];
        assert q[..k][0] == i && q[..k][1..] == r;
        assert NodeAt(n, q[..k]) == NodeAt(c, r);
        assert at + q[..k] == at + [i] + r;
      }
    }
  }

  /** The converse of `Reached`, for a visitor that decides alone: a node is
      called on only if the visitor descends, whatever the accumulator, into
      every node of the subtree on the way down to it. So nothing strictly
      below a pruned node is ever called on. */
  lemma {:induction false} Called<A(!new)>(n: Node, at: Path, visit: Visitor<A>, m: ParentMap, log: seq<Path>, a: A, x: Path)
    requires DecidesAlone(visit)
    requires var t := WalkNode(n, at, Traced(visit), State(m, (log, a)));
      |t.acc.0| >= |log| && x in t.acc.0[|log|..]
    ensures |at| <= |x| && x[..|at|] == at && DescendsAlong(n, at, visit, x[|at|..])
    decreases Size(n), 1
  {
    TracedCall(visit, at, n, log, a);
    var (more, a1) := visit(at, n, a);
    var log1 := log + [at];
    if more {
      ChildrenLogGrows(n, 0, at, visit, m, log1, a1);
      var t := WalkChildren(n, 0, at, Traced(visit), State(m, (log1, a1)));
      assert t == WalkNode(n, at, Traced(visit), State(m, (log, a)));
      SplitFirstCall(log, at, t.acc.0, x);
      if x == at {
        assert x[..|at|] == at && x[|at|..] == [];
      } else {
        CalledChildren(n, 0, at, visit, m, log1, a1, x);
        var q := x[|at|..];
        assert q[0] == x[|at|] && q[1..] == x[|at| + 1..];
        DescendsAlongFromChild(n, at, visit, q);
      }
    } else {
      assert log1[|log|..] == [at];
      assert x[..|at|] == at && x[|at|..] == [];
    }
  }

  lemma {:induction false} CalledChildren<A(!new)>(n: Node, i: nat, at: Path, visit: Visitor<A>, m: ParentMap, log: seq<Path>, a: A, x: Path)
    requires i <= |Children(n)|
    requires DecidesAlone(visit)
    requires var t := WalkChildren(n, i, at, Traced(visit), State(m, (log, a)));
      |t.acc.0| >= |log| && x in t.acc.0[|log|..]
    ensures |at| < |x| && x[..|at|] == at && i <= x[|at|] < |Children(n)|
    ensures DescendsAlong(Children(n)[x[|at|]], at + [x[|at|]], visit, x[|at| + 1..])
    decreases Size(n), 0, |Children(n)| - i
  {
    if i == |Children(n)| {
      assert false;
    } else {
      ChildSmaller(n, i);
      var child := at + [i];
      var c := Children(n)[i];
      var t1 := WalkNode(c, child, Traced(visit), State(m[child := at], (log, a)));
      NodeLogGrows(c, child, visit, m[child := at], log, a);
      assert t1 == State(t1.parents, (t1.acc.0, t1.acc.1));
      var t := WalkChildren(n, i + 1, at, Traced(visit), t1);
      assert t == WalkChildren(n, i, at, Traced(visit), State(m, (log, a)));
      ChildrenLogGrows(n, i + 1, at, visit, t1.parents, t1.acc.0, t1.acc.1);
      SplitCalls(log, t1.acc.0, t.acc.0, x);
      if x in t1.acc.0[|log|..] {
        Called(c, child, visit, m[child := at], log, a, x);
        UnderChild(at, i, x);
      } else {
        CalledChildren(n, i + 1, at, visit, t1.parents, t1.acc.0, t1.acc.1, x);
      }
    }
  }

  /** A call in the extension of `log` by a call on `at` and then more is the
      call on `at` or one of the later ones. */
  lemma SplitFirstCall(log: seq<Path>, at: Path, s: seq<Path>, x: Path)
    requires |s| > |log| && s[..|log| + 1] == log + [at]
    requires x in s[|log|..]
    ensures x == at || x in s[|log| + 1..]
  {
    assert s[|log|..] == [s[..|log| + 1][|log|]] + s[|log| + 1..];
  }

  /** A call in the extension of `log` to `s1` and then to `s` is in one of
      the two parts. */
  lemma SplitCalls(log: seq<Path>, s1: seq<Path>, s: seq<Path>, x: Path)
    requires |s1| >= |log| && s1[..|log|] == log
    requires |s| >= |s1| && s[..|s1|] == s1
    requires x in s[|log|..]
    ensures x in s1[|log|..] || x in s[|s1|..]
  {
    assert s[|log|..] == s1[|log|..] + s[|s1|..];
  }

  /** A path through child `i` of `at`, seen from `at`. */
  lemma UnderChild(at: Path, i: nat, x: Path)
    requires |at + [i]| <= |x| && x[..|at + [i]|] == at + [i]
    ensures |at| < |x| && x[..|at|] == at && x[|at|] == i
    ensures x[|at + [i]|..] == x[|at| + 1..]
  {
    assert x[..|at|] == x[..|at| + 1][..|at|];
    assert x[|at|] == x[..|at| + 1][|at|];
  }

  // ---------------------------------------------------------------------------
  // Which entries a walk records.

  /** An entry a walk adds is for a node to which the visitor descended all
      the way: nothing strictly below a pruned node gets an entry. */
  lemma {:induction false} RecordedDescends<A(!new)>(n: Node, at: Path, visit: Visitor<A>, s: State<A>, k: Path)
    requires DecidesAlone(visit)
    requires k in WalkNode(n, at, visit, s).parents && k !in s.parents
    ensures Below(at, k) && DescendsAlong(n, at, visit, k[|at|..])
    decreases Size(n), 1
  {
    var (more, acc) := visit(at, n, s.acc);
    if more {
      RecordedDescendsChildren(n, 0, at, visit, State(s.parents, acc), k);
      var q := k[|at|..];
      assert q[0] == k[|at|] && q[1..] == k[|at| + 1..];
      DescendsAlongFromChild(n, at, visit, q);
    } else {
      assert false;
    }
  }

  lemma {:induction false} RecordedDescendsChildren<A(!new)>(n: Node, i: nat, at: Path, visit: Visitor<A>, s: State<A>, k: Path)
    requires i <= |Children(n)|
    requires DecidesAlone(visit)
    requires k in WalkChildren(n, i, at, visit, s).parents && k !in s.parents
    ensures Below(at, k) && i <= k[|at|] < |Children(n)|
    ensures DescendsAlong(Children(n)[k[|at|]], at + [k[|at|]], visit, k[|at| + 1..])
    decreases Size(n), 0, |Children(n)| - i
  {
    if i == |Children(n)| {
      assert false;
    } else {
      ChildSmaller(n, i);
      var child := at + [i];
      var c := Children(n)[i];
      var s1 := State(s.parents[child := at], s.acc);
      var r1 := WalkNode(c, child, visit, s1);
      assert WalkChildren(n, i + 1, at, visit, r1) == WalkChildren(n, i, at, visit, s);
      if k !in r1.parents {
        RecordedDescendsChildren(n, i + 1, at, visit, r1, k);
      } else if k == child {
        RecordedChild(Children(n)[i], at, i, visit, k);
      } else {
        RecordedDescends(c, child, visit, s1, k);
        UnderChild(at, i, k);
      }
    }
  }

  /** The entry of child `i` itself asks nothing of the descent below it. */
  lemma RecordedChild<A(!new)>(c: Node, at: Path, i: nat, visit: Visitor<A>, k: Path)
    requires k == at + [i]
    ensures Below(at, k) && k[|at|] == i
    ensures DescendsAlong(c, at + [i], visit, k[|at| + 1..])
  {
    assert k[..|at|] == at;
    assert k[|at| + 1..] == [];
  }

  /** Conversely, every node to which the visitor descends all the way gets
      an entry, whatever the visitor does elsewhere. */
  lemma {:induction false} RecordsAlong<A(!new)>(n: Node, at: Path, visit: Visitor<A>, s: State<A>, q: Path)
    requires q != [] && NodeAt(n, q).Some?
    requires DescendsAlong(n, at, visit, q)
    requires forall k :: k in s.parents ==> !Below(at, k)
    ensures at + q in WalkNode(n, at, visit, s).parents
    decreases Size(n), 1
  {
    DescendsAtRoot(n, at, visit, q, s.acc);
    var acc := visit(at, n, s.acc).1;
    DescendsAlongChild(n, at, visit, q);
    RecordsAlongChildren(n, 0, at, visit, State(s.parents, acc), q[0], q[1..]);
    assert at + [q[0]] + q[1..] == at + q;
  }

  lemma {:induction false} RecordsAlongChildren<A(!new)>(n: Node, i: nat, at: Path, visit: Visitor<A>, s: State<A>, j: nat, q: Path)
    requires i <= j < |Children(n)|
    requires NodeAt(Children(n)[j], q).Some?
    requires DescendsAlong(Children(n)[j], at + [j], visit, q)
    requires forall k :: k in s.parents && Below(at, k) ==> k[|at|] < i
    ensures at + [j] + q in WalkChildren(n, i, at, visit, s).parents
    decreases Size(n), 0, |Children(n)| - i
  {
    ChildSmaller(n, i);
    var child := at + [i];
    var c := Children(n)[i];
    var s1 := State(s.parents[child := at], s.acc);
    FreshChild(at, i, s.parents);
    WalkNodeParents(c, child, visit, s1);
    var r1 := WalkNode(c, child, visit, s1);
    FreshAfterChild(c, at, i, s1.parents, r1.parents);
    assert WalkChildren(n, i + 1, at, visit, r1) == WalkChildren(n, i, at, visit, s);
    if i < j {
      RecordsAlongChildren(n, i + 1, at, visit, r1, j, q);
    } else {
      if q != [] {
        RecordsAlong(c, child, visit, s1, q);
      } else {
        assert at + [j] + q == child;
      }
      WalkChildrenParents(n, i + 1, at, visit, r1);
    }
  }

  /** The entries a walk adds are exactly the nodes strictly inside the
      subtree to which the visitor, deciding alone, descends all the way: a
      child of a node the visitor prunes, at any depth, gets no entry. */
  lemma NewEntries<A(!new)>(n: Node, at: Path, visit: Visitor<A>, s: State<A>, k: Path)
    requires DecidesAlone(visit)
    requires forall k :: k in s.parents ==> !Below(at, k)
    ensures k in WalkNode(n, at, visit, s).parents && k !in s.parents <==>
      Below(at, k) && NodeAt(n, k[|at|..]).Some? && DescendsAlong(n, at, visit, k[|at|..])
  {
    if k in WalkNode(n, at, visit, s).parents && k !in s.parents {
      WalkNodeParents(n, at, visit, s);
      RecordedDescends(n, at, visit, s, k);
    }
    if Below(at, k) && NodeAt(n, k[|at|..]).Some? && DescendsAlong(n, at, visit, k[|at|..]) {
      assert at + k[|at|..] == k;
      RecordsAlong(n, at, visit, s, k[|at|..]);
    }
  }
}
