/**
 The tarfile-extraction detector of scanner/creosote.go.

 A scan makes two walks over a parsed module. The first, whose visitor never
 prunes, fills the parent map. The second carries the detector: on an
 attribute access named `extractall` or `extract` it climbs three ancestors
 from the attribute (the call P wrapping it, then PP, then PPP) and either
 classifies the occurrence, which replaces the scan's finding and prunes the
 attribute's subtree, or lets the walk go on. Whatever the last classification
 was when the walk ends is the file's result.
 */
module Creosote {
  import opened Syntax
  import opened Walker

  /** The classification of a file, from clean to dangerous. */
  datatype ScanState = OK | PotentialThreat | Threat

  /** The numbering of the source, where the states are consecutive unsigned
      constants starting at 1. */
  function Code(s: ScanState): nat {
    match s
    case OK => 1
    case PotentialThreat => 2
    case Threat => 3
  }

  function FromCode(c: nat): Option<ScanState> {
    if c == 1 then Some(OK)
    else if c == 2 then Some(PotentialThreat)
    else if c == 3 then Some(Threat)
    else None
  }

  /** The numbering orders the states by severity, and only 1, 2 and 3 name a
      state. */
  lemma CodeOrdersStates(s: ScanState, c: nat)
    ensures FromCode(Code(s)) == Some(s)
    ensures FromCode(c).Some? <==> 1 <= c <= 3
    ensures FromCode(c).Some? ==> Code(FromCode(c).value) == c
    ensures Code(OK) < Code(PotentialThreat) < Code(Threat)
  {
  }

  /** What a scan reports: the state and the line it was found at. */
  datatype Finding = Finding(line: int, state: ScanState)

  // ---------------------------------------------------------------------------
  // checkOpen and checkgetmembers

  /** The detector closure of `checkOpen` and `checkgetmembers`: record one
      mark per attribute access named `name`, not descending into one once
      found. */
  function AttrFinder(name: string): Visitor<seq<bool>> {
    (p: Path, n: Node, marks: seq<bool>) => if IsAttr(n, name) then (false, marks + [true]) else (true, marks)
  }

  /** The finder's count grows exactly when the attribute occurs in the subtree. */
  lemma {:induction false} FinderFinds(n: Node, at: Path, name: string, s: State<seq<bool>>)
    ensures |WalkNode(n, at, AttrFinder(name), s).acc| >= |s.acc|
    ensures |WalkNode(n, at, AttrFinder(name), s).acc| > |s.acc| <==> Occurs(n, name)
    decreases Size(n), 1
  {
    OccursStep(n, name);
    if !IsAttr(n, name) {
      FinderFindsInChildren(n, 0, at, name, s);
    }
  }

  lemma {:induction false} FinderFindsInChildren(n: Node, i: nat, at: Path, name: string, s: State<seq<bool>>)
    requires i <= |Children(n)|
    ensures |WalkChildren(n, i, at, AttrFinder(name), s).acc| >= |s.acc|
    ensures |WalkChildren(n, i, at, AttrFinder(name), s).acc| > |s.acc| <==>
      exists j :: i <= j < |Children(n)| && Occurs(Children(n)[j], name)
    decreases Size(n), 0, |Children(n)| - i
  {
    if i < |Children(n)| {
      ChildSmaller(n, i);
      var child := at + [i];
      var s1 := State(s.parents[child := at], s.acc);
      FinderFinds(Children(n)[i], child, name, s1);
      var r1 := WalkNode(Children(n)[i], child, AttrFinder(name), s1);
      FinderFindsInChildren(n, i + 1, at, name, r1);
    }
  }

  /** Whether the finder for `name` found anything in the tree `a`. */
  function Found(a: Option<Node>, name: string): (r: bool)
    ensures r <==> a.Some? && Occurs(a.value, name)
  {
    var marks := Walk(a, AttrFinder(name), []).acc;
    if a.Some? then
      FinderFinds(a.value, [], name, State(map[], []));
      |marks| > 0
    else |marks| > 0
  }

  /** `checkOpen`: `Threat` if an access to an attribute `open` occurs anywhere
      in the tree, `PotentialThreat` otherwise, never `OK`. */
  function CheckOpen(a: Option<Node>): (r: ScanState)
    ensures r != OK
    ensures r == Threat <==> a.Some? && Occurs(a.value, "open")
  {
    if Found(a, "open") then Threat else PotentialThreat
  }

  /** `checkgetmembers`: whether `getmembers` is accessed in the iterable of
      the loop; its target and body are not looked at. */
  function CheckGetMembers(forNode: Node): (ok: bool)
    requires forNode.kind.For?
    ensures ok <==> Occurs(forNode.kind.iter, "getmembers")
  {
    Found(Some(forNode.kind.iter), "getmembers")
  }

  // ---------------------------------------------------------------------------
  // The extractall rules

  /** A string literal containing the letter r. */
  predicate IsReadMode(n: Node) {
    n.kind.Str? && 'r' in n.kind.s
  }

  /** A keyword argument `mode=` whose value is a string literal containing r. */
  predicate IsReadModeKeyword(k: Node) {
    k.kind.Keyword? && k.kind.arg == "mode" && IsReadMode(k.kind.value)
  }

  /** The verdict on the arguments of an `.open(...)` call that supplies the
      context of a `with`: a tier, or nothing, in which case the next item is
      examined. */
  function OpenVerdict(args: seq<Node>, keywords: seq<Node>): (r: Option<ScanState>)
    ensures r != Some(OK)
    ensures r == Some(Threat) <==>
      || (|args| > 1 && IsReadMode(args[1]))
      || (|args| <= 1 && |keywords| > 1 && exists k <- keywords :: IsReadModeKeyword(k))
      || (|args| == 1 && |keywords| <= 1)
    ensures r == Some(PotentialThreat) <==> |args| == 0 && |keywords| <= 1
  {
    if |args| > 1 then
      if IsReadMode(args[1]) then Some(Threat) else None
    else if |keywords| > 1 then
      if exists k <- keywords :: IsReadModeKeyword(k) then Some(Threat) else None
    else if |args| == 1 then Some(Threat)
    else Some(PotentialThreat)
  }

  /** The verdict on one item of a `with`: only an item whose context
      expression is a call of an attribute `open` has one. */
  function ItemVerdict(item: Node): Option<ScanState> {
    match item.kind
    case WithItem(contextExpr, _) =>
      (match contextExpr.kind
       case Call(func, args, keywords, _, _) =>
         if IsAttr(func, "open") then OpenVerdict(args, keywords) else None
       case _ => None)
    case _ => None
  }

  /** The items are examined in order and the first verdict is taken. */
  function ItemsVerdict(items: seq<Node>): (r: Option<ScanState>)
    ensures r.Some? <==> exists i :: 0 <= i < |items| && ItemVerdict(items[i]).Some?
    ensures r.Some? ==> exists i :: 0 <= i < |items| && r == ItemVerdict(items[i]) &&
                          forall j :: 0 <= j < i ==> ItemVerdict(items[j]).None?
  {
    if items == [] then None
    else
      match ItemVerdict(items[0])
      case Some(v) => Some(v)
      case None =>
        var r := ItemsVerdict(items[1..]);
        SkipFirstItem(items, r);
        r
  }

  /** The first verdict among the items after a first one that gives none is
      the first verdict among all of them. */
  lemma SkipFirstItem(items: seq<Node>, r: Option<ScanState>)
    requires items != [] && ItemVerdict(items[0]).None?
    requires r.Some? <==> exists i :: 0 <= i < |items[1..]| && ItemVerdict(items[1..][i]).Some?
    requires r.Some? ==> exists i :: 0 <= i < |items[1..]| && r == ItemVerdict(items[1..][i]) &&
                           forall j :: 0 <= j < i ==> ItemVerdict(items[1..][j]).None?
    ensures r.Some? <==> exists i :: 0 <= i < |items| && ItemVerdict(items[i]).Some?
    ensures r.Some? ==> exists i :: 0 <= i < |items| && r == ItemVerdict(items[i]) &&
                          forall j :: 0 <= j < i ==> ItemVerdict(items[j]).None?
  {
    var tail := items[1..];
    if r.Some? {
      var i :| 0 <= i < |tail| && r == ItemVerdict(tail[i]) &&
                forall j :: 0 <= j < i ==> ItemVerdict(tail[j]).None?;
      assert items[i + 1] == tail[i];
      forall j | 0 <= j < i + 1
        ensures ItemVerdict(items[j]).None?
      {
        if j > 0 {
          assert items[j] == tail[j - 1];
        }
      }
    }
    if exists i :: 0 <= i < |items| && ItemVerdict(items[i]).Some? {
      var i :| 0 <= i < |items| && ItemVerdict(items[i]).Some?;
      assert i > 0 && items[i] == tail[i - 1];
    }
  }

  // ---------------------------------------------------------------------------
  // The detector

  /** The node a looked-up path names, if any. */
  function Lookup(tree: Node, p: Option<Path>): Option<Node> {
    match p
    case None => None
    case Some(q) => NodeAt(tree, q)
  }

  /** `extractall`: only when PPP is a `with` whose items give a verdict is the
      occurrence classified, at P's line. */
  function ExtractAllFinding(pNode: Node, pppNode: Option<Node>): Option<Finding> {
    match pppNode
    case Some(Node(_, With(items, _))) =>
      (match ItemsVerdict(items)
       case Some(state) => Some(Finding(pNode.line, state))
       case None => None)
    case _ => None
  }

  /** The loop case of `extract`: P is a call with an argument, PPP is a `for`
      whose iterable calls `getmembers`. */
  predicate IsMemberLoop(pNode: Node, pppNode: Option<Node>) {
    && pNode.kind.Call? && (|pNode.kind.args| != 0 || |pNode.kind.keywords| != 0)
    && pppNode.Some? && pppNode.value.kind.For? && CheckGetMembers(pppNode.value)
  }

  /** `extract` is always classified: in the loop case by `checkOpen` on the
      loop's parent at PP's line, otherwise as `PotentialThreat` at P's line. */
  function ExtractFinding(pNode: Node, ppNode: Option<Node>, pppNode: Option<Node>,
                          loopParent: Option<Node>): Finding
  {
    if IsMemberLoop(pNode, pppNode) && ppNode.Some? then
      Finding(ppNode.value.line, CheckOpen(loopParent))
    else
      Finding(pNode.line, PotentialThreat)
  }

  /** The classification of an occurrence of the attribute `attr` at `at`,
      or nothing if the walk is to go on into it. P, PP and PPP are looked up
      in the parent map one after the other, starting from the attribute;
      the loop's parent is PPP's entry. */
  function Classify(parents: ParentMap, tree: Node, at: Path, attr: string): Option<Finding> {
    var p := GetParent(parents, Some(at)).0;
    var pp := GetParent(parents, p).0;
    var ppp := GetParent(parents, pp).0;
    Rule(tree, p, pp, ppp, GetParent(parents, ppp).0, attr)
  }

  /** The rules, given the paths of P, PP, PPP and the loop's parent. An
      attribute without a parent is not classified. */
  function Rule(tree: Node, p: Option<Path>, pp: Option<Path>, ppp: Option<Path>,
                loopParent: Option<Path>, attr: string): Option<Finding>
  {
    match Lookup(tree, p)
    case None => None
    case Some(pNode) =>
      if attr == "extractall" then ExtractAllFinding(pNode, Lookup(tree, ppp))
      else Some(ExtractFinding(pNode, Lookup(tree, pp), Lookup(tree, ppp), Lookup(tree, loopParent)))
  }

  /** The detector closure of `Scan`: it acts only on attribute accesses named
      `extractall` or `extract`; a classification replaces the finding so far
      and prunes the attribute's subtree. */
  function Detector(parents: ParentMap, tree: Node): Visitor<Finding> {
    (at: Path, n: Node, f: Finding) =>
      if IsExtraction(n) then
        match Classify(parents, tree, at, n.kind.attr)
        case Some(g) => (false, g)
        case None => (true, f)
      else (true, f)
  }

  /** The visitor of the first pass. */
  function KeepGoing(): Visitor<()> {
    (p: Path, n: Node, u: ()) => (true, u)
  }

  /** The parent map the first pass builds. */
  function FirstPass(tree: Node): ParentMap {
    Walk(Some(tree), KeepGoing(), ()).parents
  }

  /** The scan of one parsed file: the parent-map pass, then the detector pass
      starting from `OK` at line 0. */
  function Scan(tree: Node): Finding {
    Walk(Some(tree), Detector(FirstPass(tree), tree), Finding(0, OK)).acc
  }

  /** A file in which neither extraction attribute is accessed is `OK`, with
      line 0; so any other result points at such an access. */
  lemma ScanQuiet(tree: Node)
    ensures !Occurs(tree, "extract") && !Occurs(tree, "extractall") ==> Scan(tree) == Finding(0, OK)
    ensures Scan(tree).state != OK ==> Occurs(tree, "extract") || Occurs(tree, "extractall")
  {
    if !Occurs(tree, "extract") && !Occurs(tree, "extractall") {
      QuietWithoutExtraction(tree, FirstPass(tree));
    }
  }

  /** Without an extraction attribute, every call of the detector leaves the
      finding as it was. */
  lemma QuietWithoutExtraction(tree: Node, parents: ParentMap)
    requires !Occurs(tree, "extract") && !Occurs(tree, "extractall")
    ensures Walk(Some(tree), Detector(parents, tree), Finding(0, OK)).acc == Finding(0, OK)
  {
    var inv := (f: Finding) => f == Finding(0, OK);
    forall q, a | NodeAt(tree, q).Some? && inv(a)
      ensures inv(Detector(parents, tree)([] + q, NodeAt(tree, q).value, a).1)
    {
      var n := NodeAt(tree, q).value;
      assert !IsAttr(n, "extract") && !IsAttr(n, "extractall");
    }
    WalkKeeps(tree, [], Detector(parents, tree), inv, State(map[], Finding(0, OK)));
  }

  // ---------------------------------------------------------------------------
  // The three ancestors

  /** The path of the `k`-th ancestor of the node at `at`: `at` itself for
      k = 0, absent past the root. */
  function Up(at: Path, k: nat): Option<Path> {
    if k <= |at| then Some(at[..|at| - k]) else None
  }

  /** The `k`-th ancestor of the node of `tree` at `at`. */
  function Ancestor(tree: Node, at: Path, k: nat): (r: Option<Node>)
    ensures r.Some? ==> k <= |at|
    ensures NodeAt(tree, at).Some? && k <= |at| ==> r.Some?
  {
    if NodeAt(tree, at).Some? && k <= |at| then
      PrefixLeadsSomewhere(tree, at, |at| - k);
      Lookup(tree, Up(at, k))
    else Lookup(tree, Up(at, k))
  }

  lemma KeepGoingNeverPrunes()
    ensures NeverPrunes(KeepGoing())
  {
  }

  /** The first pass records exactly the nodes below the root, each with
      the path of its parent. */
  lemma FirstPassEntries(tree: Node)
    ensures forall p :: p in FirstPass(tree) <==> p != [] && NodeAt(tree, p).Some?
    ensures forall p :: p in FirstPass(tree) ==> FirstPass(tree)[p] == Parent(p)
  {
    KeepGoingNeverPrunes();
    FullWalkParents(tree, KeepGoing(), ());
  }

  /** Looking up the entry of a node's `k`-th ancestor in the first pass's
      map gives its `k + 1`-th: climbing the map is climbing the tree. */
  lemma FirstPassClimbs(tree: Node, at: Path, k: nat)
    requires NodeAt(tree, at).Some?
    ensures GetParent(FirstPass(tree), Up(at, k)).0 == Up(at, k + 1)
  {
    FirstPassEntries(tree);
    if k <= |at| {
      var r := at[..|at| - k];
      PrefixLeadsSomewhere(tree, at, |at| - k);
      if k < |at| {
        assert r in FirstPass(tree);
        assert Parent(r) == at[..|at| - (k + 1)];
      } else {
        assert r == [];
      }
    }
  }

  /** The detector's P, PP, PPP and the loop's parent are the first four
      ancestors of the attribute access. */
  lemma ClassifyByAncestors(tree: Node, at: Path, attr: string)
    requires NodeAt(tree, at).Some?
    ensures Classify(FirstPass(tree), tree, at, attr) ==
      Rule(tree, Up(at, 1), Up(at, 2), Up(at, 3), Up(at, 4), attr)
  {
    assert at[..|at| - 0] == at;
    assert Up(at, 0) == Some(at);
    FirstPassClimbs(tree, at, 0);
    FirstPassClimbs(tree, at, 1);
    FirstPassClimbs(tree, at, 2);
    FirstPassClimbs(tree, at, 3);
  }

  // ---------------------------------------------------------------------------
  // The rules, occurrence by occurrence

  /** An access to `extractall` is classified only when its third ancestor is
      a `with` whose items give a verdict; the finding is at the line of the
      attribute's parent P, whatever kind of node P is (the call, when the
      attribute is its callee). Otherwise the finding so far stands and the
      walk goes on into the attribute. */
  lemma ExtractAllRule(tree: Node, at: Path, f: Finding)
    requires NodeAt(tree, at).Some? && IsAttr(NodeAt(tree, at).value, "extractall")
    ensures Detector(FirstPass(tree), tree)(at, NodeAt(tree, at).value, f) ==
      match (Ancestor(tree, at, 1), Ancestor(tree, at, 3))
      case (Some(p), Some(Node(_, With(items, _)))) =>
        if ItemsVerdict(items).Some? then (false, Finding(p.line, ItemsVerdict(items).value))
        else (true, f)
      case _ => (true, f)
  {
    ClassifyByAncestors(tree, at, "extractall");
  }

  /** An access to `extract` below the root is always classified. Inside a
      call with an argument, two levels below a `for` loop whose iterable
      calls `getmembers`, the finding is at the line of the call's parent and
      is `Threat` exactly when `open` is accessed somewhere under the loop's
      parent. In every other position it is `PotentialThreat` at the line of
      the attribute's parent, whatever kind of node that is. */
  lemma ExtractRule(tree: Node, at: Path, f: Finding)
    requires NodeAt(tree, at).Some? && IsAttr(NodeAt(tree, at).value, "extract")
    requires at != []
    ensures var p := Ancestor(tree, at, 1).value;
      var ppp := Ancestor(tree, at, 3);
      var loopParent := Ancestor(tree, at, 4);
      Detector(FirstPass(tree), tree)(at, NodeAt(tree, at).value, f) ==
        if && p.kind.Call? && (|p.kind.args| > 0 || |p.kind.keywords| > 0)
           && ppp.Some? && ppp.value.kind.For? && Occurs(ppp.value.kind.iter, "getmembers")
        then
          (false, Finding(Ancestor(tree, at, 2).value.line,
                          if loopParent.Some? && Occurs(loopParent.value, "open") then Threat else PotentialThreat))
        else (false, Finding(p.line, PotentialThreat))
  {
    ClassifyByAncestors(tree, at, "extract");
  }

  /** Each call of the detector either keeps the finding and descends, or
      prunes with a finding that does not depend on the one before; which of
      the two does not depend on the finding either. */
  lemma DetectorOverwrites(parents: ParentMap, tree: Node)
    ensures Overwrites(Detector(parents, tree))
  {
  }

  // ---------------------------------------------------------------------------
  // The result of a scan

  /** The nodes the detector is called on during a scan, in call order. */
  function ScanCalls(tree: Node): seq<Path> {
    Walk(Some(tree), Traced(Detector(FirstPass(tree), tree)), ([], Finding(0, OK))).acc.0
  }

  /** Whether the detector classifies the node of `tree` at `p`. */
  predicate Classifies(tree: Node, p: Path) {
    PrunesAt(tree, Detector(FirstPass(tree), tree), p, Finding(0, OK))
  }

  /** The scan's calls are in pre-order: the root first, every other node
      after its parent, each call strictly before every later one in
      pre-order, and no node twice. */
  lemma ScanCallsInPreOrder(tree: Node)
    ensures PreOrderCalls(tree, [], ScanCalls(tree))
    ensures forall k, l :: 0 <= k < l < |ScanCalls(tree)| ==> ScanCalls(tree)[k] != ScanCalls(tree)[l]
  {
    TracedWalkNode(tree, [], Detector(FirstPass(tree), tree), map[], [], Finding(0, OK));
    assert ScanCalls(tree)[0..] == ScanCalls(tree);
    InPreOrderDistinct(ScanCalls(tree));
  }

  /** The result of a scan is the accumulated finding replayed over its calls. */
  lemma ScanReplays(tree: Node)
    ensures Scan(tree) == Replay(tree, Detector(FirstPass(tree), tree), ScanCalls(tree), Finding(0, OK))
  {
    var d := Detector(FirstPass(tree), tree);
    assert NodeAt(tree, []) == Some(tree);
    WalkReplays(tree, tree, [], d, map[], [], Finding(0, OK));
    TracedWalkNode(tree, [], d, map[], [], Finding(0, OK));
    assert ScanCalls(tree)[0..] == ScanCalls(tree);
  }

  /** A scan in which the detector classifies nothing it is called on is `OK`
      at line 0. */
  lemma ScanWithoutClassification(tree: Node)
    requires forall k :: 0 <= k < |ScanCalls(tree)| ==> !Classifies(tree, ScanCalls(tree)[k])
    ensures Scan(tree) == Finding(0, OK)
  {
    ScanReplays(tree);
    DetectorOverwrites(FirstPass(tree), tree);
    ReplayNoPrune(tree, Detector(FirstPass(tree), tree), ScanCalls(tree), Finding(0, OK));
  }

  /** Otherwise the scan reports what the last classification, in call order,
      found: later matches overwrite earlier ones. */
  lemma ScanIsLastClassification(tree: Node, k: nat)
    requires k < |ScanCalls(tree)| && Classifies(tree, ScanCalls(tree)[k])
    requires forall l :: k < l < |ScanCalls(tree)| ==> !Classifies(tree, ScanCalls(tree)[l])
    ensures var c := ScanCalls(tree)[k];
      && IsExtraction(NodeAt(tree, c).value)
      && Scan(tree) == Classify(FirstPass(tree), tree, c, NodeAt(tree, c).value.kind.attr).value
  {
    ScanReplays(tree);
    DetectorOverwrites(FirstPass(tree), tree);
    ReplayLastPrune(tree, Detector(FirstPass(tree), tree), ScanCalls(tree), Finding(0, OK), k);
  }

  /** An access to `extract` or `extractall`. */
  predicate IsExtraction(n: Node) {
    IsAttr(n, "extractall") || IsAttr(n, "extract")
  }

  /** The detector is called on exactly the nodes none of whose strict
      ancestors it classifies: the subtree of a classified node is never
      entered, and everything else is. */
  lemma ScanReaches(tree: Node, q: Path)
    ensures q in ScanCalls(tree) <==> NodeAt(tree, q).Some? && forall k :: 0 <= k < |q| ==> !Classifies(tree, q[..k])
  {
    if NodeAt(tree, q).Some? && forall k :: 0 <= k < |q| ==> !Classifies(tree, q[..k]) {
      ScanReachesUnclassified(tree, q);
    }
    if q in ScanCalls(tree) {
      ScanCallsUnclassified(tree, q);
    }
  }

  lemma ScanReachesUnclassified(tree: Node, q: Path)
    requires NodeAt(tree, q).Some?
    requires forall k :: 0 <= k < |q| ==> !Classifies(tree, q[..k])
    ensures q in ScanCalls(tree)
  {
    var d := Detector(FirstPass(tree), tree);
    DetectorOverwrites(FirstPass(tree), tree);
    forall k, b | 0 <= k < |q| && NodeAt(tree, q[..k]).Some?
      ensures d([] + q[..k], NodeAt(tree, q[..k]).value, b).0
    {
      assert [] + q[..k] == q[..k];
      assert !Classifies(tree, q[..k]);
    }
    Reached(tree, [], d, map[], [], Finding(0, OK), q);
    assert [] + q == q;
    assert ScanCalls(tree)[0..] == ScanCalls(tree);
  }

  lemma ScanCallsUnclassified(tree: Node, q: Path)
    requires q in ScanCalls(tree)
    ensures NodeAt(tree, q).Some?
    ensures forall k :: 0 <= k < |q| ==> !Classifies(tree, q[..k])
  {
    var d := Detector(FirstPass(tree), tree);
    DetectorOverwrites(FirstPass(tree), tree);
    assert DecidesAlone(d);
    assert ScanCalls(tree)[0..] == ScanCalls(tree);
    Called(tree, [], d, map[], [], Finding(0, OK), q);
    assert q[0..] == q;
    ScanCallsInPreOrder(tree);
    if q != [] {
      var calls := ScanCalls(tree);
      assert q in calls[1..] by {
        assert calls == [calls[0]] + calls[1..];
      }
    }
    forall k | 0 <= k < |q|
      ensures !Classifies(tree, q[..k])
    {
      PrefixLeadsSomewhere(tree, q, k);
      assert [] + q[..k] == q[..k];
    }
  }

  // ---------------------------------------------------------------------------
  // ScanAll

  /** A file to scan: its name and its parse tree, absent when the file
      could not be opened or parsed. */
  datatype Source = Source(filename: string, tree: Option<Node>)

  /** One line of the report. */
  datatype CreosoteResult = CreosoteResult(filename: string, state: ScanState, line: int)

  /** What one file contributes to the report: nothing when it could not be
      scanned or is `OK`, its finding otherwise. */
  function Report(src: Source): (r: seq<CreosoteResult>)
    ensures |r| <= 1
    ensures r != [] <==> src.tree.Some? && Scan(src.tree.value).state != OK
    ensures forall x <- r :: x.filename == src.filename && x.state != OK
    ensures src.tree.Some? && Scan(src.tree.value).state != OK ==>
      r == [CreosoteResult(src.filename, Scan(src.tree.value).state, Scan(src.tree.value).line)]
  {
    match src.tree
    case None => []
    case Some(t) =>
      var f := Scan(t);
      if f.state != OK then [CreosoteResult(src.filename, f.state, f.line)] else []
  }

  /** The contributions `report` makes for each of `files`, in file order. */
  function Concatenated(files: seq<Source>, report: Source -> seq<CreosoteResult>): seq<CreosoteResult>
    decreases |files|
  {
    if files == [] then []
    else Concatenated(files[..|files| - 1], report) + report(files[|files| - 1])
  }

  /** The report on a list of files: each file's contribution, in file order. */
  function Reported(files: seq<Source>): seq<CreosoteResult> {
    Concatenated(files, Report)
  }

  lemma {:induction false} ConcatenatedAppend(a: seq<Source>, b: seq<Source>, report: Source -> seq<CreosoteResult>)
    ensures Concatenated(a + b, report) == Concatenated(a, report) + Concatenated(b, report)
    decreases |b|
  {
    if b == [] {
      assert a + b == a;
    } else {
      var b' := b[..|b| - 1];
      assert (a + b)[..|a + b| - 1] == a + b';
      assert (a + b)[|a + b| - 1] == b[|b| - 1];
      ConcatenatedAppend(a, b', report);
    }
  }

  lemma {:induction false} ConcatenatedMembers(files: seq<Source>, report: Source -> seq<CreosoteResult>, x: CreosoteResult)
    ensures x in Concatenated(files, report) <==> exists i :: 0 <= i < |files| && x in report(files[i])
    decreases |files|
  {
    if files != [] {
      var init := files[..|files| - 1];
      ConcatenatedMembers(init, report, x);
      assert forall i :: 0 <= i < |init| ==> init[i] == files[i];
      if x in report(files[|files| - 1]) {
        assert exists i :: 0 <= i < |files| && x in report(files[i]);
      }
    }
  }

  /** The report on two lists of files is the report on the first followed
      by the report on the second. */
  lemma ReportedAppend(a: seq<Source>, b: seq<Source>)
    ensures Reported(a + b) == Reported(a) + Reported(b)
  {
    ConcatenatedAppend(a, b, Report);
  }

  /** A result is reported exactly when it is the finding of a file that was
      scanned and is not `OK`. */
  lemma ReportedMembers(files: seq<Source>, x: CreosoteResult)
    ensures x in Reported(files) <==> exists i :: 0 <= i < |files| && x in Report(files[i])
  {
    ConcatenatedMembers(files, Report, x);
  }

  /** `ScanAll`: scan the files in order and keep the findings that are not
      `OK`; a file that cannot be opened or parsed is skipped. */
  method ScanAll(files: seq<Source>) returns (r: seq<CreosoteResult>)
    ensures r == Reported(files)
    ensures forall x <- r :: x.state != OK
    ensures forall x :: x in r <==> exists i :: 0 <= i < |files| && x in Report(files[i])
  {
    r := [];
    for i := 0 to |files|
      invariant r == Reported(files[..i])
    {
      assert files[..i + 1][..i] == files[..i];
      var src := files[i];
      match src.tree {
        case None =>
        case Some(t) =>
          var f := Scan(t);
          if f.state != OK {
            r := r + [CreosoteResult(src.filename, f.state, f.line)];
          }
      }
    }
    assert files[..|files|] == files;
    forall x
      ensures x in r <==> exists i :: 0 <= i < |files| && x in Report(files[i])
    {
      ReportedMembers(files, x);
    }
    forall x <- r
      ensures x.state != OK
    {
      ReportedMembers(files, x);
    }
  }
}
