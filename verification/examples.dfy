/**
 Worked examples: concrete trees and what the detector makes of the
 extraction calls in them.
 */
module Examples {
  import opened Syntax
  import opened Walker
  import opened Creosote

  // ---------------------------------------------------------------------------
  // The fixture pthreat2.py: members of an archive extracted one by one in a
  // loop over `getmembers()`, under an `if` whose body opens the archive.

  const GetMembers := Node(10, Attribute(Node(10, Name("obj")), "getmembers"))
  const LoopIter := Node(10, Call(Node(10, Name("enumerate")),
                                  [Node(10, Call(GetMembers, [], [], None, None))], [], None, None))
  const ExtractAttr := Node(11, Attribute(Node(11, Name("obj")), "extract"))
  const ExtractCall := Node(11, Call(ExtractAttr, [Node(11, Name("member")), Node(11, Name("temp_dir"))],
                                     [], None, None))
  const ExtractStmt := Node(11, ExprStmt(ExtractCall))
  const Loop := Node(10, For(
    Node(10, Tuple([Node(10, Name("j")), Node(10, Name("member"))])),
    LoopIter,
    [ ExtractStmt,
      Node(12, Assign([Node(12, Name("extracted_file_name"))],
        Node(12, Call(Node(12, Attribute(Node(12, Attribute(Node(12, Name("os")), "path")), "join")),
                      [ Node(12, Name("temp_dir")),
                        Node(12, Subscript(
                          Node(12, Call(Node(12, Attribute(Node(12, Name("obj")), "getnames")), [], [], None, None)),
                          Node(12, Index(Node(12, Name("j")))))) ],
                      [], None, None)))),
      Node(13, ExprStmt(Node(13, Call(Node(13, Attribute(Node(13, Name("extracted_file_names")), "append")),
                                      [Node(13, Name("extracted_file_name"))], [], None, None)))) ],
    []))
  const OpenAttr := Node(8, Attribute(Node(8, Name("tarfile")), "open"))
  const OpenStmt := Node(8, Assign([Node(8, Name("obj"))],
                                   Node(8, Call(OpenAttr, [Node(8, Name("filename")), Node(8, Str("r"))],
                                                [], None, None))))
  const Guard := Node(7, If(
    Node(7, Call(Node(7, Attribute(Node(7, Name("filename")), "endwith")), [Node(7, Str("tar"))], [], None, None)),
    [ OpenStmt,
      Node(9, Assign([Node(9, Name("extracted_file_names"))], Node(9, List([])))),
      Loop ],
    []))
  const PThreat2 := Node(1, Module([
    Node(1, Import([Node(1, Alias("tarfile", ""))])),
    Node(2, Import([Node(2, Alias("os", ""))])),
    Node(4, Assign([Node(4, Name("filename"))], Node(4, Str("test123")))),
    Node(5, Assign([Node(5, Name("temp_dir"))], Node(5, Str("~/")))),
    Guard ]))

  /** The path of `obj.extract` in pthreat2.py: the `if` is the fifth
      statement, the loop its third body statement (after the test), the
      expression statement the loop's first body statement (after target and
      iterable), then the call and its callee. */
  const ExtractPath: Path := [4, 3, 2, 0, 0]

  /** Stepping down to a child, then following `q` from there. */
  lemma Descend(n: Node, i: nat, c: Node, q: Path, x: Option<Node>)
    requires NodeAt(n, [i]) == Some(c)
    requires NodeAt(c, q) == x
    ensures NodeAt(n, [i] + q) == x
  {
    NodeAtAppend(n, [i], q);
  }

  /** The nodes on the way down to `obj.extract`, one level at a time. */
  lemma GuardAt()
    ensures NodeAt(PThreat2, [4]) == Some(Guard)
  {
  }

  lemma LoopAt()
    ensures NodeAt(Guard, [3]) == Some(Loop)
  {
  }

  lemma ExtractStmtAt()
    ensures NodeAt(Loop, [2]) == Some(ExtractStmt)
  {
  }

  lemma ExtractCallAt()
    ensures NodeAt(ExtractStmt, [0]) == Some(ExtractCall)
  {
  }

  lemma ExtractAttrAt()
    ensures NodeAt(ExtractCall, [0]) == Some(ExtractAttr)
  {
  }

  lemma Spine()
    ensures NodeAt(PThreat2, [4]) == Some(Guard)
    ensures NodeAt(PThreat2, [4, 3]) == Some(Loop)
    ensures NodeAt(PThreat2, [4, 3, 2]) == Some(ExtractStmt)
    ensures NodeAt(PThreat2, [4, 3, 2, 0]) == Some(ExtractCall)
    ensures NodeAt(PThreat2, ExtractPath) == Some(ExtractAttr)
  {
    GuardAt();
    LoopAt();
    ExtractStmtAt();
    ExtractCallAt();
    ExtractAttrAt();
    Descend(ExtractStmt, 0, ExtractCall, [0], Some(ExtractAttr));
    Descend(Loop, 2, ExtractStmt, [0], Some(ExtractCall));
    Descend(Loop, 2, ExtractStmt, [0, 0], Some(ExtractAttr));
    Descend(Guard, 3, Loop, [2], Some(ExtractStmt));
    Descend(Guard, 3, Loop, [2, 0], Some(ExtractCall));
    Descend(Guard, 3, Loop, [2, 0, 0], Some(ExtractAttr));
    Descend(PThreat2, 4, Guard, [3], Some(Loop));
    Descend(PThreat2, 4, Guard, [3, 2], Some(ExtractStmt));
    Descend(PThreat2, 4, Guard, [3, 2, 0], Some(ExtractCall));
    Descend(PThreat2, 4, Guard, [3, 2, 0, 0], Some(ExtractAttr));
  }

  /** The loop's iterable calls `getmembers`; the `if` opens the archive. */
  lemma PThreat2Accesses()
    ensures Occurs(LoopIter, "getmembers")
    ensures Occurs(Guard, "open")
  {
    GetMembersAt();
    OpenAt();
  }

  lemma GetMembersAt()
    ensures NodeAt(LoopIter, [1, 0]) == Some(GetMembers)
  {
  }

  lemma OpenAt()
    ensures NodeAt(Guard, [1, 1, 0]) == Some(OpenAttr)
  {
    var call := OpenStmt.kind.value;
    assert NodeAt(call, [0]) == Some(OpenAttr);
    assert NodeAt(OpenStmt, [1]) == Some(call);
    Descend(OpenStmt, 1, call, [0], Some(OpenAttr));
    assert NodeAt(Guard, [1]) == Some(OpenStmt);
    Descend(Guard, 1, OpenStmt, [1, 0], Some(OpenAttr));
  }

  /** P is the call, PP the expression statement, PPP the `for`, whose
      iterable calls `getmembers`; the loop's parent is the `if`, whose body
      opens the archive. So the occurrence is a `Threat` at line 11. */
  lemma PThreat2ExtractIsThreat(f: Finding)
    ensures NodeAt(PThreat2, ExtractPath) == Some(ExtractAttr)
    ensures Detector(FirstPass(PThreat2), PThreat2)(ExtractPath, ExtractAttr, f) == (false, Finding(11, Threat))
  {
    Spine();
    PThreat2Accesses();
    assert ExtractPath[..|ExtractPath| - 1] == [4, 3, 2, 0];
    assert ExtractPath[..|ExtractPath| - 2] == [4, 3, 2];
    assert ExtractPath[..|ExtractPath| - 3] == [4, 3];
    assert ExtractPath[..|ExtractPath| - 4] == [4];
    assert Ancestor(PThreat2, ExtractPath, 1) == Some(ExtractCall);
    assert Ancestor(PThreat2, ExtractPath, 2) == Some(ExtractStmt);
    assert Ancestor(PThreat2, ExtractPath, 3) == Some(Loop);
    assert Ancestor(PThreat2, ExtractPath, 4) == Some(Guard);
    ExtractRule(PThreat2, ExtractPath, f);
  }

  // ---------------------------------------------------------------------------
  // `with tarfile.open(...) as t:` on line 1, `t.extractall(dest)` on line 2.

  function OpenCall(args: seq<Node>, keywords: seq<Node>): Node {
    Node(1, Call(Node(1, Attribute(Node(1, Name("tarfile")), "open")), args, keywords, None, None))
  }

  const ExtractAllAttr := Node(2, Attribute(Node(2, Name("t")), "extractall"))
  const ExtractAllCall := Node(2, Call(ExtractAllAttr, [Node(2, Name("dest"))], [], None, None))
  const ExtractAllStmt := Node(2, ExprStmt(ExtractAllCall))

  function WithStmt(args: seq<Node>, keywords: seq<Node>): Node {
    Node(1, With([Node(1, WithItem(OpenCall(args, keywords), Some(Node(1, Name("t")))))], [ExtractAllStmt]))
  }

  function WithOpen(args: seq<Node>, keywords: seq<Node>): Node {
    Node(1, Module([WithStmt(args, keywords)]))
  }

  /** The path of `t.extractall`: the `with`, its body statement (after the
      one item), the call, its callee. */
  const ExtractAllPath: Path := [0, 1, 0, 0]

  lemma WithAt(args: seq<Node>, keywords: seq<Node>)
    ensures NodeAt(WithOpen(args, keywords), [0]) == Some(WithStmt(args, keywords))
  {
    assert Children(WithOpen(args, keywords)) == [WithStmt(args, keywords)];
  }

  lemma ExtractAllStmtAt(args: seq<Node>, keywords: seq<Node>)
    ensures NodeAt(WithStmt(args, keywords), [1]) == Some(ExtractAllStmt)
  {
    var w := WithStmt(args, keywords);
    assert Children(w) == w.kind.items + [ExtractAllStmt];
    assert Children(w)[1] == ExtractAllStmt;
  }

  lemma ExtractAllAttrAt()
    ensures NodeAt(ExtractAllStmt, [0, 0]) == Some(ExtractAllAttr)
    ensures NodeAt(ExtractAllStmt, [0]) == Some(ExtractAllCall)
  {
    assert Children(ExtractAllStmt) == [ExtractAllCall];
    assert Children(ExtractAllCall)[0] == ExtractAllAttr;
    assert NodeAt(ExtractAllCall, [0]) == Some(ExtractAllAttr);
    Descend(ExtractAllStmt, 0, ExtractAllCall, [0], Some(ExtractAllAttr));
  }

  /** The attribute's call, its parent and the `with`. */
  lemma WithOpenShape(args: seq<Node>, keywords: seq<Node>)
    ensures var tree := WithOpen(args, keywords);
      && NodeAt(tree, ExtractAllPath) == Some(ExtractAllAttr)
      && Ancestor(tree, ExtractAllPath, 1) == Some(ExtractAllCall)
      && Ancestor(tree, ExtractAllPath, 3) == Some(WithStmt(args, keywords))
  {
    var tree := WithOpen(args, keywords);
    var w := WithStmt(args, keywords);
    WithAt(args, keywords);
    ExtractAllStmtAt(args, keywords);
    ExtractAllAttrAt();
    Descend(w, 1, ExtractAllStmt, [0], Some(ExtractAllCall));
    Descend(w, 1, ExtractAllStmt, [0, 0], Some(ExtractAllAttr));
    Descend(tree, 0, w, [1, 0], Some(ExtractAllCall));
    Descend(tree, 0, w, [1, 0, 0], Some(ExtractAllAttr));
    assert ExtractAllPath[..|ExtractAllPath| - 1] == [0, 1, 0];
    assert ExtractAllPath[..|ExtractAllPath| - 3] == [0];
  }

  /** Whatever the arguments of `open`, the occurrence gets the verdict of
      the `open` call's arguments, at line 2, or none. */
  lemma WithOpenVerdict(args: seq<Node>, keywords: seq<Node>, f: Finding)
    ensures NodeAt(WithOpen(args, keywords), ExtractAllPath) == Some(ExtractAllAttr)
    ensures Detector(FirstPass(WithOpen(args, keywords)), WithOpen(args, keywords))
              (ExtractAllPath, ExtractAllAttr, f) ==
      match OpenVerdict(args, keywords)
      case Some(v) => (false, Finding(2, v))
      case None => (true, f)
  {
    var tree := WithOpen(args, keywords);
    var w := WithStmt(args, keywords);
    WithOpenShape(args, keywords);
    OpenItem(args, keywords);
    ExtractAllUnderWith(tree, ExtractAllPath, f, ExtractAllCall, w);
  }

  /** The `with` has one item, the `open` call. */
  lemma OpenItem(args: seq<Node>, keywords: seq<Node>)
    ensures ItemsVerdict(WithStmt(args, keywords).kind.items) == OpenVerdict(args, keywords)
  {
    var call := OpenCall(args, keywords);
    var item := Node(1, WithItem(call, Some(Node(1, Name("t")))));
    assert WithStmt(args, keywords).kind.items == [item];
    assert IsAttr(call.kind.func, "open");
    assert ItemVerdict(item) == OpenVerdict(args, keywords);
    assert ItemsVerdict([item]) == ItemVerdict(item);
  }

  /** `ExtractAllRule` for an attribute whose call is `call` and whose third
      ancestor is the `with` statement `w`. */
  lemma ExtractAllUnderWith(tree: Node, at: Path, f: Finding, call: Node, w: Node)
    requires NodeAt(tree, at).Some? && IsAttr(NodeAt(tree, at).value, "extractall")
    requires Ancestor(tree, at, 1) == Some(call) && Ancestor(tree, at, 3) == Some(w) && w.kind.With?
    ensures Detector(FirstPass(tree), tree)(at, NodeAt(tree, at).value, f) ==
      if ItemsVerdict(w.kind.items).Some? then (false, Finding(call.line, ItemsVerdict(w.kind.items).value))
      else (true, f)
  {
    ExtractAllRule(tree, at, f);
  }

  /** `with tarfile.open(p) as t:` is a `Threat`. */
  lemma OnePositional(f: Finding)
    ensures Detector(FirstPass(WithOpen([Node(1, Name("p"))], [])), WithOpen([Node(1, Name("p"))], []))
              (ExtractAllPath, ExtractAllAttr, f) == (false, Finding(2, Threat))
  {
    WithOpenVerdict([Node(1, Name("p"))], [], f);
  }

  const ModeW := Node(1, Keyword("mode", Node(1, Str("w"))))
  const ModeR := Node(1, Keyword("mode", Node(1, Str("r"))))

  /** `with tarfile.open(p, mode="w") as t:` is a `Threat` as well: with one
      positional argument and one keyword the mode is never looked at. */
  lemma OnePositionalWriteMode(f: Finding)
    ensures Detector(FirstPass(WithOpen([Node(1, Name("p"))], [ModeW])), WithOpen([Node(1, Name("p"))], [ModeW]))
              (ExtractAllPath, ExtractAllAttr, f) == (false, Finding(2, Threat))
  {
    WithOpenVerdict([Node(1, Name("p"))], [ModeW], f);
  }

  /** `with tarfile.open(p, "w") as t:` gives no verdict: the walk goes on and
      the finding so far stands. */
  lemma TwoPositionalWithoutRead(f: Finding)
    ensures Detector(FirstPass(WithOpen([Node(1, Name("p")), Node(1, Str("w"))], [])),
                     WithOpen([Node(1, Name("p")), Node(1, Str("w"))], []))
              (ExtractAllPath, ExtractAllAttr, f) == (true, f)
  {
    WithOpenVerdict([Node(1, Name("p")), Node(1, Str("w"))], [], f);
  }

  /** `with tarfile.open(p, "r:gz") as t:` is a `Threat`. */
  lemma TwoPositionalRead(f: Finding)
    ensures Detector(FirstPass(WithOpen([Node(1, Name("p")), Node(1, Str("r:gz"))], [])),
                     WithOpen([Node(1, Name("p")), Node(1, Str("r:gz"))], []))
              (ExtractAllPath, ExtractAllAttr, f) == (false, Finding(2, Threat))
  {
    assert 'r' in "r:gz";
    WithOpenVerdict([Node(1, Name("p")), Node(1, Str("r:gz"))], [], f);
  }

  const NameP := Node(1, Keyword("name", Node(1, Name("p"))))

  /** `with tarfile.open(name=p, mode="r") as t:` is a `Threat`, found by the
      mode keyword; with `mode="w"` there is no verdict. */
  lemma KeywordsOnly(f: Finding)
    ensures Detector(FirstPass(WithOpen([], [NameP, ModeR])), WithOpen([], [NameP, ModeR]))
              (ExtractAllPath, ExtractAllAttr, f) == (false, Finding(2, Threat))
    ensures Detector(FirstPass(WithOpen([], [NameP, ModeW])), WithOpen([], [NameP, ModeW]))
              (ExtractAllPath, ExtractAllAttr, f) == (true, f)
  {
    assert IsReadModeKeyword(ModeR);
    assert !IsReadModeKeyword(NameP) && !IsReadModeKeyword(ModeW);
    WithOpenVerdict([], [NameP, ModeR], f);
    WithOpenVerdict([], [NameP, ModeW], f);
  }

  /** `with tarfile.open(name=p) as t:` is a `PotentialThreat`. */
  lemma NoPositional(f: Finding)
    ensures Detector(FirstPass(WithOpen([], [NameP])), WithOpen([], [NameP]))
              (ExtractAllPath, ExtractAllAttr, f) == (false, Finding(2, PotentialThreat))
  {
    WithOpenVerdict([], [NameP], f);
  }

  // ---------------------------------------------------------------------------
  // `t.extractall(dest, filter="data")` on its own, with no `with` around it.

  const BareExtractAll := Node(1, Attribute(Node(1, Name("t")), "extractall"))
  const Bare := Node(1, Module([
    Node(1, ExprStmt(Node(1, Call(BareExtractAll, [Node(1, Name("dest"))],
                                  [Node(1, Keyword("filter", Node(1, Str("data"))))], None, None))))]))

  /** Its third ancestor is the module, not a `with`: no classification, the
      walk goes on into the attribute. */
  lemma ExtractAllOutsideWith(f: Finding)
    ensures NodeAt(Bare, [0, 0, 0]) == Some(BareExtractAll)
    ensures Detector(FirstPass(Bare), Bare)([0, 0, 0], BareExtractAll, f) == (true, f)
  {
    var path: Path := [0, 0, 0];
    BareShape();
    assert path[..0] == [];
    assert Ancestor(Bare, path, 3) == Some(Bare);
    ExtractAllOutside(Bare, path, f, Bare);
  }

  lemma BareShape()
    ensures NodeAt(Bare, [0, 0, 0]) == Some(BareExtractAll)
  {
    var stmt := Bare.kind.body[0];
    var call := stmt.kind.value;
    assert NodeAt(call, [0]) == Some(BareExtractAll);
    assert NodeAt(stmt, [0]) == Some(call);
    Descend(stmt, 0, call, [0], Some(BareExtractAll));
    assert NodeAt(Bare, [0]) == Some(stmt);
    Descend(Bare, 0, stmt, [0, 0], Some(BareExtractAll));
  }

  /** `ExtractAllRule` for an attribute whose third ancestor `x` is not a
      `with` statement. */
  lemma ExtractAllOutside(tree: Node, at: Path, f: Finding, x: Node)
    requires NodeAt(tree, at).Some? && IsAttr(NodeAt(tree, at).value, "extractall")
    requires Ancestor(tree, at, 3) == Some(x) && !x.kind.With?
    ensures Detector(FirstPass(tree), tree)(at, NodeAt(tree, at).value, f) == (true, f)
  {
    ExtractAllRule(tree, at, f);
  }
}
