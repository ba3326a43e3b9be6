/**
 The Python syntax tree the scanner consumes, as produced by the external
 parser, and the ordered child lists that the walker in walk/ast.go descends
 into.

 Every node carries its source line and one of the sixty variants the walker
 dispatches on. Only the payloads the detection rules read are kept
 (identifiers and string literals); operators, expression contexts and numeric
 literal values are dropped. Optional fields are `Option`s: an absent child is
 simply not a child.

 A node is identified by its path from the root: the sequence of child
 indices, into `Children`, that leads to it. Because a tree shares no
 substructure, a path names exactly one node, as a pointer does in the source.
 */
module Syntax {

  datatype Option<+T> = None | Some(value: T)

  datatype Node = Node(line: int, kind: Kind)

  /** One clause `for target in iter if ifs...` of a comprehension. It is not a
      node of its own: its parts are children of the enclosing comprehension. */
  datatype Comprehension = Comprehension(target: Node, iter: Node, ifs: seq<Node>)

  datatype Kind =
    // module nodes
    | Module(body: seq<Node>)
    | Interactive(body: seq<Node>)
    | Expression(expr: Node)
    | Suite(body: seq<Node>)
    // statement nodes
    | FunctionDef(name: string, params: Option<Node>, body: seq<Node>,
                  decorators: seq<Node>, returnAnnotation: Option<Node>)
    | ClassDef(name: string, bases: seq<Node>, keywords: seq<Node>, starargs: Option<Node>,
               kwargs: Option<Node>, body: seq<Node>, decorators: seq<Node>)
    | Return(returned: Option<Node>)
    | Delete(targets: seq<Node>)
    | Assign(targets: seq<Node>, value: Node)
    | AugAssign(target: Node, value: Node)
    | For(target: Node, iter: Node, body: seq<Node>, orelse: seq<Node>)
    | While(test: Node, body: seq<Node>, orelse: seq<Node>)
    | If(test: Node, body: seq<Node>, orelse: seq<Node>)
    | With(items: seq<Node>, body: seq<Node>)
    | Raise(exc: Option<Node>, cause: Option<Node>)
    | Try(body: seq<Node>, handlers: seq<Node>, orelse: seq<Node>, finalbody: seq<Node>)
    | Assert(test: Node, msg: Option<Node>)
    | Import(names: seq<Node>)
    | ImportFrom(moduleName: string, names: seq<Node>, level: nat)
    | Global(identifiers: seq<string>)
    | Nonlocal(identifiers: seq<string>)
    | ExprStmt(value: Node)
    | Pass
    | Break
    | Continue
    // expression nodes
    | BoolOp(values: seq<Node>)
    | BinOp(left: Node, right: Node)
    | UnaryOp(operand: Node)
    | Lambda(params: Option<Node>, result: Node)
    | IfExp(test: Node, ifTrue: Node, ifFalse: Node)
    | Dict(keys: seq<Node>, values: seq<Node>)
    | Set(elts: seq<Node>)
    | ListComp(elt: Node, generators: seq<Comprehension>)
    | SetComp(elt: Node, generators: seq<Comprehension>)
    | DictComp(key: Node, value: Node, generators: seq<Comprehension>)
    | GeneratorExp(elt: Node, generators: seq<Comprehension>)
    | Yield(yielded: Option<Node>)
    | YieldFrom(value: Node)
    | Compare(left: Node, comparators: seq<Node>)
    | Call(func: Node, args: seq<Node>, keywords: seq<Node>, starargs: Option<Node>,
           kwargs: Option<Node>)
    | Num
    | Str(s: string)
    | Bytes
    | NameConstant
    | Ellipsis
    | Attribute(value: Node, attr: string)
    | Subscript(value: Node, slice: Node)
    | Starred(value: Node)
    | Name(id: string)
    | List(elts: seq<Node>)
    | Tuple(elts: seq<Node>)
    // slicer nodes
    | Slice(lower: Option<Node>, upper: Option<Node>, step: Option<Node>)
    | ExtSlice(dims: seq<Node>)
    | Index(value: Node)
    // auxiliary nodes
    | ExceptHandler(exprType: Option<Node>, name: string, body: seq<Node>)
    | Arguments(args: seq<Node>, vararg: Option<Node>, kwonlyargs: seq<Node>,
                kwDefaults: seq<Node>, kwarg: Option<Node>, defaults: seq<Node>)
    | Arg(arg: string, annotation: Option<Node>)
    | Keyword(arg: string, value: Node)
    | Alias(name: string, asName: string)
    | WithItem(contextExpr: Node, optionalVars: Option<Node>)

  /** The variants with no child field at all. */
  predicate IsLeaf(k: Kind) {
    k.Name? || k.Num? || k.Str? || k.Bytes? || k.NameConstant? || k.Ellipsis?
    || k.Pass? || k.Break? || k.Continue? || k.Global? || k.Nonlocal? || k.Alias?
  }

  /** A present optional child, or nothing. */
  function Opt(o: Option<Node>): (r: seq<Node>)
    ensures o.None? <==> r == []
    ensures o.Some? ==> r == [o.value]
  {
    match o
    case None => []
    case Some(c) => [c]
  }

  /** The parts of each clause in turn: target, iterable, then its conditions. */
  function Clauses(gs: seq<Comprehension>): seq<Node> {
    if gs == [] then [] else [gs[0].target, gs[0].iter] + gs[0].ifs + Clauses(gs[1..])
  }

  /** The children the walker descends into, in the order it visits them:
      the node's fields in declaration order, sequences element by element,
      absent optional fields skipped. */
  function Children(n: Node): seq<Node> {
    match n.kind
    case Module(body) => body
    case Interactive(body) => body
    case Expression(expr) => [expr]
    case Suite(body) => body
    case FunctionDef(_, params, body, decorators, returnAnnotation) =>
      Opt(params) + body + decorators + Opt(returnAnnotation)
    case ClassDef(_, bases, keywords, starargs, kwargs, body, decorators) =>
      bases + keywords + Opt(starargs) + Opt(kwargs) + body + decorators
    case Return(returned) => Opt(returned)
    case Delete(targets) => targets
    case Assign(targets, value) => targets + [value]
    case AugAssign(target, value) => [target, value]
    case For(target, iter, body, orelse) => [target, iter] + body + orelse
    case While(test, body, orelse) => [test] + body + orelse
    case If(test, body, orelse) => [test] + body + orelse
    case With(items, body) => items + body
    case Raise(exc, cause) => Opt(exc) + Opt(cause)
    case Try(body, handlers, orelse, finalbody) => body + handlers + orelse + finalbody
    case Assert(test, msg) => [test] + Opt(msg)
    case Import(names) => names
    case ImportFrom(_, names, _) => names
    case Global(_) => []
    case Nonlocal(_) => []
    case ExprStmt(value) => [value]
    case Pass => []
    case Break => []
    case Continue => []
    case BoolOp(values) => values
    case BinOp(left, right) => [left, right]
    case UnaryOp(operand) => [operand]
    case Lambda(params, result) => Opt(params) + [result]
    case IfExp(test, ifTrue, ifFalse) => [test, ifTrue, ifFalse]
    case Dict(keys, values) => keys + values
    case Set(elts) => elts
    case ListComp(elt, generators) => [elt] + Clauses(generators)
    case SetComp(elt, generators) => [elt] + Clauses(generators)
    case DictComp(key, value, generators) => [key, value] + Clauses(generators)
    case GeneratorExp(elt, generators) => [elt] + Clauses(generators)
    case Yield(yielded) => Opt(yielded)
    case YieldFrom(value) => [value]
    case Compare(left, comparators) => [left] + comparators
    case Call(func, args, keywords, starargs, kwargs) =>
      [func] + args + keywords + Opt(starargs) + Opt(kwargs)
    case Num => []
    case Str(_) => []
    case Bytes => []
    case NameConstant => []
    case Ellipsis => []
    case Attribute(value, _) => [value]
    case Subscript(value, slice) => [value, slice]
    case Starred(value) => [value]
    case Name(_) => []
    case List(elts) => elts
    case Tuple(elts) => elts
    case Slice(lower, upper, step) => Opt(lower) + Opt(upper) + Opt(step)
    case ExtSlice(dims) => dims
    case Index(value) => [value]
    case ExceptHandler(exprType, _, body) => Opt(exprType) + body
    case Arguments(args, vararg, kwonlyargs, kwDefaults, kwarg, defaults) =>
      args + Opt(vararg) + kwonlyargs + kwDefaults + Opt(kwarg) + defaults
    case Arg(_, annotation) => Opt(annotation)
    case Keyword(_, value) => [value]
    case Alias(_, _) => []
    case WithItem(contextExpr, optionalVars) => [contextExpr] + Opt(optionalVars)
  }

  /** Leaf variants contribute no children. */
  lemma LeavesHaveNoChildren(n: Node)
    ensures IsLeaf(n.kind) ==> Children(n) == []
  {
  }

  // ---------------------------------------------------------------------------
  // Size: the termination measure for every recursion over `Children`.
  // Dafny cannot see on its own that an element of `Children(n)` is a
  // sub-value of `n`, so the size is computed field by field and then related
  // to the child list.

  function Size(n: Node): nat {
    1 + FieldsSizeModuleAndStmt(n.kind) + FieldsSizeExpr(n.kind) + FieldsSizeAux(n.kind)
  }

  /** Total size of the children of the module and statement variants; zero for the others. */
  function FieldsSizeModuleAndStmt(k: Kind): nat {
    match k
    case Module(body) => SizeAll(body)
    case Interactive(body) => SizeAll(body)
    case Expression(expr) => Size(expr)
    case Suite(body) => SizeAll(body)
    case FunctionDef(_, params, body, decorators, returnAnnotation) =>
      SizeOpt(params) + SizeAll(body) + SizeAll(decorators) + SizeOpt(returnAnnotation)
    case ClassDef(_, bases, keywords, starargs, kwargs, body, decorators) =>
      SizeAll(bases) + SizeAll(keywords) + SizeOpt(starargs) + SizeOpt(kwargs)
      + SizeAll(body) + SizeAll(decorators)
    case Return(returned) => SizeOpt(returned)
    case Delete(targets) => SizeAll(targets)
    case Assign(targets, value) => SizeAll(targets) + Size(value)
    case AugAssign(target, value) => Size(target) + Size(value)
    case For(target, iter, body, orelse) =>
      Size(target) + Size(iter) + SizeAll(body) + SizeAll(orelse)
    case While(test, body, orelse) => Size(test) + SizeAll(body) + SizeAll(orelse)
    case If(test, body, orelse) => Size(test) + SizeAll(body) + SizeAll(orelse)
    case With(items, body) => SizeAll(items) + SizeAll(body)
    case Raise(exc, cause) => SizeOpt(exc) + SizeOpt(cause)
    case Try(body, handlers, orelse, finalbody) =>
      SizeAll(body) + SizeAll(handlers) + SizeAll(orelse) + SizeAll(finalbody)
    case Assert(test, msg) => Size(test) + SizeOpt(msg)
    case Import(names) => SizeAll(names)
    case ImportFrom(_, names, _) => SizeAll(names)
    case Global(_) => 0
    case Nonlocal(_) => 0
    case ExprStmt(value) => Size(value)
    case Pass => 0
    case Break => 0
    case Continue => 0
    case _ => 0
  }

  /** Total size of the children of the expression variants; zero for the others. */
  function FieldsSizeExpr(k: Kind): nat {
    match k
    case BoolOp(values) => SizeAll(values)
    case BinOp(left, right) => Size(left) + Size(right)
    case UnaryOp(operand) => Size(operand)
    case Lambda(params, result) => SizeOpt(params) + Size(result)
    case IfExp(test, ifTrue, ifFalse) => Size(test) + Size(ifTrue) + Size(ifFalse)
    case Dict(keys, values) => SizeAll(keys) + SizeAll(values)
    case Set(elts) => SizeAll(elts)
    case ListComp(elt, generators) => Size(elt) + SizeClauses(generators)
    case SetComp(elt, generators) => Size(elt) + SizeClauses(generators)
    case DictComp(key, value, generators) => Size(key) + Size(value) + SizeClauses(generators)
    case GeneratorExp(elt, generators) => Size(elt) + SizeClauses(generators)
    case Yield(yielded) => SizeOpt(yielded)
    case YieldFrom(value) => Size(value)
    case Compare(left, comparators) => Size(left) + SizeAll(comparators)
    case Call(func, args, keywords, starargs, kwargs) =>
      Size(func) + SizeAll(args) + SizeAll(keywords) + SizeOpt(starargs) + SizeOpt(kwargs)
    case Num => 0
    case Str(_) => 0
    case Bytes => 0
    case NameConstant => 0
    case Ellipsis => 0
    case Attribute(value, _) => Size(value)
    case Subscript(value, slice) => Size(value) + Size(slice)
    case Starred(value) => Size(value)
    case Name(_) => 0
    case List(elts) => SizeAll(elts)
    case Tuple(elts) => SizeAll(elts)
    case _ => 0
  }

  /** Total size of the children of the slicer and auxiliary variants; zero for the others. */
  function FieldsSizeAux(k: Kind): nat {
    match k
    case Slice(lower, upper, step) => SizeOpt(lower) + SizeOpt(upper) + SizeOpt(step)
    case ExtSlice(dims) => SizeAll(dims)
    case Index(value) => Size(value)
    case ExceptHandler(exprType, _, body) => SizeOpt(exprType) + SizeAll(body)
    case Arguments(args, vararg, kwonlyargs, kwDefaults, kwarg, defaults) =>
      SizeAll(args) + SizeOpt(vararg) + SizeAll(kwonlyargs) + SizeAll(kwDefaults)
      + SizeOpt(kwarg) + SizeAll(defaults)
    case Arg(_, annotation) => SizeOpt(annotation)
    case Keyword(_, value) => Size(value)
    case Alias(_, _) => 0
    case WithItem(contextExpr, optionalVars) => Size(contextExpr) + SizeOpt(optionalVars)
    case _ => 0
  }

  function SizeAll(s: seq<Node>): nat {
    if s == [] then 0 else Size(s[0]) + SizeAll(s[1..])
  }

  function SizeOpt(o: Option<Node>): nat {
    match o
    case None => 0
    case Some(c) => Size(c)
  }

  function SizeClauses(gs: seq<Comprehension>): nat {
    if gs == [] then 0
    else Size(gs[0].target) + Size(gs[0].iter) + SizeAll(gs[0].ifs) + SizeClauses(gs[1..])
  }

  lemma {:induction false} SizeAllAppend(a: seq<Node>, b: seq<Node>)
    ensures SizeAll(a + b) == SizeAll(a) + SizeAll(b)
    decreases |a|
  {
    if a == [] {
      assert a + b == b;
    } else {
      assert (a + b)[1..] == a[1..] + b;
      SizeAllAppend(a[1..], b);
    }
  }

  lemma SizeAllOpt(o: Option<Node>)
    ensures SizeAll(Opt(o)) == SizeOpt(o)
  {
    if o.Some? {
      assert Opt(o)[1..] == [];
    }
  }

  lemma SizeAllPair(a: Node, b: Node)
    ensures SizeAll([a, b]) == Size(a) + Size(b)
  {
    assert [b][1..] == [];
    assert SizeAll([b]) == Size(b);
    assert [a, b][1..] == [b];
  }

  lemma {:induction false} SizeAllClauses(gs: seq<Comprehension>)
    ensures SizeAll(Clauses(gs)) == SizeClauses(gs)
    decreases |gs|
  {
    if gs != [] {
      var g := gs[0];
      var head := [g.target, g.iter] + g.ifs;
      assert Clauses(gs) == head + Clauses(gs[1..]);
      SizeAllAppend(head, Clauses(gs[1..]));
      SizeAllAppend([g.target, g.iter], g.ifs);
      SizeAllPair(g.target, g.iter);
      SizeAllClauses(gs[1..]);
    }
  }

  /** The facts about `SizeAll` that relate a field-by-field size to the size
      of the concatenated child list. */
  lemma SizeAllFacts()
    ensures forall a: seq<Node>, b: seq<Node> :: SizeAll(a + b) == SizeAll(a) + SizeAll(b)
    ensures forall o: Option<Node> :: SizeAll(Opt(o)) == SizeOpt(o)
    ensures forall gs: seq<Comprehension> :: SizeAll(Clauses(gs)) == SizeClauses(gs)
    ensures forall c: Node :: SizeAll([c]) == Size(c)
  {
    forall a: seq<Node>, b: seq<Node> ensures SizeAll(a + b) == SizeAll(a) + SizeAll(b) {
      SizeAllAppend(a, b);
    }
    forall o: Option<Node> ensures SizeAll(Opt(o)) == SizeOpt(o) {
      SizeAllOpt(o);
    }
    forall gs: seq<Comprehension> ensures SizeAll(Clauses(gs)) == SizeClauses(gs) {
      SizeAllClauses(gs);
    }
    forall c: Node ensures SizeAll([c]) == Size(c) {
      assert [c][1..] == [];
    }
  }

  /** The size equation for the module variants, returns and deletions. */
  lemma SizeModules(n: Node)
    requires n.kind.Module? || n.kind.Interactive? || n.kind.Expression? || n.kind.Suite?
             || n.kind.Return? || n.kind.Delete?
    ensures Size(n) == 1 + SizeAll(Children(n))
  {
    SizeAllFacts();
  }

  /** The size equation for function definitions. */
  lemma SizeFunctionDef(n: Node)
    requires n.kind.FunctionDef?
    ensures Size(n) == 1 + SizeAll(Children(n))
  {
    var k := n.kind;
    var a := Opt(k.params);
    SizeAllOpt(k.params);
    SizeAllOpt(k.returnAnnotation);
    SizeAllAppend(a, k.body);
    SizeAllAppend(a + k.body, k.decorators);
    SizeAllAppend(a + k.body + k.decorators, Opt(k.returnAnnotation));
  }

  /** The size equation for class definitions. */
  lemma SizeClassDef(n: Node)
    requires n.kind.ClassDef?
    ensures Size(n) == 1 + SizeAll(Children(n))
  {
    var k := n.kind;
    SizeAllOpt(k.starargs);
    SizeAllOpt(k.kwargs);
    var a := k.bases + k.keywords;
    var b := a + Opt(k.starargs);
    var c := b + Opt(k.kwargs);
    var d := c + k.body;
    SizeAllAppend(k.bases, k.keywords);
    SizeAllAppend(a, Opt(k.starargs));
    SizeAllAppend(b, Opt(k.kwargs));
    SizeAllAppend(c, k.body);
    SizeAllAppend(d, k.decorators);
  }

  /** The size equation for assignments and loops. */
  lemma SizeAssignments(n: Node)
    requires n.kind.Assign? || n.kind.AugAssign? || n.kind.For? || n.kind.While?
    ensures Size(n) == 1 + SizeAll(Children(n))
  {
    SizeAllFacts();
  }

  /** The size equation for conditionals, with, raise and try. */
  lemma SizeBlocks(n: Node)
    requires n.kind.If? || n.kind.With? || n.kind.Raise? || n.kind.Try?
    ensures Size(n) == 1 + SizeAll(Children(n))
  {
    SizeAllFacts();
  }

  /** The size equation for assertions and imports. */
  lemma SizeImports(n: Node)
    requires n.kind.Assert? || n.kind.Import? || n.kind.ImportFrom? || n.kind.Global? || n.kind.Nonlocal?
    ensures Size(n) == 1 + SizeAll(Children(n))
  {
    SizeAllFacts();
  }

  /** The size equation for expression statements and the jumps. */
  lemma SizeSimpleStmts(n: Node)
    requires n.kind.ExprStmt? || n.kind.Pass? || n.kind.Break? || n.kind.Continue?
    ensures Size(n) == 1 + SizeAll(Children(n))
  {
    SizeAllFacts();
  }

  /** The size equation for the operators. */
  lemma SizeOperators(n: Node)
    requires n.kind.BoolOp? || n.kind.BinOp? || n.kind.UnaryOp? || n.kind.Lambda?
    ensures Size(n) == 1 + SizeAll(Children(n))
  {
    SizeAllFacts();
  }

  /** The size equation for conditional expressions and displays. */
  lemma SizeDisplays(n: Node)
    requires n.kind.IfExp? || n.kind.Dict? || n.kind.Set?
    ensures Size(n) == 1 + SizeAll(Children(n))
  {
    SizeAllFacts();
  }

  /** The size equation for the comprehensions. */
  lemma SizeComprehensions(n: Node)
    requires n.kind.ListComp? || n.kind.SetComp? || n.kind.DictComp? || n.kind.GeneratorExp?
    ensures Size(n) == 1 + SizeAll(Children(n))
  {
    SizeAllFacts();
  }

  /** The size equation for yields and comparisons. */
  lemma SizeYields(n: Node)
    requires n.kind.Yield? || n.kind.YieldFrom? || n.kind.Compare?
    ensures Size(n) == 1 + SizeAll(Children(n))
  {
    SizeAllFacts();
  }

  /** The size equation for calls. */
  lemma SizeCall(n: Node)
    requires n.kind.Call?
    ensures Size(n) == 1 + SizeAll(Children(n))
  {
    var k := n.kind;
    SizeAllOpt(k.starargs);
    SizeAllOpt(k.kwargs);
    assert [k.func][1..] == [];
    assert SizeAll([k.func]) == Size(k.func);
    var a := [k.func] + k.args;
    var b := a + k.keywords;
    var c := b + Opt(k.starargs);
    SizeAllAppend([k.func], k.args);
    SizeAllAppend(a, k.keywords);
    SizeAllAppend(b, Opt(k.starargs));
    SizeAllAppend(c, Opt(k.kwargs));
  }

  /** The size equation for literals. */
  lemma SizeConstants(n: Node)
    requires n.kind.Num? || n.kind.Str? || n.kind.Bytes? || n.kind.NameConstant? || n.kind.Ellipsis?
    ensures Size(n) == 1 + SizeAll(Children(n))
  {
  }

  /** The size equation for attribute accesses and subscripts. */
  lemma SizeAccesses(n: Node)
    requires n.kind.Attribute? || n.kind.Subscript?
    ensures Size(n) == 1 + SizeAll(Children(n))
  {
    SizeAllFacts();
  }

  /** The size equation for names, starred expressions, lists and tuples. */
  lemma SizeNames(n: Node)
    requires n.kind.Starred? || n.kind.Name? || n.kind.List? || n.kind.Tuple?
    ensures Size(n) == 1 + SizeAll(Children(n))
  {
    SizeAllFacts();
  }

  /** The size equation for the slicers. */
  lemma SizeSlices(n: Node)
    requires n.kind.Slice? || n.kind.ExtSlice? || n.kind.Index?
    ensures Size(n) == 1 + SizeAll(Children(n))
  {
    SizeAllFacts();
  }

  /** The size equation for handlers and parameters. */
  lemma SizeHandlers(n: Node)
    requires n.kind.ExceptHandler? || n.kind.Arg?
    ensures Size(n) == 1 + SizeAll(Children(n))
  {
    SizeAllFacts();
  }

  /** The size equation for parameter lists. */
  lemma SizeArguments(n: Node)
    requires n.kind.Arguments?
    ensures Size(n) == 1 + SizeAll(Children(n))
  {
    var k := n.kind;
    SizeAllOpt(k.vararg);
    SizeAllOpt(k.kwarg);
    var a := k.args + Opt(k.vararg);
    var b := a + k.kwonlyargs;
    var c := b + k.kwDefaults;
    var d := c + Opt(k.kwarg);
    SizeAllAppend(k.args, Opt(k.vararg));
    SizeAllAppend(a, k.kwonlyargs);
    SizeAllAppend(b, k.kwDefaults);
    SizeAllAppend(c, Opt(k.kwarg));
    SizeAllAppend(d, k.defaults);
  }

  /** The size equation for keywords, aliases and with-items. */
  lemma SizeParts(n: Node)
    requires n.kind.Keyword? || n.kind.Alias? || n.kind.WithItem?
    ensures Size(n) == 1 + SizeAll(Children(n))
  {
    SizeAllFacts();
  }

  /** A node is one larger than all of its children together. */
  lemma SizeIsOnePlusChildren(n: Node)
    ensures Size(n) == 1 + SizeAll(Children(n))
  {
    if n.kind.Module? || n.kind.Interactive? || n.kind.Expression? || n.kind.Suite?
       || n.kind.Return? || n.kind.Delete? {
      SizeModules(n);
    } else if n.kind.FunctionDef? {
      SizeFunctionDef(n);
    } else if n.kind.ClassDef? {
      SizeClassDef(n);
    } else if n.kind.Assign? || n.kind.AugAssign? || n.kind.For? || n.kind.While? {
      SizeAssignments(n);
    } else if n.kind.If? || n.kind.With? || n.kind.Raise? || n.kind.Try? {
      SizeBlocks(n);
    } else if n.kind.Assert? || n.kind.Import? || n.kind.ImportFrom? || n.kind.Global? || n.kind.Nonlocal? {
      SizeImports(n);
    } else if n.kind.ExprStmt? || n.kind.Pass? || n.kind.Break? || n.kind.Continue? {
      SizeSimpleStmts(n);
    } else if n.kind.BoolOp? || n.kind.BinOp? || n.kind.UnaryOp? || n.kind.Lambda? {
      SizeOperators(n);
    } else if n.kind.IfExp? || n.kind.Dict? || n.kind.Set? {
      SizeDisplays(n);
    } else if n.kind.ListComp? || n.kind.SetComp? || n.kind.DictComp? || n.kind.GeneratorExp? {
      SizeComprehensions(n);
    } else if n.kind.Yield? || n.kind.YieldFrom? || n.kind.Compare? {
      SizeYields(n);
    } else if n.kind.Call? {
      SizeCall(n);
    } else if n.kind.Num? || n.kind.Str? || n.kind.Bytes? || n.kind.NameConstant? || n.kind.Ellipsis? {
      SizeConstants(n);
    } else if n.kind.Attribute? || n.kind.Subscript? {
      SizeAccesses(n);
    } else if n.kind.Starred? || n.kind.Name? || n.kind.List? || n.kind.Tuple? {
      SizeNames(n);
    } else if n.kind.Slice? || n.kind.ExtSlice? || n.kind.Index? {
      SizeSlices(n);
    } else if n.kind.ExceptHandler? || n.kind.Arg? {
      SizeHandlers(n);
    } else if n.kind.Arguments? {
      SizeArguments(n);
    } else {
      SizeParts(n);
    }
  }

  lemma {:induction false} ElementSmallerThanAll(s: seq<Node>, i: nat)
    requires i < |s|
    ensures Size(s[i]) <= SizeAll(s)
    decreases i
  {
    if i > 0 {
      ElementSmallerThanAll(s[1..], i - 1);
    }
  }

  /** Every child is strictly smaller than its parent. */
  lemma ChildSmaller(n: Node, i: nat)
    requires i < |Children(n)|
    ensures Size(Children(n)[i]) < Size(n)
  {
    SizeIsOnePlusChildren(n);
    ElementSmallerThanAll(Children(n), i);
  }

  // ---------------------------------------------------------------------------
  // Addressing nodes by path.

  /** The address of a node: the child indices leading to it from a root. */
  type Path = seq<nat>

  /** The node at path `p` below `n`, if the path leads anywhere. */
  function NodeAt(n: Node, p: Path): Option<Node>
    decreases |p|
  {
    if p == [] then Some(n)
    else if p[0] < |Children(n)| then NodeAt(Children(n)[p[0]], p[1..])
    else None
  }

  /** Following `p` and then `q` is following `p + q`. */
  lemma {:induction false} NodeAtAppend(n: Node, p: Path, q: Path)
    ensures NodeAt(n, p + q) == (if NodeAt(n, p).Some? then NodeAt(NodeAt(n, p).value, q) else None)
    decreases |p|
  {
    if p == [] {
      assert p + q == q;
    } else {
      assert (p + q)[0] == p[0];
      assert (p + q)[1..] == p[1..] + q;
      if p[0] < |Children(n)| {
        NodeAtAppend(Children(n)[p[0]], p[1..], q);
      }
    }
  }

  /** Every prefix of a path that leads to a node also leads to a node: the
      ancestors of a node exist. */
  lemma PrefixLeadsSomewhere(n: Node, p: Path, k: nat)
    requires NodeAt(n, p).Some?
    requires k <= |p|
    ensures NodeAt(n, p[..k]).Some?
  {
    assert p == p[..k] + p[k..];
    NodeAtAppend(n, p[..k], p[k..]);
  }

  // ---------------------------------------------------------------------------
  // Field order of the variants the detector inspects.

  /** A loop's children: target, iterable, the body, then the else branch. */
  lemma ForFieldOrder(n: Node)
    requires n.kind.For?
    ensures var k := n.kind;
      && |Children(n)| == 2 + |k.body| + |k.orelse|
      && Children(n)[0] == k.target && Children(n)[1] == k.iter
      && (forall i :: 0 <= i < |k.body| ==> Children(n)[2 + i] == k.body[i])
      && (forall j :: 0 <= j < |k.orelse| ==> Children(n)[2 + |k.body| + j] == k.orelse[j])
  {
  }

  /** A call's children: the callee, the positional arguments, the keyword
      arguments, then `*args` and `**kwargs` when present. */
  lemma CallFieldOrder(n: Node)
    requires n.kind.Call?
    ensures var k := n.kind;
      var rest := 1 + |k.args| + |k.keywords|;
      && |Children(n)| == rest + |Opt(k.starargs)| + |Opt(k.kwargs)|
      && Children(n)[0] == k.func
      && (forall i :: 0 <= i < |k.args| ==> Children(n)[1 + i] == k.args[i])
      && (forall j :: 0 <= j < |k.keywords| ==> Children(n)[1 + |k.args| + j] == k.keywords[j])
      && (k.starargs.Some? ==> Children(n)[rest] == k.starargs.value)
      && (k.kwargs.Some? ==> Children(n)[|Children(n)| - 1] == k.kwargs.value)
  {
  }

  /** A `with` statement's children: its items, then its body. */
  lemma WithFieldOrder(n: Node)
    requires n.kind.With?
    ensures var k := n.kind;
      && |Children(n)| == |k.items| + |k.body|
      && (forall i :: 0 <= i < |k.items| ==> Children(n)[i] == k.items[i])
      && (forall j :: 0 <= j < |k.body| ==> Children(n)[|k.items| + j] == k.body[j])
  {
  }

  /** The node an attribute access `value.name` is represented by. */
  predicate IsAttr(n: Node, name: string) {
    n.kind.Attribute? && n.kind.attr == name
  }

  /** An attribute access `_.name` occurs somewhere in the subtree of `n`
      (`n` itself included). */
  ghost predicate Occurs(n: Node, name: string) {
    exists p: Path :: NodeAt(n, p).Some? && IsAttr(NodeAt(n, p).value, name)
  }

  /** An attribute access occurs in a subtree exactly when the root is one or
      it occurs in the subtree of some child. */
  lemma OccursStep(n: Node, name: string)
    ensures Occurs(n, name) <==>
      IsAttr(n, name) || exists j :: 0 <= j < |Children(n)| && Occurs(Children(n)[j], name)
  {
    if Occurs(n, name) && !IsAttr(n, name) {
      var p: Path :| NodeAt(n, p).Some? && IsAttr(NodeAt(n, p).value, name);
      assert p != [];
      assert NodeAt(Children(n)[p[0]], p[1..]) == NodeAt(n, p);
      assert Occurs(Children(n)[p[0]], name);
    }
    if IsAttr(n, name) {
      assert NodeAt(n, []) == Some(n);
    }
    if j :| 0 <= j < |Children(n)| && Occurs(Children(n)[j], name) {
      var q: Path :| NodeAt(Children(n)[j], q).Some? && IsAttr(NodeAt(Children(n)[j], q).value, name);
      assert ([j] + q)[0] == j && ([j] + q)[1..] == q;
      assert NodeAt(n, [j] + q) == NodeAt(Children(n)[j], q);
    }
  }
}
