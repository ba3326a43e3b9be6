# go-creosote in Dafny

A model of the two pieces at the heart of go-creosote, a scanner that flags
Python files which unpack `tarfile` archives in the way CVE-2007-4559 makes
dangerous:

- **The parent-recording syntax-tree walker** (`walk/ast.go`). It is a
  pre-order, depth-first traversal over the sixty node variants of the Python
  syntax tree. A visitor decides whether to descend into each node. Just
  before stepping into a child, the walker records `child -> parent` in a
  parent map, which `GetParent` reads back.
- **The extraction detector** (`scanner/creosote.go`). A scan runs two passes
  over a parsed module. Pass one has a visitor that never prunes and only
  fills the parent map. Pass two fires on attribute accesses named
  `extractall` or `extract`. It climbs three ancestors, P, PP and PPP. It then
  either classifies the occurrence as `PotentialThreat` or `Threat` with a
  line number, or lets the walk continue. `ScanAll` keeps every file whose
  result is not `OK`.

The project has four modules:

- `Syntax` (`syntax.dfy`) covers the node datatype and the ordered child list
  of each variant. It also defines the per-variant size measure that makes
  the walk terminate, and paths as node identities: a node is addressed by
  the child indices that lead to it from the root. `Occurs(n, name)` holds
  when an attribute access `_.name` occurs in a subtree.
- `Walker` (`walker.dfy`) is the walk as a fold. The visitor threads an
  accumulator through it, and the walk returns the parent map it built as a
  value. This module also holds the theorems about the map, about the order
  of the visitor's calls, and about how the accumulator is built.
- `Creosote` (`creosote.dfy`) holds `checkOpen`, `checkgetmembers`, the
  detector, `Scan` and `ScanAll`, with their theorems.
- `Examples` (`examples.dfy`) holds concrete trees:
  - the `pthreat2.py` fixture;
  - a family of `with tarfile.open(...) as t: t.extractall(dest)` modules;
  - a bare `extractall` outside any `with`.

  For each, it gives the detector's verdict on the extraction call.

Four behaviours of the detector in `scanner/creosote.go` are easy to
misread, and the model keeps each as the code has it:

- **Last match wins.** Every classifying branch sets the state and line and
  returns `false` (for example creosote.go:160-163 and 218-219). That prunes
  only the attribute's own subtree, and the walk started at creosote.go:228
  goes on, so a later match in pre-order overwrites the state and line.
  Scanning does not stop at the first finding.
- **`open(p, mode="w")` is a `Threat`.** With one positional argument and at
  most one keyword, the `len(args) == 1` branch (creosote.go:180-185) decides
  and the mode is never read.
- **A bare `extractall` is not classified.** When PPP is not a `with`, the
  `extractall` branch returns `true` (creosote.go:196) without setting the
  state, so such a file stays `OK`.
- **Two or more positional arguments without a read mode give nothing.** When
  the second argument is not a string containing `r`, the `len(args) > 1`
  branch (creosote.go:157-164) ends without a verdict. The next item is tried,
  and failing all items the branch returns `true` (creosote.go:196).

## Model

| member | source | states |
|---|---|---|
| Syntax.LeavesHaveNoChildren | walk/ast.go:320-332 | Name, Num, Str, Bytes, NameConstant, Ellipsis, Pass, Break, Continue, Global, Nonlocal and Alias have no children to walk into. The cited lines hold the Num to Ellipsis cases; the others are at walk/ast.go:204-218, 352-355 and 429-431. |
| Syntax.ForFieldOrder | walk/ast.go:132-140 | A `for` loop's children, in walk order, are its target, its iterable, its body statements, then its else statements. |
| Syntax.CallFieldOrder | walk/ast.go:306-318 | A call's children, in walk order, are the callee, the positional arguments, the keyword arguments, then `*args` and `**kwargs` when present. |
| Syntax.WithFieldOrder | walk/ast.go:158-164 | A `with` statement's children are its items and then its body. |
| Syntax.ChildSmaller | walk/ast.go:28-31 | Every child the walk steps into is strictly smaller than its parent, so the recursion ends. |
| Walker.Walk | walk/ast.go:19-22 | Walking an absent tree calls no visitor, records no parent and leaves the accumulator as given. |
| Walker.GetParent | walk/ast.go:444-451 | The lookup always reports success. It returns the recorded parent when the node has an entry, and absent otherwise, including for an absent node. |
| Walker.WalkNodeParents | walk/ast.go:23-31 | A walk of a subtree keeps existing entries and adds entries only for nodes strictly inside that subtree, each naming its structural parent. If the visitor descends into the subtree's root, every child of that root gets an entry, even one the visitor then prunes. If the visitor prunes the root, nothing is added. |
| Walker.NewEntries | walk/ast.go:23-31 | When the visitor's decision does not depend on the accumulator, a walk adds an entry for a node if and only if the node lies strictly inside the subtree and the visitor descends into every strict ancestor of it there. So a child of a node pruned at any depth gets no entry, because the walk returns before recording it. |
| Walker.FullWalkParents | walk/ast.go:28-31 | After a walk whose visitor never prunes, the nodes with an entry are exactly the non-root nodes, and each entry names the node owning the field the node sits in. |
| Walker.TracedWalkNode | walk/ast.go:23-31 | The visitor's calls come in pre-order: the subtree's root first, and every node after its parent. Each call's path strictly precedes every later call's path in pre-order: a node comes before its descendants, and the whole subtree of an earlier child comes before that of a later one, at every depth. So no node is called on twice. Pruning the root leaves the root as the only call. Logging the calls changes neither the map nor the accumulator. |
| Walker.TracedWalkChildren | walk/ast.go:34-45 | Every remaining child is visited whatever the visitor did with its earlier siblings. The calls are in pre-order, and each lies in the subtree of one of those children. |
| Walker.WalkKeeps | walk/ast.go:23-31 | The accumulator changes only through the visitor: a property that every call on a node of the subtree preserves holds of the walk's result. |
| Walker.WalkReplays | walk/ast.go:23-31 | The walk's accumulator is what replaying the visitor over the logged calls, in order, produces. |
| Walker.ReplayLastPrune | walk/ast.go:23-25 | A visitor that keeps the accumulator when it descends, and overwrites it independently of the old value when it prunes, leaves the value of the last pruning call. |
| Walker.ReplayNoPrune | walk/ast.go:23-25 | With such a visitor, calls that never prune leave the accumulator as it started. |
| Walker.Reached | walk/ast.go:23-31 | A node is called on whenever the visitor descends, whatever the accumulator, into every strict ancestor of that node within the subtree. |
| Walker.Called | walk/ast.go:23-31 | Conversely, when the visitor's decision does not depend on the accumulator, a node is called on only if the visitor descends into every strict ancestor of it within the subtree. Nothing below a pruned node is called on. |
| Creosote.CodeOrdersStates | scanner/creosote.go:27-33 | The states are numbered 1, 2 and 3, in the order `OK` < `PotentialThreat` < `Threat`. Only those numbers name a state, and the numbering round-trips. |
| Creosote.FinderFinds | scanner/creosote.go:71-81 | The mark list of the attribute finder never shrinks. It grows exactly when an access to the attribute occurs in the walked subtree. |
| Creosote.Found | scanner/creosote.go:81-84 | The finder found something iff the tree is present and the attribute occurs in it. |
| Creosote.CheckOpen | scanner/creosote.go:69-87 | `checkOpen` never returns `OK`. It returns `Threat` iff an access to `open` occurs in the given tree, and `PotentialThreat` otherwise. |
| Creosote.CheckGetMembers | scanner/creosote.go:90-109 | `checkgetmembers` is true iff `getmembers` is accessed inside the loop's iterable. The loop's target and body do not count. |
| Creosote.OpenVerdict | scanner/creosote.go:154-190 | The tiers of an `open(...)` call. `Threat` applies in three cases: a second positional string containing `r`; more than one keyword including `mode` set to a string containing `r` (with at most one positional); or exactly one positional with at most one keyword. `PotentialThreat` applies iff there is no positional and at most one keyword. Every other shape gives no verdict, and the result is never `OK`. |
| Creosote.ItemsVerdict | scanner/creosote.go:149-194 | The `with` items are tried in order. The result is the verdict of the first item whose context is an `.open(...)` call with a verdict, and there is none iff no item has one. |
| Creosote.FirstPassEntries | scanner/creosote.go:126-130 | The always-true first pass records exactly the non-root nodes, each mapped to its parent. |
| Creosote.FirstPassClimbs | scanner/creosote.go:143-145 | Looking up a node's k-th ancestor in the first pass's map gives its (k+1)-th ancestor, and gives absent once past the root. |
| Creosote.ClassifyByAncestors | scanner/creosote.go:141-145 | The detector's P, PP, PPP and the loop's parent are the first, second, third and fourth ancestors of the attribute access. |
| Creosote.ExtractAllRule | scanner/creosote.go:147-197 | An `extractall` access is classified only when its third ancestor is a `with` whose items give a verdict. The finding is that verdict at the line of the attribute's parent P, whatever kind of node P is (the call, when the attribute is its callee). Otherwise the finding so far stands and the walk descends into the attribute. |
| Creosote.ExtractRule | scanner/creosote.go:199-219 | An `extract` access is always classified. The loop case requires P to be a call with an argument or keyword, and PPP a `for` whose iterable accesses `getmembers`. Then the finding is at PP's line, and it is `Threat` iff `open` occurs under the loop's parent, otherwise `PotentialThreat`. Anywhere else it is `PotentialThreat` at P's line. |
| Creosote.DetectorOverwrites | scanner/creosote.go:138-226 | Each detector call either descends with the finding unchanged, or prunes with a finding independent of the one before. Which of the two happens does not depend on the finding either. |
| Creosote.ScanQuiet | scanner/creosote.go:135-141 | A file with no access to `extract` or `extractall` scans as `OK` at line 0, so any other result points at such an access. |
| Creosote.ScanCallsInPreOrder | scanner/creosote.go:228 | The detector pass calls the detector on the module first and on every other node after its parent. Each call strictly precedes every later one in pre-order, which puts siblings and their subtrees in field order at every depth, and no node is called on twice. |
| Creosote.ScanWithoutClassification | scanner/creosote.go:135-228 | A scan in which no call classifies yields `OK` at line 0. |
| Creosote.ScanIsLastClassification | scanner/creosote.go:138-228 | Otherwise the scan's result is the classification made by the last classifying call, in pre-order, on an extraction access. Later matches overwrite earlier ones. |
| Creosote.ScanReaches | scanner/creosote.go:138-228 | The detector pass visits a node if and only if none of its strict ancestors is classified. Every other node is visited, and nothing inside the subtree of a classified attribute is. |
| Creosote.Report | scanner/creosote.go:52-63 | A file contributes at most one result. It contributes one iff it was parsed and its scan's state is not `OK`, and that result carries the file's name and the scan's state and line. |
| Creosote.ReportedAppend | scanner/creosote.go:43-64 | The report on two lists of files is the first list's report followed by the second's, so results keep file order. |
| Creosote.ReportedMembers | scanner/creosote.go:43-64 | A result is reported iff it is the non-`OK` finding of one of the files. |
| Creosote.ScanAll | scanner/creosote.go:35-67 | `ScanAll` returns the per-file contributions in file order. Every result it returns is non-`OK`, and every non-`OK` finding of a parsed file is among them. |
| Examples.PThreat2ExtractIsThreat | scanner/creosote.go:199-210 | In the `pthreat2.py` fixture the `obj.extract` call in the `getmembers()` loop is a `Threat` at line 11. Its P is the call, PP the expression statement, PPP the `for`, and the loop's parent is the `if` whose body opens the archive. |
| Examples.WithOpenVerdict | scanner/creosote.go:147-190 | For `with tarfile.open(...) as t: t.extractall(dest)`, the occurrence gets the verdict of the `open` call's arguments at line 2, or no classification when they give none. |
| Examples.OnePositional | scanner/creosote.go:180-185 | `open(p)` in the `with` makes the extraction a `Threat`. |
| Examples.OnePositionalWriteMode | scanner/creosote.go:180-185 | `open(p, mode="w")` is also a `Threat`: the mode keyword is never examined. |
| Examples.TwoPositionalWithoutRead | scanner/creosote.go:157-164 | `open(p, "w")` gives no verdict, and the walk continues with the finding unchanged. |
| Examples.TwoPositionalRead | scanner/creosote.go:157-164 | `open(p, "r:gz")` is a `Threat`. |
| Examples.KeywordsOnly | scanner/creosote.go:166-179 | `open(name=p, mode="r")` is a `Threat`, and `open(name=p, mode="w")` gives no verdict. |
| Examples.NoPositional | scanner/creosote.go:186-190 | `open(name=p)` is a `PotentialThreat`. |
| Examples.ExtractAllOutsideWith | scanner/creosote.go:147-148 | An `extractall` whose third ancestor is the module rather than a `with` is not classified, and the walk continues. |

## Left out

- File and process I/O are left out because they are plumbing around the core, not detection logic. This covers globbing the directory, opening files, calling the Python parser and printing errors (scanner/creosote.go:35-48, 115-124), and `main.go`. A file is given as its name and its parse tree, which is absent when opening or parsing failed.
- The process-wide `ParentMap` and its lifetime (walk/ast.go:9-17) are replaced by a fresh map per walk, returned as a value. In the source the map is only cleared at start-up, so entries from earlier files linger. Those entries are keyed by other files' pointers, which the detector never looks up.
- Parent entries keyed by an absent child are left out. In the source, walking a nil optional field records an entry under the nil key. Here an absent field is not a child at all, and `GetParent` of an absent node is absent.
- The panic on an unknown node variant (walk/ast.go:439-440) is left out because the exhaustive `match` over the sixty variants cannot reach it.
- Literal payloads are dropped because no rule reads them: numbers, bytes, singletons, operators and expression contexts. String literals are kept as strings, and the `strings.Contains(s, "r")` test is `'r' in s`.
- The external walk the detector, `checkOpen` and `checkgetmembers` use is taken to traverse exactly like `walk.Walk`, minus the parent map. Its source is not part of this model, so the model reuses `Walker.WalkNode` and discards the map.
- Creosote.Rule: an attribute access with no parent entry is not classified. That happens only when the access is the root of the tree, and a parsed module never has an attribute as its root. In the source P would then be nil. The `extract` branch would always panic at `lineno = p.GetLineno()` (creosote.go:218). The `extractall` branch returns `true` (creosote.go:196) unless the lookups from the nil key lead to a `with` whose items give a verdict, and only then would it panic reading P's line. That key is filled when a nil optional child is walked (walk/ast.go:29).
- Examples.PThreat2ExtractIsThreat: proves the detector's verdict on the one `extract` call of `pthreat2.py`, a `Threat` at line 11. The result of the whole-file `Scan` of the fixture is not proved.
