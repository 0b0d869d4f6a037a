# pyLinter rule logic in Dafny

This is a model of the rule logic of `myLint.py`, a small AST linter for
Python. The linter runs two checkers over a parsed syntax tree:

- **W001**, `SetDuplicateItemChecker`, reports a constant in a set display
  when an earlier constant in the same display already has that value.
- **W002**, `Unused_Variable_Checker`, runs a fresh usage tracker
  (`Unused_Variable_In_Scope_Checker`) over the subtree of every class and
  function definition. It reports each name that is stored there and never
  read or deleted.

Both checkers inherit the dispatch of `ast.NodeVisitor`. The model takes the
tree as its input. `Syntax.Node` has a unique id, a kind, a position and its
children in order.

Modules, leaf first:

- `syntax.dfy` (`Syntax`): the node datatype, the constant values, the Python
  class name of each kind, and pre-order. It also proves that a subtree is
  one contiguous stretch of the tree's pre-order.
- `node_visitor.dfy` (`NodeVisitor`): the traversal engine. `visit` looks up
  the handler `visit_<class name>` by name. A handler that does not end in
  `generic_visit` does not descend. Without a handler, the engine visits the
  children in order. A traversal is proved to equal the handler folded over
  the nodes it reaches, in pre-order.
- `checker.dfy` (`Checker`): `Violation` and its `Message`, and the set of
  violations. Collecting only grows this set. Re-visiting the same tree adds
  nothing.
- `set_duplicates.dfy` (`SetDuplicateItem`): `visit_Set` and its exact
  specification.
- `unused_variables.dfy` (`UnusedVariable`): `visit_Name`, the tracker,
  `check_for_unused_variables`, and the three scope handlers.
- `scenarios.dfy` (`Scenarios`): two worked trees.

In two places the code does less than its own names and comments say. The
model follows the code:

- The checker has a handler named `visit_Modules` (myLint.py:122), so
  module-level names were meant to be checked. Python looks up
  `visit_Module`, so a module never gets a scope check. The model reproduces
  the lookup by name, and `UnusedVariable.UnusedCheckerDispatch` proves that
  only `ClassDef` and `FunctionDef` nodes are checked.
- The comment at myLint.py:111 says the checker looks at the local scope of
  a node. But `visitor.visit(node)` at myLint.py:114 walks the node's whole
  subtree, nested definitions included. So a read of `x` inside a nested
  function marks an outer `x` as used. An outer variable that is never read
  is therefore not reported when a nested function reads a variable of the
  same name. `Scenarios.NestedScopesExample` shows this.
Constants compare by the structural equality of `Syntax.Value`. They do not
use Python's cross-type `==`.

`ast.NodeVisitor` has its own `visit_Constant`. For these checkers it ends in
`generic_visit`, which has the same effect as having no handler, so the model
gives constants no handler.

## Model

| member | source | states |
|---|---|---|
| NodeVisitor.VisitIsFold | myLint.py:17-24 | The effect of visiting a tree is the checker's handler applied, in pre-order, to the nodes whose handler runs. Nodes without a handler add nothing but the walk into their children. |
| NodeVisitor.ReachedIsSelect | myLint.py:17-24 | When every handler that does not call `generic_visit` sits on a leaf, the handlers run on exactly the dispatched nodes of the tree, in pre-order. |
| NodeVisitor.ReachedExactly | myLint.py:17-24 | In a tree whose nodes are distinct, a handler runs on a node if and only if the node is in the tree, its class has a `visit_` method, and it lies below no handler that skips `generic_visit`. |
| NodeVisitor.HandlerlessChildrenInvisible | myLint.py:17-24 | Children with no handler anywhere below them do not change a traversal, as long as the parent's own handler does not read them. So leaving out such nodes, like the `ctx` child of a `Name`, changes no result. |
| NodeVisitor.ReachedAreDispatched | myLint.py:17-24 | A handler only ever runs on a node of the visited tree whose class has a `visit_` method. |
| Checker.VisitAccumulates | myLint.py:9-24 | A checker whose handlers only add violations keeps every violation it had. What it adds does not depend on what it had. Visiting the same tree again leaves the set unchanged, because an equal (node, message) pair is one entry. |
| SetDuplicateItem.DuplicateCheckerDispatch | myLint.py:58 | `visit_Set` runs on set displays and on no other node. |
| SetDuplicateItem.VisitSetReportsDuplicates | myLint.py:58-75 | On a set display, the checker adds exactly the violations `(element i, duplicate of its value)` for which element i is a constant and an earlier element is the same constant. It keeps everything it had. |
| SetDuplicateItem.DuplicatesExactly | myLint.py:60-75 | On a set display with distinct element nodes, element i is reported with value v if and only if it is the constant v and an earlier element holds v. So the first occurrence of a value and any non-constant are never reported. |
| SetDuplicateItem.NonConstantsDoNotMatter | myLint.py:61-64 | Dropping the non-constant elements leaves the report unchanged. Non-constants are neither reported nor added to the seen values. |
| SetDuplicateItem.SetDisplayNotDescended | myLint.py:58-75 | The handler on a set display is the only one that runs for its subtree. Cutting off everything below the elements, nested set displays included, changes nothing. |
| SetDuplicateItem.DuplicateCheckerOnTree | myLint.py:55-75 | Over a whole tree, the report is the union of the reports of the set displays reached, and all of them are set nodes of the tree. A second run on the same tree adds nothing. |
| SetDuplicateItem.DuplicateCheckerReaches | myLint.py:55-75 | In a tree whose nodes are distinct, `visit_Set` runs on a node if and only if it is a set display of the tree that does not lie among the elements of another set display. |
| UnusedVariable.FoldTrackerAt | myLint.py:93-108 | After the tracker has met a sequence of names from any state: a name has a first-store entry if and only if it had one or is stored. An existing entry is never overwritten, and a new one is the first store. A name is flagged unused if and only if it is never used and was not already flagged used. A later store never turns `False` back into `True`. |
| UnusedVariable.VerdictOrderInsensitive | myLint.py:97-108 | Two sequences of the same name nodes, in any order, leave the same `unused_names`. |
| UnusedVariable.TrackVerdict | myLint.py:97-108 | For a scope, `unused_names[x]` is true if and only if x is stored and never read or deleted among the names met. `name_nodes[x]` is its first store. A true flag always has a `name_nodes` entry, so the lookup at line 119 cannot fail. |
| UnusedVariable.CheckForUnusedVariables | myLint.py:112-120 | The result is the old violations plus exactly one `Unused variable` violation per name that is stored and never used in the scope's subtree, placed on that name's first store. |
| UnusedVariable.ScopeTrackerDispatch | myLint.py:93 | The tracker's only handler runs on `Name` nodes and on nothing else. |
| UnusedVariable.UnusedCheckerDispatch | myLint.py:122-132 | A scope check runs on a node if and only if it is a `ClassDef` or a `FunctionDef`. It never runs on a `Module`, because the handler is named `visit_Modules`. |
| UnusedVariable.ScopeCheckExactly | myLint.py:112-120 | On a tree as Python parses it, the scope check reports (id, x) if and only if x is stored and never used anywhere in the scope's subtree, nested definitions included, and id is x's first store in pre-order. |
| UnusedVariable.UnusedCheckerScopes | myLint.py:122-132 | The scope checks run on exactly the class and function definitions of the tree, in pre-order. The checker keeps descending after each, so nested definitions get their own check. |
| UnusedVariable.UnusedCheckerOnTree | myLint.py:122-132 | The whole checker's report is the union of the scope checks of the tree's class and function definitions. A second run adds nothing. |
| UnusedVariable.ModuleLevelNamesUnchecked | myLint.py:122-124 | A name stored only outside every class and function definition is never reported. |
| UnusedVariable.NestedUseHidesOuterStore | myLint.py:113-114 | A read of x anywhere in a nested definition means the enclosing scope never reports x. |
| UnusedVariable.NestedNameReportedAlike | myLint.py:113-120 | A name that occurs in a scope only inside one nested definition gets the same violation (same node, same message) from the enclosing scope's check as from the nested one's. The set holds it once. |
| Scenarios.SetDisplayExample | myLint.py:58-75 | `{1, 2, 2, 3, 1}` gets exactly two violations, on the second `2` and the second `1`. `{1, 2, 3}` gets none. |
| Scenarios.NestedScopesExample | myLint.py:110-132 | In `def f(): x = 1; def g(): x = 2; y = x`, the outer `x` is not reported, because `g` reads `x`. The unread `y` is found by both scope checks and reported once. |

## Left out

- Parsing (`ast.parse`). The tree is an input. Read or parse failures therefore do not arise.
- File reading, `os.path.basename`, `sys.argv`, `main` and `print_violations`. These are I/O and output formatting. The issue codes `W001` and `W002` are used only in printing, so they are not modelled.
- `Linter.run`. This loop runs each checker of an unordered set and prints after each one. The model gives each checker's result on its own, as `Visit(checker, tree, {})`, and does not model the order.
- Message text. `Checker.Message` stands for the two message strings. The `repr` of a value is not modelled.
- Python's cross-type constant equality (`True == 1 == 1.0`), and float and complex constants. `Syntax.Value` compares structurally.
- Node classes that no checker handles are one kind, `Other`. Function arguments (`ast.arg`) are among them, as in Python, where they are not `Name` nodes.
- The `ctx` child of an `ast.Name`. In Python it is a node of class `Load`, `Store` or `Del` with no fields. The model folds it into the kind, `Name(id, ctx)`, so a `Name` has no children. No checker has a handler for those classes, and `NodeVisitor.HandlerlessChildrenInvisible` shows that such children change no result.
- Recursion depth. `visit` and `generic_visit` take at least two Python stack frames per tree level. A tree deeper than roughly 500 levels, such as a long `a + a + ... + a` chain, makes the checker stop with `RecursionError`. The model returns a violation set for every tree.
- UnusedVariable.ScopeCheckExactly: stated for trees whose `Name` nodes have no children, which holds once each `ctx` is folded into its `Name`. `CheckForUnusedVariables` states the same result for every tree, in terms of the names its tracker reaches.
- SetDuplicateItem.DuplicatesExactly: stated for displays whose element nodes have distinct ids, as Python's distinct node objects do. `VisitSetReportsDuplicates` holds without that assumption.
