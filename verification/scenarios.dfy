/** Worked trees: the set display `{1, 2, 2, 3, 1}`, and a function with a
    nested function, where the two scope checks overlap. */
module Scenarios {
  import opened Syntax
  import opened NodeVisitor
  import opened Checker
  import opened SetDuplicateItem
  import opened UnusedVariable

  function Leaf(id: NodeId, k: Kind): Node
  {
    Node(id, k, Pos(1, id), [])
  }

  /** `{1, 2, 2, 3, 1}` gets exactly two reports, on the second `2` and the
      second `1`; `{1, 2, 3}` gets none. */
  lemma SetDisplayExample()
    ensures Visit(DuplicateChecker,
                  Node(0, Set, Pos(1, 0), [Leaf(1, Constant(IntConst(1))), Leaf(2, Constant(IntConst(2))),
                                           Leaf(3, Constant(IntConst(3)))]), {})
         == {}
    ensures Visit(DuplicateChecker,
                  Node(0, Set, Pos(1, 0), [Leaf(1, Constant(IntConst(1))), Leaf(2, Constant(IntConst(2))),
                                           Leaf(3, Constant(IntConst(2))), Leaf(4, Constant(IntConst(3))),
                                           Leaf(5, Constant(IntConst(1)))]), {})
         == {Violation(3, DuplicateItem(IntConst(2))), Violation(5, DuplicateItem(IntConst(1)))}
  {
    DuplicateCheckerDispatch(Set);
  }

  /** `def g(): x = 2; y = x`, nested in `f`. */
  function InnerG(): Node
  {
    Node(5, FunctionDef("g"), Pos(3, 4), [
      Node(6, Other, Pos(4, 8), [Leaf(7, Name("x", Store)), Leaf(8, Constant(IntConst(2)))]),
      Node(9, Other, Pos(5, 8), [Leaf(10, Name("y", Store)), Leaf(11, Name("x", Load))])])
  }

  /** `def f(): x = 1; def g(): ...`, the only statement of a module. */
  function OuterF(): Node
  {
    Node(1, FunctionDef("f"), Pos(1, 0), [
      Node(2, Other, Pos(2, 4), [Leaf(3, Name("x", Store)), Leaf(4, Constant(IntConst(1)))]),
      InnerG()])
  }

  /** The names of `f`'s subtree, in the order its tracker meets them. */
  function OuterNames(): seq<Node>
  {
    [Leaf(3, Name("x", Store)), Leaf(7, Name("x", Store)), Leaf(10, Name("y", Store)), Leaf(11, Name("x", Load))]
  }

  lemma LeafReached(n: Node)
    requires n.children == []
    ensures Reached(ScopeTracker, n) == if IsName(n.kind) then [n] else []
  {
    ScopeTrackerDispatch(n.kind);
  }

  lemma ReachedPair<S>(v: Visitor<S>, n: Node)
    requires |n.children| == 2
    ensures ReachedSeq(v, n.children) == Reached(v, n.children[0]) + Reached(v, n.children[1])
  {
    var ns := n.children;
    assert ns[1..][1..] == [];
    assert ReachedSeq(v, ns[1..]) == Reached(v, ns[1]) + ReachedSeq(v, []);
  }

  lemma TrackerSteps()
    ensures Reached(ScopeTracker, InnerG()) == OuterNames()[1..]
    ensures Reached(ScopeTracker, OuterF()) == OuterNames()
  {
    ScopeTrackerDispatch(Other);
    ScopeTrackerDispatch(FunctionDef("f"));
    ScopeTrackerDispatch(FunctionDef("g"));
    var g := InnerG();
    var a := g.children[0];
    var b := g.children[1];
    LeafReached(a.children[0]);
    LeafReached(a.children[1]);
    LeafReached(b.children[0]);
    LeafReached(b.children[1]);
    ReachedPair(ScopeTracker, a);
    ReachedPair(ScopeTracker, b);
    ReachedPair(ScopeTracker, g);
    assert Reached(ScopeTracker, a) == [Leaf(7, Name("x", Store))];
    assert Reached(ScopeTracker, b) == [Leaf(10, Name("y", Store)), Leaf(11, Name("x", Load))];
    assert Reached(ScopeTracker, g) == OuterNames()[1..];
    var f := OuterF();
    var c := f.children[0];
    LeafReached(c.children[0]);
    LeafReached(c.children[1]);
    ReachedPair(ScopeTracker, c);
    ReachedPair(ScopeTracker, f);
    assert Reached(ScopeTracker, c) == [Leaf(3, Name("x", Store))];
  }

  /** Of the names `x` and `y` met in `f` (or in `g`), only `y` is unused. */
  lemma OnlyYUnused(occ: seq<Node>, w: Violation)
    requires occ == OuterNames() || occ == OuterNames()[1..]
    ensures w.message.UnusedName? && UnusedIn(occ, w.message.name) && FirstStoreIs(occ, w.message.name, w.node)
        <==> w == Violation(10, UnusedName("y"))
  {
  }

  lemma ScopeExample(s: Node)
    requires s == OuterF() || s == InnerG()
    ensures CheckForUnusedVariables(s, {}) == {Violation(10, UnusedName("y"))}
  {
    var occ := if s == OuterF() then OuterNames() else OuterNames()[1..];
    TrackerSteps();
    assert Occurrences(s) == occ;
    forall w
      ensures w in CheckForUnusedVariables(s, {}) <==> w == Violation(10, UnusedName("y"))
    {
      OnlyYUnused(occ, w);
    }
  }

  /** A node the checker has no handler for, with two such leaves below it,
      reaches no handler. */
  lemma NoScopeInside(n: Node)
    requires |n.children| == 2 && n.kind == Other
    requires n.children[0].children == [] && !OpensScope(n.children[0].kind)
    requires n.children[1].children == [] && !OpensScope(n.children[1].kind)
    ensures Reached(UnusedChecker, n) == []
  {
    UnusedCheckerDispatch(n.kind);
    UnusedCheckerDispatch(n.children[0].kind);
    UnusedCheckerDispatch(n.children[1].kind);
    ReachedPair(UnusedChecker, n);
  }

  lemma ScopeReached(n: Node)
    requires |n.children| == 2 && n.kind.FunctionDef?
    ensures Reached(UnusedChecker, n) == [n] + Reached(UnusedChecker, n.children[0]) + Reached(UnusedChecker, n.children[1])
  {
    UnusedCheckerDispatch(n.kind);
    ReachedPair(UnusedChecker, n);
  }

  lemma ScopesReached()
    ensures Reached(UnusedChecker, Node(0, Module, Pos(1, 0), [OuterF()])) == [OuterF(), InnerG()]
  {
    var g := InnerG();
    NoScopeInside(g.children[0]);
    NoScopeInside(g.children[1]);
    ScopeReached(g);
    var f := OuterF();
    NoScopeInside(f.children[0]);
    ScopeReached(f);
    var m := Node(0, Module, Pos(1, 0), [f]);
    UnusedCheckerDispatch(Module);
    assert [f][1..] == [];
    assert Reached(UnusedChecker, m) == ReachedSeq(UnusedChecker, [f]);
    assert ReachedSeq(UnusedChecker, [f]) == Reached(UnusedChecker, f) + ReachedSeq(UnusedChecker, []);
    assert Reached(UnusedChecker, f) == [f, g];
  }

  /** The outer `x` is stored and never read in `f` itself, but the read in
      `g` counts for `f` too, so only `y` is reported, and once. */
  lemma NestedScopesExample()
    ensures Visit(UnusedChecker, Node(0, Module, Pos(1, 0), [OuterF()]), {})
         == {Violation(10, UnusedName("y"))}
  {
    var m := Node(0, Module, Pos(1, 0), [OuterF()]);
    assert Accumulates(UnusedChecker);
    VisitAccumulates(UnusedChecker, m, {});
    ScopesReached();
    var rs := [OuterF(), InnerG()];
    assert rs[1..][1..] == [];
    assert Collected(UnusedChecker, rs)
        == CheckForUnusedVariables(OuterF(), {}) + (CheckForUnusedVariables(InnerG(), {}) + Collected(UnusedChecker, []));
    ScopeExample(OuterF());
    ScopeExample(InnerG());
  }
}
