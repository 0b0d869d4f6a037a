/** `Unused_Variable_In_Scope_Checker` (the per-scope usage tracker) and
    `Unused_Variable_Checker` (which runs a fresh tracker on every scope node
    and reports the names that are only ever stored). */
module UnusedVariable {
  import opened Syntax
  import opened NodeVisitor
  import opened Checker

  /** The tracker's two dictionaries: whether a name is still unused, and the
      node of its first store. */
  datatype Tracker = Tracker(unusedNames: map<string, bool>, nameNodes: map<string, NodeId>)

  const EmptyTracker := Tracker(map[], map[])

  /** `visit_Name`. A store records the node the first time the name is
      stored and marks a name never met before as unused; it never turns a
      `false` back into `true`. Any other context marks the name used. */
  function VisitName(n: Node, t: Tracker): Tracker
  {
    match n.kind
    case Name(x, ctx) =>
      if ctx == Store then
        Tracker(if x in t.unusedNames then t.unusedNames else t.unusedNames[x := true],
                if x in t.nameNodes then t.nameNodes else t.nameNodes[x := n.id])
      else
        Tracker(t.unusedNames[x := false], t.nameNodes)
    case _ => t
  }

  /** `visit_Name` does not call `generic_visit`. */
  const ScopeTracker: Visitor<Tracker> := Visitor({"visit_Name"}, VisitName, k => false)

  /** The tracker after `visitor.visit(node)` on a fresh tracker. */
  function Track(scope: Node): Tracker
  {
    Visit(ScopeTracker, scope, EmptyTracker)
  }

  /** The `Name` nodes the tracker is run on, in the order it meets them. */
  function Occurrences(scope: Node): seq<Node>
  {
    Reached(ScopeTracker, scope)
  }

  // Reference definitions over a sequence of nodes.

  predicate StoresIn(ns: seq<Node>, x: string)
  {
    exists m :: m in ns && m.kind == Name(x, Store)
  }

  /** A read or a delete of `x`: any context other than `Store`. */
  predicate UsesIn(ns: seq<Node>, x: string)
  {
    exists m :: m in ns && m.kind.Name? && m.kind.id == x && m.kind.ctx != Store
  }

  /** `id` is the identity of the first node of `ns` that stores `x`. */
  predicate FirstStoreIs(ns: seq<Node>, x: string, id: NodeId)
  {
    ns != [] && (if ns[0].kind == Name(x, Store) then ns[0].id == id else FirstStoreIs(ns[1..], x, id))
  }

  /** A name is unused in `ns`: stored somewhere and used nowhere. */
  predicate UnusedIn(ns: seq<Node>, x: string)
  {
    StoresIn(ns, x) && !UsesIn(ns, x)
  }

  lemma {:induction false} FirstStoreExists(ns: seq<Node>, x: string) returns (id: NodeId)
    requires StoresIn(ns, x)
    ensures FirstStoreIs(ns, x, id)
    decreases |ns|
  {
    if ns[0].kind == Name(x, Store) {
      id := ns[0].id;
    } else {
      var m :| m in ns && m.kind == Name(x, Store);
      assert m in ns[1..];
      id := FirstStoreExists(ns[1..], x);
    }
  }

  lemma {:induction false} FirstStoreUnique(ns: seq<Node>, x: string, a: NodeId, b: NodeId)
    requires FirstStoreIs(ns, x, a) && FirstStoreIs(ns, x, b)
    ensures a == b
    decreases |ns|
  {
    if ns[0].kind != Name(x, Store) {
      FirstStoreUnique(ns[1..], x, a, b);
    }
  }

  lemma {:induction false} FirstStoreAppend(a: seq<Node>, b: seq<Node>, x: string, id: NodeId)
    ensures FirstStoreIs(a + b, x, id) <==> if StoresIn(a, x) then FirstStoreIs(a, x, id) else FirstStoreIs(b, x, id)
    decreases |a|
  {
    if a == [] {
      assert a + b == b;
    } else {
      assert (a + b)[0] == a[0] && (a + b)[1..] == a[1..] + b;
      FirstStoreAppend(a[1..], b, x, id);
      if a[0].kind != Name(x, Store) {
        assert StoresIn(a, x) <==> StoresIn(a[1..], x) by {
          assert forall m :: m in a <==> m == a[0] || m in a[1..];
        }
      }
    }
  }

  lemma {:induction false} FirstStoreSelect(ns: seq<Node>, x: string, id: NodeId)
    ensures FirstStoreIs(Select(ns, IsName), x, id) <==> FirstStoreIs(ns, x, id)
    decreases |ns|
  {
    if ns != [] {
      FirstStoreSelect(ns[1..], x, id);
      if IsName(ns[0].kind) {
        var s := Select(ns, IsName);
        assert s[0] == ns[0] && s[1..] == Select(ns[1..], IsName);
      }
    }
  }

  /** What the tracker holds for one name after meeting `occ`, starting from
      any state `t`. */
  lemma {:induction false} FoldTrackerAt(occ: seq<Node>, t: Tracker, x: string)
    ensures var t' := Fold(VisitName, occ, t);
      && (x in t'.nameNodes <==> x in t.nameNodes || StoresIn(occ, x))
      && (x in t.nameNodes ==> t'.nameNodes[x] == t.nameNodes[x])
      && (x !in t.nameNodes && StoresIn(occ, x) ==> FirstStoreIs(occ, x, t'.nameNodes[x]))
      && (x in t'.unusedNames <==> x in t.unusedNames || StoresIn(occ, x) || UsesIn(occ, x))
      && (x in t'.unusedNames ==>
            (t'.unusedNames[x] <==> !UsesIn(occ, x) && (x in t.unusedNames ==> t.unusedNames[x])))
    decreases |occ|
  {
    if occ != [] {
      var o := occ[0];
      var t1 := VisitName(o, t);
      FoldTrackerAt(occ[1..], t1, x);
      assert forall m :: m in occ <==> m == o || m in occ[1..];
    }
  }

  /** The tracker's verdict does not depend on the order in which it meets
      the names: the same nodes in any order give the same `unused_names`. */
  lemma VerdictOrderInsensitive(a: seq<Node>, b: seq<Node>)
    requires forall m :: m in a <==> m in b
    ensures Fold(VisitName, a, EmptyTracker).unusedNames == Fold(VisitName, b, EmptyTracker).unusedNames
  {
    var ta := Fold(VisitName, a, EmptyTracker);
    var tb := Fold(VisitName, b, EmptyTracker);
    forall x
      ensures (x in ta.unusedNames <==> x in tb.unusedNames)
      ensures x in ta.unusedNames ==> ta.unusedNames[x] == tb.unusedNames[x]
    {
      FoldTrackerAt(a, EmptyTracker, x);
      FoldTrackerAt(b, EmptyTracker, x);
      assert StoresIn(a, x) <==> StoresIn(b, x);
      assert UsesIn(a, x) <==> UsesIn(b, x);
    }
  }

  /** The tracker on a scope, in terms of the names it met: a name is still
      unused exactly when it is stored and never used, and then its first
      store is on record, so the lookup `name_nodes[name]` cannot fail. */
  lemma TrackVerdict(scope: Node, x: string)
    ensures var t := Track(scope); var occ := Occurrences(scope);
      && (x in t.nameNodes <==> StoresIn(occ, x))
      && (x in t.nameNodes ==> FirstStoreIs(occ, x, t.nameNodes[x]))
      && (x in t.unusedNames <==> StoresIn(occ, x) || UsesIn(occ, x))
      && (x in t.unusedNames && t.unusedNames[x] <==> UnusedIn(occ, x))
      && (x in t.unusedNames && t.unusedNames[x] ==> x in t.nameNodes)
  {
    VisitIsFold(ScopeTracker, scope, EmptyTracker);
    FoldTrackerAt(Occurrences(scope), EmptyTracker, x);
  }

  /** `check_for_unused_variables`: run a fresh tracker over the scope's whole
      subtree and add a violation at the first store of every name it still
      holds as unused. */
  function CheckForUnusedVariables(scope: Node, vs: set<Violation>): (r: set<Violation>)
    ensures forall w :: w in r <==>
      w in vs || (w.message.UnusedName?
                  && UnusedIn(Occurrences(scope), w.message.name)
                  && FirstStoreIs(Occurrences(scope), w.message.name, w.node))
  {
    var t := Track(scope);
    var occ := Occurrences(scope);
    assert forall x :: x in t.unusedNames && t.unusedNames[x] ==>
                         (x in t.nameNodes && UnusedIn(occ, x) && FirstStoreIs(occ, x, t.nameNodes[x])) by {
      forall x { TrackVerdict(scope, x); }
    }
    var r := vs + set x | x in t.unusedNames && t.unusedNames[x] :: Violation(t.nameNodes[x], UnusedName(x));
    assert forall w :: (w !in vs && w.message.UnusedName? && UnusedIn(occ, w.message.name)
                        && FirstStoreIs(occ, w.message.name, w.node)) ==> w in r by {
      forall w | w !in vs && w.message.UnusedName? && UnusedIn(occ, w.message.name)
                 && FirstStoreIs(occ, w.message.name, w.node)
        ensures w in r
      {
        var x := w.message.name;
        TrackVerdict(scope, x);
        FirstStoreUnique(occ, x, w.node, t.nameNodes[x]);
      }
    }
    r
  }

  /** The handlers `visit_Modules`, `visit_ClassDef` and `visit_FunctionDef`:
      check the scope, then `generic_visit`. Python looks up `visit_Module`
      for a module, so `visit_Modules` is never called. */
  const UnusedChecker: Visitor<set<Violation>> :=
    Visitor({"visit_Modules", "visit_ClassDef", "visit_FunctionDef"}, CheckForUnusedVariables, k => true)

  /** The kinds whose nodes get a scope check. */
  predicate OpensScope(k: Kind)
  {
    k.ClassDef? || k.FunctionDef?
  }

  /** The tracker dispatches on `Name` nodes and nothing else. */
  lemma ScopeTrackerDispatch(k: Kind)
    ensures Dispatches(ScopeTracker)(k) <==> IsName(k)
  {
    var name := "visit_" + ClassName(k);
    assert name[6..] == ClassName(k);
    if name == "visit_Name" {
      assert ClassName(k) == "Name";
      assert ClassName(k)[0] == 'N' && |ClassName(k)| == 4;
    }
  }

  /** Only class and function definitions get a scope check: not a module
      (its handler is named `visit_Modules`), nor `async def`, lambdas or
      comprehensions. */
  lemma UnusedCheckerDispatch(k: Kind)
    ensures Dispatches(UnusedChecker)(k) <==> OpensScope(k)
  {
    var name := "visit_" + ClassName(k);
    assert |name| == 6 + |ClassName(k)|;
    match k
    case Module =>
      assert name[|name| - 1] == 'e';
    case AsyncFunctionDef(_) =>
      assert |name| == 22;
    case Lambda =>
      assert |name| == 12 && name[6] == 'L';
    case Set =>
      assert |name| == 9;
    case Constant(_) =>
      assert |name| == 14 && name[6] == 'C' && name[7] == 'o';
    case Name(_, _) =>
      assert |name| == 10;
    case Other =>
      assert |name| == 9;
    case ClassDef(_) =>
      assert name == "visit_ClassDef";
    case FunctionDef(_) =>
      assert name == "visit_FunctionDef";
  }

  lemma TrackerOccurrences(scope: Node)
    requires NamesAreLeaves(scope)
    ensures Occurrences(scope) == Select(PreOrder(scope), IsName)
  {
    forall k { ScopeTrackerDispatch(k); }
    ReachedIsSelect(ScopeTracker, scope);
    SelectCongruent(PreOrder(scope), Dispatches(ScopeTracker), IsName);
  }

  /** On a tree built from a parse (each `ctx` folded into its `Name`, so
      names are leaves) the scope check sees
      every name in the scope's subtree, nested scopes included: a name gets
      a violation exactly when it is stored and never read or deleted
      anywhere below the scope node, and the violation sits on its first
      store in pre-order. */
  lemma ScopeCheckExactly(scope: Node, x: string, id: NodeId)
    requires NamesAreLeaves(scope)
    ensures Violation(id, UnusedName(x)) in CheckForUnusedVariables(scope, {})
        <==> UnusedIn(PreOrder(scope), x) && FirstStoreIs(PreOrder(scope), x, id)
  {
    TrackerOccurrences(scope);
    var occ := Occurrences(scope);
    var all := PreOrder(scope);
    assert StoresIn(occ, x) <==> StoresIn(all, x);
    assert UsesIn(occ, x) <==> UsesIn(all, x);
    FirstStoreSelect(all, x, id);
  }

  /** Every class and function definition in the tree gets its own scope
      check, in pre-order, and the checker keeps descending after each. */
  lemma UnusedCheckerScopes(t: Node)
    ensures Reached(UnusedChecker, t) == Select(PreOrder(t), OpensScope)
  {
    forall k { UnusedCheckerDispatch(k); }
    ReachedIsSelect(UnusedChecker, t);
    SelectCongruent(PreOrder(t), Dispatches(UnusedChecker), OpensScope);
  }

  /** The whole checker: its violations are the union of the scope checks of
      the class and function definitions of the tree; a second run adds
      nothing. */
  lemma UnusedCheckerOnTree(t: Node, vs: set<Violation>)
    ensures Visit(UnusedChecker, t, vs) == vs + Collected(UnusedChecker, Select(PreOrder(t), OpensScope))
    ensures Visit(UnusedChecker, t, Visit(UnusedChecker, t, vs)) == Visit(UnusedChecker, t, vs)
  {
    UnusedCheckerScopes(t);
    VisitAccumulates(UnusedChecker, t, vs);
  }

  /** A name stored only outside every class and function definition (at
      module level) is never reported. */
  lemma ModuleLevelNamesUnchecked(t: Node, x: string)
    requires NamesAreLeaves(t)
    requires forall s :: s in PreOrder(t) && OpensScope(s.kind) ==> !StoresIn(PreOrder(s), x)
    ensures forall id :: Violation(id, UnusedName(x)) !in Visit(UnusedChecker, t, {})
  {
    UnusedCheckerOnTree(t, {});
    var scopes := Select(PreOrder(t), OpensScope);
    forall id
      ensures Violation(id, UnusedName(x)) !in Visit(UnusedChecker, t, {})
    {
      var w := Violation(id, UnusedName(x));
      CollectedMembers(UnusedChecker, scopes, w);
      forall i | 0 <= i < |scopes|
        ensures w !in CheckForUnusedVariables(scopes[i], {})
      {
        var s := scopes[i];
        assert s in scopes;
        SubtreeNodes(t, s);
        ScopeCheckExactly(s, x, id);
      }
    }
  }

  /** A read of `x` anywhere inside a nested definition marks `x` used for
      the enclosing scope as well: the enclosing scope never reports `x`. */
  lemma NestedUseHidesOuterStore(f: Node, g: Node, x: string)
    requires NamesAreLeaves(f)
    requires g in PreOrder(f)
    requires UsesIn(PreOrder(g), x)
    ensures forall id :: Violation(id, UnusedName(x)) !in CheckForUnusedVariables(f, {})
  {
    SubtreeNodes(f, g);
    assert UsesIn(PreOrder(f), x);
    forall id
      ensures Violation(id, UnusedName(x)) !in CheckForUnusedVariables(f, {})
    {
      ScopeCheckExactly(f, x, id);
    }
  }

  lemma StoresUsesAppend(a: seq<Node>, b: seq<Node>, x: string)
    ensures StoresIn(a + b, x) <==> StoresIn(a, x) || StoresIn(b, x)
    ensures UsesIn(a + b, x) <==> UsesIn(a, x) || UsesIn(b, x)
  {
  }

  /** A name that occurs in a scope only inside one nested definition (the
      scope's pre-order is `pre`, then the nested definition's, then `post`,
      and `x` is not in `pre` or `post`) gets the same report from the
      enclosing scope's check as from the nested one's: same node, same
      message, so the checker's set holds it once. */
  lemma NestedNameReportedAlike(f: Node, g: Node, pre: seq<Node>, post: seq<Node>, x: string, id: NodeId)
    requires NamesAreLeaves(f)
    requires PreOrder(f) == pre + PreOrder(g) + post
    requires forall m :: m in pre + post ==> !(m.kind.Name? && m.kind.id == x)
    ensures Violation(id, UnusedName(x)) in CheckForUnusedVariables(f, {})
        <==> Violation(id, UnusedName(x)) in CheckForUnusedVariables(g, {})
  {
    var pg := PreOrder(g);
    assert g in PreOrder(f) by {
      assert PreOrder(f)[|pre|] == pg[0];
    }
    SubtreeNodes(f, g);
    ScopeCheckExactly(f, x, id);
    ScopeCheckExactly(g, x, id);
    assert PreOrder(f) == pre + (pg + post);
    StoresUsesAppend(pre, pg + post, x);
    StoresUsesAppend(pg, post, x);
    assert !StoresIn(pre, x) && !StoresIn(post, x);
    assert !UsesIn(pre, x) && !UsesIn(post, x);
    FirstStoreAppend(pre, pg + post, x, id);
    FirstStoreAppend(pg, post, x, id);
  }
}
