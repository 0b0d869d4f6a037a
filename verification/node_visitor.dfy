/** The traversal engine the checkers inherit from `ast.NodeVisitor`.
    `visit(node)` looks up the method `visit_<class name of node>`; if the
    checker has one it runs it, and that handler alone decides whether to go
    on into the children (by calling `generic_visit`). Otherwise
    `generic_visit` visits every child, in order. */
module NodeVisitor {
  import opened Syntax

  /** A checker as the engine sees it: the names of its handler methods, what
      a handler does to the checker's state, and for which node kinds the
      handler ends with a call to `generic_visit`. */
  datatype Visitor<!S> = Visitor(handlers: set<string>, handle: (Node, S) -> S, resumes: Kind -> bool)

  /** The kinds for which `visit` finds a handler: name-based lookup, exactly
      as `getattr(self, 'visit_' + node.__class__.__name__)`. */
  function Dispatches<S>(v: Visitor<S>): Kind -> bool
  {
    k => "visit_" + ClassName(k) in v.handlers
  }

  function Visit<S>(v: Visitor<S>, n: Node, s: S): S
  {
    if Dispatches(v)(n.kind) then
      var s' := v.handle(n, s);
      if v.resumes(n.kind) then GenericVisit(v, n.children, s') else s'
    else
      GenericVisit(v, n.children, s)
  }

  /** `generic_visit`: visit the children one after the other. */
  function GenericVisit<S>(v: Visitor<S>, ns: seq<Node>, s: S): S
  {
    if ns == [] then s else GenericVisit(v, ns[1..], Visit(v, ns[0], s))
  }

  /** The nodes whose handler runs during `Visit(v, n, _)`, in the order the
      handlers run. */
  function Reached<S>(v: Visitor<S>, n: Node): seq<Node>
  {
    if Dispatches(v)(n.kind) then
      [n] + (if v.resumes(n.kind) then ReachedSeq(v, n.children) else [])
    else
      ReachedSeq(v, n.children)
  }

  function ReachedSeq<S>(v: Visitor<S>, ns: seq<Node>): seq<Node>
  {
    if ns == [] then [] else Reached(v, ns[0]) + ReachedSeq(v, ns[1..])
  }

  /** Running a handler over a sequence of nodes, left to right. */
  function Fold<S>(h: (Node, S) -> S, rs: seq<Node>, s: S): S
  {
    if rs == [] then s else Fold(h, rs[1..], h(rs[0], s))
  }

  lemma {:induction false} FoldAppend<S>(h: (Node, S) -> S, a: seq<Node>, b: seq<Node>, s: S)
    ensures Fold(h, a + b, s) == Fold(h, b, Fold(h, a, s))
  {
    if a == [] {
      assert a + b == b;
    } else {
      assert (a + b)[1..] == a[1..] + b;
      FoldAppend(h, a[1..], b, h(a[0], s));
    }
  }

  /** The whole effect of a traversal is the checker's handler applied to the
      reached nodes in pre-order: the engine adds no effect of its own. */
  lemma {:induction false} VisitIsFold<S>(v: Visitor<S>, n: Node, s: S)
    ensures Visit(v, n, s) == Fold(v.handle, Reached(v, n), s)
    decreases n
  {
    if Dispatches(v)(n.kind) {
      var s' := v.handle(n, s);
      if v.resumes(n.kind) {
        GenericVisitIsFold(v, n.children, s');
        FoldAppend(v.handle, [n], ReachedSeq(v, n.children), s);
      } else {
        assert Reached(v, n) == [n];
      }
    } else {
      GenericVisitIsFold(v, n.children, s);
    }
  }

  lemma {:induction false} GenericVisitIsFold<S>(v: Visitor<S>, ns: seq<Node>, s: S)
    ensures GenericVisit(v, ns, s) == Fold(v.handle, ReachedSeq(v, ns), s)
    decreases ns
  {
    if ns != [] {
      VisitIsFold(v, ns[0], s);
      GenericVisitIsFold(v, ns[1..], Visit(v, ns[0], s));
      FoldAppend(v.handle, Reached(v, ns[0]), ReachedSeq(v, ns[1..]), s);
    }
  }

  /** When every handler that does not resume sits on a leaf, the handlers run
      on exactly the dispatched nodes of the tree, in pre-order. */
  lemma {:induction false} ReachedIsSelect<S>(v: Visitor<S>, n: Node)
    requires forall m :: m in PreOrder(n) && Dispatches(v)(m.kind) && !v.resumes(m.kind) ==> m.children == []
    ensures Reached(v, n) == Select(PreOrder(n), Dispatches(v))
    decreases n
  {
    ReachedSeqIsSelect(v, n.children);
    if Dispatches(v)(n.kind) && !v.resumes(n.kind) {
      assert n in PreOrder(n);
      assert PreOrderSeq(n.children) == [];
    }
    assert PreOrder(n)[1..] == PreOrderSeq(n.children);
  }

  lemma {:induction false} ReachedSeqIsSelect<S>(v: Visitor<S>, ns: seq<Node>)
    requires forall m :: m in PreOrderSeq(ns) && Dispatches(v)(m.kind) && !v.resumes(m.kind) ==> m.children == []
    ensures ReachedSeq(v, ns) == Select(PreOrderSeq(ns), Dispatches(v))
    decreases ns
  {
    if ns != [] {
      ReachedIsSelect(v, ns[0]);
      ReachedSeqIsSelect(v, ns[1..]);
      SelectAppend(PreOrder(ns[0]), PreOrderSeq(ns[1..]), Dispatches(v));
    }
  }

  /** Handlers run only on dispatched nodes of the visited tree. */
  lemma {:induction false} ReachedAreDispatched<S>(v: Visitor<S>, n: Node)
    ensures forall m :: m in Reached(v, n) ==> m in PreOrder(n) && Dispatches(v)(m.kind)
    decreases n
  {
    ReachedSeqAreDispatched(v, n.children);
  }

  lemma {:induction false} ReachedSeqAreDispatched<S>(v: Visitor<S>, ns: seq<Node>)
    ensures forall m :: m in ReachedSeq(v, ns) ==> m in PreOrderSeq(ns) && Dispatches(v)(m.kind)
    decreases ns
  {
    if ns != [] {
      ReachedAreDispatched(v, ns[0]);
      ReachedSeqAreDispatched(v, ns[1..]);
    }
  }

  /** `m` lies below a node of `ns` whose handler does not go on into its
      children, so the traversal never gets to it. */
  ghost predicate HiddenIn<S>(v: Visitor<S>, ns: seq<Node>, m: Node)
  {
    exists h :: h in ns && Dispatches(v)(h.kind) && !v.resumes(h.kind) && m in PreOrderSeq(h.children)
  }

  /** In a tree whose nodes have distinct identities, a handler runs on a node
      exactly when the node is in the tree, has a handler, and lies below no
      handler that stops the descent. */
  lemma ReachedExactly<S>(v: Visitor<S>, t: Node, m: Node)
    requires UniqueIds(PreOrder(t))
    ensures m in Reached(v, t) <==> m in PreOrder(t) && Dispatches(v)(m.kind) && !HiddenIn(v, PreOrder(t), m)
  {
    if m in Reached(v, t) {
      ReachedAreDispatched(v, t);
      ReachedNotHidden(v, t, m);
    } else if m in PreOrder(t) && Dispatches(v)(m.kind) && !HiddenIn(v, PreOrder(t), m) {
      UnhiddenReached(v, t, m);
    }
  }

  lemma {:induction false} ReachedNotHidden<S>(v: Visitor<S>, n: Node, m: Node)
    requires UniqueIds(PreOrder(n)) && m in Reached(v, n)
    ensures !HiddenIn(v, PreOrder(n), m)
    decreases n
  {
    var below := PreOrderSeq(n.children);
    UniqueIdsParts([n], below);
    forall h | h in PreOrder(n) && Dispatches(v)(h.kind) && !v.resumes(h.kind)
      ensures m !in PreOrderSeq(h.children)
    {
      if h != n {
        SubtreeNodesSeq(n.children, h);
        assert forall o :: o in PreOrderSeq(h.children) ==> o in below;
        if m != n {
          assert m in ReachedSeq(v, n.children);
          ReachedSeqNotHidden(v, n.children, m);
        }
      }
    }
  }

  lemma {:induction false} ReachedSeqNotHidden<S>(v: Visitor<S>, ns: seq<Node>, m: Node)
    requires UniqueIds(PreOrderSeq(ns)) && m in ReachedSeq(v, ns)
    ensures !HiddenIn(v, PreOrderSeq(ns), m)
    decreases ns
  {
    var a, b := PreOrder(ns[0]), PreOrderSeq(ns[1..]);
    UniqueIdsParts(a, b);
    ReachedAreDispatched(v, ns[0]);
    ReachedSeqAreDispatched(v, ns[1..]);
    forall h: Node | h in a + b && Dispatches(v)(h.kind) && !v.resumes(h.kind)
      ensures m !in PreOrderSeq(h.children)
    {
      if h in a {
        SubtreeNodes(ns[0], h);
        assert forall o :: o in PreOrderSeq(h.children) ==> o in a;
        if m in Reached(v, ns[0]) {
          ReachedNotHidden(v, ns[0], m);
        }
      } else {
        SubtreeNodesSeq(ns[1..], h);
        assert forall o :: o in PreOrderSeq(h.children) ==> o in b;
        if m !in Reached(v, ns[0]) {
          ReachedSeqNotHidden(v, ns[1..], m);
        }
      }
    }
  }

  lemma {:induction false} UnhiddenReached<S>(v: Visitor<S>, n: Node, m: Node)
    requires m in PreOrder(n) && Dispatches(v)(m.kind) && !HiddenIn(v, PreOrder(n), m)
    ensures m in Reached(v, n)
    decreases n
  {
    if m != n {
      assert m in PreOrderSeq(n.children);
      assert !(Dispatches(v)(n.kind) && !v.resumes(n.kind)) by {
        assert n in PreOrder(n);
      }
      assert !HiddenIn(v, PreOrderSeq(n.children), m) by {
        assert forall h :: h in PreOrderSeq(n.children) ==> h in PreOrder(n);
      }
      UnhiddenSeqReached(v, n.children, m);
    }
  }

  lemma {:induction false} UnhiddenSeqReached<S>(v: Visitor<S>, ns: seq<Node>, m: Node)
    requires m in PreOrderSeq(ns) && Dispatches(v)(m.kind) && !HiddenIn(v, PreOrderSeq(ns), m)
    ensures m in ReachedSeq(v, ns)
    decreases ns
  {
    var a, b := PreOrder(ns[0]), PreOrderSeq(ns[1..]);
    if m in a {
      assert !HiddenIn(v, a, m) by {
        assert forall h :: h in a ==> h in a + b;
      }
      UnhiddenReached(v, ns[0], m);
    } else {
      assert !HiddenIn(v, b, m) by {
        assert forall h :: h in b ==> h in a + b;
      }
      UnhiddenSeqReached(v, ns[1..], m);
    }
  }

  lemma {:induction false} NothingReached<S>(v: Visitor<S>, ns: seq<Node>)
    requires forall c :: c in PreOrderSeq(ns) ==> !Dispatches(v)(c.kind)
    ensures ReachedSeq(v, ns) == []
    decreases ns
  {
    if ns != [] {
      assert PreOrderSeq(ns) == [ns[0]] + PreOrderSeq(ns[0].children) + PreOrderSeq(ns[1..]);
      NothingReached(v, ns[0].children);
      NothingReached(v, ns[1..]);
    }
  }

  /** Children without a handler anywhere below them change nothing, as long
      as the node's own handler does not read them: the traversal walks into
      them and back out. This is why a node that no checker handles, such as
      the `ctx` child of a `Name`, can be left out of the tree. */
  lemma HandlerlessChildrenInvisible<S>(v: Visitor<S>, n: Node, cs: seq<Node>, s: S)
    requires forall c :: c in PreOrderSeq(cs) ==> !Dispatches(v)(c.kind)
    requires v.handle(n.(children := cs), s) == v.handle(n.(children := []), s)
    ensures Visit(v, n.(children := cs), s) == Visit(v, n.(children := []), s)
  {
    NothingReached(v, cs);
    var s' := if Dispatches(v)(n.kind) then v.handle(n.(children := cs), s) else s;
    GenericVisitIsFold(v, cs, s');
  }
}
