/** `SetDuplicateItemChecker`: in a set display, every constant element whose
    value an earlier constant element of the same display already holds is
    reported, on the later element. */
module SetDuplicateItem {
  import opened Syntax
  import opened NodeVisitor
  import opened Checker

  /** The loop of `visit_Set`: one left-to-right pass over the elements,
      carrying the constant values seen so far. Non-constant elements are
      skipped without touching `seen`. */
  function Scan(elts: seq<Node>, seen: set<Value>, vs: set<Violation>): set<Violation>
    decreases |elts|
  {
    if elts == [] then vs
    else
      var e := elts[0];
      if !e.kind.Constant? then Scan(elts[1..], seen, vs)
      else if e.kind.value in seen then Scan(elts[1..], seen, vs + {Violation(e.id, DuplicateItem(e.kind.value))})
      else Scan(elts[1..], seen + {e.kind.value}, vs)
  }

  /** `visit_Set`: scan the elements of the display, and do not call
      `generic_visit`. */
  function VisitSet(n: Node, vs: set<Violation>): set<Violation>
  {
    Scan(n.children, {}, vs)
  }

  const DuplicateChecker: Visitor<set<Violation>> := Visitor({"visit_Set"}, VisitSet, k => false)

  /** `visit` finds a handler of this checker on set displays and nowhere else. */
  lemma DuplicateCheckerDispatch(k: Kind)
    ensures Dispatches(DuplicateChecker)(k) <==> k == Set
  {
    var name := "visit_" + ClassName(k);
    assert name[6..] == ClassName(k);
    if name == "visit_Set" {
      assert ClassName(k) == "Set";
      assert ClassName(k)[0] == 'S';
    }
  }

  /** Element `i` is a constant whose value an earlier constant element holds. */
  predicate RepeatsEarlier(elts: seq<Node>, i: int)
    requires 0 <= i < |elts|
  {
    elts[i].kind.Constant? && exists j :: 0 <= j < i && elts[j].kind == elts[i].kind
  }

  /** The violations one display with elements `elts` should get,
      from element `k` on. */
  function DuplicatesFrom(elts: seq<Node>, k: nat): set<Violation>
  {
    set i | k <= i < |elts| && RepeatsEarlier(elts, i) :: Violation(elts[i].id, DuplicateItem(elts[i].kind.value))
  }

  function Duplicates(elts: seq<Node>): set<Violation>
  {
    DuplicatesFrom(elts, 0)
  }

  /** The constant values among the first `k` elements. */
  function ValuesBefore(elts: seq<Node>, k: nat): set<Value>
    requires k <= |elts|
  {
    set j | 0 <= j < k && elts[j].kind.Constant? :: elts[j].kind.value
  }

  predicate IsConstant(k: Kind)
  {
    k.Constant?
  }

  lemma {:induction false} ScanFrom(elts: seq<Node>, k: nat, vs: set<Violation>)
    requires k <= |elts|
    ensures Scan(elts[k..], ValuesBefore(elts, k), vs) == vs + DuplicatesFrom(elts, k)
    decreases |elts| - k
  {
    if k == |elts| {
      assert DuplicatesFrom(elts, k) == {};
    } else {
      var e := elts[k];
      var seen := ValuesBefore(elts, k);
      assert elts[k..][0] == e;
      assert elts[k..][1..] == elts[k + 1..];
      if !e.kind.Constant? {
        assert ValuesBefore(elts, k + 1) == seen;
        assert DuplicatesFrom(elts, k) == DuplicatesFrom(elts, k + 1);
        ScanFrom(elts, k + 1, vs);
      } else if e.kind.value in seen {
        var j :| 0 <= j < k && elts[j].kind.Constant? && elts[j].kind.value == e.kind.value;
        assert RepeatsEarlier(elts, k);
        assert ValuesBefore(elts, k + 1) == seen;
        var w := Violation(e.id, DuplicateItem(e.kind.value));
        assert DuplicatesFrom(elts, k) == {w} + DuplicatesFrom(elts, k + 1);
        ScanFrom(elts, k + 1, vs + {w});
      } else {
        assert forall j :: 0 <= j < k && elts[j].kind.Constant? ==> elts[j].kind.value in seen;
        assert !RepeatsEarlier(elts, k);
        assert ValuesBefore(elts, k + 1) == seen + {e.kind.value};
        assert DuplicatesFrom(elts, k) == DuplicatesFrom(elts, k + 1);
        ScanFrom(elts, k + 1, vs);
      }
    }
  }

  /** On a set display the checker adds exactly the duplicates of its
      elements, and keeps what it had. */
  lemma VisitSetReportsDuplicates(n: Node, vs: set<Violation>)
    requires n.kind == Set
    ensures Visit(DuplicateChecker, n, vs) == vs + Duplicates(n.children)
  {
    DuplicateCheckerDispatch(n.kind);
    assert n.children[0..] == n.children;
    assert ValuesBefore(n.children, 0) == {};
    ScanFrom(n.children, 0, vs);
  }

  /** In a set display with distinct element nodes, element `i` is reported,
      with value `v`, exactly when it is the constant `v` and an earlier
      element holds `v`: the first occurrence of a value and every
      non-constant element are never reported. */
  lemma DuplicatesExactly(n: Node, i: nat, v: Value)
    requires n.kind == Set && UniqueIds(n.children) && i < |n.children|
    ensures Violation(n.children[i].id, DuplicateItem(v)) in Visit(DuplicateChecker, n, {})
        <==> n.children[i].kind == Constant(v) && RepeatsEarlier(n.children, i)
  {
    VisitSetReportsDuplicates(n, {});
    var elts := n.children;
    if Violation(elts[i].id, DuplicateItem(v)) in Duplicates(elts) {
      var i' :| 0 <= i' < |elts| && RepeatsEarlier(elts, i')
        && Violation(elts[i'].id, DuplicateItem(elts[i'].kind.value)) == Violation(elts[i].id, DuplicateItem(v));
      assert forall j :: 0 <= j < |elts| && elts[j].id == elts[i].id ==> j == i;
    }
  }

  lemma {:induction false} ScanSkipsNonConstants(elts: seq<Node>, seen: set<Value>, vs: set<Violation>)
    ensures Scan(elts, seen, vs) == Scan(Select(elts, IsConstant), seen, vs)
    decreases |elts|
  {
    if elts != [] {
      ScanSkipsNonConstants(elts[1..], seen, vs);
      var e := elts[0];
      if e.kind.Constant? {
        var s := Select(elts, IsConstant);
        assert s[0] == e && s[1..] == Select(elts[1..], IsConstant);
        if e.kind.value in seen {
          ScanSkipsNonConstants(elts[1..], seen, vs + {Violation(e.id, DuplicateItem(e.kind.value))});
        } else {
          ScanSkipsNonConstants(elts[1..], seen + {e.kind.value}, vs);
        }
      }
    }
  }

  /** Non-constant elements neither are reported nor make a later element a
      duplicate: dropping them leaves the report unchanged. */
  lemma NonConstantsDoNotMatter(elts: seq<Node>)
    ensures Duplicates(elts) == Duplicates(Select(elts, IsConstant))
  {
    var cs := Select(elts, IsConstant);
    assert elts[0..] == elts && cs[0..] == cs;
    assert ValuesBefore(elts, 0) == {} && ValuesBefore(cs, 0) == {};
    ScanFrom(elts, 0, {});
    ScanFrom(cs, 0, {});
    ScanSkipsNonConstants(elts, {}, {});
  }

  /** The elements with their own subtrees cut off. */
  function Shallow(elts: seq<Node>): (r: seq<Node>)
    ensures |r| == |elts|
    ensures forall i :: 0 <= i < |elts| ==> r[i] == elts[i].(children := [])
  {
    if elts == [] then [] else [elts[0].(children := [])] + Shallow(elts[1..])
  }

  lemma {:induction false} ScanIgnoresSubtrees(elts: seq<Node>, seen: set<Value>, vs: set<Violation>)
    ensures Scan(elts, seen, vs) == Scan(Shallow(elts), seen, vs)
    decreases |elts|
  {
    if elts != [] {
      var e := elts[0];
      assert Shallow(elts)[1..] == Shallow(elts[1..]);
      if !e.kind.Constant? {
        ScanIgnoresSubtrees(elts[1..], seen, vs);
      } else if e.kind.value in seen {
        ScanIgnoresSubtrees(elts[1..], seen, vs + {Violation(e.id, DuplicateItem(e.kind.value))});
      } else {
        ScanIgnoresSubtrees(elts[1..], seen + {e.kind.value}, vs);
      }
    }
  }

  /** `visit_Set` does not descend: what lies below the elements of a set
      display (set displays nested in them included) is never examined. */
  lemma SetDisplayNotDescended(n: Node, vs: set<Violation>)
    requires n.kind == Set
    ensures Reached(DuplicateChecker, n) == [n]
    ensures Visit(DuplicateChecker, n, vs) == Visit(DuplicateChecker, n.(children := Shallow(n.children)), vs)
  {
    DuplicateCheckerDispatch(n.kind);
    ScanIgnoresSubtrees(n.children, {}, vs);
  }

  lemma {:induction false} ScanAccumulates(elts: seq<Node>, seen: set<Value>, vs: set<Violation>)
    ensures Scan(elts, seen, vs) == vs + Scan(elts, seen, {})
    decreases |elts|
  {
    if elts != [] {
      var e := elts[0];
      if !e.kind.Constant? {
        ScanAccumulates(elts[1..], seen, vs);
      } else if e.kind.value in seen {
        var w := Violation(e.id, DuplicateItem(e.kind.value));
        assert {} + {w} == {w};
        ScanAccumulates(elts[1..], seen, vs + {w});
        ScanAccumulates(elts[1..], seen, {w});
      } else {
        ScanAccumulates(elts[1..], seen + {e.kind.value}, vs);
      }
    }
  }

  /** Over a whole tree, the checker reports only on constant elements of set
      displays it reaches, each with that element's own value; it keeps what
      it had, and running it twice on the same tree adds nothing. */
  lemma DuplicateCheckerOnTree(t: Node, vs: set<Violation>)
    ensures Visit(DuplicateChecker, t, vs) == vs + Collected(DuplicateChecker, Reached(DuplicateChecker, t))
    ensures Visit(DuplicateChecker, t, Visit(DuplicateChecker, t, vs)) == Visit(DuplicateChecker, t, vs)
    ensures forall m :: m in Reached(DuplicateChecker, t) ==> m in PreOrder(t) && m.kind == Set
  {
    forall n, vs' | true
      ensures DuplicateChecker.handle(n, vs') == vs' + DuplicateChecker.handle(n, {})
    {
      ScanAccumulates(n.children, {}, vs');
    }
    VisitAccumulates(DuplicateChecker, t, vs);
    ReachedAreDispatched(DuplicateChecker, t);
    forall k | true
      ensures Dispatches(DuplicateChecker)(k) <==> k == Set
    {
      DuplicateCheckerDispatch(k);
    }
  }

  /** `m` lies among the elements of a set display of `t`, at any depth. */
  ghost predicate InsideDisplay(t: Node, m: Node)
  {
    exists d :: d in PreOrder(t) && d.kind == Set && m in PreOrderSeq(d.children)
  }

  /** Which displays the checker examines: in a tree whose nodes have distinct
      identities, `visit_Set` runs on a node exactly when it is a set display
      of the tree that does not lie among the elements of another display. */
  lemma DuplicateCheckerReaches(t: Node, m: Node)
    requires UniqueIds(PreOrder(t))
    ensures m in Reached(DuplicateChecker, t) <==> m in PreOrder(t) && m.kind == Set && !InsideDisplay(t, m)
  {
    ReachedExactly(DuplicateChecker, t, m);
    DuplicateCheckerDispatch(m.kind);
    forall d | d in PreOrder(t)
      ensures Dispatches(DuplicateChecker)(d.kind) && !DuplicateChecker.resumes(d.kind) <==> d.kind == Set
    {
      DuplicateCheckerDispatch(d.kind);
    }
  }
}
