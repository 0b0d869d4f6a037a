/** What every checker shares: a violation names the offending node and a
    message, and a checker's violations form a set, so a (node, message)
    pair recorded twice is one entry. */
module Checker {
  import opened Syntax
  import opened NodeVisitor

  /** The two messages the linter emits. The text is `Set contains duplicate
      item: <repr of value>` and `Unused variable: <name>`; their prefixes
      differ, so two messages are equal exactly when these values are. */
  datatype Message = DuplicateItem(item: Value) | UnusedName(name: string)

  /** A `NamedTuple` of node and message: equal on (node identity, message). */
  datatype Violation = Violation(node: NodeId, message: Message)

  /** A checker whose handler only adds violations, and adds the same ones
      whatever was collected before. */
  ghost predicate Accumulates(v: Visitor<set<Violation>>)
  {
    forall n, vs :: v.handle(n, vs) == vs + v.handle(n, {})
  }

  /** Everything the handler reports on a sequence of reached nodes. */
  function Collected(v: Visitor<set<Violation>>, rs: seq<Node>): set<Violation>
  {
    if rs == [] then {} else v.handle(rs[0], {}) + Collected(v, rs[1..])
  }

  lemma {:induction false} FoldAccumulates(v: Visitor<set<Violation>>, rs: seq<Node>, vs: set<Violation>)
    requires Accumulates(v)
    ensures Fold(v.handle, rs, vs) == vs + Collected(v, rs)
    decreases rs
  {
    if rs != [] {
      FoldAccumulates(v, rs[1..], v.handle(rs[0], vs));
    }
  }

  /** A traversal only grows the violation set: what was there stays, and what
      is added does not depend on it. Hence visiting the same tree a second
      time with the same checker changes nothing. */
  lemma VisitAccumulates(v: Visitor<set<Violation>>, n: Node, vs: set<Violation>)
    requires Accumulates(v)
    ensures Visit(v, n, vs) == vs + Collected(v, Reached(v, n))
    ensures vs <= Visit(v, n, vs)
    ensures Visit(v, n, Visit(v, n, vs)) == Visit(v, n, vs)
  {
    VisitIsFold(v, n, vs);
    FoldAccumulates(v, Reached(v, n), vs);
    var once := Visit(v, n, vs);
    VisitIsFold(v, n, once);
    FoldAccumulates(v, Reached(v, n), once);
  }

  lemma {:induction false} CollectedMembers(v: Visitor<set<Violation>>, rs: seq<Node>, w: Violation)
    ensures w in Collected(v, rs) <==> exists i :: 0 <= i < |rs| && w in v.handle(rs[i], {})
    decreases rs
  {
    if rs != [] {
      CollectedMembers(v, rs[1..], w);
      if exists i :: 0 <= i < |rs| && w in v.handle(rs[i], {}) {
        var i :| 0 <= i < |rs| && w in v.handle(rs[i], {});
        if i > 0 {
          assert rs[1..][i - 1] == rs[i];
        }
      }
    }
  }
}
