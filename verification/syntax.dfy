/** The syntax tree the linter walks. The tree is produced by an external
    parser; here it is an immutable value. Every node carries a unique
    identity (Python compares AST nodes by object identity), its class,
    its position and its AST children in field order. */
module Syntax {

  type NodeId = nat

  /** The `ctx` of an `ast.Name`: whether the name is read, written or deleted. */
  datatype Ctx = Load | Store | Del

  /** The payload of an `ast.Constant`. Equality is the structural equality of
      this datatype, not Python's cross-type `==` (so `True` and `1` differ). */
  datatype Value =
    | IntConst(n: int)
    | StrConst(text: string)
    | BytesConst(octets: seq<bv8>)
    | BoolConst(truth: bool)
    | NoneConst
    | EllipsisConst

  /** The node classes the checkers distinguish; `Other` stands for every
      other class (`Assign`, `Call`, `arg`, comprehensions, ...). */
  datatype Kind =
    | Module
    | ClassDef(className: string)
    | FunctionDef(funcName: string)
    | AsyncFunctionDef(asyncName: string)
    | Lambda
    | Set
    | Constant(value: Value)
    | Name(id: string, ctx: Ctx)
    | Other

  datatype Pos = Pos(line: nat, col: nat)

  datatype Node = Node(id: NodeId, kind: Kind, pos: Pos, children: seq<Node>)

  /** The Python class name of a node, which `NodeVisitor.visit` uses to pick
      the handler `visit_<class name>`. */
  function ClassName(k: Kind): string
  {
    match k
    case Module => "Module"
    case ClassDef(_) => "ClassDef"
    case FunctionDef(_) => "FunctionDef"
    case AsyncFunctionDef(_) => "AsyncFunctionDef"
    case Lambda => "Lambda"
    case Set => "Set"
    case Constant(_) => "Constant"
    case Name(_, _) => "Name"
    case Other => "AST"
  }

  /** All nodes of a tree, in the depth-first pre-order `ast.NodeVisitor` uses. */
  function PreOrder(n: Node): (r: seq<Node>)
    ensures |r| > 0 && r[0] == n
  {
    [n] + PreOrderSeq(n.children)
  }

  function PreOrderSeq(ns: seq<Node>): seq<Node>
  {
    if ns == [] then [] else PreOrder(ns[0]) + PreOrderSeq(ns[1..])
  }

  /** The nodes of `ns` whose kind satisfies `p`, in order. */
  function Select(ns: seq<Node>, p: Kind -> bool): (r: seq<Node>)
    ensures forall m :: m in r <==> m in ns && p(m.kind)
  {
    if ns == [] then []
    else if p(ns[0].kind) then [ns[0]] + Select(ns[1..], p)
    else Select(ns[1..], p)
  }

  predicate IsName(k: Kind)
  {
    k.Name?
  }

  /** Every `Name` of the tree has no children. In Python an `ast.Name` has
      one child node, its `ctx` (an `ast.Load`, `ast.Store` or `ast.Del`
      instance, which has no fields). The model folds that node into the
      kind, `Name(id, ctx)`, so a `Name` built from a parsed tree is a leaf. */
  ghost predicate NamesAreLeaves(n: Node)
  {
    forall m :: m in PreOrder(n) && m.kind.Name? ==> m.children == []
  }

  /** No two nodes of a sequence share an identity. */
  ghost predicate UniqueIds(ns: seq<Node>)
  {
    forall i, j :: 0 <= i < j < |ns| ==> ns[i].id != ns[j].id
  }

  lemma {:induction false} SelectAppend(a: seq<Node>, b: seq<Node>, p: Kind -> bool)
    ensures Select(a + b, p) == Select(a, p) + Select(b, p)
  {
    if a == [] {
      assert a + b == b;
    } else {
      assert (a + b)[1..] == a[1..] + b;
      SelectAppend(a[1..], b, p);
    }
  }

  /** A node in a tree occupies one contiguous stretch of the tree's pre-order:
      its own pre-order, with what comes before and after it. */
  lemma {:induction false} PreOrderSplit(t: Node, m: Node) returns (pre: seq<Node>, post: seq<Node>)
    requires m in PreOrder(t)
    ensures PreOrder(t) == pre + PreOrder(m) + post
    decreases t
  {
    if m == t {
      pre, post := [], [];
    } else {
      assert m in PreOrderSeq(t.children);
      var pre', post' := PreOrderSeqSplit(t.children, m);
      pre, post := [t] + pre', post';
      assert PreOrder(t) == [t] + (pre' + PreOrder(m) + post');
    }
  }

  lemma {:induction false} PreOrderSeqSplit(ns: seq<Node>, m: Node) returns (pre: seq<Node>, post: seq<Node>)
    requires m in PreOrderSeq(ns)
    ensures PreOrderSeq(ns) == pre + PreOrder(m) + post
    decreases ns
  {
    if m in PreOrder(ns[0]) {
      var pre', post' := PreOrderSplit(ns[0], m);
      pre, post := pre', post' + PreOrderSeq(ns[1..]);
    } else {
      var pre', post' := PreOrderSeqSplit(ns[1..], m);
      pre, post := PreOrder(ns[0]) + pre', post';
    }
  }

  lemma {:induction false} SelectCongruent(ns: seq<Node>, p: Kind -> bool, q: Kind -> bool)
    requires forall k :: p(k) == q(k)
    ensures Select(ns, p) == Select(ns, q)
  {
    if ns != [] {
      SelectCongruent(ns[1..], p, q);
    }
  }

  /** In a sequence with distinct identities, each part of a split has them,
      and no node lies in both parts. */
  lemma UniqueIdsParts(a: seq<Node>, b: seq<Node>)
    requires UniqueIds(a + b)
    ensures UniqueIds(a) && UniqueIds(b)
    ensures forall m :: m in a ==> m !in b
  {
    assert forall i, j :: 0 <= i < |a| && 0 <= j < |b| ==> a[i].id != b[j].id by {
      forall i, j | 0 <= i < |a| && 0 <= j < |b|
        ensures a[i].id != b[j].id
      {
        assert (a + b)[i] == a[i] && (a + b)[|a| + j] == b[j];
      }
    }
    assert forall i, j :: 0 <= i < j < |b| ==> b[i].id != b[j].id by {
      forall i, j | 0 <= i < j < |b|
        ensures b[i].id != b[j].id
      {
        assert (a + b)[|a| + i] == b[i] && (a + b)[|a| + j] == b[j];
      }
    }
    assert forall i, j :: 0 <= i < j < |a| ==> a[i].id != a[j].id by {
      forall i, j | 0 <= i < j < |a|
        ensures a[i].id != a[j].id
      {
        assert (a + b)[i] == a[i] && (a + b)[j] == a[j];
      }
    }
  }

  /** Every node below a node of a forest is a node of the forest. */
  lemma SubtreeNodesSeq(ns: seq<Node>, m: Node)
    requires m in PreOrderSeq(ns)
    ensures forall o :: o in PreOrder(m) ==> o in PreOrderSeq(ns)
  {
    var pre, post := PreOrderSeqSplit(ns, m);
  }

  /** Every node of a subtree is a node of the tree. */
  lemma SubtreeNodes(t: Node, m: Node)
    requires m in PreOrder(t)
    ensures forall o :: o in PreOrder(m) ==> o in PreOrder(t)
  {
    var pre, post := PreOrderSplit(t, m);
  }
}
