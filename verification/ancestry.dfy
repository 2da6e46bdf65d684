/** The ancestor-query engine and the "enclosing X" accessors built on it.

    Every query walks the parent chain starting at the node itself and stops at the
    first node whose kind belongs to a class; a Java class test `C.isInstance(n)` is
    modelled as membership of `n`'s kind in the set of kinds that are subclasses of
    `C`. A `None` node stands for a null argument. */
module Ancestry {
  import opened Wrappers
  import opened Tree

  predicate InTree(t: Tree, node: Option<NodeId>) {
    node.Some? ==> node.value in t.nodes
  }

  /** Index `i` of `chain` is the first whose kind is in `cls`. */
  ghost predicate FirstMatchAt(t: Tree, chain: seq<NodeId>, cls: set<Kind>, i: int)
    requires forall j :: 0 <= j < |chain| ==> chain[j] in t.nodes
  {
    && 0 <= i < |chain|
    && t.nodes[chain[i]].kind in cls
    && forall j :: 0 <= j < i ==> t.nodes[chain[j]].kind !in cls
  }

  /** `r` is the nearest node of a kind in `cls` on the chain from `node` up to its
      root, `node` included; `None` when the chain has no such node or `node` is null. */
  ghost predicate NearestOfKind(t: Tree, node: Option<NodeId>, cls: set<Kind>, r: Option<NodeId>)
    requires Wf(t) && InTree(t, node)
  {
    match node
    case None => r.None?
    case Some(n) =>
      var chain := Ancestors(t, n);
      match r
      case None => forall i :: 0 <= i < |chain| ==> t.nodes[chain[i]].kind !in cls
      case Some(a) => exists i :: FirstMatchAt(t, chain, cls, i) && chain[i] == a
  }

  /** At most one result answers a nearest-ancestor query. */
  lemma NearestOfKindUnique(t: Tree, node: Option<NodeId>, cls: set<Kind>, r1: Option<NodeId>, r2: Option<NodeId>)
    requires Wf(t) && InTree(t, node)
    requires NearestOfKind(t, node, cls, r1) && NearestOfKind(t, node, cls, r2)
    ensures r1 == r2
  {
    if node.Some? {
      var chain := Ancestors(t, node.value);
      if r1.Some? && r2.Some? {
        var i :| FirstMatchAt(t, chain, cls, i) && chain[i] == r1.value;
        var j :| FirstMatchAt(t, chain, cls, j) && chain[j] == r2.value;
        assert !(i < j) && !(j < i);
      }
    }
  }

  /** A node outside the class passes the query on to its parent. */
  lemma NearestStep(t: Tree, n: NodeId, cls: set<Kind>, r: Option<NodeId>)
    requires Wf(t) && n in t.nodes && t.nodes[n].kind !in cls
    requires InTree(t, t.nodes[n].parent)
    requires NearestOfKind(t, t.nodes[n].parent, cls, r)
    ensures NearestOfKind(t, Some(n), cls, r)
  {
    var chain := Ancestors(t, n);
    match t.nodes[n].parent
    case None =>
      assert chain == [n];
    case Some(p) =>
      AncestorsStep(t, n, p);
      var up := Ancestors(t, p);
      assert chain == [n] + up;
      if r.Some? {
        var i :| FirstMatchAt(t, up, cls, i) && up[i] == r.value;
        assert FirstMatchAt(t, chain, cls, i + 1) by {
          forall j | 0 <= j < i + 1
            ensures t.nodes[chain[j]].kind !in cls
          {
            if j > 0 {
              assert chain[j] == up[j - 1];
            }
          }
        }
        assert chain[i + 1] == r.value;
      } else {
        forall i | 0 <= i < |chain|
          ensures t.nodes[chain[i]].kind !in cls
        {
          if i > 0 {
            assert chain[i] == up[i - 1];
          }
        }
      }
  }

  /** `getNearestAncestorWithType`: the node itself, then each parent in turn. */
  function NearestAncestorWithType(t: Tree, cls: set<Kind>, node: Option<NodeId>): (r: Option<NodeId>)
    requires Wf(t) && InTree(t, node)
    ensures NearestOfKind(t, node, cls, r)
    decreases if node.Some? then SomeRank(t)[node.value] + 1 else 0
  {
    match node
    case None => None
    case Some(n) =>
      if t.nodes[n].kind in cls then
        assert FirstMatchAt(t, Ancestors(t, n), cls, 0);
        Some(n)
      else
        assert NodeWf(t, n) && RankBelow(t, SomeRank(t), n);
        var r := NearestAncestorWithType(t, cls, t.nodes[n].parent);
        NearestStep(t, n, cls, r);
        r
  }

  /** The inner loop of `getNearestAncestorWithTypeOneOf`: does any class in the
      list accept the kind? */
  function MatchesOneOf(classes: seq<set<Kind>>, k: Kind): (b: bool)
    ensures b <==> exists i :: 0 <= i < |classes| && k in classes[i]
  {
    if |classes| == 0 then false
    else if k in classes[0] then true
    else
      var rest := MatchesOneOf(classes[1..], k);
      assert forall i :: 1 <= i < |classes| ==> classes[i] == classes[1..][i - 1];
      rest
  }

  /** The kinds accepted by a list of classes. */
  function UnionOf(classes: seq<set<Kind>>): (u: set<Kind>)
    ensures forall k :: k in u <==> MatchesOneOf(classes, k)
  {
    if |classes| == 0 then {}
    else
      var rest := UnionOf(classes[1..]);
      assert forall k :: MatchesOneOf(classes, k) <==> k in classes[0] || MatchesOneOf(classes[1..], k);
      classes[0] + rest
  }

  /** `getNearestAncestorWithTypeOneOf`: the same walk, testing each class of the list
      in turn; it answers exactly the single-class query for the union. */
  function NearestAncestorWithTypeOneOf(t: Tree, classes: seq<set<Kind>>, node: Option<NodeId>): (r: Option<NodeId>)
    requires Wf(t) && InTree(t, node)
    ensures NearestOfKind(t, node, UnionOf(classes), r)
    decreases if node.Some? then SomeRank(t)[node.value] + 1 else 0
  {
    match node
    case None => None
    case Some(n) =>
      if MatchesOneOf(classes, t.nodes[n].kind) then
        assert FirstMatchAt(t, Ancestors(t, n), UnionOf(classes), 0);
        Some(n)
      else
        assert NodeWf(t, n) && RankBelow(t, SomeRank(t), n);
        var r := NearestAncestorWithTypeOneOf(t, classes, t.nodes[n].parent);
        NearestStep(t, n, UnionOf(classes), r);
        r
  }

  /** `TYPE_NODE_BASE_CLASSES` */
  const TypeNodeBaseClasses: seq<set<Kind>> := [{TypeDeclaration}, {AnonymousClassDeclaration}]

  /** `NODE_TYPES_WITH_ELEMENTS` */
  const NodeTypesWithElements: seq<set<Kind>> :=
    [{TypeDeclaration}, {AnonymousClassDeclaration}, {MethodDeclaration}, {VariableDeclaration}]

  const TypeKinds: set<Kind> := {TypeDeclaration, AnonymousClassDeclaration}
  const DeclaringKinds: set<Kind> := {TypeDeclaration, AnonymousClassDeclaration, MethodDeclaration, VariableDeclaration}

  function EnclosingMethod(t: Tree, node: Option<NodeId>): (r: Option<NodeId>)
    requires Wf(t) && InTree(t, node)
    ensures NearestOfKind(t, node, {MethodDeclaration}, r)
  {
    NearestAncestorWithType(t, {MethodDeclaration}, node)
  }

  function OwningStatement(t: Tree, node: Option<NodeId>): (r: Option<NodeId>)
    requires Wf(t) && InTree(t, node)
    ensures NearestOfKind(t, node, StatementKinds, r)
  {
    NearestAncestorWithType(t, StatementKinds, node)
  }

  function CompilationUnitOf(t: Tree, node: Option<NodeId>): (r: Option<NodeId>)
    requires Wf(t) && InTree(t, node)
    ensures NearestOfKind(t, node, {CompilationUnit}, r)
  {
    NearestAncestorWithType(t, {CompilationUnit}, node)
  }

  function EnclosingType(t: Tree, node: Option<NodeId>): (r: Option<NodeId>)
    requires Wf(t) && InTree(t, node)
    ensures NearestOfKind(t, node, TypeKinds, r)
  {
    assert UnionOf(TypeNodeBaseClasses) == TypeKinds by {
      assert forall k :: MatchesOneOf(TypeNodeBaseClasses, k) <==> k in TypeKinds;
    }
    NearestAncestorWithTypeOneOf(t, TypeNodeBaseClasses, node)
  }

  /** `getDeclaredElement`: the element a declaring node introduces; none for a null
      node or a kind that declares nothing. */
  function DeclaredElement(t: Tree, node: Option<NodeId>): (r: Option<Element>)
    requires InTree(t, node)
    ensures node.Some? && t.nodes[node.value].kind in DeclaringKinds ==> r == t.nodes[node.value].element
    ensures node.None? || t.nodes[node.value].kind !in DeclaringKinds ==> r.None?
  {
    match node
    case None => None
    case Some(n) =>
      var k := t.nodes[n].kind;
      if k == AnonymousClassDeclaration then t.nodes[n].element
      else if k == TypeDeclaration then t.nodes[n].element
      else if k == MethodDeclaration then t.nodes[n].element
      else if k == VariableDeclaration then t.nodes[n].element
      else None
  }

  /** `getEnclosingElement`: the declared element of the nearest declaring node on the
      chain, none when the chain holds no declaring node. */
  function EnclosingElement(t: Tree, node: Option<NodeId>): (r: Option<Element>)
    requires Wf(t) && InTree(t, node)
    ensures forall d :: NearestOfKind(t, node, DeclaringKinds, d) ==>
      r == (if d.Some? then t.nodes[d.value].element else None)
  {
    assert UnionOf(NodeTypesWithElements) == DeclaringKinds by {
      assert forall k :: MatchesOneOf(NodeTypesWithElements, k) <==> k in DeclaringKinds;
    }
    var d := NearestAncestorWithTypeOneOf(t, NodeTypesWithElements, node);
    assert forall d' :: NearestOfKind(t, node, DeclaringKinds, d') ==> d' == d by {
      forall d' | NearestOfKind(t, node, DeclaringKinds, d')
        ensures d' == d
      {
        NearestOfKindUnique(t, node, DeclaringKinds, d, d');
      }
    }
    DeclaredElement(t, d)
  }

  /** `getEnclosingTypeElement`: the type element of the nearest type or anonymous
      class declaration on the chain. */
  function EnclosingTypeElement(t: Tree, node: Option<NodeId>): (r: Option<Element>)
    requires Wf(t) && InTree(t, node)
    ensures forall d :: NearestOfKind(t, node, TypeKinds, d) ==>
      r == (if d.Some? then t.nodes[d.value].element else None)
  {
    var d := EnclosingType(t, node);
    assert forall d' :: NearestOfKind(t, node, TypeKinds, d') ==> d' == d by {
      forall d' | NearestOfKind(t, node, TypeKinds, d')
        ensures d' == d
      {
        NearestOfKindUnique(t, node, TypeKinds, d, d');
      }
    }
    match d
    case None => None
    case Some(e) =>
      if t.nodes[e].kind == TypeDeclaration then t.nodes[e].element
      else if t.nodes[e].kind == AnonymousClassDeclaration then t.nodes[e].element
      else None
  }
}
