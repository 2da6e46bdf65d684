/** The parent-linked syntax tree the kernel navigates and rewrites.

    A tree is a finite map from node ids to nodes. Every node records its kind, its
    parent (a back-reference, `None` for a detached node or a root), its principal
    child list and the semantic element a resolver attached to it. `next` is the
    allocator: every id in the map is below it, so `next` is always fresh. */
module Tree {
  import opened Wrappers
  import opened Seqs

  type NodeId = nat

  /** The closed set of node kinds the kernel dispatches on. `TypeDeclaration`
      stands for every subclass of AbstractTypeDeclaration (class, enum and
      annotation-type declarations); `VariableDeclaration` for single-variable
      declarations and declaration fragments. */
  datatype Kind =
    | Block
    | OtherStatement
    | ParenthesizedExpression
    | FieldAccess
    | SuperFieldAccess
    | QualifiedName
    | SimpleName
    | ClassInstanceCreation
    | MethodInvocation
    | SuperMethodInvocation
    | OtherExpression
    | TypeDeclaration
    | AnonymousClassDeclaration
    | MethodDeclaration
    | FieldDeclaration
    | FunctionDeclaration
    | AnnotationTypeMemberDeclaration
    | VariableDeclaration
    | CompilationUnit
    | OtherNode

  /** Statement is the class of Block and every other statement kind. */
  const StatementKinds: set<Kind> := {Block, OtherStatement}

  /** Semantic elements are opaque values produced by an external resolver. */
  datatype ElementKind = TypeKind | ExecutableKind | VariableKind | OtherKind
  datatype Element = Element(id: nat, kind: ElementKind)

  /** `children` is the node's principal child list: a Block's statements, a type's
      body declarations, a field declaration's fragments, a parenthesized
      expression's inner expression, or the nested statement of a compound statement. */
  datatype Node = Node(kind: Kind, parent: Option<NodeId>, children: seq<NodeId>, element: Option<Element>)

  datatype Tree = Tree(nodes: map<NodeId, Node>, next: NodeId)

  // ---------------------------------------------------------------------------
  // Well-formedness
  // ---------------------------------------------------------------------------

  /** A node's parent exists and lists the node among its children. */
  ghost predicate ParentLinked(t: Tree, n: NodeId)
    requires n in t.nodes
  {
    match t.nodes[n].parent
    case None => true
    case Some(p) => p in t.nodes && n in t.nodes[p].children
  }

  /** A node's children exist, point back at it, and occur once each. */
  ghost predicate ChildrenLinked(t: Tree, n: NodeId)
    requires n in t.nodes
  {
    var children := t.nodes[n].children;
    && NoDuplicates(children)
    && forall i :: 0 <= i < |children| ==> children[i] in t.nodes && t.nodes[children[i]].parent == Some(n)
  }

  ghost predicate RankBelow(t: Tree, rank: map<NodeId, nat>, n: NodeId)
    requires n in t.nodes
  {
    && n in rank
    && match t.nodes[n].parent
       case None => true
       case Some(p) => p in rank && rank[p] < rank[n]
  }

  /** `rank` strictly decreases along every parent link. */
  ghost predicate RankedBy(t: Tree, rank: map<NodeId, nat>) {
    && t.nodes.Keys <= rank.Keys
    && forall n {:trigger RankBelow(t, rank, n)} :: n in t.nodes ==> RankBelow(t, rank, n)
  }

  /** The parent chain of every node ends at a root: some rank witnesses it. */
  ghost predicate Acyclic(t: Tree) {
    exists rank :: RankedBy(t, rank)
  }

  ghost predicate NodeWf(t: Tree, n: NodeId)
    requires n in t.nodes
  {
    n < t.next && ParentLinked(t, n) && ChildrenLinked(t, n)
  }

  /** Every node is linked both ways and the parent links form no cycle. The node
      facts are released one node at a time, by mentioning `NodeWf(t, n)`. */
  ghost predicate Wf(t: Tree) {
    && (forall n {:trigger NodeWf(t, n)} :: n in t.nodes ==> NodeWf(t, n))
    && Acyclic(t)
  }

  ghost function SomeRank(t: Tree): (rank: map<NodeId, nat>)
    requires Acyclic(t)
    ensures RankedBy(t, rank)
  {
    var rank :| RankedBy(t, rank); rank
  }

  predicate Detached(t: Tree, n: NodeId) {
    n in t.nodes && t.nodes[n].parent.None?
  }

  /** The chain [n, parent(n), grandparent(n), ..., root]. */
  ghost function Ancestors(t: Tree, n: NodeId): (chain: seq<NodeId>)
    requires Wf(t) && n in t.nodes
    ensures 0 < |chain| && chain[0] == n
    ensures forall i :: 0 <= i < |chain| ==> chain[i] in t.nodes
    decreases SomeRank(t)[n]
  {
    match t.nodes[n].parent
    case None => [n]
    case Some(p) =>
      assert NodeWf(t, n) && RankBelow(t, SomeRank(t), n);
      assert RankBelow(t, SomeRank(t), p);
      [n] + Ancestors(t, p)
  }

  /** The chain climbs strictly in rank, follows parent links and ends at a root. */
  lemma {:induction false} AncestorsLinked(t: Tree, n: NodeId)
    requires Wf(t) && n in t.nodes
    ensures var chain := Ancestors(t, n);
      && (forall i :: 0 < i < |chain| ==> SomeRank(t)[chain[i]] < SomeRank(t)[n])
      && (forall i :: 0 <= i < |chain| - 1 ==> t.nodes[chain[i]].parent == Some(chain[i + 1]))
      && t.nodes[chain[|chain| - 1]].parent.None?
    decreases SomeRank(t)[n]
  {
    match t.nodes[n].parent
    case None =>
    case Some(p) =>
      assert NodeWf(t, n) && RankBelow(t, SomeRank(t), n);
      assert RankBelow(t, SomeRank(t), p);
      AncestorsLinked(t, p);
  }

  /** One step of the chain: a node's ancestors are itself followed by its parent's. */
  lemma AncestorsStep(t: Tree, n: NodeId, p: NodeId)
    requires Wf(t) && n in t.nodes && t.nodes[n].parent == Some(p)
    ensures p in t.nodes && Ancestors(t, n) == [n] + Ancestors(t, p)
    ensures n !in Ancestors(t, p)
  {
    assert NodeWf(t, n) && RankBelow(t, SomeRank(t), n);
    AncestorsLinked(t, p);
    var chain := Ancestors(t, p);
    forall i | 0 <= i < |chain|
      ensures SomeRank(t)[chain[i]] < SomeRank(t)[n]
    {
    }
  }

  /** A chain is unchanged in another tree that keeps every parent link along it. */
  lemma {:induction false} AncestorsFrame(t: Tree, t': Tree, n: NodeId)
    requires Wf(t) && Wf(t') && n in t.nodes
    requires forall z :: z in Ancestors(t, n) ==> z in t'.nodes && t'.nodes[z].parent == t.nodes[z].parent
    ensures n in t'.nodes && Ancestors(t', n) == Ancestors(t, n)
    decreases SomeRank(t)[n]
  {
    assert Ancestors(t, n)[0] == n;
    match t.nodes[n].parent
    case None =>
    case Some(p) =>
      AncestorsStep(t, n, p);
      assert RankBelow(t, SomeRank(t), n);
      AncestorsFrame(t, t', p);
      AncestorsStep(t', n, p);
  }

  // ---------------------------------------------------------------------------
  // Acyclicity after the primitive edits
  // ---------------------------------------------------------------------------

  /** Adding parentless nodes and cutting parent links keeps a tree acyclic. */
  lemma AcyclicAfterCut(t: Tree, t': Tree)
    requires Acyclic(t)
    requires forall y :: y in t'.nodes ==> t'.nodes[y].parent.None? || (y in t.nodes && t'.nodes[y].parent == t.nodes[y].parent)
    ensures Acyclic(t')
  {
    var rank := SomeRank(t);
    var rank' := map y | y in t'.nodes.Keys + rank.Keys :: if y in rank then rank[y] else 0;
    forall y | y in t'.nodes
      ensures RankBelow(t', rank', y)
    {
      if t'.nodes[y].parent.Some? {
        assert RankBelow(t, rank, y);
      }
    }
    assert RankedBy(t', rank');
  }

  /** Hanging a root `x` under `p` keeps a tree acyclic when `x` is not above `p`;
      other links may only be kept or cut. */
  lemma AcyclicAfterAttach(t: Tree, t': Tree, x: NodeId, p: NodeId)
    requires Wf(t) && Detached(t, x) && p in t.nodes && x !in Ancestors(t, p)
    requires t'.nodes.Keys == t.nodes.Keys
    requires t'.nodes[x].parent == Some(p)
    requires forall y :: y in t.nodes && y != x ==> t'.nodes[y].parent.None? || t'.nodes[y].parent == t.nodes[y].parent
    ensures Acyclic(t')
  {
    var rank := SomeRank(t);
    var shift := rank[p] + 1;
    var rank' := map y | y in t.nodes :: rank[y] + (if x in Ancestors(t, y) then shift else 0);
    forall y | y in t'.nodes
      ensures RankBelow(t', rank', y)
    {
      if y == x {
        assert x in Ancestors(t, x);
      } else if t'.nodes[y].parent.Some? {
        var q := t'.nodes[y].parent.value;
        assert t.nodes[y].parent == Some(q);
        AncestorsStep(t, y, q);
        assert RankBelow(t, rank, y);
      }
    }
    assert RankedBy(t', rank');
  }

  // ---------------------------------------------------------------------------
  // Primitive edits of the node model
  // ---------------------------------------------------------------------------

  /** The allocator's next id is not in use. */
  lemma NextIsFresh(t: Tree)
    requires Wf(t)
    ensures forall n :: n in t.nodes ==> n < t.next
  {
    forall n | n in t.nodes
      ensures n < t.next
    {
      assert NodeWf(t, n);
    }
  }

  /** A fresh, parentless, childless node: `new Block()` and the result of `copy()`. */
  function NewNode(t: Tree, kind: Kind, element: Option<Element>): (r: (Tree, NodeId))
    requires Wf(t)
    ensures r.1 == t.next && r.1 !in t.nodes && Wf(r.0) && r.0.next > r.1
    ensures r.0.nodes == t.nodes[r.1 := Node(kind, None, [], element)]
  {
    var id := t.next;
    NextIsFresh(t);
    var t' := Tree(t.nodes[id := Node(kind, None, [], element)], t.next + 1);
    NewNodeWf(t, t', id);
    (t', id)
  }

  lemma NewNodeWf(t: Tree, t': Tree, id: NodeId)
    requires Wf(t) && id !in t.nodes && id < t'.next && t.next <= t'.next
    requires t'.nodes.Keys == t.nodes.Keys + {id}
    requires forall y :: y in t.nodes ==> t'.nodes[y] == t.nodes[y]
    requires t'.nodes[id].parent.None? && t'.nodes[id].children == []
    ensures Wf(t')
  {
    forall n | n in t'.nodes
      ensures NodeWf(t', n)
    {
      if n != id {
        assert NodeWf(t, n);
        var ch := t.nodes[n].children;
        assert forall i :: 0 <= i < |ch| ==> ch[i] in t.nodes;
      }
    }
    AcyclicAfterCut(t, t');
  }

  /** `TreeNode.remove()`: the node leaves its parent's child list and loses its
      parent link. A detached node is left alone. */
  function Detach(t: Tree, n: NodeId): (t': Tree)
    requires Wf(t) && n in t.nodes
    ensures Wf(t') && t'.next == t.next && t'.nodes.Keys == t.nodes.Keys
    ensures Detached(t', n)
    ensures t.nodes[n].parent.None? ==> t' == t
    ensures t.nodes[n].parent.Some? ==>
      var p := t.nodes[n].parent.value;
      && p in t.nodes && n in t.nodes[p].children
      && t'.nodes[p] == t.nodes[p].(children := RemoveAt(t.nodes[p].children, IndexOf(t.nodes[p].children, n).value))
      && n !in t'.nodes[p].children
    ensures t'.nodes[n] == t.nodes[n].(parent := None)
    ensures forall y :: y in t.nodes && y != n && Some(y) != t.nodes[n].parent ==> t'.nodes[y] == t.nodes[y]
  {
    match t.nodes[n].parent
    case None => t
    case Some(p) =>
      AncestorsStep(t, n, p);
      assert NodeWf(t, n);
      var children := t.nodes[p].children;
      var i := IndexOf(children, n).value;
      var t' := Tree(t.nodes[n := t.nodes[n].(parent := None)][p := t.nodes[p].(children := RemoveAt(children, i))], t.next);
      DetachWf(t, t', n, p, i);
      t'
  }

  lemma DetachWf(t: Tree, t': Tree, n: NodeId, p: NodeId, i: nat)
    requires Wf(t) && n in t.nodes && n != p && t.nodes[n].parent == Some(p)
    requires p in t.nodes && i < |t.nodes[p].children| && t.nodes[p].children[i] == n
    requires t' == Tree(t.nodes[n := t.nodes[n].(parent := None)][p := t.nodes[p].(children := RemoveAt(t.nodes[p].children, i))], t.next)
    ensures Wf(t') && n !in t'.nodes[p].children
  {
    DetachParentWf(t, t', n, p, i);
    forall n' | n' in t'.nodes && n' != p
      ensures NodeWf(t', n')
    {
      DetachOtherWf(t, t', n, p, i, n');
    }
    AcyclicAfterCut(t, t');
  }

  /** The parent's shortened child list stays linked and loses `n`. */
  lemma DetachParentWf(t: Tree, t': Tree, n: NodeId, p: NodeId, i: nat)
    requires Wf(t) && n in t.nodes && n != p && t.nodes[n].parent == Some(p)
    requires p in t.nodes && i < |t.nodes[p].children| && t.nodes[p].children[i] == n
    requires t' == Tree(t.nodes[n := t.nodes[n].(parent := None)][p := t.nodes[p].(children := RemoveAt(t.nodes[p].children, i))], t.next)
    ensures NodeWf(t', p) && n !in t'.nodes[p].children
  {
    var children := t.nodes[p].children;
    var children' := t'.nodes[p].children;
    assert NodeWf(t, p);
    forall a, b | 0 <= a < b < |children'|
      ensures children'[a] != children'[b]
    {
      var a0 := if a < i then a else a + 1;
      var b0 := if b < i then b else b + 1;
      assert children'[a] == children[a0] && children'[b] == children[b0];
    }
    forall k | 0 <= k < |children'|
      ensures children'[k] != n && children'[k] in t'.nodes && t'.nodes[children'[k]].parent == Some(p)
    {
      var k0 := if k < i then k else k + 1;
      assert children'[k] == children[k0];
    }
    if t.nodes[p].parent.Some? {
      var g := t.nodes[p].parent.value;
      assert NodeWf(t, g);
    }
  }

  /** Every other node keeps its links. */
  lemma DetachOtherWf(t: Tree, t': Tree, n: NodeId, p: NodeId, i: nat, n': NodeId)
    requires Wf(t) && n in t.nodes && n != p && t.nodes[n].parent == Some(p)
    requires p in t.nodes && i < |t.nodes[p].children| && t.nodes[p].children[i] == n
    requires t' == Tree(t.nodes[n := t.nodes[n].(parent := None)][p := t.nodes[p].(children := RemoveAt(t.nodes[p].children, i))], t.next)
    requires n' in t'.nodes && n' != p
    ensures NodeWf(t', n')
  {
    var children := t.nodes[p].children;
    var children' := t'.nodes[p].children;
    assert NodeWf(t, n');
    if n' != n && t.nodes[n'].parent == Some(p) {
      var j :| 0 <= j < |children| && children[j] == n';
      assert NodeWf(t, p);
      assert j != i;
      if j < i {
        assert children'[j] == n';
      } else {
        assert children'[j - 1] == n';
      }
    }
    var ch := t.nodes[n'].children;
    forall k | 0 <= k < |ch|
      ensures ch[k] != n
    {
      assert t.nodes[ch[k]].parent == Some(n');
    }
  }

  /** `TreeNode.replaceWith(m)`: `m` takes `n`'s slot in the parent's child list and
      `n` is left detached. */
  function ReplaceWith(t: Tree, n: NodeId, m: NodeId): (t': Tree)
    requires Wf(t) && n in t.nodes && t.nodes[n].parent.Some? && Detached(t, m)
    requires m !in Ancestors(t, n)
    ensures Wf(t') && t'.next == t.next && t'.nodes.Keys == t.nodes.Keys
    ensures
      var p := t.nodes[n].parent.value;
      && p in t.nodes && n in t.nodes[p].children
      && var i := IndexOf(t.nodes[p].children, n).value;
      && t'.nodes[p] == t.nodes[p].(children := t.nodes[p].children[i := m])
    ensures t'.nodes[n] == t.nodes[n].(parent := None)
    ensures t'.nodes[m] == t.nodes[m].(parent := t.nodes[n].parent)
    ensures forall y :: y in t.nodes && y != n && y != m && Some(y) != t.nodes[n].parent ==> t'.nodes[y] == t.nodes[y]
  {
    var p := t.nodes[n].parent.value;
    assert NodeWf(t, n);
    var children := t.nodes[p].children;
    var i := IndexOf(children, n).value;
    AncestorsStep(t, n, p);
    assert m != p && n != p && m != n;
    var t' := Tree(t.nodes[n := t.nodes[n].(parent := None)][m := t.nodes[m].(parent := Some(p))][p := t.nodes[p].(children := children[i := m])], t.next);
    ReplaceWithWf(t, t', n, m, p, i);
    t'
  }

  lemma ReplaceWithWf(t: Tree, t': Tree, n: NodeId, m: NodeId, p: NodeId, i: nat)
    requires Wf(t) && n in t.nodes && t.nodes[n].parent == Some(p) && Detached(t, m)
    requires p in t.nodes && m !in Ancestors(t, p) && m != n && n != p
    requires i < |t.nodes[p].children| && t.nodes[p].children[i] == n
    requires t' == Tree(t.nodes[n := t.nodes[n].(parent := None)][m := t.nodes[m].(parent := Some(p))][p := t.nodes[p].(children := t.nodes[p].children[i := m])], t.next)
    ensures Wf(t')
  {
    ReplaceWithParentWf(t, t', n, m, p, i);
    forall n' | n' in t'.nodes && n' != p
      ensures NodeWf(t', n')
    {
      ReplaceWithOtherWf(t, t', n, m, p, i, n');
    }
    AcyclicAfterAttach(t, t', m, p);
  }

  /** The parent's child list, with `m` in `n`'s slot, stays linked. */
  lemma ReplaceWithParentWf(t: Tree, t': Tree, n: NodeId, m: NodeId, p: NodeId, i: nat)
    requires Wf(t) && n in t.nodes && t.nodes[n].parent == Some(p) && Detached(t, m)
    requires p in t.nodes && m !in Ancestors(t, p) && m != n && n != p
    requires i < |t.nodes[p].children| && t.nodes[p].children[i] == n
    requires t' == Tree(t.nodes[n := t.nodes[n].(parent := None)][m := t.nodes[m].(parent := Some(p))][p := t.nodes[p].(children := t.nodes[p].children[i := m])], t.next)
    ensures NodeWf(t', p)
  {
    var children := t.nodes[p].children;
    var children' := children[i := m];
    assert NodeWf(t, p) && NodeWf(t, m);
    forall k | 0 <= k < |children|
      ensures children[k] != m
    {
    }
    forall a, b | 0 <= a < b < |children'|
      ensures children'[a] != children'[b]
    {
    }
    if t.nodes[p].parent.Some? {
      var g := t.nodes[p].parent.value;
      assert NodeWf(t, g);
      AncestorsStep(t, p, g);
    }
  }

  /** Every other node keeps its links; `m` now points at `p`. */
  lemma ReplaceWithOtherWf(t: Tree, t': Tree, n: NodeId, m: NodeId, p: NodeId, i: nat, n': NodeId)
    requires Wf(t) && n in t.nodes && t.nodes[n].parent == Some(p) && Detached(t, m)
    requires p in t.nodes && m !in Ancestors(t, p) && m != n && n != p
    requires i < |t.nodes[p].children| && t.nodes[p].children[i] == n
    requires t' == Tree(t.nodes[n := t.nodes[n].(parent := None)][m := t.nodes[m].(parent := Some(p))][p := t.nodes[p].(children := t.nodes[p].children[i := m])], t.next)
    requires n' in t'.nodes && n' != p
    ensures NodeWf(t', n')
  {
    var children := t.nodes[p].children;
    var children' := children[i := m];
    assert NodeWf(t, n') && NodeWf(t, p) && NodeWf(t, m);
    if n' != n && n' != m && t.nodes[n'].parent == Some(p) {
      var j :| 0 <= j < |children| && children[j] == n';
      assert children'[j] == n';
    }
    if n' == m {
      assert children'[i] == m;
    }
    var ch := t.nodes[n'].children;
    forall k | 0 <= k < |ch|
      ensures ch[k] != n && ch[k] != m
    {
      assert t.nodes[ch[k]].parent == Some(n');
    }
  }

  /** `ChildList.add(pos, x)`: the detached node `x` enters `p`'s child list at `pos`. */
  function InsertChild(t: Tree, p: NodeId, pos: nat, x: NodeId): (t': Tree)
    requires Wf(t) && p in t.nodes && Detached(t, x) && x !in Ancestors(t, p)
    requires pos <= |t.nodes[p].children|
    ensures Wf(t') && t'.next == t.next && t'.nodes.Keys == t.nodes.Keys
    ensures t'.nodes[p] == t.nodes[p].(children := InsertAt(t.nodes[p].children, pos, x))
    ensures t'.nodes[x] == t.nodes[x].(parent := Some(p))
    ensures forall y :: y in t.nodes && y != p && y != x ==> t'.nodes[y] == t.nodes[y]
  {
    assert x != p;
    var t' := Tree(t.nodes[x := t.nodes[x].(parent := Some(p))][p := t.nodes[p].(children := InsertAt(t.nodes[p].children, pos, x))], t.next);
    InsertChildWf(t, t', p, pos, x);
    t'
  }

  lemma InsertChildWf(t: Tree, t': Tree, p: NodeId, pos: nat, x: NodeId)
    requires Wf(t) && p in t.nodes && Detached(t, x) && x !in Ancestors(t, p) && x != p
    requires pos <= |t.nodes[p].children|
    requires t' == Tree(t.nodes[x := t.nodes[x].(parent := Some(p))][p := t.nodes[p].(children := InsertAt(t.nodes[p].children, pos, x))], t.next)
    ensures Wf(t')
  {
    InsertChildParentWf(t, t', p, pos, x);
    forall n' | n' in t'.nodes && n' != p
      ensures NodeWf(t', n')
    {
      InsertChildOtherWf(t, t', p, pos, x, n');
    }
    AcyclicAfterAttach(t, t', x, p);
  }

  /** The parent's lengthened child list stays linked and duplicate-free. */
  lemma InsertChildParentWf(t: Tree, t': Tree, p: NodeId, pos: nat, x: NodeId)
    requires Wf(t) && p in t.nodes && Detached(t, x) && x !in Ancestors(t, p) && x != p
    requires pos <= |t.nodes[p].children|
    requires t' == Tree(t.nodes[x := t.nodes[x].(parent := Some(p))][p := t.nodes[p].(children := InsertAt(t.nodes[p].children, pos, x))], t.next)
    ensures NodeWf(t', p)
  {
    var children := t.nodes[p].children;
    var children' := InsertAt(children, pos, x);
    assert NodeWf(t, p) && NodeWf(t, x);
    forall k | 0 <= k < |children|
      ensures children[k] != x
    {
    }
    forall a, b | 0 <= a < b < |children'|
      ensures children'[a] != children'[b]
    {
      if a != pos && b != pos {
        var a0 := if a < pos then a else a - 1;
        var b0 := if b < pos then b else b - 1;
        assert children'[a] == children[a0] && children'[b] == children[b0];
      } else if a == pos {
        assert children'[b] == children[b - 1];
      } else {
        assert children'[a] == children[a];
      }
    }
    forall k | 0 <= k < |children'|
      ensures children'[k] in t'.nodes && t'.nodes[children'[k]].parent == Some(p)
    {
      if k < pos {
        assert children'[k] == children[k];
      } else if k > pos {
        assert children'[k] == children[k - 1];
      }
    }
    if t.nodes[p].parent.Some? {
      var g := t.nodes[p].parent.value;
      assert NodeWf(t, g);
      AncestorsStep(t, p, g);
    }
  }

  /** Every other node keeps its links; `x` now points at `p`. */
  lemma InsertChildOtherWf(t: Tree, t': Tree, p: NodeId, pos: nat, x: NodeId, n': NodeId)
    requires Wf(t) && p in t.nodes && Detached(t, x) && x !in Ancestors(t, p) && x != p
    requires pos <= |t.nodes[p].children|
    requires t' == Tree(t.nodes[x := t.nodes[x].(parent := Some(p))][p := t.nodes[p].(children := InsertAt(t.nodes[p].children, pos, x))], t.next)
    requires n' in t'.nodes && n' != p
    ensures NodeWf(t', n')
  {
    var children := t.nodes[p].children;
    var children' := InsertAt(children, pos, x);
    assert NodeWf(t, n') && NodeWf(t, p) && NodeWf(t, x);
    if n' != x && t.nodes[n'].parent == Some(p) {
      var j :| 0 <= j < |children| && children[j] == n';
      if j < pos {
        assert children'[j] == n';
      } else {
        assert children'[j + 1] == n';
      }
    }
    var ch := t.nodes[n'].children;
    forall k | 0 <= k < |ch|
      ensures ch[k] != x
    {
      assert t.nodes[ch[k]].parent == Some(n');
    }
  }
}
