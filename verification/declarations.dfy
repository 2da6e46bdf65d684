/** Body declarations of type and anonymous-class declarations, the per-kind views
    over them, and the flattening of field declarations into their fragments. */
module Declarations {
  import opened Wrappers
  import opened Seqs
  import opened Tree
  import opened Ancestry

  /** `getBodyDeclarations`: the body of a type or anonymous-class declaration. Any
      other node is a programming error in the caller (an AssertionError). */
  function BodyDeclarations(t: Tree, n: NodeId): (r: seq<NodeId>)
    requires Wf(t) && n in t.nodes && t.nodes[n].kind in TypeKinds
    ensures forall i :: 0 <= i < |r| ==> r[i] in t.nodes && t.nodes[r[i]].parent == Some(n)
    ensures forall d :: d in t.nodes && t.nodes[d].parent == Some(n) ==> d in r
  {
    assert NodeWf(t, n);
    forall d | d in t.nodes && t.nodes[d].parent == Some(n)
      ensures d in t.nodes[n].children
    {
      assert NodeWf(t, d);
    }
    t.nodes[n].children
  }

  /** A one-element window into the body that holds a declaration. */
  datatype Sublist = Sublist(owner: NodeId, offset: nat)

  /** `asDeclarationSublist`: the window at the declaration's index in its parent's
      body; the parent must be a type or anonymous-class declaration. */
  function AsDeclarationSublist(t: Tree, d: NodeId): (r: Sublist)
    requires Wf(t) && d in t.nodes && t.nodes[d].parent.Some?
    requires var p := t.nodes[d].parent.value; p in t.nodes && t.nodes[p].kind in TypeKinds
    ensures r.owner == t.nodes[d].parent.value
    ensures r.offset < |BodyDeclarations(t, r.owner)|
    ensures BodyDeclarations(t, r.owner)[r.offset..r.offset + 1] == [d]
  {
    var p := t.nodes[d].parent.value;
    var body := BodyDeclarations(t, p);
    assert d in body;
    var i := IndexOf(body, d).value;
    assert body[i..i + 1] == [d];
    Sublist(p, i)
  }

  /** `getEnclosingTypeBodyDeclarations`: the body of the nearest type or anonymous
      class on the chain; there must be one. */
  function EnclosingTypeBodyDeclarations(t: Tree, node: Option<NodeId>): (r: seq<NodeId>)
    requires Wf(t) && InTree(t, node) && EnclosingType(t, node).Some?
    ensures forall d :: NearestOfKind(t, node, TypeKinds, d) ==> d.Some? && r == t.nodes[d.value].children
  {
    var e := EnclosingType(t, node);
    assert forall d :: NearestOfKind(t, node, TypeKinds, d) ==> d == e by {
      forall d | NearestOfKind(t, node, TypeKinds, d)
        ensures d == e
      {
        NearestOfKindUnique(t, node, TypeKinds, d, e);
      }
    }
    BodyDeclarations(t, e.value)
  }

  /** `Iterables.filter(decls, C.class)` for a class with the single kind `k`: the
      declarations of that kind, in order. */
  function OfKind(t: Tree, decls: seq<NodeId>, k: Kind): (r: seq<NodeId>)
    requires forall i :: 0 <= i < |decls| ==> decls[i] in t.nodes
    ensures |r| <= |decls|
    ensures forall d :: d in r <==> d in decls && t.nodes[d].kind == k
  {
    if |decls| == 0 then []
    else
      var rest := OfKind(t, decls[1..], k);
      assert forall d :: d in decls <==> d == decls[0] || d in decls[1..];
      if t.nodes[decls[0]].kind == k then [decls[0]] + rest else rest
  }

  /** Filtering keeps order: it distributes over concatenation. */
  lemma {:induction false} OfKindAppend(t: Tree, a: seq<NodeId>, b: seq<NodeId>, k: Kind)
    requires forall i :: 0 <= i < |a| ==> a[i] in t.nodes
    requires forall i :: 0 <= i < |b| ==> b[i] in t.nodes
    ensures OfKind(t, a + b, k) == OfKind(t, a, k) + OfKind(t, b, k)
    decreases |a|
  {
    if |a| == 0 {
      assert a + b == b;
    } else {
      assert (a + b)[1..] == a[1..] + b;
      OfKindAppend(t, a[1..], b, k);
    }
  }

  /** `getFieldDeclarations` */
  function FieldDeclarations(t: Tree, n: NodeId): (r: seq<NodeId>)
    requires Wf(t) && n in t.nodes && t.nodes[n].kind == TypeDeclaration
    ensures forall d :: d in r <==> d in t.nodes && t.nodes[d].parent == Some(n) && t.nodes[d].kind == FieldDeclaration
  {
    OfKind(t, BodyDeclarations(t, n), FieldDeclaration)
  }

  /** `getMethodDeclarations`, for both type and anonymous-class declarations. */
  function MethodDeclarations(t: Tree, n: NodeId): (r: seq<NodeId>)
    requires Wf(t) && n in t.nodes && t.nodes[n].kind in TypeKinds
    ensures forall d :: d in r <==> d in t.nodes && t.nodes[d].parent == Some(n) && t.nodes[d].kind == MethodDeclaration
  {
    OfKind(t, BodyDeclarations(t, n), MethodDeclaration)
  }

  /** `getFunctionDeclarations` */
  function FunctionDeclarations(t: Tree, n: NodeId): (r: seq<NodeId>)
    requires Wf(t) && n in t.nodes && t.nodes[n].kind == TypeDeclaration
    ensures forall d :: d in r <==> d in t.nodes && t.nodes[d].parent == Some(n) && t.nodes[d].kind == FunctionDeclaration
  {
    OfKind(t, BodyDeclarations(t, n), FunctionDeclaration)
  }

  /** `getAnnotationMembers` */
  function AnnotationMembers(t: Tree, n: NodeId): (r: seq<NodeId>)
    requires Wf(t) && n in t.nodes && t.nodes[n].kind == TypeDeclaration
    ensures forall d :: d in r <==> d in t.nodes && t.nodes[d].parent == Some(n) && t.nodes[d].kind == AnnotationTypeMemberDeclaration
  {
    OfKind(t, BodyDeclarations(t, n), AnnotationTypeMemberDeclaration)
  }

  /** The fragment list of each field declaration, in order. */
  function FragmentLists(t: Tree, fields: seq<NodeId>): (r: seq<seq<NodeId>>)
    requires forall i :: 0 <= i < |fields| ==> fields[i] in t.nodes
    ensures |r| == |fields| && forall i :: 0 <= i < |fields| ==> r[i] == t.nodes[fields[i]].children
  {
    seq(|fields|, i requires 0 <= i < |fields| => t.nodes[fields[i]].children)
  }

  /** `asFragments`, taken eagerly: every fragment of every field declaration, field by
      field and in each field's order. */
  function AsFragments(t: Tree, fields: seq<NodeId>): (r: seq<NodeId>)
    requires forall i :: 0 <= i < |fields| ==> fields[i] in t.nodes
    ensures forall f :: f in r <==> exists i :: 0 <= i < |fields| && f in t.nodes[fields[i]].children
  {
    var lists := FragmentLists(t, fields);
    ConcatMembers(lists);
    Concat(lists)
  }

  lemma {:induction false} ConcatMembers<T>(xss: seq<seq<T>>)
    ensures forall x :: x in Concat(xss) <==> exists i :: 0 <= i < |xss| && x in xss[i]
    decreases |xss|
  {
    if |xss| > 0 {
      ConcatMembers(xss[1..]);
      forall x
        ensures (exists i :: 0 <= i < |xss| && x in xss[i]) <==> x in xss[0] || exists i :: 0 <= i < |xss[1..]| && x in xss[1..][i]
      {
        if exists i :: 0 <= i < |xss| && x in xss[i] {
          var i :| 0 <= i < |xss| && x in xss[i];
          if i > 0 {
            assert x in xss[1..][i - 1];
          }
        }
        if exists i :: 0 <= i < |xss[1..]| && x in xss[1..][i] {
          var i :| 0 <= i < |xss[1..]| && x in xss[1..][i];
          assert x in xss[i + 1];
        }
      }
    }
  }

  /** `getAllFields`: the fragments of the type's field declarations. */
  function AllFields(t: Tree, n: NodeId): (r: seq<NodeId>)
    requires Wf(t) && n in t.nodes && t.nodes[n].kind == TypeDeclaration
    ensures forall f :: f in r <==> f in t.nodes && exists d :: t.nodes[f].parent == Some(d) && d in t.nodes && t.nodes[d].parent == Some(n) && t.nodes[d].kind == FieldDeclaration
  {
    var fields := FieldDeclarations(t, n);
    var r := AsFragments(t, fields);
    forall f
      ensures f in r <==> f in t.nodes && exists d :: t.nodes[f].parent == Some(d) && d in t.nodes && t.nodes[d].parent == Some(n) && t.nodes[d].kind == FieldDeclaration
    {
      if f in r {
        var i :| 0 <= i < |fields| && f in t.nodes[fields[i]].children;
        assert NodeWf(t, fields[i]);
      }
      if f in t.nodes && exists d :: t.nodes[f].parent == Some(d) && d in t.nodes && t.nodes[d].parent == Some(n) && t.nodes[d].kind == FieldDeclaration {
        var d :| t.nodes[f].parent == Some(d) && d in t.nodes && t.nodes[d].parent == Some(n) && t.nodes[d].kind == FieldDeclaration;
        assert NodeWf(t, f);
        assert d in fields;
        var i :| 0 <= i < |fields| && fields[i] == d;
      }
    }
    r
  }

  /** The state of the iterator behind `asFragments`: the fragment lists of the field
      declarations not yet visited, and what is left of the current field's fragments
      (`None` before the first field). */
  datatype FragmentCursor = FragmentCursor(fields: seq<seq<NodeId>>, frag: Option<seq<NodeId>>)

  /** What the cursor has still to produce. */
  function Pending(c: FragmentCursor): seq<NodeId> {
    (if c.frag.Some? then c.frag.value else []) + Concat(c.fields)
  }

  /** `computeNext`: the next fragment with the advanced cursor, or `None` for
      `endOfData()`. Fields without fragments are skipped. */
  function ComputeNext(c: FragmentCursor): (r: Option<(NodeId, FragmentCursor)>)
    ensures r.None? <==> Pending(c) == []
    ensures r.Some? ==> Pending(c) == [r.value.0] + Pending(r.value.1)
    decreases |c.fields|
  {
    if c.frag.Some? && |c.frag.value| > 0 then
      Some((c.frag.value[0], FragmentCursor(c.fields, Some(c.frag.value[1..]))))
    else if |c.fields| > 0 then
      var next := FragmentCursor(c.fields[1..], Some(c.fields[0]));
      if |next.fields| > 0 || |c.fields[0]| > 0 then ComputeNext(next) else None
    else
      None
  }

  /** Iterating `asFragments(fields)` to the end yields exactly the eager flattening. */
  method IterateFragments(t: Tree, fields: seq<NodeId>) returns (out: seq<NodeId>)
    requires forall i :: 0 <= i < |fields| ==> fields[i] in t.nodes
    ensures out == AsFragments(t, fields)
  {
    var c := FragmentCursor(FragmentLists(t, fields), None);
    out := [];
    while true
      invariant out + Pending(c) == AsFragments(t, fields)
      decreases |Pending(c)|
    {
      var step := ComputeNext(c);
      if step.None? {
        assert out + Pending(c) == out;
        return;
      }
      var x := step.value.0;
      var c' := step.value.1;
      assert (out + [x]) + Pending(c') == out + Pending(c) by {
        assert Pending(c) == [x] + Pending(c');
      }
      out, c := out + [x], c';
    }
  }
}
