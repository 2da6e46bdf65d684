/** Expression dispatch: parenthesis trimming and the variable or executable element
    an expression refers to. A parenthesized expression's inner expression is its
    first child; a parenthesized expression without one stands for a null inner
    expression. */
module Expressions {
  import opened Wrappers
  import opened Tree

  const FieldAccessKinds: set<Kind> := {FieldAccess, SuperFieldAccess}
  const NameKinds: set<Kind> := {QualifiedName, SimpleName}
  const InvocationKinds: set<Kind> := {ClassInstanceCreation, MethodInvocation, SuperMethodInvocation}

  /** `x` is reached from `e` by repeatedly taking the inner expression of a
      parenthesized expression: on `x`'s chain, `e` sits at some index `k` and every
      node from index 1 to `k` is a parenthesized expression whose inner expression
      is the node just below it. */
  ghost predicate UnwrapsTo(t: Tree, e: NodeId, x: NodeId)
    requires Wf(t) && x in t.nodes
  {
    var chain := Ancestors(t, x);
    exists k :: 0 <= k < |chain| && chain[k] == e && forall j :: 1 <= j <= k ==> InnerIs(t, chain[j], chain[j - 1])
  }

  ghost predicate InnerIs(t: Tree, p: NodeId, c: NodeId)
    requires p in t.nodes
  {
    t.nodes[p].kind == ParenthesizedExpression && |t.nodes[p].children| > 0 && t.nodes[p].children[0] == c
  }

  lemma UnwrapsStep(t: Tree, e: NodeId, c: NodeId, x: NodeId)
    requires Wf(t) && e in t.nodes && x in t.nodes && InnerIs(t, e, c)
    requires c in t.nodes && UnwrapsTo(t, c, x)
    ensures UnwrapsTo(t, e, x)
  {
    assert NodeWf(t, e);
    assert t.nodes[c].parent == Some(e);
    AncestorsLinked(t, x);
    var chain := Ancestors(t, x);
    var k :| 0 <= k < |chain| && chain[k] == c && forall j :: 1 <= j <= k ==> InnerIs(t, chain[j], chain[j - 1]);
    assert k < |chain| - 1;
    assert chain[k + 1] == e;
    assert forall j :: 1 <= j <= k + 1 ==> InnerIs(t, chain[j], chain[j - 1]);
  }

  /** A null inner expression reached from `c` is reached from its wrapper `e`. */
  lemma NullInnerStep(t: Tree, e: NodeId, c: NodeId)
    requires Wf(t) && e in t.nodes && InnerIs(t, e, c) && c in t.nodes
    requires exists y :: y in t.nodes && UnwrapsTo(t, c, y) && t.nodes[y].kind == ParenthesizedExpression && |t.nodes[y].children| == 0
    ensures exists y :: y in t.nodes && UnwrapsTo(t, e, y) && t.nodes[y].kind == ParenthesizedExpression && |t.nodes[y].children| == 0
  {
    var y :| y in t.nodes && UnwrapsTo(t, c, y) && t.nodes[y].kind == ParenthesizedExpression && |t.nodes[y].children| == 0;
    UnwrapsStep(t, e, c, y);
  }

  ghost function AncestorSet(t: Tree, n: NodeId): set<NodeId>
    requires Wf(t) && n in t.nodes
  {
    set x | x in Ancestors(t, n)
  }

  /** `trimParentheses`: unwraps parenthesized expressions until it meets another
      kind. A null expression, and a null inner expression met on the way, give null. */
  function TrimParentheses(t: Tree, e: Option<NodeId>): (r: Option<NodeId>)
    requires Wf(t) && (e.Some? ==> e.value in t.nodes)
    ensures e.None? ==> r.None?
    ensures e.Some? && t.nodes[e.value].kind != ParenthesizedExpression ==> r == e
    ensures r.Some? ==> e.Some? && r.value in t.nodes && t.nodes[r.value].kind != ParenthesizedExpression && UnwrapsTo(t, e.value, r.value)
    ensures e.Some? && r.None? ==> exists y :: y in t.nodes && UnwrapsTo(t, e.value, y) && t.nodes[y].kind == ParenthesizedExpression && |t.nodes[y].children| == 0
    decreases if e.Some? then t.nodes.Keys - AncestorSet(t, e.value) else {}
  {
    match e
    case None => None
    case Some(n) =>
      assert Ancestors(t, n)[0] == n;
      if t.nodes[n].kind != ParenthesizedExpression then
        e
      else if |t.nodes[n].children| == 0 then
        assert UnwrapsTo(t, n, n);
        None
      else
        var c := t.nodes[n].children[0];
        assert NodeWf(t, n);
        AncestorsStep(t, c, n);
        assert AncestorSet(t, c) == AncestorSet(t, n) + {c};
        var r := TrimParentheses(t, Some(c));
        if r.Some? then
          UnwrapsStep(t, n, c, r.value);
          r
        else
          NullInnerStep(t, n, c);
          r
  }

  /** Trimming a trimmed expression changes nothing, null included. */
  lemma TrimParenthesesIdempotent(t: Tree, e: Option<NodeId>)
    requires Wf(t) && (e.Some? ==> e.value in t.nodes)
    ensures TrimParentheses(t, TrimParentheses(t, e)) == TrimParentheses(t, e)
  {
  }

  /** `getVariableElement(Name)`: the name's element when it is a variable. */
  function NameVariableElement(t: Tree, n: NodeId): (r: Option<Element>)
    requires n in t.nodes
    ensures r.Some? ==> r == t.nodes[n].element && r.value.kind == VariableKind
    ensures t.nodes[n].element.Some? && t.nodes[n].element.value.kind == VariableKind ==> r.Some?
  {
    match t.nodes[n].element
    case Some(el) => if el.kind == VariableKind then Some(el) else None
    case None => None
  }

  /** `getVariableElement(Expression)`: trims parentheses, then dispatches on the
      kind of the trimmed expression. A null inner expression is dereferenced by the
      dispatch, so it is excluded. */
  function VariableElement(t: Tree, e: NodeId): (r: Option<Element>)
    requires Wf(t) && e in t.nodes && TrimParentheses(t, Some(e)).Some?
    ensures var n := TrimParentheses(t, Some(e)).value;
      && (t.nodes[n].kind in FieldAccessKinds ==> r == t.nodes[n].element)
      && (t.nodes[n].kind in NameKinds ==> r == NameVariableElement(t, n))
      && (t.nodes[n].kind !in FieldAccessKinds + NameKinds ==> r.None?)
  {
    var n := TrimParentheses(t, Some(e)).value;
    match t.nodes[n].kind
    case FieldAccess => t.nodes[n].element
    case SuperFieldAccess => t.nodes[n].element
    case QualifiedName => NameVariableElement(t, n)
    case SimpleName => NameVariableElement(t, n)
    case _ => None
  }

  /** `getExecutableElement`: dispatches on the expression's own kind, without
      trimming parentheses. */
  function ExecutableElement(t: Tree, e: NodeId): (r: Option<Element>)
    requires e in t.nodes
    ensures t.nodes[e].kind in InvocationKinds ==> r == t.nodes[e].element
    ensures t.nodes[e].kind !in InvocationKinds ==> r.None?
  {
    match t.nodes[e].kind
    case ClassInstanceCreation => t.nodes[e].element
    case MethodInvocation => t.nodes[e].element
    case SuperMethodInvocation => t.nodes[e].element
    case _ => None
  }

  /** Wrapping an expression in parentheses never changes the variable it refers to. */
  lemma VariableElementSeesThroughParentheses(t: Tree, p: NodeId)
    requires Wf(t) && p in t.nodes && t.nodes[p].kind == ParenthesizedExpression
    requires |t.nodes[p].children| > 0 && TrimParentheses(t, Some(p)).Some?
    ensures t.nodes[p].children[0] in t.nodes
    ensures VariableElement(t, p) == VariableElement(t, t.nodes[p].children[0])
  {
    assert NodeWf(t, p);
  }

  /** Wrapping an invocation in parentheses hides its method from
      `getExecutableElement`, though trimming first would find it. */
  lemma ExecutableElementDoesNotSeeThroughParentheses(t: Tree, p: NodeId)
    requires Wf(t) && p in t.nodes && t.nodes[p].kind == ParenthesizedExpression
    requires |t.nodes[p].children| > 0
    requires var c := t.nodes[p].children[0];
      c in t.nodes && t.nodes[c].kind == MethodInvocation && t.nodes[c].element.Some?
    ensures ExecutableElement(t, p).None?
    ensures TrimParentheses(t, Some(p)).Some?
    ensures ExecutableElement(t, TrimParentheses(t, Some(p)).value) == t.nodes[t.nodes[p].children[0]].element
  {
    assert NodeWf(t, p);
  }
}
