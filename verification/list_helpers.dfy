/** `remove`, `copyList` and `moveList`. */
module ListHelpers {
  import opened Wrappers
  import opened Seqs
  import opened Tree

  /** `remove(node)`: a null node gives null; otherwise the node leaves its parent's
      child list and is returned. */
  function RemoveNode(t: Tree, node: Option<NodeId>): (r: (Tree, Option<NodeId>))
    requires Wf(t) && (node.Some? ==> node.value in t.nodes)
    ensures Wf(r.0) && r.1 == node && r.0.nodes.Keys == t.nodes.Keys
    ensures node.None? ==> r.0 == t
    ensures node.Some? ==> Detached(r.0, node.value) && forall y :: y in r.0.nodes ==> node.value !in r.0.nodes[y].children
    ensures node.Some? ==> r.0.nodes[node.value] == t.nodes[node.value].(parent := None)
    ensures node.Some? && t.nodes[node.value].parent.None? ==> r.0 == t
    ensures node.Some? && t.nodes[node.value].parent.Some? ==>
      var p := t.nodes[node.value].parent.value;
      && p in t.nodes && IndexOf(t.nodes[p].children, node.value).Some?
      && r.0.nodes[p] == t.nodes[p].(children := RemoveAt(t.nodes[p].children, IndexOf(t.nodes[p].children, node.value).value))
    ensures node.Some? ==> forall y :: y in t.nodes && y != node.value && Some(y) != t.nodes[node.value].parent ==> r.0.nodes[y] == t.nodes[y]
  {
    match node
    case None => (t, None)
    case Some(n) =>
      var t' := Detach(t, n);
      forall y | y in t'.nodes
        ensures n !in t'.nodes[y].children
      {
        assert NodeWf(t', y);
        var ch := t'.nodes[y].children;
        forall k | 0 <= k < |ch|
          ensures ch[k] != n
        {
        }
      }
      (t', Some(n))
  }

  /** Removing twice is removing once. */
  lemma RemoveIdempotent(t: Tree, node: Option<NodeId>)
    requires Wf(t) && (node.Some? ==> node.value in t.nodes)
    ensures RemoveNode(RemoveNode(t, node).0, node) == RemoveNode(t, node)
  {
  }

  /** `c` is a copy of `orig`: a node new to `t`, parentless and childless in `t'`, of
      the same kind and carrying the same element. */
  ghost predicate IsCopy(t: Tree, t': Tree, orig: NodeId, c: NodeId)
    requires orig in t.nodes
  {
    c !in t.nodes && c in t'.nodes && t'.nodes[c] == Node(t.nodes[orig].kind, None, [], t.nodes[orig].element)
  }

  /** `copyList(fromList, toList)`: appends a copy of each element, in order; the
      one-argument overload is the case of an empty `to`. */
  method CopyList(t: Tree, from: seq<NodeId>, to: seq<NodeId>) returns (t': Tree, to': seq<NodeId>)
    requires Wf(t) && forall i :: 0 <= i < |from| ==> from[i] in t.nodes
    ensures Wf(t') && t.nodes.Keys <= t'.nodes.Keys
    ensures forall y :: y in t.nodes ==> t'.nodes[y] == t.nodes[y]
    ensures |to'| == |to| + |from| && to'[..|to|] == to
    ensures forall i :: 0 <= i < |from| ==> IsCopy(t, t', from[i], to'[|to| + i])
    ensures NoDuplicates(to'[|to|..])
  {
    t' := t;
    var made: seq<NodeId> := [];
    for i := 0 to |from|
      invariant Wf(t') && t.nodes.Keys <= t'.nodes.Keys
      invariant forall y :: y in t.nodes ==> t'.nodes[y] == t.nodes[y]
      invariant |made| == i
      invariant forall j :: 0 <= j < i ==> IsCopy(t, t', from[j], made[j])
      invariant NoDuplicates(made)
    {
      var elem := t'.nodes[from[i]];
      var (t2, c) := NewNode(t', elem.kind, elem.element);
      forall j | 0 <= j < i
        ensures made[j] != c
      {
        assert made[j] in t'.nodes;
      }
      t', made := t2, made + [c];
    }
    to' := to + made;
    assert to'[|to|..] == made;
  }

  /** The two lists after step `j` of `moveList`: even steps have just taken element
      `j / 2` out of `from`, odd steps have just appended it to `to`. */
  function MoveSnapshot<T>(from: seq<T>, to: seq<T>, j: nat): (seq<T>, seq<T>)
    requires j < 2 * |from|
  {
    (from[j / 2 + 1..], to + from[..(j + 1) / 2])
  }

  /** `moveList`: drains `from` into `to` element by element, each removed from the
      source before it is appended. `trace` records both lists after every step. */
  method MoveList<T>(from: seq<T>, to: seq<T>) returns (from': seq<T>, to': seq<T>, trace: seq<(seq<T>, seq<T>)>)
    ensures from' == [] && to' == to + from
    ensures |trace| == 2 * |from|
    ensures forall j :: 0 <= j < |trace| ==> trace[j] == MoveSnapshot(from, to, j)
  {
    from', to', trace := from, to, [];
    var k := 0;
    while |from'| > 0
      invariant 0 <= k <= |from| && from' == from[k..] && to' == to + from[..k]
      invariant |trace| == 2 * k
      invariant forall j :: 0 <= j < |trace| ==> trace[j] == MoveSnapshot(from, to, j)
    {
      var elem := from'[0];
      from' := from'[1..];
      trace := trace + [(from', to')];
      to' := to' + [elem];
      trace := trace + [(from', to')];
      k := k + 1;
      assert from[..k] == from[..k - 1] + [elem];
    }
    assert from[..k] == from;
  }

  /** When `to` and `from` share no element and `from` repeats none, no step of
      `moveList` has an element in both lists, and the element in transit after a
      removal is in neither. */
  lemma MoveListNeverInBoth<T>(from: seq<T>, to: seq<T>, j: nat)
    requires NoDuplicates(to + from) && j < 2 * |from|
    ensures forall x :: x in MoveSnapshot(from, to, j).0 ==> x !in MoveSnapshot(from, to, j).1
    ensures j % 2 == 0 ==> from[j / 2] !in MoveSnapshot(from, to, j).0 && from[j / 2] !in MoveSnapshot(from, to, j).1
  {
    var whole := to + from;
    var (f, g) := MoveSnapshot(from, to, j);
    var m := j / 2;
    var n := (j + 1) / 2;
    assert f == whole[|to| + m + 1..];
    assert g == whole[..|to| + n];
    assert n <= m + 1;
    forall x | x in f
      ensures x !in g
    {
      var a :| 0 <= a < |f| && f[a] == x;
      forall b | 0 <= b < |g|
        ensures g[b] != x
      {
        assert whole[|to| + m + 1 + a] == x;
        assert whole[b] == g[b];
      }
    }
    if j % 2 == 0 {
      assert from[m] == whole[|to| + m];
      forall a | 0 <= a < |f|
        ensures f[a] != from[m]
      {
        assert f[a] == whole[|to| + m + 1 + a];
      }
      forall b | 0 <= b < |g|
        ensures g[b] != from[m]
      {
        assert g[b] == whole[b];
      }
    }
  }
}
