/** Mutation-safe statement lists: `asStatementList`, the lone-statement list that
    promotes its statement into a Block on the first insertion, and `insertBefore` /
    `insertAfter` built on them.

    A list is a view of the tree; its abstract value is `Elements`. Java exceptions
    become a `Fault` returned alongside the (possibly already changed) tree. */
module StatementLists {
  import opened Wrappers
  import opened Seqs
  import opened Tree

  datatype Fault = IndexOutOfBounds | NoParent

  /** The lone-statement list's delegate: not created yet, or the Block that the first
      insertion put in the statement's place. */
  datatype LonelyState = Unpromoted | Promoted(block: NodeId)

  /** The three lists `asStatementList` hands out: a Block's own statement list, a
      window `[offset, offset + size)` into a Block's statement list, and the
      lone-statement list. */
  datatype StatementList =
    | BlockStatements(block: NodeId)
    | Window(block: NodeId, offset: nat, size: nat)
    | Lonely(statement: NodeId, state: LonelyState)

  /** The node whose child list an insertion changes, or for an unpromoted lone list
      the statement whose slot the new Block will take. */
  function Anchor(l: StatementList): NodeId {
    match l
    case BlockStatements(b) => b
    case Window(b, _, _) => b
    case Lonely(s, Unpromoted) => s
    case Lonely(_, Promoted(b)) => b
  }

  ghost predicate ListWf(t: Tree, l: StatementList) {
    && Wf(t)
    && match l
       case BlockStatements(b) => b in t.nodes && t.nodes[b].kind == Block
       case Window(b, o, n) => b in t.nodes && t.nodes[b].kind == Block && o + n <= |t.nodes[b].children|
       case Lonely(s, Unpromoted) => s in t.nodes
       case Lonely(_, Promoted(b)) => b in t.nodes && t.nodes[b].kind == Block
  }

  /** The statements the list presents, in order. */
  function Elements(t: Tree, l: StatementList): seq<NodeId>
    requires ListWf(t, l)
  {
    match l
    case BlockStatements(b) => t.nodes[b].children
    case Window(b, o, n) => t.nodes[b].children[o..o + n]
    case Lonely(s, Unpromoted) => [s]
    case Lonely(_, Promoted(b)) => t.nodes[b].children
  }

  /** `size()` */
  function Size(t: Tree, l: StatementList): (n: nat)
    requires ListWf(t, l)
    ensures n == |Elements(t, l)|
  {
    match l
    case BlockStatements(b) => |t.nodes[b].children|
    case Window(_, _, n) => n
    case Lonely(_, Unpromoted) => 1
    case Lonely(_, Promoted(b)) => |t.nodes[b].children|
  }

  /** `get(i)`: the element at `i`, or an out-of-bounds fault. */
  function Get(t: Tree, l: StatementList, i: int): (r: Result<NodeId, Fault>)
    requires ListWf(t, l)
    ensures r.Success? <==> 0 <= i < |Elements(t, l)|
    ensures r.Success? ==> r.value == Elements(t, l)[i]
    ensures r.Failure? ==> r.error == IndexOutOfBounds
  {
    match l
    case BlockStatements(b) =>
      if 0 <= i < |t.nodes[b].children| then Success(t.nodes[b].children[i]) else Failure(IndexOutOfBounds)
    case Window(b, o, n) =>
      if 0 <= i < n then Success(t.nodes[b].children[o + i]) else Failure(IndexOutOfBounds)
    case Lonely(s, Unpromoted) =>
      if i != 0 then Failure(IndexOutOfBounds) else Success(s)
    case Lonely(_, Promoted(b)) =>
      if 0 <= i < |t.nodes[b].children| then Success(t.nodes[b].children[i]) else Failure(IndexOutOfBounds)
  }

  /** `s`'s parent is a Block whose statement list holds `s`. */
  predicate InBlock(t: Tree, s: NodeId)
    requires s in t.nodes
  {
    match t.nodes[s].parent
    case None => false
    case Some(p) => p in t.nodes && t.nodes[p].kind == Block && s in t.nodes[p].children
  }

  /** `asStatementList`: a Block's own list; for a statement directly inside a Block,
      the one-element window at its index; otherwise a fresh, unpromoted lone list. */
  function AsStatementList(t: Tree, s: NodeId): (l: StatementList)
    requires Wf(t) && s in t.nodes && t.nodes[s].kind in StatementKinds
    ensures ListWf(t, l)
    ensures t.nodes[s].kind == Block ==> l == BlockStatements(s)
    ensures t.nodes[s].kind != Block ==> Elements(t, l) == [s]
    ensures t.nodes[s].kind != Block && InBlock(t, s) ==>
      var p := t.nodes[s].parent.value;
      l.Window? && l.block == p && l.size == 1 && l.offset < |t.nodes[p].children| && t.nodes[p].children[l.offset] == s
    ensures t.nodes[s].kind != Block && !InBlock(t, s) ==> l == Lonely(s, Unpromoted)
  {
    if t.nodes[s].kind == Block then BlockStatements(s)
    else
      match t.nodes[s].parent
      case None => Lonely(s, Unpromoted)
      case Some(p) =>
        if p in t.nodes && t.nodes[p].kind == Block && s in t.nodes[p].children then
          var i := IndexOf(t.nodes[p].children, s).value;
          assert t.nodes[p].children[i..i + 1] == [s];
          Window(p, i, 1)
        else
          Lonely(s, Unpromoted)
  }

  /** The first half of promotion: a new, empty Block takes the statement's slot and
      the statement is left detached. */
  function InstallBlock(t: Tree, s: NodeId): (r: (Tree, NodeId))
    requires Wf(t) && s in t.nodes && t.nodes[s].parent.Some?
    ensures Wf(r.0) && r.1 == t.next && r.1 !in t.nodes
    ensures r.0.nodes.Keys == t.nodes.Keys + {r.1}
    ensures r.0.nodes[r.1] == Node(Block, t.nodes[s].parent, [], None)
    ensures r.0.nodes[s] == t.nodes[s].(parent := None)
    ensures
      var p := t.nodes[s].parent.value;
      && p in t.nodes && s in t.nodes[p].children
      && var i := IndexOf(t.nodes[p].children, s).value;
      && r.0.nodes[p] == t.nodes[p].(children := t.nodes[p].children[i := r.1])
    ensures forall y :: y in t.nodes && y != s && Some(y) != t.nodes[s].parent ==> r.0.nodes[y] == t.nodes[y]
    ensures Ancestors(r.0, r.1) == [r.1] + Ancestors(t, t.nodes[s].parent.value)
    ensures s !in Ancestors(r.0, r.1)
  {
    var p := t.nodes[s].parent.value;
    AncestorsStep(t, s, p);
    var (t1, b) := NewNode(t, Block, None);
    AncestorsFrame(t, t1, s);
    var t2 := ReplaceWith(t1, s, b);
    AncestorsStep(t2, b, p);
    AncestorsFrame(t, t2, p);
    (t2, b)
  }

  /** The first `getDelegate()` call: a new Block takes the statement's slot in its
      parent and the statement becomes the Block's only statement. */
  function Promote(t: Tree, s: NodeId): (r: (Tree, NodeId))
    requires Wf(t) && s in t.nodes && t.nodes[s].parent.Some?
    ensures Wf(r.0) && r.1 == t.next && r.1 !in t.nodes
    ensures r.0.nodes.Keys == t.nodes.Keys + {r.1}
    ensures r.0.nodes[r.1] == Node(Block, t.nodes[s].parent, [s], None)
    ensures r.0.nodes[s] == t.nodes[s].(parent := Some(r.1))
    ensures
      var p := t.nodes[s].parent.value;
      && p in t.nodes && s in t.nodes[p].children
      && var i := IndexOf(t.nodes[p].children, s).value;
      && r.0.nodes[p] == t.nodes[p].(children := t.nodes[p].children[i := r.1])
    ensures forall y :: y in t.nodes && y != s && Some(y) != t.nodes[s].parent ==> r.0.nodes[y] == t.nodes[y]
    ensures Ancestors(r.0, r.1) == [r.1] + Ancestors(t, t.nodes[s].parent.value)
  {
    var p := t.nodes[s].parent.value;
    var (t2, b) := InstallBlock(t, s);
    var t3 := InsertChild(t2, b, 0, s);
    AncestorsStep(t3, b, p);
    AncestorsStep(t2, b, p);
    AncestorsFrame(t2, t3, p);
    (t3, b)
  }

  /** Whether an insertion of `x` through `l` is meaningful: `x` is a parentless
      statement and not the anchor or one of its ancestors, so inserting it keeps the
      tree acyclic. */
  ghost predicate CanInsert(t: Tree, l: StatementList, x: NodeId) {
    && ListWf(t, l)
    && Anchor(l) in t.nodes
    && Detached(t, x) && t.nodes[x].kind in StatementKinds
    && x !in Ancestors(t, Anchor(l))
  }

  /** Where the list's index 0 sits in the anchor's child list. */
  function Offset(l: StatementList): nat {
    if l.Window? then l.offset else 0
  }

  datatype AddResult = AddResult(tree: Tree, list: StatementList, fault: Option<Fault>)

  /** Inserts into a list that already has a delegate: the Block list, the window, or a
      promoted lone list. The window grows by one on success. */
  function AddToDelegate(t: Tree, l: StatementList, idx: int, x: NodeId): (r: AddResult)
    requires CanInsert(t, l, x) && !(l.Lonely? && l.state.Unpromoted?)
    ensures Wf(r.tree) && r.tree.nodes.Keys == t.nodes.Keys && r.tree.next == t.next
    ensures r.fault.None? <==> 0 <= idx <= |Elements(t, l)|
    ensures r.fault.Some? ==> r.fault == Some(IndexOutOfBounds) && r.tree == t && r.list == l
    ensures r.fault.None? ==>
      && ListWf(r.tree, r.list)
      && Elements(r.tree, r.list) == InsertAt(Elements(t, l), idx, x)
      && r.list == (if l.Window? then l.(size := l.size + 1) else l)
      && r.tree.nodes[Anchor(l)] == t.nodes[Anchor(l)].(children := InsertAt(t.nodes[Anchor(l)].children, Offset(l) + idx, x))
      && r.tree.nodes[x] == t.nodes[x].(parent := Some(Anchor(l)))
    ensures forall y :: y in t.nodes && y != Anchor(l) && y != x ==> r.tree.nodes[y] == t.nodes[y]
  {
    if !(0 <= idx <= Size(t, l)) then
      AddResult(t, l, Some(IndexOutOfBounds))
    else
      var b := Anchor(l);
      var pos := Offset(l) + idx;
      var t' := InsertChild(t, b, pos, x);
      var l' := if l.Window? then l.(size := l.size + 1) else l;
      ElementsAfterInsert(t, l, idx, x, t', l');
      AddResult(t', l', None)
  }

  /** Inserting at the shifted index into the anchor's child list inserts at `idx` into
      the list's elements. */
  lemma ElementsAfterInsert(t: Tree, l: StatementList, idx: nat, x: NodeId, t': Tree, l': StatementList)
    requires ListWf(t, l) && !(l.Lonely? && l.state.Unpromoted?) && idx <= |Elements(t, l)|
    requires Wf(t') && Anchor(l) in t'.nodes
    requires t'.nodes[Anchor(l)] == t.nodes[Anchor(l)].(children := InsertAt(t.nodes[Anchor(l)].children, Offset(l) + idx, x))
    requires l' == if l.Window? then l.(size := l.size + 1) else l
    ensures ListWf(t', l') && Elements(t', l') == InsertAt(Elements(t, l), idx, x)
  {
    if l.Window? {
      InsertAtSlice(t.nodes[l.block].children, l.offset, l.size, idx, x);
    }
  }

  /** `add(idx, x)` on an unpromoted lone list whose statement has a parent. */
  function PromoteAndAdd(t: Tree, s: NodeId, idx: int, x: NodeId): (r: AddResult)
    requires CanInsert(t, Lonely(s, Unpromoted), x) && t.nodes[s].parent.Some?
    ensures Wf(r.tree) && t.next !in t.nodes && r.tree.nodes.Keys == t.nodes.Keys + {t.next}
    ensures r.list == Lonely(s, Promoted(t.next)) && ListWf(r.tree, r.list)
    ensures r.fault.None? <==> 0 <= idx <= 1
    ensures r.fault.Some? ==> r.fault == Some(IndexOutOfBounds) && Elements(r.tree, r.list) == [s]
    ensures r.fault.None? ==> Elements(r.tree, r.list) == InsertAt([s], idx, x) && r.tree.nodes[x].parent == Some(t.next)
  {
    var (t1, b) := Promote(t, s);
    PromotedCanInsert(t, s, x);
    AddToDelegate(t1, Lonely(s, Promoted(b)), idx, x)
  }

  /** Promotion and the insertion after it leave the rest of the tree in place. */
  lemma PromoteAndAddInPlace(t: Tree, s: NodeId, idx: int, x: NodeId)
    requires CanInsert(t, Lonely(s, Unpromoted), x) && t.nodes[s].parent.Some?
    ensures PromotedInPlace(t, s, PromoteAndAdd(t, s, idx, x).tree)
  {
    PromoteAndAddSlot(t, s, idx, x);
    PromoteAndAddBelow(t, s, idx, x);
  }

  lemma PromoteAndAddSlot(t: Tree, s: NodeId, idx: int, x: NodeId)
    requires CanInsert(t, Lonely(s, Unpromoted), x) && t.nodes[s].parent.Some?
    ensures PromotedSlot(t, s, PromoteAndAdd(t, s, idx, x).tree)
  {
    var (t1, b) := Promote(t, s);
    PromotedCanInsert(t, s, x);
    var r := AddToDelegate(t1, Lonely(s, Promoted(b)), idx, x);
    assert r == PromoteAndAdd(t, s, idx, x);
    AncestorsFrame(t1, r.tree, b);
  }

  lemma PromoteAndAddBelow(t: Tree, s: NodeId, idx: int, x: NodeId)
    requires CanInsert(t, Lonely(s, Unpromoted), x) && t.nodes[s].parent.Some?
    ensures PromotedBelow(t, s, PromoteAndAdd(t, s, idx, x).tree)
  {
    var (t1, b) := Promote(t, s);
    PromotedCanInsert(t, s, x);
    var r := AddToDelegate(t1, Lonely(s, Promoted(b)), idx, x);
    assert r == PromoteAndAdd(t, s, idx, x);
    assert t1.nodes[x] == t.nodes[x] by {
      AncestorsStep(t, s, t.nodes[s].parent.value);
    }
    if r.fault.None? {
      assert r.tree.nodes[b].children == InsertAt([s], idx, x);
    }
  }

  /** Whatever could be inserted next to the lone statement can be inserted into the
      Block that promotion creates. */
  lemma PromotedCanInsert(t: Tree, s: NodeId, x: NodeId)
    requires CanInsert(t, Lonely(s, Unpromoted), x) && t.nodes[s].parent.Some?
    ensures CanInsert(Promote(t, s).0, Lonely(s, Promoted(Promote(t, s).1)), x)
  {
    AncestorsStep(t, s, t.nodes[s].parent.value);
  }

  /** After promotion, the new Block `t.next` holds `s`'s old slot in the parent `q`,
      `s` hangs below it, a statement inserted into the Block changed only its parent
      link, and no other node changed. */
  ghost predicate PromotedInPlace(t: Tree, s: NodeId, t': Tree)
    requires Wf(t) && s in t.nodes && t.nodes[s].parent.Some? && Wf(t')
  {
    PromotedSlot(t, s, t') && PromotedBelow(t, s, t')
  }

  /** Every statement of the new Block other than `s` changed only its parent link. */
  ghost predicate PromotedBelow(t: Tree, s: NodeId, t': Tree)
  {
    && t.next in t'.nodes
    && forall y :: y in t'.nodes[t.next].children && y != s ==> y in t.nodes && y in t'.nodes && t'.nodes[y] == t.nodes[y].(parent := Some(t.next))
  }

  /** The new Block holds `s`'s old slot, `s` hangs below it, and every node outside
      the Block's statements is unchanged. */
  ghost predicate PromotedSlot(t: Tree, s: NodeId, t': Tree)
    requires Wf(t) && s in t.nodes && t.nodes[s].parent.Some? && Wf(t')
  {
    var q := t.nodes[s].parent.value;
    && q in t.nodes && s in t.nodes[q].children
    && var i := IndexOf(t.nodes[q].children, s).value;
    && t.next in t'.nodes && s in t'.nodes && q in t'.nodes
    && t'.nodes[t.next].kind == Block && t'.nodes[t.next].parent == Some(q) && t'.nodes[t.next].element.None?
    && t'.nodes[q] == t.nodes[q].(children := t.nodes[q].children[i := t.next])
    && t'.nodes[s] == t.nodes[s].(parent := Some(t.next))
    && Ancestors(t', t.next) == [t.next] + Ancestors(t, q)
    && forall y :: y in t.nodes && y != s && y != q && y !in t'.nodes[t.next].children ==> y in t'.nodes && t'.nodes[y] == t.nodes[y]
  }

  /** `add(idx, x)` on any of the three lists. An unpromoted lone list first promotes
      (`getDelegate()`) and then inserts through the new Block; the promotion stays
      even when the index then turns out to be out of range. Promotion needs a
      parent slot to put the Block in. */
  function Add(t: Tree, l: StatementList, idx: int, x: NodeId): (r: AddResult)
    requires CanInsert(t, l, x)
    ensures Wf(r.tree) && t.nodes.Keys <= r.tree.nodes.Keys
    ensures r.fault == Some(NoParent) <==> l.Lonely? && l.state.Unpromoted? && t.nodes[l.statement].parent.None?
    ensures r.fault == Some(IndexOutOfBounds) <==> r.fault != Some(NoParent) && !(0 <= idx <= |Elements(t, l)|)
    ensures ListWf(r.tree, r.list)
    ensures r.fault.None? ==> 0 <= idx <= |Elements(t, l)| && Elements(r.tree, r.list) == InsertAt(Elements(t, l), idx, x)
    ensures r.fault.Some? ==> Elements(r.tree, r.list) == Elements(t, l)
    ensures r.fault.None? ==> r.tree.nodes[x].parent == Some(Anchor(r.list))
    ensures r.list.Lonely? <==> l.Lonely?
    ensures l.Lonely? ==> r.list.statement == l.statement
    ensures l.Lonely? && l.state.Unpromoted? && r.fault != Some(NoParent) ==>
      r.list.state == Promoted(t.next) && t.next !in t.nodes && r.tree.nodes.Keys == t.nodes.Keys + {t.next}
    ensures l.Lonely? && l.state.Promoted? ==> r.list == l
    ensures r.fault.Some? && !(l.Lonely? && l.state.Unpromoted? && r.fault == Some(IndexOutOfBounds)) ==> r.tree == t && r.list == l
  {
    match l
    case Lonely(s, Unpromoted) =>
      if t.nodes[s].parent.None? then
        AddResult(t, l, Some(NoParent))
      else
        PromoteAndAdd(t, s, idx, x)
    case _ =>
      AddToDelegate(t, l, idx, x)
  }

  /** What `add` does to the tree around the list: a list with a delegate changes only
      its anchor's child list and the inserted node; promotion changes only the slot
      the new Block takes and what goes below it. */
  lemma AddInPlace(t: Tree, l: StatementList, idx: int, x: NodeId)
    requires CanInsert(t, l, x)
    ensures var r := Add(t, l, idx, x);
      && (!(l.Lonely? && l.state.Unpromoted?) ==>
        && r.tree.nodes.Keys == t.nodes.Keys
        && (r.fault.None? ==>
          && r.tree.nodes[Anchor(l)] == t.nodes[Anchor(l)].(children := InsertAt(t.nodes[Anchor(l)].children, Offset(l) + idx, x))
          && r.tree.nodes[x] == t.nodes[x].(parent := Some(Anchor(l))))
        && forall y :: y in t.nodes && y != Anchor(l) && y != x ==> r.tree.nodes[y] == t.nodes[y])
      && (l.Lonely? && l.state.Unpromoted? && t.nodes[l.statement].parent.Some? ==> PromotedInPlace(t, l.statement, r.tree))
  {
    if l.Lonely? && l.state.Unpromoted? {
      if t.nodes[l.statement].parent.Some? {
        PromoteAndAddInPlace(t, l.statement, idx, x);
      }
    } else {
      assert Add(t, l, idx, x) == AddToDelegate(t, l, idx, x);
    }
  }

  /** A statement that is neither a Block nor directly inside one, but has a parent
      slot a new Block can take. */
  predicate Lone(t: Tree, s: NodeId)
    requires s in t.nodes
  {
    t.nodes[s].kind != Block && !InBlock(t, s) && t.nodes[s].parent.Some?
  }

  /** What `insertBefore` and `insertAfter` demand: two statements, the one to insert
      parentless and not enclosing the other. */
  ghost predicate CanInsertNear(t: Tree, s: NodeId, x: NodeId) {
    && Wf(t) && s in t.nodes && t.nodes[s].kind in StatementKinds
    && Detached(t, x) && t.nodes[x].kind in StatementKinds
    && x !in Ancestors(t, s)
  }

  datatype Outcome = Outcome(tree: Tree, fault: Option<Fault>)

  /** The list `asStatementList(s)` accepts whatever may be inserted next to `s`. */
  lemma ListCanInsert(t: Tree, s: NodeId, x: NodeId)
    requires CanInsertNear(t, s, x)
    ensures CanInsert(t, AsStatementList(t, s), x)
  {
    var l := AsStatementList(t, s);
    if l.Window? {
      AncestorsStep(t, s, l.block);
    }
  }

  /** `insertAfter(s, x)`: `asStatementList(s).add(x)`. Only a parentless lone
      statement faults, with nothing changed. */
  function InsertAfter(t: Tree, s: NodeId, x: NodeId): (r: Outcome)
    requires CanInsertNear(t, s, x)
    ensures Wf(r.tree)
    ensures r.fault.Some? <==> t.nodes[s].kind != Block && t.nodes[s].parent.None?
    ensures r.fault.Some? ==> r.fault == Some(NoParent) && r.tree == t
  {
    var l := AsStatementList(t, s);
    ListCanInsert(t, s, x);
    var r := Add(t, l, Size(t, l), x);
    Outcome(r.tree, r.fault)
  }

  /** `insertBefore(s, x)`: `asStatementList(s).add(0, x)`. */
  function InsertBefore(t: Tree, s: NodeId, x: NodeId): (r: Outcome)
    requires CanInsertNear(t, s, x)
    ensures Wf(r.tree)
    ensures r.fault.Some? <==> t.nodes[s].kind != Block && t.nodes[s].parent.None?
    ensures r.fault.Some? ==> r.fault == Some(NoParent) && r.tree == t
  {
    var l := AsStatementList(t, s);
    ListCanInsert(t, s, x);
    var r := Add(t, l, 0, x);
    Outcome(r.tree, r.fault)
  }

  /** On a Block, `insertAfter` appends to its statements and `insertBefore` prepends. */
  lemma InsertIntoBlock(t: Tree, s: NodeId, x: NodeId)
    requires CanInsertNear(t, s, x) && t.nodes[s].kind == Block
    ensures InsertAfter(t, s, x).tree.nodes.Keys == t.nodes.Keys
    ensures InsertAfter(t, s, x).tree.nodes[s] == t.nodes[s].(children := t.nodes[s].children + [x])
    ensures InsertBefore(t, s, x).tree.nodes.Keys == t.nodes.Keys
    ensures InsertBefore(t, s, x).tree.nodes[s] == t.nodes[s].(children := [x] + t.nodes[s].children)
    ensures InsertAfter(t, s, x).tree.nodes[x] == t.nodes[x].(parent := Some(s))
    ensures InsertBefore(t, s, x).tree.nodes[x] == t.nodes[x].(parent := Some(s))
    ensures forall y :: y in t.nodes && y != s && y != x ==>
      InsertAfter(t, s, x).tree.nodes[y] == t.nodes[y] && InsertBefore(t, s, x).tree.nodes[y] == t.nodes[y]
  {
    ListCanInsert(t, s, x);
    AddInPlace(t, BlockStatements(s), |t.nodes[s].children|, x);
    AddInPlace(t, BlockStatements(s), 0, x);
    var ch := t.nodes[s].children;
    assert InsertAt(ch, |ch|, x) == ch + [x];
    assert InsertAt(ch, 0, x) == [x] + ch;
  }

  /** Inserting `k` places after the start of the one-element window around `s`
      puts `x` at the window's offset plus `k` in the Block and changes no other
      node. */
  lemma WindowAdd(t: Tree, s: NodeId, x: NodeId, k: int)
    requires CanInsertNear(t, s, x) && t.nodes[s].kind != Block && InBlock(t, s) && 0 <= k <= 1
    ensures CanInsert(t, AsStatementList(t, s), x) && AsStatementList(t, s).Window?
    ensures
      var l := AsStatementList(t, s);
      var t' := Add(t, l, k, x).tree;
      && t'.nodes.Keys == t.nodes.Keys
      && t'.nodes[l.block] == t.nodes[l.block].(children := InsertAt(t.nodes[l.block].children, l.offset + k, x))
      && t'.nodes[x] == t.nodes[x].(parent := Some(l.block))
      && (forall y :: y in t.nodes && y != l.block && y != x ==> t'.nodes[y] == t.nodes[y])
  {
    ListCanInsert(t, s, x);
    var l := AsStatementList(t, s);
    assert Add(t, l, k, x) == AddToDelegate(t, l, k, x);
    assert Elements(t, l) == [s];
  }

  /** Next to a statement directly inside a Block, `insertBefore` puts `x` just
      before it and `insertAfter` just after it; no other statement of the Block
      moves and no other node changes. */
  lemma InsertNextToStatement(t: Tree, s: NodeId, x: NodeId)
    requires CanInsertNear(t, s, x) && t.nodes[s].kind != Block && InBlock(t, s)
    ensures
      var p := t.nodes[s].parent.value;
      var i := IndexOf(t.nodes[p].children, s).value;
      var after := InsertAfter(t, s, x).tree;
      var before := InsertBefore(t, s, x).tree;
      && after.nodes.Keys == t.nodes.Keys && before.nodes.Keys == t.nodes.Keys
      && after.nodes[p] == t.nodes[p].(children := InsertAt(t.nodes[p].children, i + 1, x))
      && before.nodes[p] == t.nodes[p].(children := InsertAt(t.nodes[p].children, i, x))
      && after.nodes[x] == t.nodes[x].(parent := Some(p)) && before.nodes[x] == t.nodes[x].(parent := Some(p))
      && (forall y :: y in t.nodes && y != p && y != x ==> after.nodes[y] == t.nodes[y] && before.nodes[y] == t.nodes[y])
  {
    WindowAdd(t, s, x, 1);
    WindowAdd(t, s, x, 0);
    var l := AsStatementList(t, s);
    var p := t.nodes[s].parent.value;
    assert l.block == p;
    assert IndexOf(t.nodes[p].children, s).value == l.offset by {
      assert NodeWf(t, p);
      IndexOfUnique(t.nodes[p].children, s, l.offset);
    }
    assert InsertAfter(t, s, x).tree == Add(t, l, 1, x).tree;
    assert InsertBefore(t, s, x).tree == Add(t, l, 0, x).tree;
  }

  /** The shape a first insertion next to a lone statement leaves: a new Block
      `t.next` in `s`'s old slot, holding `stmts`, with `s` hanging below it. */
  ghost predicate LoneInsertShape(t: Tree, s: NodeId, t': Tree, stmts: seq<NodeId>)
    requires Wf(t) && s in t.nodes && Lone(t, s) && Wf(t')
  {
    && PromotedInPlace(t, s, t')
    && t.next !in t.nodes
    && t'.nodes.Keys == t.nodes.Keys + {t.next}
    && t'.nodes[t.next].children == stmts
    && Ancestors(t', s) == [s, t.next] + Ancestors(t, t.nodes[s].parent.value)
  }

  /** The first insertion through a lone statement's list, at either end. */
  lemma LoneAdd(t: Tree, s: NodeId, idx: int, x: NodeId)
    requires CanInsert(t, Lonely(s, Unpromoted), x) && Lone(t, s) && 0 <= idx <= 1
    ensures LoneInsertShape(t, s, PromoteAndAdd(t, s, idx, x).tree, InsertAt([s], idx, x))
  {
    PromoteAndAddInPlace(t, s, idx, x);
    var t' := PromoteAndAdd(t, s, idx, x).tree;
    assert t'.nodes[t.next].children == InsertAt([s], idx, x);
    AncestorsStep(t', s, t.next);
  }

  /** Next to a lone statement, both insertions go through the promoting `add`. */
  lemma LonePromotes(t: Tree, s: NodeId, x: NodeId)
    requires CanInsertNear(t, s, x) && Lone(t, s)
    ensures CanInsert(t, Lonely(s, Unpromoted), x)
    ensures InsertAfter(t, s, x).tree == PromoteAndAdd(t, s, 1, x).tree
    ensures InsertBefore(t, s, x).tree == PromoteAndAdd(t, s, 0, x).tree
  {
    ListCanInsert(t, s, x);
    assert AsStatementList(t, s) == Lonely(s, Unpromoted);
  }

  /** `insertAfter` next to a lone statement promotes it: the new Block holds [s, x]. */
  lemma InsertAfterLone(t: Tree, s: NodeId, x: NodeId)
    requires CanInsertNear(t, s, x) && Lone(t, s)
    ensures LoneInsertShape(t, s, InsertAfter(t, s, x).tree, [s, x])
  {
    LonePromotes(t, s, x);
    assert InsertAt([s], 1, x) == [s, x];
    LoneAdd(t, s, 1, x);
  }

  /** `insertBefore` next to a lone statement promotes it: the new Block holds [x, s]. */
  lemma InsertBeforeLone(t: Tree, s: NodeId, x: NodeId)
    requires CanInsertNear(t, s, x) && Lone(t, s)
    ensures LoneInsertShape(t, s, InsertBefore(t, s, x).tree, [x, s])
  {
    LonePromotes(t, s, x);
    assert InsertAt([s], 0, x) == [x, s];
    LoneAdd(t, s, 0, x);
  }

  /** A second `insertAfter` next to a promoted statement finds it inside the Block the
      first one created and inserts right after it: [s, x] becomes [s, u, x], and no
      further Block is created. */
  lemma InsertAfterTwice(t: Tree, s: NodeId, x: NodeId, u: NodeId)
    requires CanInsertNear(t, s, x) && Lone(t, s)
    requires Detached(t, u) && t.nodes[u].kind in StatementKinds && u != x && u !in Ancestors(t, s)
    ensures CanInsertNear(InsertAfter(t, s, x).tree, s, u)
    ensures
      var t2 := InsertAfter(InsertAfter(t, s, x).tree, s, u).tree;
      t2.nodes.Keys == t.nodes.Keys + {t.next} && t2.nodes[t.next].children == [s, u, x]
  {
    var q := t.nodes[s].parent.value;
    AncestorsStep(t, s, q);
    InsertAfterLone(t, s, x);
    var t1 := InsertAfter(t, s, x).tree;
    assert t1.nodes[u] == t.nodes[u];
    assert CanInsertNear(t1, s, u);
    InsertAfterFirstOfTwo(t1, s, x, u);
  }

  /** `insertAfter` next to the first of a Block's two statements. */
  lemma InsertAfterFirstOfTwo(t: Tree, s: NodeId, x: NodeId, u: NodeId)
    requires CanInsertNear(t, s, u) && t.nodes[s].kind != Block && t.nodes[s].parent.Some?
    requires var b := t.nodes[s].parent.value; b in t.nodes && t.nodes[b].kind == Block && t.nodes[b].children == [s, x]
    ensures var b := t.nodes[s].parent.value;
      InsertAfter(t, s, u).tree.nodes.Keys == t.nodes.Keys && InsertAfter(t, s, u).tree.nodes[b].children == [s, u, x]
  {
    assert InBlock(t, s);
    InsertNextToStatement(t, s, u);
    assert IndexOf([s, x], s) == Some(0);
    assert InsertAt([s, x], 1, u) == [s, u, x];
  }

  /** Two insertions through one lone list: the first promotes, the second goes to the
      same Block, so exactly one Block is ever created. */
  lemma LonelyPromotesOnce(t: Tree, s: NodeId, x: NodeId, y: NodeId, i: int, j: int)
    requires CanInsert(t, Lonely(s, Unpromoted), x) && t.nodes[s].parent.Some?
    requires Detached(t, y) && t.nodes[y].kind in StatementKinds && y != x && y !in Ancestors(t, s)
    ensures var r1 := Add(t, Lonely(s, Unpromoted), i, x);
      && r1.list == Lonely(s, Promoted(t.next))
      && CanInsert(r1.tree, r1.list, y)
      && var r2 := Add(r1.tree, r1.list, j, y);
      && r2.list == r1.list
      && r2.tree.nodes.Keys == t.nodes.Keys + {t.next}
  {
    var q := t.nodes[s].parent.value;
    AncestorsStep(t, s, q);
    var r1 := Add(t, Lonely(s, Unpromoted), i, x);
    assert r1 == PromoteAndAdd(t, s, i, x);
    PromoteAndAddSlot(t, s, i, x);
    assert y !in r1.tree.nodes[t.next].children by {
      var ch := r1.tree.nodes[t.next].children;
      assert ch == Elements(r1.tree, r1.list);
      assert y != s;
      if r1.fault.None? {
        assert forall k :: 0 <= k < |ch| ==> ch[k] == InsertAt([s], i, x)[k];
      }
    }
    assert r1.tree.nodes[y] == t.nodes[y];
  }
}
