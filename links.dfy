/**
 * The link mutators of the arena (src/dom_tree/ops.rs, src/dom_tree/tree.rs,
 * src/dom_tree/handler.rs) as functions from the old node vector to the new
 * one.  Each function performs the source's `get_mut` writes in the source's
 * order, so aliasing between the ids involved is reproduced exactly; a write
 * to an id outside the vector does nothing, as `get_mut` returning `None` does.
 * The lemmas state what the writes achieve once the ids involved are distinct.
 */
module Links {
  import opened Wrappers
  import opened Arena
  import opened Chains

  predicate Detached(n: TreeNode)
  {
    n.parent.None? && n.prevSibling.None? && n.nextSibling.None?
  }

  /** Only links change: every node keeps its id and its payload. */
  predicate SameIdsAndData(nodes: seq<TreeNode>, r: seq<TreeNode>)
  {
    |r| == |nodes| && forall j :: 0 <= j < |nodes| ==> r[j].id == nodes[j].id && r[j].data == nodes[j].data
  }

  /** `remove_from_parent` (ops.rs and handler.rs): detach `x` from its parent and siblings. */
  function RemovedFromParent(nodes: seq<TreeNode>, x: NodeId): (r: seq<TreeNode>)
    ensures |r| == |nodes|
    ensures SameIdsAndData(nodes, r)
  {
    if x >= |nodes| || Detached(nodes[x]) then nodes
    else
      var n := nodes[x];
      var s1 := Set(Set(Set(nodes, x, Parent, None), x, Next, None), x, Prev, None);
      var s2 :=
        if n.parent.Some? && n.parent.value < |s1| then
          var p := n.parent.value;
          var t := if s1[p].firstChild == Some(x) then Set(s1, p, First, n.nextSibling) else s1;
          if t[p].lastChild == Some(x) then Set(t, p, Last, n.prevSibling) else t
        else s1;
      var s3 := SetAt(s2, n.prevSibling, Next, n.nextSibling);
      SetAt(s3, n.nextSibling, Prev, n.prevSibling)
  }

  /** `append_child_of` (ops.rs, tree.rs, handler.rs): make `c` the last child of `id`. */
  function AppendedChild(nodes: seq<TreeNode>, id: NodeId, c: NodeId): (r: seq<TreeNode>)
    ensures |r| == |nodes|
    ensures SameIdsAndData(nodes, r)
  {
    if id >= |nodes| then nodes
    else
      var last := nodes[id].lastChild;
      var s1 := if last.None? then Set(nodes, id, First, Some(c)) else nodes;
      var s2 := Set(s1, id, Last, Some(c));
      var s3 := SetAt(s2, last, Next, Some(c));
      Set(Set(s3, c, Prev, last), c, Parent, Some(id))
  }

  /** `prepend_child_of` (ops.rs, tree.rs): make `c` the first child of `id`. */
  function PrependedChild(nodes: seq<TreeNode>, id: NodeId, c: NodeId): (r: seq<TreeNode>)
    ensures |r| == |nodes|
    ensures SameIdsAndData(nodes, r)
  {
    if id >= |nodes| then nodes
    else
      var first := nodes[id].firstChild;
      var s1 := if first.None? then Set(nodes, id, Last, Some(c)) else nodes;
      var s2 := Set(s1, id, First, Some(c));
      var s3 := SetAt(s2, first, Prev, Some(c));
      Set(Set(Set(s3, c, Next, first), c, Parent, Some(id)), c, Prev, None)
  }

  /** `insert_before_of` (ops.rs, tree.rs): detach `ns`, then place it just before `id`. */
  function InsertedBefore(nodes: seq<TreeNode>, id: NodeId, ns: NodeId): (r: seq<TreeNode>)
    ensures |r| == |nodes|
    ensures SameIdsAndData(nodes, r)
  {
    var s0 := RemovedFromParent(nodes, ns);
    if id >= |s0| then s0
    else
      var parent := s0[id].parent;
      var prev := s0[id].prevSibling;
      var s1 := Set(s0, id, Prev, Some(ns));
      var s2 := Set(Set(Set(s1, ns, Parent, parent), ns, Prev, prev), ns, Next, Some(id));
      var s3 :=
        if parent.Some? && parent.value < |s2| && s2[parent.value].firstChild == Some(id)
        then Set(s2, parent.value, First, Some(ns)) else s2;
      SetAt(s3, prev, Next, Some(ns))
  }

  /** `insert_after_of` (ops.rs, tree.rs): detach `ns`, then place it just after `id`. */
  function InsertedAfter(nodes: seq<TreeNode>, id: NodeId, ns: NodeId): (r: seq<TreeNode>)
    ensures |r| == |nodes|
    ensures SameIdsAndData(nodes, r)
  {
    var s0 := RemovedFromParent(nodes, ns);
    if id >= |s0| then s0
    else
      var parent := s0[id].parent;
      var next := s0[id].nextSibling;
      var s1 := Set(s0, id, Next, Some(ns));
      var s2 := Set(Set(Set(s1, ns, Parent, parent), ns, Prev, Some(id)), ns, Next, next);
      var s3 :=
        if parent.Some? && parent.value < |s2| && s2[parent.value].lastChild == Some(id)
        then Set(s2, parent.value, Last, Some(ns)) else s2;
      SetAt(s3, next, Prev, Some(ns))
  }

  /** Set the parent link of every id in `ids`, in order. */
  function SetParentAll(nodes: seq<TreeNode>, ids: seq<NodeId>, v: Option<NodeId>): (r: seq<TreeNode>)
    ensures |r| == |nodes|
    ensures forall j :: 0 <= j < |nodes| ==> r[j].id == nodes[j].id && r[j].data == nodes[j].data
    decreases |ids|
  {
    if ids == [] then nodes
    else Set(SetParentAll(nodes, ids[..|ids| - 1], v), ids[|ids| - 1], Parent, v)
  }

  /** Exactly the nodes named in `ids` get parent `v`; nothing else changes. */
  lemma {:induction false} SetParentAllAt(nodes: seq<TreeNode>, ids: seq<NodeId>, v: Option<NodeId>)
    ensures var r := SetParentAll(nodes, ids, v);
      forall j :: 0 <= j < |nodes| ==> r[j] == if j in ids then Put(nodes[j], Parent, v) else nodes[j]
    decreases |ids|
  {
    if ids != [] {
      var pre := ids[..|ids| - 1];
      SetParentAllAt(nodes, pre, v);
      assert ids == pre + [ids[|ids| - 1]];
      forall j | 0 <= j < |nodes|
        ensures j in ids <==> j in pre || j == ids[|ids| - 1]
      {
      }
    }
  }

  /**
   * `reparent_children_of`: the child list of `id` moves to `np`, and every
   * node on the old child chain gets `np` as its parent.
   */
  function Reparented(nodes: seq<TreeNode>, id: NodeId, np: Option<NodeId>): (r: seq<TreeNode>)
    ensures |r| == |nodes|
    ensures SameIdsAndData(nodes, r)
  {
    if id >= |nodes| then nodes
    else
      var first := nodes[id].firstChild;
      var last := nodes[id].lastChild;
      var s1 := Set(Set(nodes, id, First, None), id, Last, None);
      var s2 := if np.Some? then Set(Set(s1, np.value, First, first), np.value, Last, last) else s1;
      SetParentAll(s2, Walk(nodes, first, Next, |nodes|), np)
  }

  /**
   * `append_child_data_of` (ops.rs, tree.rs): push a node holding `data`,
   * linked after the last child of `id`, then link it from `id`.
   */
  function AppendedChildData(nodes: seq<TreeNode>, id: NodeId, data: NodeData): (r: seq<TreeNode>)
    ensures |r| == |nodes| + 1
  {
    var last := if id < |nodes| then nodes[id].lastChild else None;
    var n := |nodes|;
    var child := NewNode(n, data).(prevSibling := last, parent := Some(id));
    var s1 := nodes + [child];
    var s2 := SetAt(s1, last, Next, Some(n));
    if id < |s2| then
      var s3 := if s2[id].firstChild.None? then Set(s2, id, First, Some(n)) else s2;
      Set(s3, id, Last, Some(n))
    else s2
  }

  // ----- remove_from_parent -----

  /** An out-of-range or already detached node is left alone: the call is a no-op. */
  lemma RemoveNoOp(nodes: seq<TreeNode>, x: NodeId)
    requires x >= |nodes| || Detached(nodes[x])
    ensures RemovedFromParent(nodes, x) == nodes
  {
  }

  /** The neighbours of `x` that `remove_from_parent` writes are distinct from `x` and from each other. */
  predicate NeighboursDistinct(nodes: seq<TreeNode>, x: NodeId)
    requires x < |nodes|
  {
    var n := nodes[x];
    (n.parent.Some? ==> n.parent.value != x && n.parent != n.prevSibling && n.parent != n.nextSibling)
    && (n.prevSibling.Some? ==> n.prevSibling.value != x && n.prevSibling != n.nextSibling)
    && (n.nextSibling.Some? ==> n.nextSibling.value != x)
  }

  /**
   * The node ends with no parent and no siblings, whatever aliasing there is
   * between its parent and siblings, as long as no sibling link of the node
   * points back at the node itself.
   */
  lemma RemoveDetaches(nodes: seq<TreeNode>, x: NodeId)
    requires x < |nodes|
    requires nodes[x].prevSibling != Some(x) && nodes[x].nextSibling != Some(x)
    ensures Detached(RemovedFromParent(nodes, x)[x])
    ensures RemovedFromParent(nodes, x)[x].id == nodes[x].id
    ensures RemovedFromParent(nodes, x)[x].data == nodes[x].data
  {
  }

  /** Removing twice is removing once. */
  lemma RemoveIdempotent(nodes: seq<TreeNode>, x: NodeId)
    requires x < |nodes| ==> nodes[x].prevSibling != Some(x) && nodes[x].nextSibling != Some(x)
    ensures RemovedFromParent(RemovedFromParent(nodes, x), x) == RemovedFromParent(nodes, x)
  {
    if x < |nodes| {
      RemoveDetaches(nodes, x);
    }
  }

  /**
   * With distinct neighbours: the old prev/next siblings are spliced to each
   * other, the parent's first/last child moves past `x` when it was `x`, and
   * every other node is untouched.
   */
  lemma RemoveEffect(nodes: seq<TreeNode>, x: NodeId)
    requires x < |nodes| && NeighboursDistinct(nodes, x)
    ensures var r := RemovedFromParent(nodes, x);
      var n := nodes[x];
      && Detached(r[x])
      && r[x].(parent := n.parent, prevSibling := n.prevSibling, nextSibling := n.nextSibling) == n
      && (n.prevSibling.Some? && n.prevSibling.value < |nodes| ==>
            r[n.prevSibling.value] == nodes[n.prevSibling.value].(nextSibling := n.nextSibling))
      && (n.nextSibling.Some? && n.nextSibling.value < |nodes| ==>
            r[n.nextSibling.value] == nodes[n.nextSibling.value].(prevSibling := n.prevSibling))
      && (n.parent.Some? && n.parent.value < |nodes| ==>
            var p := nodes[n.parent.value];
            r[n.parent.value] == p.(firstChild := if p.firstChild == Some(x) then n.nextSibling else p.firstChild,
                                    lastChild := if p.lastChild == Some(x) then n.prevSibling else p.lastChild))
      && (forall j :: (0 <= j < |nodes| && j != x && Some(j) != n.parent && Some(j) != n.prevSibling
            && Some(j) != n.nextSibling) ==> r[j] == nodes[j])
  {
    RemoveEffectAtX(nodes, x);
    RemoveEffectSiblings(nodes, x);
    RemoveEffectParent(nodes, x);
    RemoveEffectElsewhere(nodes, x);
  }

  lemma RemoveEffectAtX(nodes: seq<TreeNode>, x: NodeId)
    requires x < |nodes| && NeighboursDistinct(nodes, x)
    ensures var r := RemovedFromParent(nodes, x);
      var n := nodes[x];
      && Detached(r[x])
      && r[x].(parent := n.parent, prevSibling := n.prevSibling, nextSibling := n.nextSibling) == n
  {
  }

  lemma RemoveEffectSiblings(nodes: seq<TreeNode>, x: NodeId)
    requires x < |nodes| && NeighboursDistinct(nodes, x)
    ensures var r := RemovedFromParent(nodes, x);
      var n := nodes[x];
      && (n.prevSibling.Some? && n.prevSibling.value < |nodes| ==>
            r[n.prevSibling.value] == nodes[n.prevSibling.value].(nextSibling := n.nextSibling))
      && (n.nextSibling.Some? && n.nextSibling.value < |nodes| ==>
            r[n.nextSibling.value] == nodes[n.nextSibling.value].(prevSibling := n.prevSibling))
  {
  }

  lemma RemoveEffectParent(nodes: seq<TreeNode>, x: NodeId)
    requires x < |nodes| && NeighboursDistinct(nodes, x)
    ensures var r := RemovedFromParent(nodes, x);
      var n := nodes[x];
      n.parent.Some? && n.parent.value < |nodes| ==>
        var p := nodes[n.parent.value];
        r[n.parent.value] == p.(firstChild := if p.firstChild == Some(x) then n.nextSibling else p.firstChild,
                                lastChild := if p.lastChild == Some(x) then n.prevSibling else p.lastChild)
  {
  }

  lemma RemoveEffectElsewhere(nodes: seq<TreeNode>, x: NodeId)
    requires x < |nodes| && NeighboursDistinct(nodes, x)
    ensures var r := RemovedFromParent(nodes, x);
      var n := nodes[x];
      forall j :: (0 <= j < |nodes| && j != x && Some(j) != n.parent && Some(j) != n.prevSibling
        && Some(j) != n.nextSibling) ==> r[j] == nodes[j]
  {
  }

  /**
   * The same effect field by field: which nodes may see each of the five
   * links change, and to what.
   */
  lemma RemoveFields(nodes: seq<TreeNode>, x: NodeId)
    requires x < |nodes| && NeighboursDistinct(nodes, x) && !Detached(nodes[x])
    ensures RemovalOf(nodes, x, RemovedFromParent(nodes, x))
  {
    RemoveEffectAtX(nodes, x);
    RemoveEffectSiblings(nodes, x);
    RemoveEffectParent(nodes, x);
    forall j | 0 <= j < |nodes|
      ensures RemovalAt(nodes, x, RemovedFromParent(nodes, x), j)
    {
      RemoveFieldsAt(nodes, x, j);
    }
    RemovalFromAt(nodes, x, RemovedFromParent(nodes, x));
  }

  lemma RemovalFromAt(nodes: seq<TreeNode>, x: NodeId, r: seq<TreeNode>)
    requires x < |nodes| && |r| == |nodes| && SameIdsAndData(nodes, r)
    requires forall j :: 0 <= j < |nodes| ==> RemovalAt(nodes, x, r, j)
    requires r[x].parent.None? && r[x].prevSibling.None? && r[x].nextSibling.None?
    requires var n := nodes[x];
      && (n.prevSibling.Some? && n.prevSibling.value < |nodes| ==> r[n.prevSibling.value].nextSibling == n.nextSibling)
      && (n.nextSibling.Some? && n.nextSibling.value < |nodes| ==> r[n.nextSibling.value].prevSibling == n.prevSibling)
      && (n.parent.Some? && n.parent.value < |nodes| ==>
            var q := nodes[n.parent.value];
            && r[n.parent.value].firstChild == (if q.firstChild == Some(x) then n.nextSibling else q.firstChild)
            && r[n.parent.value].lastChild == (if q.lastChild == Some(x) then n.prevSibling else q.lastChild))
    ensures RemovalOf(nodes, x, r)
  {
    var n := nodes[x];
    forall j | 0 <= j < |nodes| && j != x
      ensures r[j].parent == nodes[j].parent
    {
      assert RemovalAt(nodes, x, r, j);
    }
    forall j | 0 <= j < |nodes| && j != x && Some(j) != n.prevSibling
      ensures r[j].nextSibling == nodes[j].nextSibling
    {
      assert RemovalAt(nodes, x, r, j);
    }
    forall j | 0 <= j < |nodes| && j != x && Some(j) != n.nextSibling
      ensures r[j].prevSibling == nodes[j].prevSibling
    {
      assert RemovalAt(nodes, x, r, j);
    }
    forall j | 0 <= j < |nodes| && Some(j) != n.parent
      ensures r[j].firstChild == nodes[j].firstChild && r[j].lastChild == nodes[j].lastChild
    {
      assert RemovalAt(nodes, x, r, j);
    }
  }

  /** The unchanged links of node `j` after detaching `x`. */
  predicate RemovalAt(nodes: seq<TreeNode>, x: NodeId, r: seq<TreeNode>, j: NodeId)
    requires x < |nodes| && j < |nodes| && |r| == |nodes|
  {
    var n := nodes[x];
    && (j != x ==> r[j].parent == nodes[j].parent)
    && (j != x && Some(j) != n.prevSibling ==> r[j].nextSibling == nodes[j].nextSibling)
    && (j != x && Some(j) != n.nextSibling ==> r[j].prevSibling == nodes[j].prevSibling)
    && (Some(j) != n.parent ==> r[j].firstChild == nodes[j].firstChild && r[j].lastChild == nodes[j].lastChild)
  }

  lemma RemoveFieldsAt(nodes: seq<TreeNode>, x: NodeId, j: NodeId)
    requires x < |nodes| && NeighboursDistinct(nodes, x) && j < |nodes|
    ensures RemovalAt(nodes, x, RemovedFromParent(nodes, x), j)
  {
    var n := nodes[x];
    if j == x {
      RemoveEffectAtX(nodes, x);
    } else if Some(j) == n.parent {
      RemoveEffectParent(nodes, x);
    } else if Some(j) == n.prevSibling || Some(j) == n.nextSibling {
      RemoveEffectSiblings(nodes, x);
    } else {
      RemoveEffectElsewhere(nodes, x);
    }
  }

  /** `r` is what detaching `x` leaves of `nodes`, link by link. */
  predicate RemovalOf(nodes: seq<TreeNode>, x: NodeId, r: seq<TreeNode>)
    requires x < |nodes|
  {
    var n := nodes[x];
    && |r| == |nodes| && SameIdsAndData(nodes, r)
    && r[x].parent.None? && r[x].prevSibling.None? && r[x].nextSibling.None?
    && (forall j :: 0 <= j < |nodes| && j != x ==> r[j].parent == nodes[j].parent)
    && (forall j :: 0 <= j < |nodes| && j != x && Some(j) != n.prevSibling ==> r[j].nextSibling == nodes[j].nextSibling)
    && (forall j :: 0 <= j < |nodes| && j != x && Some(j) != n.nextSibling ==> r[j].prevSibling == nodes[j].prevSibling)
    && (forall j :: 0 <= j < |nodes| && Some(j) != n.parent ==>
          r[j].firstChild == nodes[j].firstChild && r[j].lastChild == nodes[j].lastChild)
    && (n.prevSibling.Some? && n.prevSibling.value < |nodes| ==> r[n.prevSibling.value].nextSibling == n.nextSibling)
    && (n.nextSibling.Some? && n.nextSibling.value < |nodes| ==> r[n.nextSibling.value].prevSibling == n.prevSibling)
    && (n.parent.Some? && n.parent.value < |nodes| ==>
          var q := nodes[n.parent.value];
          && r[n.parent.value].firstChild == (if q.firstChild == Some(x) then n.nextSibling else q.firstChild)
          && r[n.parent.value].lastChild == (if q.lastChild == Some(x) then n.prevSibling else q.lastChild))
  }

  // ----- append_child_of / prepend_child_of -----

  /** A parent id outside the vector makes append and prepend no-ops. */
  lemma AppendPrependOutOfRange(nodes: seq<TreeNode>, id: NodeId, c: NodeId)
    requires id >= |nodes|
    ensures AppendedChild(nodes, id, c) == nodes
    ensures PrependedChild(nodes, id, c) == nodes
  {
  }

  /**
   * `c` becomes the last child of `id` (and its first child when `id` had
   * none); the old last child points forward to `c`; `c` points back to it and
   * up to `id`.  `c`'s old next sibling is NOT cleared, and nothing else moves.
   */
  lemma AppendEffect(nodes: seq<TreeNode>, id: NodeId, c: NodeId)
    requires id < |nodes| && c < |nodes| && c != id && nodes[id].lastChild != Some(c)
    requires nodes[id].lastChild != Some(id)
    ensures var r := AppendedChild(nodes, id, c);
      var p := nodes[id];
      && r[id] == p.(lastChild := Some(c), firstChild := if p.lastChild.None? then Some(c) else p.firstChild)
      && r[c] == nodes[c].(prevSibling := p.lastChild, parent := Some(id))
      && (p.lastChild.Some? && p.lastChild.value < |nodes| ==>
            r[p.lastChild.value] == nodes[p.lastChild.value].(nextSibling := Some(c)))
      && (forall j :: 0 <= j < |nodes| && j != id && j != c && Some(j) != p.lastChild ==> r[j] == nodes[j])
  {
  }

  /**
   * `c` becomes the first child of `id` (and its last child when `id` had
   * none), with no previous sibling and the old first child as next sibling,
   * which points back to `c`.  Nothing else moves.
   */
  lemma PrependEffect(nodes: seq<TreeNode>, id: NodeId, c: NodeId)
    requires id < |nodes| && c < |nodes| && c != id && nodes[id].firstChild != Some(c)
    requires nodes[id].firstChild != Some(id)
    ensures var r := PrependedChild(nodes, id, c);
      var p := nodes[id];
      && r[id] == p.(firstChild := Some(c), lastChild := if p.firstChild.None? then Some(c) else p.lastChild)
      && r[c] == nodes[c].(nextSibling := p.firstChild, parent := Some(id), prevSibling := None)
      && (p.firstChild.Some? && p.firstChild.value < |nodes| ==>
            r[p.firstChild.value] == nodes[p.firstChild.value].(prevSibling := Some(c)))
      && (forall j :: 0 <= j < |nodes| && j != id && j != c && Some(j) != p.firstChild ==> r[j] == nodes[j])
  {
  }

  /**
   * Appending a child that still has a next sibling leaves that link in
   * place: the appended node is the parent's last child and yet has a next
   * sibling (why callers must detach first).
   */
  lemma AppendKeepsStaleNext(nodes: seq<TreeNode>, id: NodeId, c: NodeId)
    requires id < |nodes| && c < |nodes| && c != id && nodes[id].lastChild != Some(c)
    requires nodes[id].lastChild != Some(id)
    requires nodes[c].nextSibling.Some?
    ensures AppendedChild(nodes, id, c)[id].lastChild == Some(c)
    ensures AppendedChild(nodes, id, c)[c].nextSibling == nodes[c].nextSibling
  {
    AppendEffect(nodes, id, c);
  }

  // ----- insert_before_of / insert_after_of -----

  /** Both insertions detach the new sibling first; an anchor outside the vector stops there. */
  lemma InsertOutOfRange(nodes: seq<TreeNode>, id: NodeId, ns: NodeId)
    requires id >= |nodes|
    ensures InsertedBefore(nodes, id, ns) == RemovedFromParent(nodes, ns)
    ensures InsertedAfter(nodes, id, ns) == RemovedFromParent(nodes, ns)
  {
  }

  /**
   * After detaching `ns`, `insert_before_of` places it between the anchor's
   * old previous sibling and the anchor, under the anchor's parent; the
   * parent's first child moves to `ns` only when it was the anchor.
   */
  lemma InsertBeforeEffect(nodes: seq<TreeNode>, id: NodeId, ns: NodeId)
    requires id < |nodes| && ns < |nodes| && id != ns
    requires var s0 := RemovedFromParent(nodes, ns);
      s0[id].parent != Some(id) && s0[id].parent != Some(ns) && s0[id].prevSibling != Some(id)
      && s0[id].prevSibling != Some(ns) && (s0[id].parent.Some? ==> s0[id].parent != s0[id].prevSibling)
    ensures var s0 := RemovedFromParent(nodes, ns);
      var r := InsertedBefore(nodes, id, ns);
      var a := s0[id];
      && r[id] == a.(prevSibling := Some(ns))
      && r[ns] == s0[ns].(parent := a.parent, prevSibling := a.prevSibling, nextSibling := Some(id))
      && (a.prevSibling.Some? && a.prevSibling.value < |nodes| ==>
            r[a.prevSibling.value] == s0[a.prevSibling.value].(nextSibling := Some(ns)))
      && (a.parent.Some? && a.parent.value < |nodes| ==>
            var p := s0[a.parent.value];
            r[a.parent.value] == p.(firstChild := if p.firstChild == Some(id) then Some(ns) else p.firstChild))
      && (forall j :: 0 <= j < |nodes| && j != id && j != ns && Some(j) != a.parent && Some(j) != a.prevSibling
            ==> r[j] == s0[j])
  {
  }

  /** The mirror image of `InsertBeforeEffect` for `insert_after_of`, with `next` and `last_child`. */
  lemma InsertAfterEffect(nodes: seq<TreeNode>, id: NodeId, ns: NodeId)
    requires id < |nodes| && ns < |nodes| && id != ns
    requires var s0 := RemovedFromParent(nodes, ns);
      s0[id].parent != Some(id) && s0[id].parent != Some(ns) && s0[id].nextSibling != Some(id)
      && s0[id].nextSibling != Some(ns) && (s0[id].parent.Some? ==> s0[id].parent != s0[id].nextSibling)
    ensures var s0 := RemovedFromParent(nodes, ns);
      var r := InsertedAfter(nodes, id, ns);
      var a := s0[id];
      && r[id] == a.(nextSibling := Some(ns))
      && r[ns] == s0[ns].(parent := a.parent, prevSibling := Some(id), nextSibling := a.nextSibling)
      && (a.nextSibling.Some? && a.nextSibling.value < |nodes| ==>
            r[a.nextSibling.value] == s0[a.nextSibling.value].(prevSibling := Some(ns)))
      && (a.parent.Some? && a.parent.value < |nodes| ==>
            var p := s0[a.parent.value];
            r[a.parent.value] == p.(lastChild := if p.lastChild == Some(id) then Some(ns) else p.lastChild))
      && (forall j :: 0 <= j < |nodes| && j != id && j != ns && Some(j) != a.parent && Some(j) != a.nextSibling
            ==> r[j] == s0[j])
  {
  }

  // ----- reparent_children_of -----

  /**
   * `id` loses its child list, a new parent inside the vector receives it,
   * every node of the old child chain points up to the new parent, and no
   * other node or link changes.
   */
  lemma ReparentEffect(nodes: seq<TreeNode>, id: NodeId, np: Option<NodeId>)
    requires id < |nodes| && np != Some(id)
    ensures var r := Reparented(nodes, id, np);
      var chain := Walk(nodes, nodes[id].firstChild, Next, |nodes|);
      && (id !in chain ==> r[id] == nodes[id].(firstChild := None, lastChild := None))
      && (np.Some? && np.value < |nodes| && np.value !in chain ==>
            r[np.value] == nodes[np.value].(firstChild := nodes[id].firstChild, lastChild := nodes[id].lastChild))
      && (forall j :: 0 <= j < |nodes| && j in chain ==> r[j].parent == np)
      && (forall j :: 0 <= j < |nodes| && j in chain && j != id && Some(j) != np ==>
            r[j] == nodes[j].(parent := np))
      && (forall j :: 0 <= j < |nodes| && j !in chain && j != id && Some(j) != np ==> r[j] == nodes[j])
  {
    var first := nodes[id].firstChild;
    var last := nodes[id].lastChild;
    var s1 := Set(Set(nodes, id, First, None), id, Last, None);
    var s2 := if np.Some? then Set(Set(s1, np.value, First, first), np.value, Last, last) else s1;
    assert Reparented(nodes, id, np) == SetParentAll(s2, Walk(nodes, first, Next, |nodes|), np);
    SetParentAllAt(s2, Walk(nodes, first, Next, |nodes|), np);
    assert s2[id] == nodes[id].(firstChild := None, lastChild := None);
    if np.Some? && np.value < |nodes| {
      assert s2[np.value] == nodes[np.value].(firstChild := first, lastChild := last);
    }
    assert forall j :: 0 <= j < |nodes| && j != id && Some(j) != np ==> s2[j] == nodes[j];
  }

  // ----- append_child_data_of -----

  /**
   * The vector grows by one node whose id is the old length; it is the new
   * last child of `id` (and its first child when `id` had none), after the
   * old last child; every other node is untouched.
   */
  lemma AppendDataEffect(nodes: seq<TreeNode>, id: NodeId, data: NodeData)
    requires id < |nodes| && nodes[id].lastChild != Some(id)
    requires nodes[id].lastChild.Some? ==> nodes[id].lastChild.value < |nodes|
    ensures var r := AppendedChildData(nodes, id, data);
      var n := |nodes|;
      var p := nodes[id];
      && r[n] == TreeNode(n, Some(id), p.lastChild, None, None, None, data)
      && r[id] == p.(lastChild := Some(n), firstChild := if p.firstChild.None? then Some(n) else p.firstChild)
      && (p.lastChild.Some? && p.lastChild.value < n ==>
            r[p.lastChild.value] == nodes[p.lastChild.value].(nextSibling := Some(n)))
      && (forall j :: 0 <= j < n && j != id && Some(j) != p.lastChild ==> r[j] == nodes[j])
  {
  }
}
