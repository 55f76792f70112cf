/**
 * `TreeNodeOps` (src/dom_tree/ops.rs): the in-place operations on the node
 * slice.  Each mutator rewrites link fields of an `array<TreeNode>` with the
 * writes the source performs, in the source's order, and is proved to leave
 * exactly the vector the corresponding function of `Links` describes; what
 * those writes achieve is proved about the functions (module `Links`,
 * `Invariant`).  The two loops, `text_of` and `last_sibling_of`, are proved
 * against `Subtree.TextUnder` and `LastSibling` below.
 */
module Ops {
  import opened Wrappers
  import opened Arena
  import opened Chains
  import opened Links
  import opened Invariant
  import opened Subtree

  /** One `if let Some(node) = nodes.get_mut(i) { node.<l> = v }`. */
  method SetLink(nodes: array<TreeNode>, i: NodeId, l: Link, v: Option<NodeId>)
    modifies nodes
    ensures nodes[..] == Set(old(nodes[..]), i, l, v)
  {
    if i < nodes.Length {
      nodes[i] := Put(nodes[i], l, v);
    }
  }

  /** The same write through an optional id. */
  method SetLinkAt(nodes: array<TreeNode>, o: Option<NodeId>, l: Link, v: Option<NodeId>)
    modifies nodes
    ensures nodes[..] == SetAt(old(nodes[..]), o, l, v)
  {
    if o.Some? {
      SetLink(nodes, o.value, l, v);
    }
  }

  // ----- text_of -----

  /** The text still to be collected from a stack of pending ids, the top (last) entry first. */
  ghost function StackText(nodes: seq<TreeNode>, ops: seq<NodeId>, fuels: seq<nat>): string
    requires |ops| == |fuels|
    decreases |ops|
  {
    if ops == [] then ""
    else TextUnder(nodes, ops[|ops| - 1], fuels[|ops| - 1]) + StackText(nodes, ops[..|ops| - 1], fuels[..|ops| - 1])
  }

  ghost function StackSize(nodes: seq<TreeNode>, ops: seq<NodeId>, fuels: seq<nat>): nat
    requires |ops| == |fuels|
    decreases |ops|
  {
    if ops == [] then 0
    else Size(nodes, ops[|ops| - 1], fuels[|ops| - 1]) + StackSize(nodes, ops[..|ops| - 1], fuels[..|ops| - 1])
  }

  /** `n` copies of `g`. */
  function Repeat(g: nat, n: nat): (r: seq<nat>)
    ensures |r| == n && forall k :: 0 <= k < n ==> r[k] == g
  {
    if n == 0 then [] else Repeat(g, n - 1) + [g]
  }

  lemma StackSnoc(nodes: seq<TreeNode>, ops: seq<NodeId>, fuels: seq<nat>, c: NodeId, g: nat)
    requires |ops| == |fuels|
    ensures StackText(nodes, ops + [c], fuels + [g]) == TextUnder(nodes, c, g) + StackText(nodes, ops, fuels)
    ensures StackSize(nodes, ops + [c], fuels + [g]) == Size(nodes, c, g) + StackSize(nodes, ops, fuels)
  {
    assert (ops + [c])[..|ops|] == ops;
    assert (fuels + [g])[..|fuels|] == fuels;
  }

  /** Pushing the children reversed puts the first child on top: their texts come out in sibling order. */
  lemma {:induction false} PushReversed(nodes: seq<TreeNode>, ops: seq<NodeId>, fuels: seq<nat>, cs: seq<NodeId>, g: nat)
    requires |ops| == |fuels|
    ensures StackText(nodes, ops + Reverse(cs), fuels + Repeat(g, |cs|))
         == ForestText(nodes, cs, g) + StackText(nodes, ops, fuels)
    ensures StackSize(nodes, ops + Reverse(cs), fuels + Repeat(g, |cs|))
         == ForestSize(nodes, cs, g) + StackSize(nodes, ops, fuels)
    decreases |cs|
  {
    if cs == [] {
      assert ops + Reverse(cs) == ops;
      assert fuels + Repeat(g, |cs|) == fuels;
    } else {
      var rest := cs[1..];
      var o2 := ops + Reverse(rest);
      var f2 := fuels + Repeat(g, |rest|);
      assert ops + Reverse(cs) == o2 + [cs[0]];
      assert fuels + Repeat(g, |cs|) == f2 + [g];
      PushReversed(nodes, ops, fuels, rest, g);
      StackSnoc(nodes, o2, f2, cs[0], g);
      ConcatAssoc(TextUnder(nodes, cs[0], g), ForestText(nodes, rest, g), StackText(nodes, ops, fuels));
    }
  }

  /**
   * `TreeNodeOps::text_of`: pop an id; a Document, Fragment or Element pushes
   * its children reversed, a Text node appends its contents, anything else
   * is skipped.  `fuel` is a depth bound under which the descent from `id`
   * is finite; without one the source loops for ever on a cyclic child chain.
   */
  method TextOf(nodes: array<TreeNode>, id: NodeId, ghost fuel: nat) returns (text: string)
    requires Finite(nodes[..], id, fuel)
    ensures text == TextUnder(nodes[..], id, fuel)
  {
    ghost var ns := nodes[..];
    var ops: seq<NodeId> := [id];
    ghost var fuels: seq<nat> := [fuel];
    text := "";
    TextStackStart(ns, id, fuel);
    while ops != []
      invariant TextStack(ns, ops, fuels, text, TextUnder(ns, id, fuel))
      decreases StackSize(ns, ops, fuels)
    {
      var cur := ops[|ops| - 1];
      ghost var f := fuels[|fuels| - 1];
      ghost var before, beforeFuels := ops, fuels;
      TextPop(ns, ops, fuels, text, TextUnder(ns, id, fuel));
      ops := ops[..|ops| - 1];
      fuels := fuels[..|fuels| - 1];
      if cur < nodes.Length {
        var node := nodes[cur];
        if MayHaveChildren(node) {
          ghost var popped, poppedFuels := ops, fuels;
          ops, fuels := PushChildren(nodes, ops, fuels, cur, f);
          TextPushed(ns, popped, poppedFuels, ops, fuels, text, TextUnder(ns, cur, f), TextUnder(ns, id, fuel));
        } else if node.data.Text? {
          text := text + node.data.contents;
        } else {
          assert text + TextUnder(ns, cur, f) == text;
        }
      } else {
        assert text + TextUnder(ns, cur, f) == text;
      }
    }
  }

  /**
   * The state of the `ops` loop of `text_of`: every pending id is finite at
   * its fuel, and the text so far followed by what the stack still yields
   * is the whole text.
   */
  ghost predicate TextStack(nodes: seq<TreeNode>, ops: seq<NodeId>, fuels: seq<nat>, text: string, target: string)
  {
    && |fuels| == |ops|
    && (forall k :: 0 <= k < |ops| ==> Finite(nodes, ops[k], fuels[k]))
    && text + StackText(nodes, ops, fuels) == target
  }

  lemma TextStackStart(nodes: seq<TreeNode>, id: NodeId, fuel: nat)
    requires Finite(nodes, id, fuel)
    ensures TextStack(nodes, [id], [fuel], "", TextUnder(nodes, id, fuel))
  {
    StackSnoc(nodes, [], [], id, fuel);
    assert [id] == [] + [id] && [fuel] == [] + [fuel];
  }

  /** Popping the top id moves its text from the stack to the text so far. */
  lemma TextPop(nodes: seq<TreeNode>, ops: seq<NodeId>, fuels: seq<nat>, text: string, target: string)
    requires TextStack(nodes, ops, fuels, text, target) && ops != []
    ensures var n := |ops| - 1;
      && Finite(nodes, ops[n], fuels[n])
      && TextStack(nodes, ops[..n], fuels[..n], text + TextUnder(nodes, ops[n], fuels[n]), target)
      && StackSize(nodes, ops, fuels) == Size(nodes, ops[n], fuels[n]) + StackSize(nodes, ops[..n], fuels[..n])
  {
    var n := |ops| - 1;
    var prefix, prefixFuels := ops[..n], fuels[..n];
    assert ops == prefix + [ops[n]] && fuels == prefixFuels + [fuels[n]];
    StackSnoc(nodes, prefix, prefixFuels, ops[n], fuels[n]);
    var piece := TextUnder(nodes, ops[n], fuels[n]);
    var rest := StackText(nodes, prefix, prefixFuels);
    assert text + (piece + rest) == (text + piece) + rest;
  }

  /** Pushing ids whose text is `piece` followed by the rest of the stack gives `piece` back to the stack. */
  lemma TextPushed(nodes: seq<TreeNode>, ops: seq<NodeId>, fuels: seq<nat>, ops': seq<NodeId>, fuels': seq<nat>,
                   text: string, piece: string, target: string)
    requires TextStack(nodes, ops, fuels, text + piece, target)
    requires |ops'| == |fuels'| && |ops| <= |ops'|
    requires forall k :: 0 <= k < |ops| ==> ops'[k] == ops[k] && fuels'[k] == fuels[k]
    requires forall k :: |ops| <= k < |ops'| ==> Finite(nodes, ops'[k], fuels'[k])
    requires StackText(nodes, ops', fuels') == piece + StackText(nodes, ops, fuels)
    ensures TextStack(nodes, ops', fuels', text, target)
  {
    forall k | 0 <= k < |ops'|
      ensures Finite(nodes, ops'[k], fuels'[k])
    {
      if k < |ops| {
        assert ops'[k] == ops[k] && fuels'[k] == fuels[k];
      }
    }
    var rest := StackText(nodes, ops, fuels);
    assert text + (piece + rest) == (text + piece) + rest;
  }

  /** `ops.extend(child_nodes(nodes, id, true))`, with the ghost depth bound of each pushed entry. */
  method PushChildren(nodes: array<TreeNode>, ops: seq<NodeId>, ghost fuels: seq<nat>, cur: NodeId, ghost f: nat)
    returns (ops': seq<NodeId>, ghost fuels': seq<nat>)
    requires |ops| == |fuels| && cur < nodes.Length && MayHaveChildren(nodes[cur])
    requires Finite(nodes[..], cur, f)
    ensures |ops'| == |fuels'|
    ensures ops' == ops + Reverse(Children(nodes[..], cur))
    ensures forall k :: |ops| <= k < |ops'| ==> Finite(nodes[..], ops'[k], fuels'[k])
    ensures forall k :: 0 <= k < |ops| ==> fuels'[k] == fuels[k]
    ensures StackText(nodes[..], ops', fuels') == TextUnder(nodes[..], cur, f) + StackText(nodes[..], ops, fuels)
    ensures StackSize(nodes[..], ops', fuels') < Size(nodes[..], cur, f) + StackSize(nodes[..], ops, fuels)
  {
    var cs := Children(nodes[..], cur);
    var g: nat := if f > 0 then f - 1 else 0;
    ops' := ops + Reverse(cs);
    fuels' := fuels + Repeat(g, |cs|);
    PushReversed(nodes[..], ops, fuels, cs, g);
    if cs != [] {
      assert f > 0;
      forall k | |ops| <= k < |ops'|
        ensures Finite(nodes[..], ops'[k], fuels'[k])
      {
        assert ops'[k] == cs[|cs| - 1 - (k - |ops|)];
        AllFiniteAt(nodes[..], cs, g, |cs| - 1 - (k - |ops|));
      }
    }
  }

  // ----- last_sibling_of -----

  /** The id field of the last node reached by walk `w`, or `dflt` when `w` is empty. */
  function LastOnWalk(nodes: seq<TreeNode>, w: seq<NodeId>, dflt: Option<NodeId>): Option<NodeId>
    requires forall k :: 0 <= k < |w| ==> w[k] < |nodes|
  {
    if w == [] then dflt else Some(nodes[w[|w| - 1]].id)
  }

  /**
   * `TreeNodeOps::last_sibling_of`: `None` for an id outside the vector;
   * otherwise the id of the last node on the next-sibling walk from `id`,
   * which stops before the first id outside the vector.
   */
  function LastSibling(nodes: seq<TreeNode>, id: NodeId): Option<NodeId>
  {
    if id >= |nodes| then None
    else LastOnWalk(nodes, Walk(nodes, nodes[id].nextSibling, Next, |nodes|), None)
  }

  /** The cursor loop of `last_sibling_of`; it ends only when the sibling walk stops. */
  method LastSiblingOf(nodes: array<TreeNode>, id: NodeId) returns (r: Option<NodeId>)
    requires id < nodes.Length ==> Stops(nodes[..], nodes[id].nextSibling, Next, nodes.Length)
    ensures r == LastSibling(nodes[..], id)
  {
    if id >= nodes.Length {
      return None;
    }
    var node := nodes[id];
    var nextNode := node.nextSibling;
    if nextNode.Some? && nextNode.value >= nodes.Length {
      nextNode := None;
    }
    var lastNode: Option<NodeId> := None;
    ghost var fuel: nat := nodes.Length;
    while nextNode.Some?
      invariant nextNode.Some? ==> nextNode.value < nodes.Length
      invariant Stops(nodes[..], nextNode, Next, fuel)
      invariant LastSibling(nodes[..], id) == LastOnWalk(nodes[..], Walk(nodes[..], nextNode, Next, fuel), lastNode)
      decreases fuel
    {
      var cur := nodes[nextNode.value];
      var n := cur.nextSibling;
      if n.Some? && n.value >= nodes.Length {
        n := None;
      }
      lastNode := Some(cur.id);
      nextNode := n;
      fuel := fuel - 1;
    }
    r := lastNode;
  }

  /** The last node of a walk that ends has no next sibling. */
  lemma {:induction false} WalkEndsAtNone(nodes: seq<TreeNode>, start: Option<NodeId>, fuel: nat)
    requires Ends(nodes, start, Next, fuel)
    ensures var w := Walk(nodes, start, Next, fuel);
      w != [] ==> nodes[w[|w| - 1]].nextSibling.None?
    decreases fuel
  {
    if start.Some? {
      WalkEndsAtNone(nodes, nodes[start.value].nextSibling, fuel - 1);
    }
  }

  /**
   * On a well-formed arena `last_sibling_of` is `None` exactly when the node
   * has no next sibling; otherwise it is a sibling without a next sibling,
   * with the same parent, and that parent's last child.
   */
  lemma LastSiblingWellFormed(nodes: seq<TreeNode>, id: NodeId)
    requires WellFormed(nodes) && id < |nodes|
    ensures LastSibling(nodes, id).None? <==> nodes[id].nextSibling.None?
    ensures LastSibling(nodes, id).Some? ==>
      var l := LastSibling(nodes, id).value;
      && l < |nodes| && l != id && nodes[l].nextSibling.None? && nodes[l].parent == nodes[id].parent
      && (nodes[id].parent.Some? && nodes[id].parent.value < |nodes| ==>
            nodes[nodes[id].parent.value].lastChild == Some(l))
  {
    assert NodeWellLinked(nodes, id);
    var nx := nodes[id].nextSibling;
    if nx.Some? {
      var c := nx.value;
      var w := Walk(nodes, nx, Next, |nodes|);
      assert Ends(nodes, Some(id), Next, |nodes|);
      EndsMono(nodes, nx, Next, |nodes| - 1, |nodes|);
      WalkEndsAtNone(nodes, nx, |nodes|);
      WalkShareParent(nodes, c, |nodes|);
      var l := w[|w| - 1];
      assert NodeWellLinked(nodes, l);
      assert nodes[l].parent == nodes[id].parent;
    }
  }

  // ----- append_child_data_of -----

  /**
   * `TreeNodeOps::append_child_data_of` on a growable vector: push a node
   * holding `data` after the last child of `id`, then link it from `id`.
   */
  method AppendChildDataOf(nodes: seq<TreeNode>, id: NodeId, data: NodeData) returns (r: seq<TreeNode>)
    ensures r == AppendedChildData(nodes, id, data)
    ensures |r| == |nodes| + 1 && r[|nodes|].id == |nodes| && r[|nodes|].data == data
  {
    var lastChildId := if id < |nodes| then nodes[id].lastChild else None;
    var newChildId := |nodes|;
    var child := NewNode(newChildId, data);
    child := child.(prevSibling := lastChildId);
    child := child.(parent := Some(id));
    r := nodes + [child];
    r := SetAt(r, lastChildId, Next, Some(newChildId));
    if id < |r| {
      if r[id].firstChild.None? {
        r := Set(r, id, First, Some(newChildId));
      }
      r := Set(r, id, Last, Some(newChildId));
    }
  }

  // ----- link mutators -----

  /** `TreeNodeOps::append_child_of`. */
  method AppendChildOf(nodes: array<TreeNode>, id: NodeId, newChildId: NodeId)
    modifies nodes
    ensures nodes[..] == AppendedChild(old(nodes[..]), id, newChildId)
  {
    if id >= nodes.Length {
      return;
    }
    var lastChildId := nodes[id].lastChild;
    if lastChildId.None? {
      SetLink(nodes, id, First, Some(newChildId));
    }
    SetLink(nodes, id, Last, Some(newChildId));
    SetLinkAt(nodes, lastChildId, Next, Some(newChildId));
    SetLink(nodes, newChildId, Prev, lastChildId);
    SetLink(nodes, newChildId, Parent, Some(id));
  }

  /** `TreeNodeOps::prepend_child_of`. */
  method PrependChildOf(nodes: array<TreeNode>, id: NodeId, newChildId: NodeId)
    modifies nodes
    ensures nodes[..] == PrependedChild(old(nodes[..]), id, newChildId)
  {
    if id >= nodes.Length {
      return;
    }
    var firstChildId := nodes[id].firstChild;
    if firstChildId.None? {
      SetLink(nodes, id, Last, Some(newChildId));
    }
    SetLink(nodes, id, First, Some(newChildId));
    SetLinkAt(nodes, firstChildId, Prev, Some(newChildId));
    SetLink(nodes, newChildId, Next, firstChildId);
    SetLink(nodes, newChildId, Parent, Some(id));
    SetLink(nodes, newChildId, Prev, None);
  }

  /** `TreeNodeOps::remove_from_parent`. */
  method RemoveFromParent(nodes: array<TreeNode>, id: NodeId)
    modifies nodes
    ensures nodes[..] == RemovedFromParent(old(nodes[..]), id)
  {
    if id >= nodes.Length {
      return;
    }
    var node := nodes[id];
    var parentId, prevSiblingId, nextSiblingId := node.parent, node.prevSibling, node.nextSibling;
    if parentId.None? && prevSiblingId.None? && nextSiblingId.None? {
      return;
    }
    SetLink(nodes, id, Parent, None);
    SetLink(nodes, id, Next, None);
    SetLink(nodes, id, Prev, None);
    if parentId.Some? && parentId.value < nodes.Length {
      var p := parentId.value;
      if nodes[p].firstChild == Some(id) {
        SetLink(nodes, p, First, nextSiblingId);
      }
      if nodes[p].lastChild == Some(id) {
        SetLink(nodes, p, Last, prevSiblingId);
      }
    }
    SetLinkAt(nodes, prevSiblingId, Next, nextSiblingId);
    SetLinkAt(nodes, nextSiblingId, Prev, prevSiblingId);
  }

  /** `TreeNodeOps::insert_before_of`. */
  method InsertBeforeOf(nodes: array<TreeNode>, id: NodeId, newSiblingId: NodeId)
    modifies nodes
    ensures nodes[..] == InsertedBefore(old(nodes[..]), id, newSiblingId)
  {
    RemoveFromParent(nodes, newSiblingId);
    if id >= nodes.Length {
      return;
    }
    var parentId := nodes[id].parent;
    var prevSiblingId := nodes[id].prevSibling;
    SetLink(nodes, id, Prev, Some(newSiblingId));
    SetLink(nodes, newSiblingId, Parent, parentId);
    SetLink(nodes, newSiblingId, Prev, prevSiblingId);
    SetLink(nodes, newSiblingId, Next, Some(id));
    if parentId.Some? && parentId.value < nodes.Length && nodes[parentId.value].firstChild == Some(id) {
      SetLink(nodes, parentId.value, First, Some(newSiblingId));
    }
    SetLinkAt(nodes, prevSiblingId, Next, Some(newSiblingId));
  }

  /** `TreeNodeOps::insert_after_of`. */
  method InsertAfterOf(nodes: array<TreeNode>, id: NodeId, newSiblingId: NodeId)
    modifies nodes
    ensures nodes[..] == InsertedAfter(old(nodes[..]), id, newSiblingId)
  {
    RemoveFromParent(nodes, newSiblingId);
    if id >= nodes.Length {
      return;
    }
    var parentId := nodes[id].parent;
    var nextSiblingId := nodes[id].nextSibling;
    SetLink(nodes, id, Next, Some(newSiblingId));
    SetLink(nodes, newSiblingId, Parent, parentId);
    SetLink(nodes, newSiblingId, Prev, Some(id));
    SetLink(nodes, newSiblingId, Next, nextSiblingId);
    if parentId.Some? && parentId.value < nodes.Length && nodes[parentId.value].lastChild == Some(id) {
      SetLink(nodes, parentId.value, Last, Some(newSiblingId));
    }
    SetLinkAt(nodes, nextSiblingId, Prev, Some(newSiblingId));
  }

  lemma WalkStep(nodes: seq<TreeNode>, c: NodeId, fuel: nat)
    requires c < |nodes| && fuel > 0
    ensures Walk(nodes, Some(c), Next, fuel) == [c] + Walk(nodes, nodes[c].nextSibling, Next, fuel - 1)
  {
  }

  /** One step of the cursor of `reparent_children_of` along a chain that ends. */
  lemma AdvanceChain(o: seq<TreeNode>, chain: seq<NodeId>, done: nat, c: NodeId, f: nat)
    requires done <= |chain| && f <= |o|
    requires chain[done..] == Walk(o, Some(c), Next, f) && Ends(o, Some(c), Next, f)
    ensures c < |o| && done < |chain| && f > 0 && chain[done] == c
    ensures chain[done + 1..] == Walk(o, o[c].nextSibling, Next, f - 1)
    ensures Ends(o, o[c].nextSibling, Next, f - 1)
  {
    WalkStep(o, c, f);
    assert chain[done + 1..] == chain[done..][1..];
  }

  /** Setting the parent of the next chain node extends the prefix already handled by one. */
  lemma AdvanceParents(s2: seq<TreeNode>, chain: seq<NodeId>, done: nat, v: Option<NodeId>)
    requires done < |chain|
    ensures Set(SetParentAll(s2, chain[..done], v), chain[done], Parent, v) == SetParentAll(s2, chain[..done + 1], v)
  {
    assert chain[..done + 1][..done] == chain[..done];
  }

  /** Parent writes leave every next-sibling link alone. */
  lemma SetParentAllKeepsNext(nodes: seq<TreeNode>, ids: seq<NodeId>, v: Option<NodeId>, j: nat)
    requires j < |nodes|
    ensures SetParentAll(nodes, ids, v)[j].nextSibling == nodes[j].nextSibling
  {
    SetParentAllAt(nodes, ids, v);
    assert Get(Put(nodes[j], Parent, v), Next) == Get(nodes[j], Next);
  }

  /** The writes before the loop of `reparent_children_of`: the child list moves from `id` to the new parent. */
  method MoveChildList(nodes: array<TreeNode>, id: NodeId, newParentId: Option<NodeId>)
    returns (firstChildId: Option<NodeId>)
    requires id < nodes.Length
    modifies nodes
    ensures firstChildId == old(nodes[id].firstChild)
    ensures var s1 := Set(Set(old(nodes[..]), id, First, None), id, Last, None);
      nodes[..] == if newParentId.Some?
        then Set(Set(s1, newParentId.value, First, firstChildId), newParentId.value, Last, old(nodes[id].lastChild))
        else s1
  {
    firstChildId := nodes[id].firstChild;
    var lastChildId := nodes[id].lastChild;
    SetLink(nodes, id, First, None);
    SetLink(nodes, id, Last, None);
    if newParentId.Some? {
      SetLink(nodes, newParentId.value, First, firstChildId);
      SetLink(nodes, newParentId.value, Last, lastChildId);
    }
  }

  /**
   * The loop of `reparent_children_of`: walk the chain from `firstChildId`
   * (whose next links are those of `o`) and set each node's parent.
   */
  method SetParentsAlongChain(nodes: array<TreeNode>, firstChildId: Option<NodeId>,
                              newParentId: Option<NodeId>, ghost o: seq<TreeNode>)
    requires |o| == nodes.Length && Ends(o, firstChildId, Next, |o|)
    requires forall j :: 0 <= j < |o| ==> nodes[j].nextSibling == o[j].nextSibling
    modifies nodes
    ensures nodes[..] == SetParentAll(old(nodes[..]), Walk(o, firstChildId, Next, |o|), newParentId)
  {
    ghost var s2 := nodes[..];
    ghost var chain := Walk(o, firstChildId, Next, |o|);
    ghost var done: nat := 0;
    ghost var f: nat := |o|;
    var nextChildId := firstChildId;
    assert chain[..0] == [] && chain[0..] == chain;
    while nextChildId.Some?
      invariant nodes.Length == |o|
      invariant ChainState(o, s2, chain, done, nextChildId, f, nodes[..], newParentId)
      decreases f
    {
      var childId := nextChildId.value;
      ChainAdvance(o, s2, chain, done, childId, f, nodes[..], newParentId);
      SetLink(nodes, childId, Parent, newParentId);
      nextChildId := nodes[childId].nextSibling;
      done := done + 1;
      f := f - 1;
    }
    ChainEnd(o, s2, chain, done, f, nodes[..], newParentId);
  }

  /**
   * The state of the `reparent_children_of` loop after `done` steps: the
   * parents of the first `done` chain nodes are set, the rest of the chain
   * is the walk from the cursor, and the next links are still those of `o`.
   */
  ghost predicate ChainState(o: seq<TreeNode>, s2: seq<TreeNode>, chain: seq<NodeId>, done: nat,
                             cur: Option<NodeId>, f: nat, now: seq<TreeNode>, v: Option<NodeId>)
  {
    && |s2| == |o| && done <= |chain| && f <= |o|
    && (forall j :: 0 <= j < |s2| ==> s2[j].nextSibling == o[j].nextSibling)
    && now == SetParentAll(s2, chain[..done], v)
    && chain[done..] == Walk(o, cur, Next, f)
    && Ends(o, cur, Next, f)
  }

  /** Setting the parent of the node under the cursor and following its next link advances the state. */
  lemma ChainAdvance(o: seq<TreeNode>, s2: seq<TreeNode>, chain: seq<NodeId>, done: nat,
                     c: NodeId, f: nat, now: seq<TreeNode>, v: Option<NodeId>)
    requires ChainState(o, s2, chain, done, Some(c), f, now, v)
    ensures c < |now| && f > 0
    ensures var now' := Set(now, c, Parent, v);
      ChainState(o, s2, chain, done + 1, now'[c].nextSibling, f - 1, now', v)
  {
    AdvanceChain(o, chain, done, c, f);
    AdvanceParents(s2, chain, done, v);
    SetParentAllKeepsNext(s2, chain[..done + 1], v, c);
  }

  lemma ChainEnd(o: seq<TreeNode>, s2: seq<TreeNode>, chain: seq<NodeId>, done: nat, f: nat, now: seq<TreeNode>, v: Option<NodeId>)
    requires ChainState(o, s2, chain, done, None, f, now, v)
    ensures now == SetParentAll(s2, chain, v)
  {
    assert chain[..done] == chain;
  }

  /**
   * `TreeNodeOps::reparent_children_of`: the child list of `id` moves to the
   * new parent and the cursor loop sets `parent` on every node of the old
   * child chain.  The loop does not advance at an id outside the vector and
   * never ends on a cyclic chain, so the chain from the first child must end
   * inside the vector.
   */
  method ReparentChildrenOf(nodes: array<TreeNode>, id: NodeId, newParentId: Option<NodeId>)
    requires id < nodes.Length ==> Ends(nodes[..], nodes[id].firstChild, Next, nodes.Length)
    modifies nodes
    ensures nodes[..] == Reparented(old(nodes[..]), id, newParentId)
  {
    if id >= nodes.Length {
      return;
    }
    ghost var o := nodes[..];
    var firstChildId := MoveChildList(nodes, id, newParentId);
    assert forall j :: 0 <= j < nodes.Length ==> nodes[j].nextSibling == o[j].nextSibling;
    SetParentsAlongChain(nodes, firstChildId, newParentId, o);
  }
}
