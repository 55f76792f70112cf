/**
 * `Tree` (src/dom_tree/tree.rs): the arena behind a document, a growable
 * vector of nodes.  Its link mutators perform the same writes as the
 * `TreeNodeOps` functions and run them on the borrowed vector; what is
 * particular to the tree is node creation, `last_sibling_of` (whose cursor
 * may end on an id outside the vector), `merge` and the deep copy.
 */
module Trees {
  import opened Wrappers
  import opened Arena
  import opened Chains
  import opened Links
  import opened Invariant
  import opened Subtree
  import opened Copying
  import Ops
  import Handler

  /** Every node sits at the index equal to its id. */
  predicate IdsMatch(nodes: seq<TreeNode>)
  {
    forall i :: 0 <= i < |nodes| ==> nodes[i].id == i
  }

  /** Link mutators keep every id in place. */
  lemma SameIdsKeepsIdsMatch(nodes: seq<TreeNode>, r: seq<TreeNode>)
    requires SameIdsAndData(nodes, r) && IdsMatch(nodes)
    ensures IdsMatch(r)
  {
  }

  /** The node `append_child_data_of` pushes takes the next free id. */
  lemma AppendDataKeepsIdsMatch(nodes: seq<TreeNode>, id: NodeId, data: NodeData)
    requires IdsMatch(nodes)
    ensures IdsMatch(AppendedChildData(nodes, id, data))
  {
    var last := if id < |nodes| then nodes[id].lastChild else None;
    var n := |nodes|;
    var s1 := nodes + [NewNode(n, data).(prevSibling := last, parent := Some(id))];
    assert IdsMatch(s1);
  }

  // ----- last_sibling_of -----

  /**
   * The value the cursor of `Tree::last_sibling_of` ends with, starting at
   * `cur` with `last` seen so far.  `next_sibling_of` looks a node up but
   * returns its next link unchecked, so the cursor may end on an id outside
   * the vector.
   */
  function LastLink(nodes: seq<TreeNode>, cur: Option<NodeId>, last: Option<NodeId>, fuel: nat): Option<NodeId>
    decreases fuel
  {
    if cur.None? || fuel == 0 then last
    else if cur.value >= |nodes| then cur
    else LastLink(nodes, nodes[cur.value].nextSibling, cur, fuel - 1)
  }

  /** `Tree::last_sibling_of`: the end of the next-sibling chain after `id`, or `None`. */
  function LastSibling(nodes: seq<TreeNode>, id: NodeId): Option<NodeId>
  {
    LastLink(nodes, if id < |nodes| then nodes[id].nextSibling else None, None, |nodes| + 1)
  }

  lemma {:induction false} LastLinkSome(nodes: seq<TreeNode>, cur: Option<NodeId>, last: Option<NodeId>, fuel: nat)
    requires last.Some? || (cur.Some? && fuel > 0)
    ensures LastLink(nodes, cur, last, fuel).Some?
    decreases fuel
  {
    if cur.Some? && fuel > 0 && cur.value < |nodes| {
      LastLinkSome(nodes, nodes[cur.value].nextSibling, cur, fuel - 1);
    }
  }

  /** `last_sibling_of` is `None` exactly when the node has no next sibling (or is not in the vector). */
  lemma LastSiblingNone(nodes: seq<TreeNode>, id: NodeId)
    ensures LastSibling(nodes, id).None? <==> id >= |nodes| || nodes[id].nextSibling.None?
  {
    if id < |nodes| && nodes[id].nextSibling.Some? {
      LastLinkSome(nodes, nodes[id].nextSibling, None, |nodes| + 1);
    }
  }

  lemma {:induction false} LastLinkOnWalk(nodes: seq<TreeNode>, cur: Option<NodeId>, last: Option<NodeId>, fuel: nat)
    requires IdsMatch(nodes) && Ends(nodes, cur, Next, fuel)
    ensures LastLink(nodes, cur, last, fuel + 1) == Ops.LastOnWalk(nodes, Walk(nodes, cur, Next, fuel), last)
    decreases fuel
  {
    if cur.Some? {
      var c := cur.value;
      var w := Walk(nodes, cur, Next, fuel);
      var rest := Walk(nodes, nodes[c].nextSibling, Next, fuel - 1);
      assert w == [c] + rest;
      LastLinkOnWalk(nodes, nodes[c].nextSibling, cur, fuel - 1);
      if rest != [] {
        assert w[|w| - 1] == rest[|rest| - 1];
      }
    }
  }

  /**
   * On a well-formed arena the tree's `last_sibling_of` and the one of
   * `TreeNodeOps` agree: the cursor never leaves the vector.
   */
  lemma LastSiblingAgrees(nodes: seq<TreeNode>, id: NodeId)
    requires WellFormed(nodes)
    ensures LastSibling(nodes, id) == Ops.LastSibling(nodes, id)
  {
    assert IdsMatch(nodes) by {
      forall i | 0 <= i < |nodes|
        ensures nodes[i].id == i
      {
        assert NodeWellLinked(nodes, i);
      }
    }
    if id < |nodes| {
      assert Ends(nodes, Some(id), Next, |nodes|);
      EndsMono(nodes, nodes[id].nextSibling, Next, |nodes| - 1, |nodes|);
      LastLinkOnWalk(nodes, nodes[id].nextSibling, None, |nodes|);
    }
  }

  // ----- merge -----

  /** Every node of `s` passed through `fix_node` with `offset`. */
  function Shifted(s: seq<TreeNode>, offset: nat): (r: seq<TreeNode>)
    ensures |r| == |s| && forall k :: 0 <= k < |s| ==> r[k] == Adjusted(s[k], offset)
  {
    seq(|s|, k requires 0 <= k < |s| => Adjusted(s[k], offset))
  }

  /** `other` without the three wrapper nodes the fragment parser puts first. */
  function Skipped(other: seq<TreeNode>): seq<TreeNode>
  {
    if |other| >= 3 then other[3..] else []
  }

  /** `merge`: the destination followed by the shifted nodes of `other` from index 3 on. */
  function Merged(dest: seq<TreeNode>, other: seq<TreeNode>): (r: seq<TreeNode>)
    requires |dest| >= 3
  {
    dest + Shifted(Skipped(other), |dest| - 3)
  }

  /**
   * `merge` appends the nodes of `other` from index 3 on, shifting every id
   * and every present link by `|dest| - 3`; if both vectors have ids equal
   * to indices, so does the result, and the first merged node gets id
   * `|dest|`.  A link to one of the three skipped nodes lands on one of the
   * last three nodes of the destination.
   */
  lemma MergeEffect(dest: seq<TreeNode>, other: seq<TreeNode>)
    requires |dest| >= 3
    ensures var r := Merged(dest, other);
      && r[..|dest|] == dest
      && |r| == |dest| + |Skipped(other)|
      && (forall j, l :: |dest| <= j < |r| ==>
            Get(r[j], l) == ShiftLink(Get(other[j - |dest| + 3], l), |dest| - 3))
      && (forall j, l :: |dest| <= j < |r| && Get(other[j - |dest| + 3], l).Some? && Get(other[j - |dest| + 3], l).value < 3 ==>
            |dest| - 3 <= Get(r[j], l).value < |dest|)
      && (IdsMatch(dest) && IdsMatch(other) ==> IdsMatch(r))
  {
    var r := Merged(dest, other);
    forall j, l | |dest| <= j < |r|
      ensures Get(r[j], l) == ShiftLink(Get(other[j - |dest| + 3], l), |dest| - 3)
    {
      AdjustedShiftsEveryLink(other[j - |dest| + 3], |dest| - 3);
    }
  }

  /**
   * `merge` alone does not keep a tree well formed: a merged node whose
   * parent was the skipped `<html>` wrapper now names the destination's node
   * 2 as its parent, and that node does not list it as a child.
   */
  lemma MergeNeedsRelinking()
    ensures var root := NewNode(0, Document);
      var dest := [root, NewNode(1, Comment("a")), NewNode(2, Comment("b"))];
      var other := [root.(firstChild := Some(1), lastChild := Some(1)),
                    NewNode(1, Fragment).(parent := Some(0), firstChild := Some(2), lastChild := Some(2)),
                    NewNode(2, Fragment).(parent := Some(1), firstChild := Some(3), lastChild := Some(3)),
                    NewNode(3, Text("x")).(parent := Some(2))];
      && WellFormed(dest) && WellFormed(other) && !WellFormed(Merged(dest, other))
  {
    var root := NewNode(0, Document);
    var dest := [root, NewNode(1, Comment("a")), NewNode(2, Comment("b"))];
    var other := [root.(firstChild := Some(1), lastChild := Some(1)),
                  NewNode(1, Fragment).(parent := Some(0), firstChild := Some(2), lastChild := Some(2)),
                  NewNode(2, Fragment).(parent := Some(1), firstChild := Some(3), lastChild := Some(3)),
                  NewNode(3, Text("x")).(parent := Some(2))];
    assert Ends(dest, None, Parent, 2) && Ends(dest, None, Next, 2);
    assert Ends(dest, Some(0), Parent, 3) && Ends(dest, Some(1), Parent, 3) && Ends(dest, Some(2), Parent, 3);
    assert Ends(dest, Some(0), Next, 3) && Ends(dest, Some(1), Next, 3) && Ends(dest, Some(2), Next, 3);
    assert Ends(other, Some(0), Parent, 1);
    assert Ends(other, Some(1), Parent, 2);
    assert Ends(other, Some(2), Parent, 3);
    assert Ends(other, Some(3), Parent, 4);
    assert Ends(other, None, Next, 3);
    assert Ends(other, Some(0), Next, 4) && Ends(other, Some(1), Next, 4);
    assert Ends(other, Some(2), Next, 4) && Ends(other, Some(3), Next, 4);
    var r := Merged(dest, other);
    assert r[3] == Adjusted(other[3], 0);
    assert !NodeWellLinked(r, 3);
  }

  // ----- copy_node -----

  /** The nodes `copy_node` appends for the subtree of `id` in `source`, numbered from `base`. */
  function Copy(source: seq<TreeNode>, id: NodeId, fuel: nat, base: nat): seq<TreeNode>
  {
    CopyOrder(source, Numbering(source, id, fuel), base)
  }

  /** `copy_tree_nodes` for the ids of `order`, numbered from `base` in that order. */
  function CopyOrder(source: seq<TreeNode>, order: seq<NodeId>, base: nat): seq<TreeNode>
  {
    CopyTreeNodes(source, MapOf(order, base), order, base)
  }

  /** The ids a stack of pending nodes still has to number, the top (last) entry first. */
  ghost function StackKids(nodes: seq<TreeNode>, ops: seq<NodeId>, fuels: seq<nat>): seq<NodeId>
    requires |ops| == |fuels|
    decreases |ops|
  {
    if ops == [] then []
    else Kids(nodes, ops[|ops| - 1], fuels[|ops| - 1]) + StackKids(nodes, ops[..|ops| - 1], fuels[..|ops| - 1])
  }

  lemma StackKidsSnoc(nodes: seq<TreeNode>, ops: seq<NodeId>, fuels: seq<nat>, c: NodeId, g: nat)
    requires |ops| == |fuels|
    ensures StackKids(nodes, ops + [c], fuels + [g]) == Kids(nodes, c, g) + StackKids(nodes, ops, fuels)
  {
    assert (ops + [c])[..|ops|] == ops;
    assert (fuels + [g])[..|fuels|] == fuels;
  }

  /** Pushing children reversed puts the first child on top: its ids are numbered first. */
  lemma {:induction false} PushKidsReversed(nodes: seq<TreeNode>, ops: seq<NodeId>, fuels: seq<nat>, cs: seq<NodeId>, g: nat)
    requires |ops| == |fuels|
    ensures StackKids(nodes, ops + Reverse(cs), fuels + Ops.Repeat(g, |cs|))
         == ForestKids(nodes, cs, g) + StackKids(nodes, ops, fuels)
    decreases |cs|
  {
    if cs == [] {
      assert ops + Reverse(cs) == ops;
      assert fuels + Ops.Repeat(g, |cs|) == fuels;
    } else {
      var rest := cs[1..];
      var o2 := ops + Reverse(rest);
      var f2 := fuels + Ops.Repeat(g, |rest|);
      assert ops + Reverse(cs) == o2 + [cs[0]];
      assert fuels + Ops.Repeat(g, |cs|) == f2 + [g];
      PushKidsReversed(nodes, ops, fuels, rest, g);
      StackKidsSnoc(nodes, o2, f2, cs[0], g);
      ConcatAssoc(Kids(nodes, cs[0], g), ForestKids(nodes, rest, g), StackKids(nodes, ops, fuels));
    }
  }

  /** `MapOf` grows by one entry per numbered id. */
  lemma MapOfSnoc(order: seq<NodeId>, c: NodeId, base: nat)
    ensures MapOf(order + [c], base) == MapOf(order, base)[c := base + |order|]
  {
    assert (order + [c])[..|order|] == order;
  }

  /**
   * `copy_node` on every node of `ids` in turn, numbering from `base`: the
   * appended nodes, and the id each call returns.
   */
  function Copies(source: seq<TreeNode>, ids: seq<NodeId>, fuel: nat, base: nat): (r: (seq<TreeNode>, seq<NodeId>))
    ensures |r.1| == |ids|
  {
    CopyOrders(source, Numberings(source, ids, fuel), base)
  }

  /** The numbering order of each node of `ids`. */
  function Numberings(source: seq<TreeNode>, ids: seq<NodeId>, fuel: nat): (r: seq<seq<NodeId>>)
    ensures |r| == |ids| && forall k :: 0 <= k < |ids| ==> r[k] == Numbering(source, ids[k], fuel)
  {
    seq(|ids|, k requires 0 <= k < |ids| => Numbering(source, ids[k], fuel))
  }

  /** One `copy_tree_nodes` block per order, each numbered after the blocks before it. */
  function CopyOrders(source: seq<TreeNode>, orders: seq<seq<NodeId>>, base: nat): (r: (seq<TreeNode>, seq<NodeId>))
    ensures |r.1| == |orders|
    decreases |orders|
  {
    if orders == [] then ([], [])
    else
      var front := CopyOrders(source, orders[..|orders| - 1], base);
      var start := base + |front.0|;
      (front.0 + CopyOrder(source, orders[|orders| - 1], start), front.1 + [start])
  }

  /** One copied subtree of a well-formed source, numbered from `start`: its first node is the copy of the root. */
  lemma CopyBlock(source: seq<TreeNode>, x: NodeId, fuel: nat, start: nat)
    requires WellFormed(source) && x < |source|
    ensures var c := Copy(source, x, fuel, start);
      && |c| >= 1 && c[0].data == source[x].data && Detached(c[0])
      && forall j :: 0 <= j < |c| ==> c[j].id == start + j
  {
    var order := Numbering(source, x, fuel);
    CopyWellFormed(source, x, fuel, start);
    CopyDistinct(source, order, start);
  }

  lemma CopyOrdersSnocNodes(source: seq<TreeNode>, orders: seq<seq<NodeId>>, i: nat, base: nat)
    requires i < |orders|
    ensures CopyOrders(source, orders[..i + 1], base).0
      == CopyOrders(source, orders[..i], base).0 + CopyOrder(source, orders[i], base + |CopyOrders(source, orders[..i], base).0|)
  {
    assert orders[..i + 1][..i] == orders[..i];
  }

  lemma CopyOrdersSnocIds(source: seq<TreeNode>, orders: seq<seq<NodeId>>, i: nat, base: nat)
    requires i < |orders|
    ensures CopyOrders(source, orders[..i + 1], base).1
      == CopyOrders(source, orders[..i], base).1 + [base + |CopyOrders(source, orders[..i], base).0|]
  {
    assert orders[..i + 1][..i] == orders[..i];
  }

  /**
   * The nodes appended for `ids`, with the index `starts[k]` of the copy of
   * `ids[k]`: every node sits at the index equal to its id (counting from
   * `base`), and each copied root has its source's payload and no parent or
   * siblings.
   */
  ghost predicate Blocks(source: seq<TreeNode>, ids: seq<NodeId>, r: seq<TreeNode>, starts: seq<NodeId>, base: nat)
  {
    && |starts| == |ids|
    && (forall j :: 0 <= j < |r| ==> r[j].id == base + j)
    && (forall k :: 0 <= k < |ids| ==>
          && base <= starts[k] < base + |r| && ids[k] < |source|
          && r[starts[k] - base].data == source[ids[k]].data && Detached(r[starts[k] - base]))
  }

  lemma BlocksSnoc(source: seq<TreeNode>, ids: seq<NodeId>, front: seq<TreeNode>, starts: seq<NodeId>, c: seq<TreeNode>, base: nat)
    requires ids != [] && Blocks(source, ids[..|ids| - 1], front, starts, base)
    requires var x := ids[|ids| - 1];
      && x < |source| && |c| >= 1 && c[0].data == source[x].data && Detached(c[0])
      && forall j :: 0 <= j < |c| ==> c[j].id == base + |front| + j
    ensures Blocks(source, ids, front + c, starts + [base + |front|], base)
  {
    var n := |ids| - 1;
    var r := front + c;
    var starts' := starts + [base + |front|];
    forall j | 0 <= j < |r|
      ensures r[j].id == base + j
    {
      if j >= |front| {
        assert r[j] == c[j - |front|];
      } else {
        assert r[j] == front[j];
      }
    }
    forall k | 0 <= k < |ids|
      ensures && base <= starts'[k] < base + |r| && ids[k] < |source|
        && r[starts'[k] - base].data == source[ids[k]].data && Detached(r[starts'[k] - base])
    {
      if k < n {
        assert starts'[k] == starts[k] && ids[k] == ids[..n][k];
        assert r[starts'[k] - base] == front[starts[k] - base];
      } else {
        assert r[starts'[k] - base] == c[0];
      }
    }
  }

  /** The nodes appended after one more `copy_node` call of `copy_nodes_with_fn`, numbered from `start`. */
  lemma CopiesNodesStep(source: seq<TreeNode>, orders: seq<seq<NodeId>>, i: nat, j: nat, base: nat, front: seq<TreeNode>, c: seq<TreeNode>, start: nat)
    requires i < |orders| && j == i + 1 && front == CopyOrders(source, orders[..i], base).0
    requires start == base + |front| && c == CopyOrder(source, orders[i], start)
    ensures front + c == CopyOrders(source, orders[..j], base).0
  {
    CopyOrdersSnocNodes(source, orders, i, base);
  }

  /** The ids handed to the callback after one more `copy_node` call, which returned `start`. */
  lemma CopiesIdsStep(source: seq<TreeNode>, orders: seq<seq<NodeId>>, i: nat, j: nat, base: nat, newIds: seq<NodeId>, start: nat)
    requires i < |orders| && j == i + 1 && newIds == CopyOrders(source, orders[..i], base).1
    requires start == base + |CopyOrders(source, orders[..i], base).0|
    ensures newIds + [start] == CopyOrders(source, orders[..j], base).1
  {
    CopyOrdersSnocIds(source, orders, i, base);
  }

  /** The ids of a well-formed source that `copy_nodes_with_fn` can copy. */
  ghost predicate SoundIds(source: seq<TreeNode>, ids: seq<NodeId>)
  {
    WellFormed(source) && forall k :: 0 <= k < |ids| ==> ids[k] < |source|
  }

  /**
   * The state of the `copy_nodes_with_fn` loop after `i` calls: what has been
   * appended and the ids handed out are those of the first `i` numberings,
   * and on a well-formed source they form one block per copied node.
   */
  ghost predicate CopiesState(source: seq<TreeNode>, ids: seq<NodeId>, fuel: nat, orders: seq<seq<NodeId>>, i: nat,
                              copied: seq<TreeNode>, newIds: seq<NodeId>, base: nat)
  {
    && i <= |ids|
    && orders == Numberings(source, ids, fuel)
    && copied == CopyOrders(source, orders[..i], base).0
    && newIds == CopyOrders(source, orders[..i], base).1
    && (SoundIds(source, ids) ==> Blocks(source, ids[..i], copied, newIds, base))
  }

  lemma CopiesStart(source: seq<TreeNode>, ids: seq<NodeId>, fuel: nat, orders: seq<seq<NodeId>>, base: nat)
    requires orders == Numberings(source, ids, fuel)
    ensures CopiesState(source, ids, fuel, orders, 0, [], [], base)
  {
    assert orders[..0] == [] && ids[..0] == [];
  }

  /** One more `copy_node` call, which returned `start`, advances the loop state. */
  lemma CopiesAdvance(source: seq<TreeNode>, ids: seq<NodeId>, fuel: nat, orders: seq<seq<NodeId>>, i: nat, j: nat,
                      copied: seq<TreeNode>, newIds: seq<NodeId>, c: seq<TreeNode>, start: nat, base: nat)
    requires CopiesState(source, ids, fuel, orders, i, copied, newIds, base)
    requires i < |ids| && j == i + 1 && start == base + |copied| && c == Copy(source, ids[i], fuel, start)
    ensures CopiesState(source, ids, fuel, orders, j, copied + c, newIds + [start], base)
  {
    assert orders[i] == Numbering(source, ids[i], fuel);
    CopiesNodesStep(source, orders, i, j, base, copied, c, start);
    CopiesIdsStep(source, orders, i, j, base, newIds, start);
    if SoundIds(source, ids) {
      CopyBlock(source, ids[i], fuel, start);
      BlocksStep(source, ids, i, j, copied, newIds, c, base, start);
    }
  }

  lemma CopiesEnd(source: seq<TreeNode>, ids: seq<NodeId>, fuel: nat, orders: seq<seq<NodeId>>,
                  copied: seq<TreeNode>, newIds: seq<NodeId>, base: nat)
    requires CopiesState(source, ids, fuel, orders, |ids|, copied, newIds, base)
    ensures copied == Copies(source, ids, fuel, base).0 && newIds == Copies(source, ids, fuel, base).1
    ensures SoundIds(source, ids) ==> Blocks(source, ids, copied, newIds, base)
  {
    assert orders[..|ids|] == orders && ids[..|ids|] == ids;
  }

  /** One `copy_node` call of `copy_nodes_with_fn` on a well-formed source appends one more block. */
  lemma BlocksStep(source: seq<TreeNode>, ids: seq<NodeId>, i: nat, j: nat, copied: seq<TreeNode>, starts: seq<NodeId>, c: seq<TreeNode>, base: nat, start: nat)
    requires i < |ids| && j == i + 1 && ids[i] < |source| && Blocks(source, ids[..i], copied, starts, base)
    requires |c| >= 1 && c[0].data == source[ids[i]].data && Detached(c[0])
    requires start == base + |copied| && forall j :: 0 <= j < |c| ==> c[j].id == start + j
    ensures Blocks(source, ids[..j], copied + c, starts + [start], base)
  {
    assert ids[..i + 1][..i] == ids[..i];
    BlocksSnoc(source, ids[..i + 1], copied, starts, c, base);
  }

  /**
   * The state of the `ops` loop of `copy_node`: every pending node is
   * bounded at its fuel, and the ids numbered so far followed by those the
   * stack still yields make up the numbering order.
   */
  ghost predicate CopyStack(source: seq<TreeNode>, ops: seq<NodeId>, fuels: seq<nat>, numbered: seq<NodeId>, target: seq<NodeId>)
  {
    && |fuels| == |ops|
    && (forall k :: 0 <= k < |ops| ==> Bounded(source, ops[k], fuels[k]))
    && numbered + StackKids(source, ops, fuels) == target
  }

  lemma CopyStackStart(source: seq<TreeNode>, id: NodeId, fuel: nat)
    requires Bounded(source, id, fuel)
    ensures CopyStack(source, [id], [fuel], [id], Numbering(source, id, fuel))
  {
    StackKidsSnoc(source, [], [], id, fuel);
    assert [id] == [] + [id] && [fuel] == [] + [fuel];
  }

  lemma CopyStackDone(source: seq<TreeNode>, numbered: seq<NodeId>, target: seq<NodeId>)
    requires CopyStack(source, [], [], numbered, target)
    ensures numbered == target
  {
  }

  /**
   * One round of the `ops` loop: pop the top node, number its children and
   * push them reversed, so that the first child is popped next.
   */
  lemma CopyPop(source: seq<TreeNode>, ops: seq<NodeId>, fuels: seq<nat>, numbered: seq<NodeId>, target: seq<NodeId>)
    requires CopyStack(source, ops, fuels, numbered, target) && ops != []
    ensures var n := |ops| - 1;
      var cs := Children(source, ops[n]);
      var h := if fuels[n] > 0 then fuels[n] - 1 else 0;
      && CopyStack(source, ops[..n] + Reverse(cs), fuels[..n] + Ops.Repeat(h, |cs|), numbered + cs, target)
      && |numbered| <= |target| && |numbered + cs| <= |target|
  {
    var n := |ops| - 1;
    var op, g := ops[n], fuels[n];
    assert Bounded(source, op, g);
    var children := Children(source, op);
    var h: nat := if g > 0 then g - 1 else 0;
    var ops2, fuels2 := ops[..n] + Reverse(children), fuels[..n] + Ops.Repeat(h, |children|);
    PopKids(source, ops, fuels);
    PushBounded(source, ops[..n], fuels[..n], children, h);
    var rest := StackKids(source, ops2, fuels2);
    ConcatAssoc(numbered, children, rest);
  }

  /** Popping the top node and pushing its children reversed keeps the ids the stack yields. */
  lemma PopKids(source: seq<TreeNode>, ops: seq<NodeId>, fuels: seq<nat>)
    requires |ops| == |fuels| && ops != [] && Bounded(source, ops[|ops| - 1], fuels[|ops| - 1])
    ensures var n := |ops| - 1;
      var cs := Children(source, ops[n]);
      var h := if fuels[n] > 0 then fuels[n] - 1 else 0;
      StackKids(source, ops, fuels) == cs + StackKids(source, ops[..n] + Reverse(cs), fuels[..n] + Ops.Repeat(h, |cs|))
      && (forall k :: 0 <= k < |cs| ==> Bounded(source, cs[k], h))
  {
    var n := |ops| - 1;
    var op, g := ops[n], fuels[n];
    var prefix, prefixFuels := ops[..n], fuels[..n];
    assert ops == prefix + [op] && fuels == prefixFuels + [g];
    StackKidsSnoc(source, prefix, prefixFuels, op, g);
    var children := Children(source, op);
    var h: nat := if g > 0 then g - 1 else 0;
    PushKidsReversed(source, prefix, prefixFuels, children, h);
    KidsSplit(source, op, g);
    var t := StackKids(source, prefix, prefixFuels);
    var f := ForestKids(source, children, h);
    ConcatAssoc(children, f, t);
  }

  lemma SnocEq<T>(o: seq<T>, front: seq<T>, c: seq<T>, s: seq<T>, whole: seq<T>)
    requires s == o + front && whole == front + c
    ensures s + c == o + whole
  {
    ConcatAssoc(o, front, c);
  }

  /** The ids numbered below a bounded node: its children, then theirs, one fuel lower. */
  lemma KidsSplit(source: seq<TreeNode>, op: NodeId, g: nat)
    requires Bounded(source, op, g)
    ensures var cs := Children(source, op);
      var h := if g > 0 then g - 1 else 0;
      Kids(source, op, g) == cs + ForestKids(source, cs, h)
      && (forall k :: 0 <= k < |cs| ==> Bounded(source, cs[k], h))
  {
    var children := Children(source, op);
    var h: nat := if g > 0 then g - 1 else 0;
    if children != [] {
      assert g > 0;
      forall k | 0 <= k < |children|
        ensures Bounded(source, children[k], h)
      {
        AllBoundedAt(source, children, h, k);
      }
    } else {
      assert ForestKids(source, children, h) == [];
    }
  }

  /** Pushing bounded children onto a stack of bounded entries. */
  lemma PushBounded(source: seq<TreeNode>, ops: seq<NodeId>, fuels: seq<nat>, cs: seq<NodeId>, h: nat)
    requires |ops| == |fuels| && forall k :: 0 <= k < |ops| ==> Bounded(source, ops[k], fuels[k])
    requires forall k :: 0 <= k < |cs| ==> Bounded(source, cs[k], h)
    ensures var ops2, fuels2 := ops + Reverse(cs), fuels + Ops.Repeat(h, |cs|);
      forall k :: 0 <= k < |ops2| ==> Bounded(source, ops2[k], fuels2[k])
  {
    var ops2, fuels2 := ops + Reverse(cs), fuels + Ops.Repeat(h, |cs|);
    forall k | 0 <= k < |ops2|
      ensures Bounded(source, ops2[k], fuels2[k])
    {
      if k < |ops| {
        assert ops2[k] == ops[k] && fuels2[k] == fuels[k];
      } else {
        assert ops2[k] == Reverse(cs)[k - |ops|] == cs[|cs| - 1 - (k - |ops|)];
        assert fuels2[k] == h;
      }
    }
  }

  /** The inner loop of `copy_node`: each child takes the next id, in order. */
  method NumberChildren(children: seq<NodeId>, numbered: seq<NodeId>, idMap: map<NodeId, NodeId>, nextIdVal: nat, ghost base: nat)
    returns (numbered': seq<NodeId>, idMap': map<NodeId, NodeId>, nextIdVal': nat)
    requires idMap == MapOf(numbered, base) && nextIdVal + 1 == base + |numbered|
    ensures numbered' == numbered + children
    ensures idMap' == MapOf(numbered', base) && nextIdVal' + 1 == base + |numbered'|
  {
    numbered', idMap', nextIdVal' := numbered, idMap, nextIdVal;
    for i := 0 to |children|
      invariant numbered' == numbered + children[..i]
      invariant idMap' == MapOf(numbered', base) && nextIdVal' + 1 == base + |numbered'|
    {
      nextIdVal' := nextIdVal' + 1;
      MapOfSnoc(numbered', children[i], base);
      idMap' := idMap'[children[i] := nextIdVal'];
      numbered' := numbered' + [children[i]];
      assert children[..i + 1] == children[..i] + [children[i]];
    }
    assert children[..|children|] == children;
  }

  class Tree {
    var nodes: seq<TreeNode>

    /** `Tree::new`: a vector holding the root alone, with id 0. */
    constructor (root: NodeData)
      ensures nodes == [NewNode(0, root)]
      ensures WellFormed(nodes)
    {
      nodes := [NewNode(0, root)];
      SingleRootWellFormed(root);
    }

    /** `Tree::root_id`: id 0, which on a well-formed tree is a node without parent. */
    function RootId(): (r: NodeId)
      reads this
      ensures WellFormed(nodes) ==> r < |nodes| && nodes[r].id == r && nodes[r].parent.None?
    {
      assert WellFormed(nodes) ==> NodeWellLinked(nodes, 0);
      0
    }

    /** `Tree::get_new_id`: the length of the vector, an id no node has yet. */
    function GetNewId(): (r: NodeId)
      reads this
      ensures IdsMatch(nodes) ==> forall i :: 0 <= i < |nodes| ==> nodes[i].id != r
      ensures r >= |nodes|
    {
      |nodes|
    }

    /** `Tree::get`: a reference to `id` exactly when the vector holds a node there. */
    function Get(id: NodeId): (r: Option<NodeId>)
      reads this
      ensures r.Some? <==> id < |nodes|
      ensures r.Some? ==> r.value == id && (IdsMatch(nodes) ==> nodes[r.value].id == id)
    {
      if id < |nodes| then Some(id) else None
    }

    /** `Tree::create_node`: push an unlinked node holding `data`, with the next free id. */
    method CreateNode(data: NodeData) returns (id: NodeId)
      modifies this
      ensures id == old(GetNewId()) && nodes == old(nodes) + [NewNode(id, data)]
      ensures Unlinked(nodes[id]) && nodes[id].data == data
      ensures old(IdsMatch(nodes)) ==> IdsMatch(nodes)
    {
      id := |nodes|;
      nodes := nodes + [NewNode(id, data)];
    }

    /** `Tree::new_element`: a new unlinked element without namespace or attributes. */
    method NewElement(name: string) returns (id: NodeId)
      modifies this
      ensures id == old(|nodes|)
      ensures nodes == old(nodes) + [NewNode(id, ElementData(Element(QualName(None, "", name), [], None, false)))]
      ensures old(IdsMatch(nodes)) ==> IdsMatch(nodes)
    {
      var el := Element(QualName(None, "", name), [], None, false);
      id := CreateNode(ElementData(el));
    }

    /** `Tree::new_text`: a new unlinked text node. */
    method NewText(text: string) returns (id: NodeId)
      modifies this
      ensures id == old(|nodes|) && nodes == old(nodes) + [NewNode(id, Text(text))]
      ensures old(IdsMatch(nodes)) ==> IdsMatch(nodes)
    {
      id := CreateNode(Text(text));
    }

    /** `borrow_mut()`: the vector as a mutable slice. */
    method Borrow() returns (a: array<TreeNode>)
      ensures fresh(a) && a[..] == nodes
    {
      var s := nodes;
      a := new TreeNode[|s|](i requires 0 <= i < |s| => s[i]);
    }

    /** `Tree::last_sibling_of`: a cursor along next-sibling links through `next_sibling_of`. */
    method LastSiblingOf(id: NodeId) returns (r: Option<NodeId>)
      requires id < |nodes| ==> Stops(nodes, nodes[id].nextSibling, Next, |nodes|)
      ensures r == LastSibling(nodes, id)
    {
      var nextNode := if id < |nodes| then nodes[id].nextSibling else None;
      var lastNode: Option<NodeId> := None;
      ghost var fuel: nat := |nodes| + 1;
      while nextNode.Some?
        invariant LastSibling(nodes, id) == LastLink(nodes, nextNode, lastNode, fuel)
        invariant nextNode.Some? ==> fuel >= 1 && Stops(nodes, nextNode, Next, fuel - 1)
        decreases fuel
      {
        var c := nextNode.value;
        var n := if c < |nodes| then nodes[c].nextSibling else None;
        lastNode := nextNode;
        nextNode := n;
        fuel := fuel - 1;
      }
      r := lastNode;
    }

    /** `Tree::append_child_data_of`. */
    method AppendChildDataOf(id: NodeId, data: NodeData)
      modifies this
      ensures nodes == AppendedChildData(old(nodes), id, data)
      ensures old(IdsMatch(nodes)) ==> IdsMatch(nodes)
    {
      if IdsMatch(nodes) {
        AppendDataKeepsIdsMatch(nodes, id, data);
      }
      nodes := Ops.AppendChildDataOf(nodes, id, data);
    }

    /** `Tree::append_child_of`. */
    method AppendChildOf(id: NodeId, newChildId: NodeId)
      modifies this
      ensures nodes == AppendedChild(old(nodes), id, newChildId)
      ensures old(IdsMatch(nodes)) ==> IdsMatch(nodes)
    {
      var a := Borrow();
      Ops.AppendChildOf(a, id, newChildId);
      nodes := a[..];
    }

    /** `Tree::prepend_child_of`. */
    method PrependChildOf(id: NodeId, newChildId: NodeId)
      modifies this
      ensures nodes == PrependedChild(old(nodes), id, newChildId)
      ensures old(IdsMatch(nodes)) ==> IdsMatch(nodes)
    {
      var a := Borrow();
      Ops.PrependChildOf(a, id, newChildId);
      nodes := a[..];
    }

    /** `Tree::remove_from_parent`: delegates to `TreeNodeHandler::remove_from_parent`. */
    method RemoveFromParent(id: NodeId)
      modifies this
      ensures nodes == RemovedFromParent(old(nodes), id)
      ensures old(IdsMatch(nodes)) ==> IdsMatch(nodes)
      ensures old(WellFormed(nodes)) ==> WellFormed(nodes)
    {
      if WellFormed(nodes) {
        RemovePreservesWellFormed(nodes, id);
      }
      var a := Borrow();
      Handler.RemoveFromParent(id, a);
      nodes := a[..];
    }

    /** `Tree::insert_before_of`: detach the new sibling, then place it before `id`. */
    method InsertBeforeOf(id: NodeId, newSiblingId: NodeId)
      modifies this
      ensures nodes == InsertedBefore(old(nodes), id, newSiblingId)
      ensures old(IdsMatch(nodes)) ==> IdsMatch(nodes)
    {
      var a := Borrow();
      Ops.InsertBeforeOf(a, id, newSiblingId);
      nodes := a[..];
    }

    /** `Tree::insert_after_of`: detach the new sibling, then place it after `id`. */
    method InsertAfterOf(id: NodeId, newSiblingId: NodeId)
      modifies this
      ensures nodes == InsertedAfter(old(nodes), id, newSiblingId)
      ensures old(IdsMatch(nodes)) ==> IdsMatch(nodes)
    {
      var a := Borrow();
      Ops.InsertAfterOf(a, id, newSiblingId);
      nodes := a[..];
    }

    /** `Tree::reparent_children_of`: the loop does not advance at an id outside the vector. */
    method ReparentChildrenOf(id: NodeId, newParentId: Option<NodeId>)
      requires id < |nodes| ==> Ends(nodes, nodes[id].firstChild, Next, |nodes|)
      modifies this
      ensures nodes == Reparented(old(nodes), id, newParentId)
      ensures old(IdsMatch(nodes)) ==> IdsMatch(nodes)
    {
      var a := Borrow();
      Ops.ReparentChildrenOf(a, id, newParentId);
      nodes := a[..];
    }

    /** `Tree::text_of`: delegates to `TreeNodeHandler::text_of`. */
    method TextOf(id: NodeId, ghost fuel: nat) returns (text: string)
      requires Finite(nodes, id, fuel)
      ensures text == TextUnder(nodes, id, fuel)
    {
      var a := Borrow();
      text := Handler.TextOf(id, a, fuel);
    }

    /**
     * `Tree::merge`: `fix_node` every node of `other` from index 3 on, then
     * append those nodes.  `offset - skip` underflows on a vector of fewer
     * than three nodes.
     */
    method Merge(other: seq<TreeNode>)
      requires |nodes| >= 3
      modifies this
      ensures nodes == Merged(old(nodes), other)
    {
      var otherNodes := new TreeNode[|other|](i requires 0 <= i < |other| => other[i]);
      var offset := |nodes|;
      var skip := 3;
      var idOffset := offset - skip;
      var k := skip;
      while k < otherNodes.Length
        invariant nodes == old(nodes)
        invariant skip <= k && (otherNodes.Length >= skip ==> k <= otherNodes.Length)
        invariant forall j :: 0 <= j < otherNodes.Length ==>
          otherNodes[j] == if skip <= j < k then Adjusted(other[j], idOffset) else other[j]
      {
        otherNodes[k] := Adjusted(otherNodes[k], idOffset);
        k := k + 1;
      }
      var rest := if otherNodes.Length >= skip then otherNodes[skip..] else [];
      assert rest == Shifted(Skipped(other), idOffset);
      nodes := nodes + rest;
    }

    /** `Tree::merge_with_fn`: the id handed to the callback is the first merged node's. */
    method MergeWithFn(other: seq<TreeNode>) returns (newNodeId: NodeId)
      requires |nodes| >= 3
      modifies this
      ensures newNodeId == old(|nodes|) && nodes == Merged(old(nodes), other)
      ensures |other| > 3 && IdsMatch(other) ==> newNodeId < |nodes| && nodes[newNodeId].id == newNodeId
    {
      newNodeId := GetNewId();
      Merge(other);
      MergeEffect(old(nodes), other);
    }

    /**
     * `Tree::copy_node`: number the subtree of `id` (an `ops` stack; each
     * popped node numbers its children in order and pushes them reversed),
     * then append the nodes `copy_tree_nodes` builds from `id_map`.  `source`
     * is the vector of the tree `id` belongs to, read before the append.
     */
    method CopyNode(source: seq<TreeNode>, id: NodeId, ghost fuel: nat) returns (baseId: NodeId)
      requires Bounded(source, id, fuel)
      modifies this
      ensures baseId == old(|nodes|) && nodes == old(nodes) + Copy(source, id, fuel, baseId)
    {
      baseId := GetNewId();
      var nextIdVal := baseId;
      var idMap: map<NodeId, NodeId> := map[id := nextIdVal];
      var numbered: seq<NodeId> := [id];
      var ops: seq<NodeId> := [id];
      ghost var fuels: seq<nat> := [fuel];
      ghost var target := Numbering(source, id, fuel);
      assert MapOf(numbered, baseId) == map[id := baseId] by {
        assert numbered[..0] == [];
      }
      CopyStackStart(source, id, fuel);
      while ops != []
        invariant nodes == old(nodes)
        invariant CopyStack(source, ops, fuels, numbered, target)
        invariant idMap == MapOf(numbered, baseId) && nextIdVal + 1 == baseId + |numbered|
        decreases |target| - |numbered|, |ops|
      {
        var op := ops[|ops| - 1];
        ghost var g := fuels[|fuels| - 1];
        ghost var h: nat := if g > 0 then g - 1 else 0;
        CopyPop(source, ops, fuels, numbered, target);
        var children := Children(source, op);
        ops := ops[..|ops| - 1];
        fuels := fuels[..|fuels| - 1];
        numbered, idMap, nextIdVal := NumberChildren(children, numbered, idMap, nextIdVal, baseId);
        ops := ops + Reverse(children);
        fuels := fuels + Ops.Repeat(h, |children|);
      }
      CopyStackDone(source, numbered, target);
      assert numbered == target;
      var newNodes := CopyTreeNodes(source, idMap, numbered, baseId);
      nodes := nodes + newNodes;
    }

    /**
     * `Tree::copy_nodes_with_fn`: `copy_node` on each node in turn; the
     * results are the ids handed to the callback, one per node.
     */
    method CopyNodesWithFn(source: seq<TreeNode>, ids: seq<NodeId>, ghost fuel: nat) returns (newIds: seq<NodeId>)
      requires forall k :: 0 <= k < |ids| ==> Bounded(source, ids[k], fuel)
      modifies this
      ensures nodes == old(nodes) + Copies(source, ids, fuel, old(|nodes|)).0
      ensures newIds == Copies(source, ids, fuel, old(|nodes|)).1
      ensures SoundIds(source, ids) ==> Blocks(source, ids, nodes[old(|nodes|)..], newIds, old(|nodes|))
    {
      ghost var base := |nodes|;
      ghost var o := nodes;
      ghost var orders := Numberings(source, ids, fuel);
      ghost var copied: seq<TreeNode> := [];
      newIds := [];
      var i := 0;
      CopiesStart(source, ids, fuel, orders, base);
      while i < |ids|
        invariant nodes == o + copied
        invariant CopiesState(source, ids, fuel, orders, i, copied, newIds, base)
      {
        var newNodeId := CopyNode(source, ids[i], fuel);
        ghost var c := Copy(source, ids[i], fuel, newNodeId);
        var next := i + 1;
        CopiesAdvance(source, ids, fuel, orders, i, next, copied, newIds, c, newNodeId, base);
        ConcatAssoc(o, copied, c);
        copied := copied + c;
        newIds := newIds + [newNodeId];
        i := next;
      }
      CopiesEnd(source, ids, fuel, orders, copied, newIds, base);
      assert nodes[base..] == copied;
    }
  }

  /**
   * `copy_node` on a well-formed source: the returned id is the index of the
   * copy's root, which has the payload of `id` and no parent or siblings,
   * and a tree whose ids equal indices keeps that property.
   */
  lemma CopyNodeDetachedRoot(nodes: seq<TreeNode>, source: seq<TreeNode>, id: NodeId, fuel: nat)
    requires IdsMatch(nodes) && WellFormed(source) && id < |source|
    ensures var r := nodes + Copy(source, id, fuel, |nodes|);
      && IdsMatch(r) && |nodes| < |r|
      && r[|nodes|].data == source[id].data && Detached(r[|nodes|])
  {
    CopyBlock(source, id, fuel, |nodes|);
  }
}
