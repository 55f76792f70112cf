/**
 * The child iterator of src/node/iters.rs: a cursor that starts at a node's
 * first child and follows next-sibling links, stopping at `None` or at an id
 * outside the vector.  It reads a snapshot of the vector that it never
 * changes.
 */
module Iters {
  import opened Wrappers
  import opened Arena
  import opened Chains
  import opened Invariant
  import opened Subtree

  /** The first child of `id`, or `None` when `id` is outside the vector. */
  function FirstChildOf(nodes: seq<TreeNode>, id: NodeId): Option<NodeId>
  {
    if id < |nodes| then nodes[id].firstChild else None
  }

  /** `ChildNodes`: the vector it borrows and the id it yields next. */
  class ChildNodes {
    const nodes: seq<TreeNode>
    var nextChildId: Option<NodeId>

    /** `ChildNodes::new` (and `child_nodes`, which only calls it). */
    constructor (nodes: seq<TreeNode>, nodeId: NodeId)
      ensures this.nodes == nodes && nextChildId == FirstChildOf(nodes, nodeId)
    {
      this.nodes := nodes;
      nextChildId := if nodeId < |nodes| then nodes[nodeId].firstChild else None;
    }

    /**
     * `ChildNodes::next`: an id inside the vector is yielded and the cursor
     * moves to its next sibling; at `None` or at an id outside the vector
     * nothing is yielded and the cursor stays where it is.
     */
    method Next() returns (item: Option<NodeId>)
      modifies this
      ensures var c := old(nextChildId);
        if c.Some? && c.value < |nodes| then
          item == c && nextChildId == nodes[c.value].nextSibling
        else
          item.None? && nextChildId == c
    {
      if nextChildId.None? {
        return None;
      }
      var currentId := nextChildId.value;
      if currentId < |nodes| {
        nextChildId := nodes[currentId].nextSibling;
        item := Some(currentId);
      } else {
        item := None;
      }
    }
  }

  /**
   * Draining `child_nodes(nodes, id)` until it yields `None`.  The source
   * iterator never stops on a cyclic sibling chain, so the chain must stop
   * within `|nodes|` steps; the ids yielded are then exactly `Children`.
   */
  method CollectChildNodes(nodes: seq<TreeNode>, id: NodeId) returns (ids: seq<NodeId>)
    requires Stops(nodes, FirstChildOf(nodes, id), Next, |nodes|)
    ensures ids == Children(nodes, id)
  {
    var it := new ChildNodes(nodes, id);
    ids := [];
    ghost var f: nat := |nodes|;
    while true
      invariant it.nodes == nodes
      invariant Stops(nodes, it.nextChildId, Next, f)
      invariant ids + Walk(nodes, it.nextChildId, Next, f) == Children(nodes, id)
      decreases f
    {
      ghost var cursor := it.nextChildId;
      var item := it.Next();
      if item.None? {
        assert Walk(nodes, cursor, Next, f) == [];
        assert ids + [] == ids;
        break;
      }
      assert Walk(nodes, cursor, Next, f) == [item.value] + Walk(nodes, it.nextChildId, Next, f - 1);
      ConcatAssoc(ids, [item.value], Walk(nodes, it.nextChildId, Next, f - 1));
      ids := ids + [item.value];
      f := f - 1;
    }
  }

  /**
   * A walk that ends visits a chain: it starts at `start`, each id links to
   * the next one, and the last one links nowhere.
   */
  lemma {:induction false} WalkLinked(nodes: seq<TreeNode>, start: Option<NodeId>, l: Link, fuel: nat)
    requires Ends(nodes, start, l, fuel)
    ensures var w := Walk(nodes, start, l, fuel);
      && (w == [] <==> start.None?)
      && (w != [] ==> Some(w[0]) == start && Get(nodes[w[|w| - 1]], l).None?)
      && (forall k :: 0 <= k < |w| - 1 ==> Get(nodes[w[k]], l) == Some(w[k + 1]))
    decreases fuel
  {
    if start.Some? {
      var c := start.value;
      var nx := Get(nodes[c], l);
      WalkLinked(nodes, nx, l, fuel - 1);
      var rest := Walk(nodes, nx, l, fuel - 1);
      var w := Walk(nodes, start, l, fuel);
      assert w == [c] + rest;
      forall k | 0 <= k < |w| - 1
        ensures Get(nodes[w[k]], l) == Some(w[k + 1])
      {
        if k > 0 {
          assert w[k] == rest[k - 1] && w[k + 1] == rest[k];
        }
      }
    }
  }

  /** On a well-formed arena the child chain of every node stops within `|nodes|` steps. */
  lemma ChildChainStops(nodes: seq<TreeNode>, id: NodeId)
    requires WellFormed(nodes)
    ensures Ends(nodes, FirstChildOf(nodes, id), Next, |nodes|)
    ensures Stops(nodes, FirstChildOf(nodes, id), Next, |nodes|)
  {
    if id < |nodes| {
      assert NodeWellLinked(nodes, id);
    }
    EndsStops(nodes, FirstChildOf(nodes, id), Next, |nodes|);
  }

  /**
   * On a well-formed arena the iterator yields the child chain of `id`: the
   * first child first, each next item the previous one's next sibling, every
   * item a child of `id`, and the last item the last child.  It yields
   * nothing exactly when `id` has no first child.
   */
  lemma ChildrenAreChain(nodes: seq<TreeNode>, id: NodeId)
    requires WellFormed(nodes) && id < |nodes|
    ensures var cs := Children(nodes, id);
      && (cs == [] <==> nodes[id].firstChild.None?)
      && (cs != [] ==> Some(cs[0]) == nodes[id].firstChild && Some(cs[|cs| - 1]) == nodes[id].lastChild)
      && (forall k :: 0 <= k < |cs| - 1 ==> nodes[cs[k]].nextSibling == Some(cs[k + 1]))
      && (forall k :: 0 <= k < |cs| ==> nodes[cs[k]].parent == Some(id))
  {
    var cs := Children(nodes, id);
    ChildChainStops(nodes, id);
    WalkLinked(nodes, nodes[id].firstChild, Next, |nodes|);
    ChildrenParented(nodes, id);
    if cs != [] {
      var last := cs[|cs| - 1];
      assert NodeWellLinked(nodes, last);
    }
  }
}
