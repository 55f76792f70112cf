/**
 * Subtrees of the arena: the text a subtree holds, and the bound that makes
 * a depth-first walk over it finite.  A walk descends through the child
 * chains `Children` (first child, then next siblings); `fuel` bounds the
 * depth, and `Finite` says that the bound is never hit at a node that still
 * has children.  On a well-formed arena a fuel of `|nodes|` always suffices.
 */
module Subtree {
  import opened Wrappers
  import opened Arena
  import opened Chains
  import opened Links
  import opened Invariant

  /**
   * The text `text_of` collects under `id`: a Text node's contents, the
   * texts of the children of a Document, Fragment or Element in sibling
   * order, and nothing for any other node or an id outside the vector.
   */
  function TextUnder(nodes: seq<TreeNode>, id: NodeId, fuel: nat): string
    decreases fuel, 0
  {
    if id >= |nodes| then ""
    else if nodes[id].data.Text? then nodes[id].data.contents
    else if MayHaveChildren(nodes[id]) && fuel > 0 then ForestText(nodes, Children(nodes, id), fuel - 1)
    else ""
  }

  function ForestText(nodes: seq<TreeNode>, ids: seq<NodeId>, fuel: nat): string
    decreases fuel, |ids|
  {
    if ids == [] then "" else TextUnder(nodes, ids[0], fuel) + ForestText(nodes, ids[1..], fuel)
  }

  /** The descent from `id` reaches no node with children once `fuel` is spent. */
  predicate Finite(nodes: seq<TreeNode>, id: NodeId, fuel: nat)
    decreases fuel, 0
  {
    id >= |nodes| || !MayHaveChildren(nodes[id]) || Children(nodes, id) == []
    || (fuel > 0 && AllFinite(nodes, Children(nodes, id), fuel - 1))
  }

  predicate AllFinite(nodes: seq<TreeNode>, ids: seq<NodeId>, fuel: nat)
    decreases fuel, |ids|
  {
    ids == [] || (Finite(nodes, ids[0], fuel) && AllFinite(nodes, ids[1..], fuel))
  }

  /** The number of nodes a bounded depth-first walk from `id` visits. */
  function Size(nodes: seq<TreeNode>, id: NodeId, fuel: nat): nat
    decreases fuel, 0
  {
    if id < |nodes| && MayHaveChildren(nodes[id]) && fuel > 0
    then 1 + ForestSize(nodes, Children(nodes, id), fuel - 1)
    else 1
  }

  function ForestSize(nodes: seq<TreeNode>, ids: seq<NodeId>, fuel: nat): nat
    decreases fuel, |ids|
  {
    if ids == [] then 0 else Size(nodes, ids[0], fuel) + ForestSize(nodes, ids[1..], fuel)
  }

  lemma {:induction false} AllFiniteAt(nodes: seq<TreeNode>, ids: seq<NodeId>, fuel: nat, k: nat)
    requires AllFinite(nodes, ids, fuel) && k < |ids|
    ensures Finite(nodes, ids[k], fuel)
    decreases k
  {
    if k > 0 {
      AllFiniteAt(nodes, ids[1..], fuel, k - 1);
    }
  }

  lemma {:induction false} AllFiniteFrom(nodes: seq<TreeNode>, ids: seq<NodeId>, fuel: nat)
    requires forall k :: 0 <= k < |ids| ==> Finite(nodes, ids[k], fuel)
    ensures AllFinite(nodes, ids, fuel)
    decreases |ids|
  {
    if ids != [] {
      AllFiniteFrom(nodes, ids[1..], fuel);
    }
  }

  /** Once a descent is finite, extra fuel changes neither its text nor its size. */
  lemma {:induction false} TextUnderFuel(nodes: seq<TreeNode>, id: NodeId, f: nat, g: nat)
    requires Finite(nodes, id, f) && f <= g
    ensures TextUnder(nodes, id, f) == TextUnder(nodes, id, g)
    decreases f, 0
  {
    if id < |nodes| && !nodes[id].data.Text? && MayHaveChildren(nodes[id]) && Children(nodes, id) != [] {
      ForestTextFuel(nodes, Children(nodes, id), f - 1, g - 1);
    }
  }

  lemma {:induction false} ForestTextFuel(nodes: seq<TreeNode>, ids: seq<NodeId>, f: nat, g: nat)
    requires AllFinite(nodes, ids, f) && f <= g
    ensures ForestText(nodes, ids, f) == ForestText(nodes, ids, g)
    decreases f, |ids|
  {
    if ids != [] {
      TextUnderFuel(nodes, ids[0], f, g);
      ForestTextFuel(nodes, ids[1..], f, g);
    }
  }

  /** Every node the next-sibling walk from `c` visits shares `c`'s parent. */
  lemma {:induction false} WalkShareParent(nodes: seq<TreeNode>, c: NodeId, fuel: nat)
    requires WellFormed(nodes) && c < |nodes|
    ensures var w := Walk(nodes, Some(c), Next, fuel);
      forall k :: 0 <= k < |w| ==> nodes[w[k]].parent == nodes[c].parent
    decreases fuel
  {
    if fuel > 0 {
      assert NodeWellLinked(nodes, c);
      var nx := nodes[c].nextSibling;
      var w := Walk(nodes, Some(c), Next, fuel);
      var rest := Walk(nodes, nx, Next, fuel - 1);
      assert w == [c] + rest;
      if nx.Some? {
        WalkShareParent(nodes, nx.value, fuel - 1);
        assert rest == Walk(nodes, Some(nx.value), Next, fuel - 1);
        assert forall k :: 0 <= k < |rest| ==> nodes[rest[k]].parent == nodes[nx.value].parent;
        forall k | 0 <= k < |w|
          ensures nodes[w[k]].parent == nodes[c].parent
        {
          if k > 0 {
            assert w[k] == rest[k - 1];
          }
        }
      }
    }
  }

  /** In a well-formed arena every child of `i` names `i` as its parent. */
  lemma ChildrenParented(nodes: seq<TreeNode>, i: NodeId)
    requires WellFormed(nodes) && i < |nodes|
    ensures forall k :: 0 <= k < |Children(nodes, i)| ==> nodes[Children(nodes, i)[k]].parent == Some(i)
  {
    assert NodeWellLinked(nodes, i);
    if nodes[i].firstChild.Some? {
      var f := nodes[i].firstChild.value;
      assert Children(nodes, i) == Walk(nodes, Some(f), Next, |nodes|);
      WalkShareParent(nodes, f, |nodes|);
    }
  }

  lemma {:induction false} FiniteByRank(nodes: seq<TreeNode>, id: NodeId, f: nat)
    requires WellFormed(nodes) && id < |nodes| && f + Rank(nodes, id, Parent) >= |nodes|
    ensures Finite(nodes, id, f)
    decreases f
  {
    var cs := Children(nodes, id);
    if MayHaveChildren(nodes[id]) && cs != [] {
      ChildrenParented(nodes, id);
      RankStep(nodes, cs[0], Parent);
      RankBounds(nodes, cs[0], Parent);
      assert f > 0;
      forall k | 0 <= k < |cs|
        ensures Finite(nodes, cs[k], f - 1)
      {
        RankStep(nodes, cs[k], Parent);
        RankBounds(nodes, cs[k], Parent);
        FiniteByRank(nodes, cs[k], f - 1);
      }
      AllFiniteFrom(nodes, cs, f - 1);
    }
  }

  /** On a well-formed arena a fuel of `|nodes|` bounds every descent. */
  lemma WellFormedFinite(nodes: seq<TreeNode>, id: NodeId)
    requires WellFormed(nodes)
    ensures Finite(nodes, id, |nodes|)
  {
    if id < |nodes| {
      RankBounds(nodes, id, Parent);
      FiniteByRank(nodes, id, |nodes|);
    }
  }

  /** `text_of` on a well-formed arena: the text under `id` with enough fuel for any depth. */
  function Text(nodes: seq<TreeNode>, id: NodeId): string
  {
    TextUnder(nodes, id, |nodes|)
  }

  /** No more fuel than `|nodes|` is ever needed on a well-formed arena. */
  lemma TextNeedsNoMoreFuel(nodes: seq<TreeNode>, id: NodeId, fuel: nat)
    requires WellFormed(nodes) && fuel >= |nodes|
    ensures TextUnder(nodes, id, fuel) == Text(nodes, id)
  {
    WellFormedFinite(nodes, id);
    TextUnderFuel(nodes, id, |nodes|, fuel);
  }

  /** A container's text is the concatenation of its children's texts, in sibling order. */
  lemma TextOfContainer(nodes: seq<TreeNode>, id: NodeId)
    requires WellFormed(nodes) && id < |nodes| && MayHaveChildren(nodes[id])
    ensures Text(nodes, id) == ForestText(nodes, Children(nodes, id), |nodes| - 1)
    ensures forall k :: 0 <= k < |Children(nodes, id)| ==>
      TextUnder(nodes, Children(nodes, id)[k], |nodes| - 1) == Text(nodes, Children(nodes, id)[k])
  {
    var cs := Children(nodes, id);
    if cs != [] {
      ChildrenParented(nodes, id);
      forall k | 0 <= k < |cs|
        ensures TextUnder(nodes, cs[k], |nodes| - 1) == Text(nodes, cs[k])
      {
        RankStep(nodes, cs[k], Parent);
        RankBounds(nodes, cs[k], Parent);
        RankBounds(nodes, id, Parent);
        FiniteByRank(nodes, cs[k], |nodes| - 1);
        TextUnderFuel(nodes, cs[k], |nodes| - 1, |nodes|);
      }
    }
  }
}
