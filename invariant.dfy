/**
 * The structural invariant of the arena: every node sits at the index equal
 * to its id, links stay inside the vector, sibling links are reciprocal and
 * shared by children of one parent, a parent's first and last child are the
 * two ends of its child chain, and no walk along parent or next-sibling
 * links cycles.  Nodes without a parent (orphans) are allowed anywhere but
 * at index 0, which is the root.  This is the invariant the library's
 * validator aims at; `remove_from_parent` preserves it.
 */
module Invariant {
  import opened Wrappers
  import opened Arena
  import opened Chains
  import opened Links

  predicate InRange(nodes: seq<TreeNode>, o: Option<NodeId>)
  {
    o.None? || o.value < |nodes|
  }

  /** Sibling links are reciprocal and join children of the same parent. */
  predicate SiblingsLinked(nodes: seq<TreeNode>, i: NodeId)
    requires i < |nodes|
    requires InRange(nodes, nodes[i].prevSibling) && InRange(nodes, nodes[i].nextSibling)
  {
    var n := nodes[i];
    && (n.nextSibling.Some? ==>
          nodes[n.nextSibling.value].prevSibling == Some(i) && nodes[n.nextSibling.value].parent == n.parent)
    && (n.prevSibling.Some? ==>
          nodes[n.prevSibling.value].nextSibling == Some(i) && nodes[n.prevSibling.value].parent == n.parent)
  }

  /** The first and last child point back at `i` and are the ends of a chain. */
  predicate ChildrenLinked(nodes: seq<TreeNode>, i: NodeId)
    requires i < |nodes|
    requires InRange(nodes, nodes[i].firstChild) && InRange(nodes, nodes[i].lastChild)
  {
    var n := nodes[i];
    && (n.firstChild.Some? ==>
          nodes[n.firstChild.value].parent == Some(i) && nodes[n.firstChild.value].prevSibling.None?)
    && (n.lastChild.Some? ==>
          nodes[n.lastChild.value].parent == Some(i) && nodes[n.lastChild.value].nextSibling.None?)
    && (n.firstChild.None? <==> n.lastChild.None?)
  }

  /** A child without a previous (next) sibling is its parent's first (last) child. */
  predicate ParentLinked(nodes: seq<TreeNode>, i: NodeId)
    requires i < |nodes| && InRange(nodes, nodes[i].parent)
  {
    var n := nodes[i];
    && (n.parent.Some? && n.prevSibling.None? ==> nodes[n.parent.value].firstChild == Some(i))
    && (n.parent.Some? && n.nextSibling.None? ==> nodes[n.parent.value].lastChild == Some(i))
  }

  predicate LinksInRange(nodes: seq<TreeNode>, i: NodeId)
    requires i < |nodes|
  {
    var n := nodes[i];
    InRange(nodes, n.parent) && InRange(nodes, n.prevSibling) && InRange(nodes, n.nextSibling)
    && InRange(nodes, n.firstChild) && InRange(nodes, n.lastChild)
  }

  /** The local conditions at node `i`. */
  predicate NodeWellLinked(nodes: seq<TreeNode>, i: NodeId)
    requires i < |nodes|
  {
    nodes[i].id == i && LinksInRange(nodes, i)
    && SiblingsLinked(nodes, i) && ChildrenLinked(nodes, i) && ParentLinked(nodes, i)
  }

  predicate WellFormed(nodes: seq<TreeNode>)
  {
    && |nodes| > 0 && nodes[0].parent.None?
    && (forall i :: 0 <= i < |nodes| ==> NodeWellLinked(nodes, i))
    && Acyclic(nodes, Parent) && Acyclic(nodes, Next)
  }

  /** A tree holding only its root node is well formed. */
  lemma SingleRootWellFormed(root: NodeData)
    ensures WellFormed([NewNode(0, root)])
  {
    assert Ends([NewNode(0, root)], Some(0), Parent, 1) by {
      assert Ends([NewNode(0, root)], None, Parent, 0);
    }
    assert Ends([NewNode(0, root)], Some(0), Next, 1) by {
      assert Ends([NewNode(0, root)], None, Next, 0);
    }
  }

  /** In a well-formed arena no node names itself in any of its five links. */
  lemma NoSelfLinks(nodes: seq<TreeNode>, i: NodeId)
    requires WellFormed(nodes) && i < |nodes|
    ensures forall l: Link :: Get(nodes[i], l) != Some(i)
  {
    assert NodeWellLinked(nodes, i);
    NoSelfLink(nodes, i, Parent);
    NoSelfLink(nodes, i, Next);
  }

  /** The neighbours `remove_from_parent` writes to are all different nodes. */
  lemma WellFormedNeighboursDistinct(nodes: seq<TreeNode>, x: NodeId)
    requires WellFormed(nodes) && x < |nodes|
    ensures NeighboursDistinct(nodes, x)
  {
    var n := nodes[x];
    assert NodeWellLinked(nodes, x);
    NoSelfLinks(nodes, x);
    if n.prevSibling.Some? {
      var a := n.prevSibling.value;
      assert NodeWellLinked(nodes, a);
      NoSelfLinks(nodes, a);
      if n.nextSibling == Some(a) {
        NoTwoCycle(nodes, x, a, Next);
      }
    }
    if n.nextSibling.Some? {
      NoSelfLinks(nodes, n.nextSibling.value);
    }
  }

  // ----- the walk lemmas used for the cycle conditions -----

  /**
   * Changing some links of `l` to `None`, and redirecting the link of `a` from
   * `x` to `x`'s own target, cannot make a walk that used to end run longer.
   */
  lemma {:induction false} EndsBypass(nodes: seq<TreeNode>, r: seq<TreeNode>, l: Link, x: NodeId, a: Option<NodeId>,
                                      start: Option<NodeId>, f: nat)
    requires |r| == |nodes| && x < |nodes|
    requires forall j :: 0 <= j < |nodes| && Some(j) != a ==> Get(r[j], l) == Get(nodes[j], l) || Get(r[j], l).None?
    requires a.Some? ==> a.value < |nodes| && Get(nodes[a.value], l) == Some(x)
                         && Get(r[a.value], l) == Get(nodes[x], l)
    requires Get(r[x], l).None?
    requires Ends(nodes, start, l, f)
    ensures Ends(r, start, l, f)
    decreases f
  {
    if start.Some? {
      var j := start.value;
      if Some(j) == a && j != x {
        assert Ends(nodes, Some(x), l, f - 1);
        assert Ends(nodes, Get(nodes[x], l), l, f - 2);
        EndsBypass(nodes, r, l, x, a, Get(nodes[x], l), f - 2);
        EndsMono(r, Get(r[j], l), l, f - 2, f - 1);
      } else if Get(r[j], l).Some? {
        EndsBypass(nodes, r, l, x, a, Get(r[j], l), f - 1);
      }
    }
  }

  // ----- remove_from_parent keeps the invariant -----

  predicate RemoveSetup(nodes: seq<TreeNode>, x: NodeId)
  {
    WellFormed(nodes) && x < |nodes| && !Detached(nodes[x]) && NeighboursDistinct(nodes, x)
  }

  lemma AfterRemoveAtX(nodes: seq<TreeNode>, x: NodeId, r: seq<TreeNode>)
    requires RemoveSetup(nodes, x) && RemovalOf(nodes, x, r)
    ensures NodeWellLinked(r, x)
  {
    var n := nodes[x];
    assert NodeWellLinked(nodes, x);
    if n.firstChild.Some? {
      var c := n.firstChild.value;
      assert NodeWellLinked(nodes, c);
      if n.parent == Some(c) { NoTwoCycle(nodes, x, c, Parent); }
    }
    if n.lastChild.Some? {
      var c := n.lastChild.value;
      assert NodeWellLinked(nodes, c);
      if n.parent == Some(c) { NoTwoCycle(nodes, x, c, Parent); }
    }
  }

  lemma AfterRemoveAtParent(nodes: seq<TreeNode>, x: NodeId, r: seq<TreeNode>)
    requires RemoveSetup(nodes, x) && RemovalOf(nodes, x, r) && nodes[x].parent.Some? && nodes[x].parent.value < |nodes|
    ensures NodeWellLinked(r, nodes[x].parent.value)
  {
    AtParentOwnLinks(nodes, x, r);
    AtParentChildren(nodes, x, r);
  }

  /** The parent's own parent and sibling links do not change. */
  lemma AtParentOwnLinks(nodes: seq<TreeNode>, x: NodeId, r: seq<TreeNode>)
    requires RemoveSetup(nodes, x) && RemovalOf(nodes, x, r) && nodes[x].parent.Some? && nodes[x].parent.value < |nodes|
    ensures var p := nodes[x].parent.value;
      && r[p].id == p && LinksInRange(r, p) && SiblingsLinked(r, p) && ParentLinked(r, p)
  {
    var n := nodes[x];
    var p := n.parent.value;
    assert NodeWellLinked(nodes, x);
    assert NodeWellLinked(nodes, p);
    NoSelfLinks(nodes, p);
    NoTwoCycle(nodes, x, p, Parent);
    var q := nodes[p];
    if n.prevSibling.Some? { assert NodeWellLinked(nodes, n.prevSibling.value); }
    if n.nextSibling.Some? { assert NodeWellLinked(nodes, n.nextSibling.value); }
    if q.nextSibling.Some? { assert NodeWellLinked(nodes, q.nextSibling.value); }
    if q.prevSibling.Some? { assert NodeWellLinked(nodes, q.prevSibling.value); }
    if q.parent.Some? { assert NodeWellLinked(nodes, q.parent.value); }
  }

  /** The parent's first and last child skip over the detached node. */
  lemma AtParentChildren(nodes: seq<TreeNode>, x: NodeId, r: seq<TreeNode>)
    requires RemoveSetup(nodes, x) && RemovalOf(nodes, x, r) && nodes[x].parent.Some? && nodes[x].parent.value < |nodes|
    ensures var p := nodes[x].parent.value;
      InRange(r, r[p].firstChild) && InRange(r, r[p].lastChild) && ChildrenLinked(r, p)
  {
    var n := nodes[x];
    var p := n.parent.value;
    assert NodeWellLinked(nodes, x);
    assert NodeWellLinked(nodes, p);
    NoSelfLinks(nodes, p);
    NoTwoCycle(nodes, x, p, Parent);
    var q := nodes[p];
    if n.prevSibling.Some? { assert NodeWellLinked(nodes, n.prevSibling.value); }
    if n.nextSibling.Some? { assert NodeWellLinked(nodes, n.nextSibling.value); }
    if q.firstChild.Some? { assert NodeWellLinked(nodes, q.firstChild.value); }
    if q.lastChild.Some? { assert NodeWellLinked(nodes, q.lastChild.value); }
  }

  lemma AfterRemoveAtPrev(nodes: seq<TreeNode>, x: NodeId, r: seq<TreeNode>)
    requires RemoveSetup(nodes, x) && RemovalOf(nodes, x, r) && nodes[x].prevSibling.Some? && nodes[x].prevSibling.value < |nodes|
    ensures NodeWellLinked(r, nodes[x].prevSibling.value)
  {
    var n := nodes[x];
    var a := n.prevSibling.value;
    assert NodeWellLinked(nodes, x);
    assert NodeWellLinked(nodes, a);
    NoSelfLinks(nodes, a);
    var m := nodes[a];
    if n.parent.Some? {
      assert NodeWellLinked(nodes, n.parent.value);
      NoSelfLinks(nodes, n.parent.value);
    }
    if n.nextSibling.Some? { assert NodeWellLinked(nodes, n.nextSibling.value); }
    if m.prevSibling.Some? {
      assert NodeWellLinked(nodes, m.prevSibling.value);
      NoSelfLinks(nodes, m.prevSibling.value);
    }
    if m.firstChild.Some? {
      var c := m.firstChild.value;
      assert NodeWellLinked(nodes, c);
      if n.parent == Some(c) { NoTwoCycle(nodes, a, c, Parent); }
    }
    if m.lastChild.Some? {
      var c := m.lastChild.value;
      assert NodeWellLinked(nodes, c);
      if n.parent == Some(c) { NoTwoCycle(nodes, a, c, Parent); }
    }
  }

  lemma AfterRemoveAtNext(nodes: seq<TreeNode>, x: NodeId, r: seq<TreeNode>)
    requires RemoveSetup(nodes, x) && RemovalOf(nodes, x, r) && nodes[x].nextSibling.Some? && nodes[x].nextSibling.value < |nodes|
    ensures NodeWellLinked(r, nodes[x].nextSibling.value)
  {
    var n := nodes[x];
    var b := n.nextSibling.value;
    assert NodeWellLinked(nodes, x);
    assert NodeWellLinked(nodes, b);
    NoSelfLinks(nodes, b);
    var m := nodes[b];
    if n.parent.Some? {
      assert NodeWellLinked(nodes, n.parent.value);
      NoSelfLinks(nodes, n.parent.value);
    }
    if n.prevSibling.Some? { assert NodeWellLinked(nodes, n.prevSibling.value); }
    if m.nextSibling.Some? {
      assert NodeWellLinked(nodes, m.nextSibling.value);
      NoSelfLinks(nodes, m.nextSibling.value);
    }
    if m.firstChild.Some? {
      var c := m.firstChild.value;
      assert NodeWellLinked(nodes, c);
      if n.parent == Some(c) { NoTwoCycle(nodes, b, c, Parent); }
    }
    if m.lastChild.Some? {
      var c := m.lastChild.value;
      assert NodeWellLinked(nodes, c);
      if n.parent == Some(c) { NoTwoCycle(nodes, b, c, Parent); }
    }
  }

  lemma AfterRemoveElsewhere(nodes: seq<TreeNode>, x: NodeId, j: NodeId, r: seq<TreeNode>)
    requires RemoveSetup(nodes, x) && RemovalOf(nodes, x, r) && j < |nodes| && j != x
    requires Some(j) != nodes[x].parent && Some(j) != nodes[x].prevSibling && Some(j) != nodes[x].nextSibling
    ensures NodeWellLinked(r, j)
  {
    assert NodeWellLinked(nodes, x);
    assert NodeWellLinked(nodes, j);
    assert LinksInRange(r, j);
    ElsewhereSiblings(nodes, x, j, r);
    ElsewhereChildren(nodes, x, j, r);
    ElsewhereParent(nodes, x, j, r);
  }

  lemma ElsewhereSiblings(nodes: seq<TreeNode>, x: NodeId, j: NodeId, r: seq<TreeNode>)
    requires RemoveSetup(nodes, x) && RemovalOf(nodes, x, r) && j < |nodes| && j != x
    requires Some(j) != nodes[x].parent && Some(j) != nodes[x].prevSibling && Some(j) != nodes[x].nextSibling
    requires LinksInRange(r, j)
    ensures SiblingsLinked(r, j)
  {
    var n := nodes[x];
    assert NodeWellLinked(nodes, x);
    assert NodeWellLinked(nodes, j);
  }

  lemma ElsewhereChildren(nodes: seq<TreeNode>, x: NodeId, j: NodeId, r: seq<TreeNode>)
    requires RemoveSetup(nodes, x) && RemovalOf(nodes, x, r) && j < |nodes| && j != x
    requires Some(j) != nodes[x].parent && Some(j) != nodes[x].prevSibling && Some(j) != nodes[x].nextSibling
    requires LinksInRange(r, j)
    ensures ChildrenLinked(r, j)
  {
    var n := nodes[x];
    var m := nodes[j];
    assert NodeWellLinked(nodes, x);
    assert NodeWellLinked(nodes, j);
    if n.prevSibling.Some? { assert NodeWellLinked(nodes, n.prevSibling.value); }
    if n.nextSibling.Some? { assert NodeWellLinked(nodes, n.nextSibling.value); }
  }

  lemma ElsewhereParent(nodes: seq<TreeNode>, x: NodeId, j: NodeId, r: seq<TreeNode>)
    requires RemoveSetup(nodes, x) && RemovalOf(nodes, x, r) && j < |nodes| && j != x
    requires Some(j) != nodes[x].parent && Some(j) != nodes[x].prevSibling && Some(j) != nodes[x].nextSibling
    requires LinksInRange(r, j)
    ensures ParentLinked(r, j)
  {
    var n := nodes[x];
    var m := nodes[j];
    assert NodeWellLinked(nodes, x);
    assert NodeWellLinked(nodes, j);
  }

  /**
   * Detaching a node keeps the arena well formed: the node becomes an orphan
   * that keeps its own children, and its old parent and siblings close ranks.
   */
  lemma RemovePreservesWellFormed(nodes: seq<TreeNode>, x: NodeId)
    requires WellFormed(nodes)
    ensures WellFormed(RemovedFromParent(nodes, x))
  {
    if x >= |nodes| || Detached(nodes[x]) {
      return;
    }
    WellFormedNeighboursDistinct(nodes, x);
    RemoveFields(nodes, x);
    RemovedLinked(nodes, x, RemovedFromParent(nodes, x));
    RemovedAcyclic(nodes, x, RemovedFromParent(nodes, x));
  }

  /** After the detach every node is well linked again. */
  lemma RemovedLinked(nodes: seq<TreeNode>, x: NodeId, r: seq<TreeNode>)
    requires RemoveSetup(nodes, x) && RemovalOf(nodes, x, r)
    ensures forall j :: 0 <= j < |r| ==> NodeWellLinked(r, j)
  {
    var n := nodes[x];
    forall j | 0 <= j < |r|
      ensures NodeWellLinked(r, j)
    {
      if j == x {
        AfterRemoveAtX(nodes, x, r);
      } else if Some(j) == n.parent {
        assert NodeWellLinked(nodes, x);
        AfterRemoveAtParent(nodes, x, r);
      } else if Some(j) == n.prevSibling {
        AfterRemoveAtPrev(nodes, x, r);
      } else if Some(j) == n.nextSibling {
        AfterRemoveAtNext(nodes, x, r);
      } else {
        AfterRemoveElsewhere(nodes, x, j, r);
      }
    }
  }

  /** After the detach the parent chains and the sibling chains still end. */
  lemma RemovedAcyclic(nodes: seq<TreeNode>, x: NodeId, r: seq<TreeNode>)
    requires RemoveSetup(nodes, x) && RemovalOf(nodes, x, r)
    ensures Acyclic(r, Parent) && Acyclic(r, Next)
  {
    BypassParent(nodes, x, r);
    BypassNext(nodes, x, r);
    forall s | 0 <= s < |r|
      ensures Ends(r, Some(s), Parent, |r|) && Ends(r, Some(s), Next, |r|)
    {
      EndsBypass(nodes, r, Parent, x, None, Some(s), |nodes|);
      EndsBypass(nodes, r, Next, x, nodes[x].prevSibling, Some(s), |nodes|);
    }
  }

  /** Detaching only clears parent links. */
  lemma BypassParent(nodes: seq<TreeNode>, x: NodeId, r: seq<TreeNode>)
    requires RemoveSetup(nodes, x) && RemovalOf(nodes, x, r)
    ensures forall j :: 0 <= j < |nodes| && Some(j) != None ==> Get(r[j], Parent) == Get(nodes[j], Parent) || Get(r[j], Parent).None?
    ensures Get(r[x], Parent).None?
  {
  }

  /** Detaching clears next links, except the previous sibling's, which skips `x`. */
  lemma BypassNext(nodes: seq<TreeNode>, x: NodeId, r: seq<TreeNode>)
    requires RemoveSetup(nodes, x) && RemovalOf(nodes, x, r)
    ensures forall j :: 0 <= j < |nodes| && Some(j) != nodes[x].prevSibling ==> Get(r[j], Next) == Get(nodes[j], Next) || Get(r[j], Next).None?
    ensures var a := nodes[x].prevSibling;
      a.Some? ==> a.value < |nodes| && Get(nodes[a.value], Next) == Some(x) && Get(r[a.value], Next) == Get(nodes[x], Next)
    ensures Get(r[x], Next).None?
  {
    assert NodeWellLinked(nodes, x);
    if nodes[x].prevSibling.Some? {
      assert NodeWellLinked(nodes, nodes[x].prevSibling.value);
    }
  }
}
