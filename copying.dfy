/**
 * The deep copy of `Tree::copy_node` and `Tree::copy_tree_nodes`
 * (src/dom_tree/tree.rs) as functions of the source vector.  The copy hands
 * out new ids in the order `Numbering` lists the old ones: the root first,
 * then, each time a node is popped from the stack, its children in sibling
 * order.  `id_map` is `MapOf` that order, and the copied nodes are the
 * source nodes with every link sent through `id_map`.
 */
module Copying {
  import opened Wrappers
  import opened Arena
  import opened Chains
  import opened Invariant
  import opened Subtree

  /** The descent through all children from `id` meets no node with children once `fuel` is spent. */
  predicate Bounded(nodes: seq<TreeNode>, id: NodeId, fuel: nat)
    decreases fuel, 0
  {
    id >= |nodes| || Children(nodes, id) == [] || (fuel > 0 && AllBounded(nodes, Children(nodes, id), fuel - 1))
  }

  predicate AllBounded(nodes: seq<TreeNode>, ids: seq<NodeId>, fuel: nat)
    decreases fuel, |ids|
  {
    ids == [] || (Bounded(nodes, ids[0], fuel) && AllBounded(nodes, ids[1..], fuel))
  }

  lemma {:induction false} AllBoundedAt(nodes: seq<TreeNode>, ids: seq<NodeId>, fuel: nat, k: nat)
    requires AllBounded(nodes, ids, fuel) && k < |ids|
    ensures Bounded(nodes, ids[k], fuel)
    decreases k
  {
    if k > 0 {
      AllBoundedAt(nodes, ids[1..], fuel, k - 1);
    }
  }

  lemma {:induction false} AllBoundedFrom(nodes: seq<TreeNode>, ids: seq<NodeId>, fuel: nat)
    requires forall k :: 0 <= k < |ids| ==> Bounded(nodes, ids[k], fuel)
    ensures AllBounded(nodes, ids, fuel)
    decreases |ids|
  {
    if ids != [] {
      AllBoundedFrom(nodes, ids[1..], fuel);
    }
  }

  lemma {:induction false} BoundedByRank(nodes: seq<TreeNode>, id: NodeId, f: nat)
    requires WellFormed(nodes) && id < |nodes| && f + Rank(nodes, id, Parent) >= |nodes|
    ensures Bounded(nodes, id, f)
    decreases f
  {
    var cs := Children(nodes, id);
    if cs != [] {
      ChildrenParented(nodes, id);
      RankStep(nodes, cs[0], Parent);
      RankBounds(nodes, cs[0], Parent);
      assert f > 0;
      forall k | 0 <= k < |cs|
        ensures Bounded(nodes, cs[k], f - 1)
      {
        RankStep(nodes, cs[k], Parent);
        RankBounds(nodes, cs[k], Parent);
        BoundedByRank(nodes, cs[k], f - 1);
      }
      AllBoundedFrom(nodes, cs, f - 1);
    }
  }

  /** On a well-formed arena a fuel of `|nodes|` bounds the descent from any node. */
  lemma WellFormedBounded(nodes: seq<TreeNode>, id: NodeId)
    requires WellFormed(nodes)
    ensures Bounded(nodes, id, |nodes|)
  {
    if id < |nodes| {
      RankBounds(nodes, id, Parent);
      BoundedByRank(nodes, id, |nodes|);
    }
  }

  // ----- the numbering order -----

  /**
   * The ids numbered below `id`: its children, then the ids numbered below
   * each child in turn (the stack pops the first child's whole subtree
   * before the second child).
   */
  function Kids(nodes: seq<TreeNode>, id: NodeId, fuel: nat): seq<NodeId>
    decreases fuel, 0
  {
    if id >= |nodes| then []
    else Children(nodes, id) + (if fuel > 0 then ForestKids(nodes, Children(nodes, id), fuel - 1) else [])
  }

  function ForestKids(nodes: seq<TreeNode>, ids: seq<NodeId>, fuel: nat): seq<NodeId>
    decreases fuel, |ids|
  {
    if ids == [] then [] else Kids(nodes, ids[0], fuel) + ForestKids(nodes, ids[1..], fuel)
  }

  /** The old ids in the order `copy_node` gives them new ids. */
  function Numbering(nodes: seq<TreeNode>, id: NodeId, fuel: nat): seq<NodeId>
  {
    [id] + Kids(nodes, id, fuel)
  }

  /** `id_map` after inserting `order[k] -> base + k` for each `k` in turn; a later insertion of a key wins. */
  function MapOf(order: seq<NodeId>, base: nat): map<NodeId, NodeId>
    decreases |order|
  {
    if order == [] then map[]
    else MapOf(order[..|order| - 1], base)[order[|order| - 1] := base + |order| - 1]
  }

  /** The keys of `id_map` are exactly the numbered ids. */
  lemma {:induction false} MapOfKeys(order: seq<NodeId>, base: nat)
    ensures forall v :: v in MapOf(order, base) <==> v in order
    decreases |order|
  {
    if order != [] {
      var n := |order| - 1;
      MapOfKeys(order[..n], base);
      assert order == order[..n] + [order[n]];
    }
  }

  predicate Distinct(s: seq<NodeId>)
  {
    forall i, j :: 0 <= i < j < |s| ==> s[i] != s[j]
  }

  /** Without repeated ids every entry keeps the number it was given. */
  lemma {:induction false} MapOfDistinct(order: seq<NodeId>, base: nat)
    requires Distinct(order)
    ensures forall k :: 0 <= k < |order| ==> order[k] in MapOf(order, base) && MapOf(order, base)[order[k]] == base + k
    decreases |order|
  {
    if order != [] {
      var n := |order| - 1;
      var front := order[..n];
      var m := MapOf(order, base);
      MapOfKeys(order, base);
      MapOfKeys(front, base);
      assert m == MapOf(front, base)[order[n] := base + n];
      assert Distinct(front) by {
        forall i, j | 0 <= i < j < |front|
          ensures front[i] != front[j]
        {
          assert front[i] == order[i] && front[j] == order[j];
        }
      }
      MapOfDistinct(front, base);
      forall k | 0 <= k < |order|
        ensures m[order[k]] == base + k
      {
        if k < n {
          assert order[k] == front[k] && order[k] != order[n];
          assert m[order[k]] == MapOf(front, base)[front[k]];
        }
      }
    }
  }

  /** A link sent through `id_map`: kept (renumbered) when it names a copied node, `None` otherwise. */
  function MapLink(o: Option<NodeId>, m: map<NodeId, NodeId>): (r: Option<NodeId>)
    ensures r.Some? <==> o.Some? && o.value in m
    ensures r.Some? ==> r.value == m[o.value]
  {
    if o.Some? && o.value in m then Some(m[o.value]) else None
  }

  /** The copy of source node `sn` under new id `newId`. */
  function CopyOf(sn: TreeNode, m: map<NodeId, NodeId>, newId: NodeId): (r: TreeNode)
    ensures r.id == newId && r.data == sn.data
    ensures forall l :: Get(r, l) == MapLink(Get(sn, l), m)
  {
    TreeNode(newId, MapLink(sn.parent, m), MapLink(sn.prevSibling, m), MapLink(sn.nextSibling, m),
             MapLink(sn.firstChild, m), MapLink(sn.lastChild, m), sn.data)
  }

  /**
   * `copy_tree_nodes`: one copy for each `id_map` entry whose old id is a
   * node of the source, in increasing new id.  The entry for `order[k]` was
   * numbered `start + k`; it is an entry of the map unless a later
   * occurrence of the same old id overrode it.
   */
  function CopyTreeNodes(source: seq<TreeNode>, m: map<NodeId, NodeId>, order: seq<NodeId>, start: nat): (r: seq<TreeNode>)
    ensures |r| <= |order|
    decreases |order|
  {
    if order == [] then []
    else
      var o := order[0];
      (if o < |source| && o in m && m[o] == start then [CopyOf(source[o], m, start)] else [])
      + CopyTreeNodes(source, m, order[1..], start + 1)
  }

  /** With the map `MapOf` builds from a repetition-free order of source nodes, every entry is copied, in order. */
  lemma {:induction false} CopyTreeNodesDistinct(source: seq<TreeNode>, m: map<NodeId, NodeId>, order: seq<NodeId>, start: nat)
    requires forall k :: 0 <= k < |order| ==> order[k] < |source| && order[k] in m && m[order[k]] == start + k
    ensures var r := CopyTreeNodes(source, m, order, start);
      |r| == |order| && forall k :: 0 <= k < |order| ==> r[k] == CopyOf(source[order[k]], m, start + k)
    decreases |order|
  {
    if order != [] {
      CopyTreeNodesDistinct(source, m, order[1..], start + 1);
    }
  }
  // ----- the numbering of a well-formed subtree has no repetition -----

  lemma DistinctConcat(a: seq<NodeId>, b: seq<NodeId>)
    requires Distinct(a) && Distinct(b) && forall y :: y in a ==> y !in b
    ensures Distinct(a + b)
  {
    forall i, j | 0 <= i < j < |a + b|
      ensures (a + b)[i] != (a + b)[j]
    {
      if i < |a| && j >= |a| {
        assert (a + b)[i] in a && (a + b)[j] == b[j - |a|];
      }
    }
  }

  /** Along an acyclic link a walk never revisits a node, and every later node ranks below the first. */
  lemma {:induction false} WalkDistinct(nodes: seq<TreeNode>, start: Option<NodeId>, l: Link, fuel: nat)
    requires Acyclic(nodes, l)
    ensures var w := Walk(nodes, start, l, fuel);
      Distinct(w) && forall k :: 0 < k < |w| ==> Rank(nodes, w[k], l) < Rank(nodes, w[0], l)
    decreases fuel
  {
    var w := Walk(nodes, start, l, fuel);
    if w != [] {
      var s := start.value;
      var nx := Get(nodes[s], l);
      var rest := Walk(nodes, nx, l, fuel - 1);
      assert w == [s] + rest;
      WalkDistinct(nodes, nx, l, fuel - 1);
      if rest != [] {
        RankStep(nodes, s, l);
        assert rest[0] == nx.value;
        forall k | 0 <= k < |rest|
          ensures Rank(nodes, rest[k], l) < Rank(nodes, s, l)
        {
        }
        forall k | 0 < k < |w|
          ensures Rank(nodes, w[k], l) < Rank(nodes, w[0], l)
        {
          assert w[k] == rest[k - 1];
        }
        DistinctConcat([s], rest);
      }
    }
  }

  /** The node `k` parent steps above `x`; the climb stays put at a node without a parent. */
  function Up(nodes: seq<TreeNode>, x: NodeId, k: nat): NodeId
    decreases k
  {
    if k == 0 || x >= |nodes| || nodes[x].parent.None? then x else Up(nodes, nodes[x].parent.value, k - 1)
  }

  lemma {:induction false} UpCompose(nodes: seq<TreeNode>, x: NodeId, a: nat, b: nat)
    ensures Up(nodes, x, a + b) == Up(nodes, Up(nodes, x, a), b)
    decreases a
  {
    if a > 0 && x < |nodes| && nodes[x].parent.Some? {
      UpCompose(nodes, nodes[x].parent.value, a - 1, b);
    }
  }

  /** Nodes with the same parent are at the same depth. */
  lemma SameParentSameDepth(nodes: seq<TreeNode>, a: NodeId, b: NodeId)
    requires WellFormed(nodes) && a < |nodes| && b < |nodes| && nodes[a].parent == nodes[b].parent
    ensures Rank(nodes, a, Parent) == Rank(nodes, b, Parent)
  {
    if nodes[a].parent.Some? {
      RankStep(nodes, a, Parent);
      RankStep(nodes, b, Parent);
    } else {
      assert Walk(nodes, Some(a), Parent, |nodes|) == [a] + Walk(nodes, None, Parent, |nodes| - 1);
      assert Walk(nodes, Some(b), Parent, |nodes|) == [b] + Walk(nodes, None, Parent, |nodes| - 1);
    }
  }

  /**
   * On a well-formed arena the ids numbered below `x` repeat nothing; each
   * is deeper than `x` and has `x` as its ancestor at `x`'s depth.
   */
  lemma {:induction false} KidsTree(nodes: seq<TreeNode>, x: NodeId, f: nat)
    requires WellFormed(nodes) && x < |nodes|
    ensures Distinct(Kids(nodes, x, f))
    ensures forall y :: y in Kids(nodes, x, f) ==>
      y < |nodes| && Rank(nodes, y, Parent) > Rank(nodes, x, Parent)
      && Up(nodes, y, Rank(nodes, y, Parent) - Rank(nodes, x, Parent)) == x
    decreases f, 0
  {
    ChildrenBelow(nodes, x);
    if f > 0 {
      var cs := Children(nodes, x);
      var fk := ForestKids(nodes, cs, f - 1);
      ForestTree(nodes, cs, f - 1, x);
      KidsSplit(nodes, x, cs, fk);
      assert Kids(nodes, x, f) == cs + fk;
    } else {
      assert Kids(nodes, x, f) == Children(nodes, x) + [];
    }
  }

  /** The children of `x` repeat nothing, are one level deeper and have `x` as parent. */
  lemma ChildrenBelow(nodes: seq<TreeNode>, x: NodeId)
    requires WellFormed(nodes) && x < |nodes|
    ensures Distinct(Children(nodes, x))
    ensures forall k :: 0 <= k < |Children(nodes, x)| ==> nodes[Children(nodes, x)[k]].parent == Some(x)
    ensures forall y :: y in Children(nodes, x) ==>
      y < |nodes| && Rank(nodes, y, Parent) == Rank(nodes, x, Parent) + 1 && Up(nodes, y, 1) == x
  {
    ChildrenParented(nodes, x);
    WalkDistinct(nodes, nodes[x].firstChild, Next, |nodes|);
    forall y | y in Children(nodes, x)
      ensures y < |nodes| && Rank(nodes, y, Parent) == Rank(nodes, x, Parent) + 1 && Up(nodes, y, 1) == x
    {
      RankStep(nodes, y, Parent);
    }
  }

  /** The children of `x` followed by the ids numbered below them repeat nothing and all climb back to `x`. */
  lemma KidsSplit(nodes: seq<TreeNode>, x: NodeId, cs: seq<NodeId>, fk: seq<NodeId>)
    requires Distinct(cs) && Distinct(fk)
    requires forall y :: y in cs ==> y < |nodes| && Rank(nodes, y, Parent) == Rank(nodes, x, Parent) + 1 && Up(nodes, y, 1) == x
    requires forall y :: y in fk ==>
      y < |nodes| && Rank(nodes, y, Parent) > Rank(nodes, x, Parent) + 1
      && Up(nodes, y, Rank(nodes, y, Parent) - Rank(nodes, x, Parent) - 1) in cs
    ensures Distinct(cs + fk)
    ensures forall y :: y in cs + fk ==>
      y < |nodes| && Rank(nodes, y, Parent) > Rank(nodes, x, Parent)
      && Up(nodes, y, Rank(nodes, y, Parent) - Rank(nodes, x, Parent)) == x
  {
    forall y | y in cs
      ensures y !in fk
    {
    }
    DistinctConcat(cs, fk);
    KidsBelowCat(nodes, x, cs, fk);
  }

  /** The children of `x`, then the ids numbered below them, all climb back to `x`. */
  lemma KidsBelowCat(nodes: seq<TreeNode>, x: NodeId, cs: seq<NodeId>, fk: seq<NodeId>)
    requires forall y :: y in cs ==> y < |nodes| && Rank(nodes, y, Parent) == Rank(nodes, x, Parent) + 1 && Up(nodes, y, 1) == x
    requires forall y :: y in fk ==>
      y < |nodes| && Rank(nodes, y, Parent) > Rank(nodes, x, Parent) + 1
      && Up(nodes, y, Rank(nodes, y, Parent) - Rank(nodes, x, Parent) - 1) in cs
    ensures forall y :: y in cs + fk ==>
      y < |nodes| && Rank(nodes, y, Parent) > Rank(nodes, x, Parent)
      && Up(nodes, y, Rank(nodes, y, Parent) - Rank(nodes, x, Parent)) == x
  {
    forall y | y in cs + fk
      ensures y < |nodes| && Rank(nodes, y, Parent) > Rank(nodes, x, Parent)
      && Up(nodes, y, Rank(nodes, y, Parent) - Rank(nodes, x, Parent)) == x
    {
      if y !in cs {
        assert y in fk;
        var c := Up(nodes, y, Rank(nodes, y, Parent) - Rank(nodes, x, Parent) - 1);
        assert c in cs;
        UpThroughChild(nodes, x, c, y);
      }
    }
  }

  lemma UpThroughChild(nodes: seq<TreeNode>, x: NodeId, c: NodeId, y: NodeId)
    requires Up(nodes, c, 1) == x && Rank(nodes, y, Parent) > Rank(nodes, x, Parent) + 1
    requires Up(nodes, y, Rank(nodes, y, Parent) - Rank(nodes, x, Parent) - 1) == c
    ensures Up(nodes, y, Rank(nodes, y, Parent) - Rank(nodes, x, Parent)) == x
  {
    UpCompose(nodes, y, Rank(nodes, y, Parent) - Rank(nodes, x, Parent) - 1, 1);
  }

  lemma {:induction false} ForestTree(nodes: seq<TreeNode>, cs: seq<NodeId>, f: nat, p: NodeId)
    requires WellFormed(nodes) && p < |nodes| && Distinct(cs)
    requires forall k :: 0 <= k < |cs| ==> cs[k] < |nodes| && nodes[cs[k]].parent == Some(p)
    ensures Distinct(ForestKids(nodes, cs, f))
    ensures forall y :: y in ForestKids(nodes, cs, f) ==>
      y < |nodes| && Rank(nodes, y, Parent) > Rank(nodes, p, Parent) + 1
      && Up(nodes, y, Rank(nodes, y, Parent) - Rank(nodes, p, Parent) - 1) in cs
    decreases f, |cs| + 1
  {
    if cs != [] {
      var c := cs[0];
      var dp := Rank(nodes, p, Parent);
      RankStep(nodes, c, Parent);
      var kc := Kids(nodes, c, f);
      var rest := ForestKids(nodes, cs[1..], f);
      KidsTree(nodes, c, f);
      assert Distinct(cs[1..]) by {
        forall i, j | 0 <= i < j < |cs[1..]|
          ensures cs[1..][i] != cs[1..][j]
        {
          assert cs[1..][i] == cs[i + 1] && cs[1..][j] == cs[j + 1];
        }
      }
      ForestTree(nodes, cs[1..], f, p);
      assert c !in cs[1..] by {
        forall k | 0 <= k < |cs[1..]|
          ensures cs[1..][k] != c
        {
          assert cs[1..][k] == cs[k + 1];
        }
      }
      forall y | y in kc
        ensures y !in rest
      {
      }
      DistinctConcat(kc, rest);
    }
  }

  /**
   * On a well-formed arena the numbering of a subtree repeats no id, and the
   * parent and siblings of its root are not part of it.
   */
  lemma NumberingWellFormed(nodes: seq<TreeNode>, x: NodeId, f: nat)
    requires WellFormed(nodes) && x < |nodes|
    ensures var order := Numbering(nodes, x, f);
      && Distinct(order) && order[0] == x
      && (forall k :: 0 <= k < |order| ==> order[k] < |nodes|)
      && (nodes[x].parent.Some? ==> nodes[x].parent.value !in order)
      && (nodes[x].prevSibling.Some? ==> nodes[x].prevSibling.value !in order)
      && (nodes[x].nextSibling.Some? ==> nodes[x].nextSibling.value !in order)
  {
    var kids := Kids(nodes, x, f);
    var dx := Rank(nodes, x, Parent);
    KidsTree(nodes, x, f);
    DistinctConcat([x], kids);
    forall k | 0 < k < |[x] + kids|
      ensures ([x] + kids)[k] < |nodes|
    {
      assert ([x] + kids)[k] in kids;
    }
    assert NodeWellLinked(nodes, x);
    NoSelfLinks(nodes, x);
    if nodes[x].parent.Some? {
      RankStep(nodes, x, Parent);
    }
    if nodes[x].prevSibling.Some? {
      SameParentSameDepth(nodes, x, nodes[x].prevSibling.value);
    }
    if nodes[x].nextSibling.Some? {
      SameParentSameDepth(nodes, x, nodes[x].nextSibling.value);
    }
  }
  /**
   * Copying a repetition-free order of source nodes: one node per entry,
   * with ids `base`, `base + 1`, ... in order and the payload of the node it
   * copies; every link is renumbered when it names a copied node and `None`
   * otherwise, so each kept link lands inside the copy.
   */
  lemma CopyDistinct(source: seq<TreeNode>, order: seq<NodeId>, base: nat)
    requires Distinct(order) && forall k :: 0 <= k < |order| ==> order[k] < |source|
    ensures var m := MapOf(order, base);
      var r := CopyTreeNodes(source, m, order, base);
      && |r| == |order|
      && (forall k :: 0 <= k < |r| ==> r[k] == CopyOf(source[order[k]], m, base + k))
      && (forall k, l :: 0 <= k < |r| && Get(r[k], l).Some? ==> base <= Get(r[k], l).value < base + |r|)
  {
    var m := MapOf(order, base);
    MapOfDistinct(order, base);
    MapOfKeys(order, base);
    CopyTreeNodesDistinct(source, m, order, base);
    var r := CopyTreeNodes(source, m, order, base);
    forall k, l | 0 <= k < |r| && Get(r[k], l).Some?
      ensures base <= Get(r[k], l).value < base + |r|
    {
      var t := Get(source[order[k]], l).value;
      assert t in m;
      var j :| 0 <= j < |order| && order[j] == t;
    }
  }

  /**
   * The copy of a subtree of a well-formed arena: the numbering repeats no
   * id, so `CopyDistinct` applies, and the copy's root has no parent and no
   * siblings, as those are not part of the subtree.
   */
  lemma CopyWellFormed(source: seq<TreeNode>, x: NodeId, f: nat, base: nat)
    requires WellFormed(source) && x < |source|
    ensures var order := Numbering(source, x, f);
      var r := CopyTreeNodes(source, MapOf(order, base), order, base);
      && Distinct(order) && order[0] == x && |r| == |order|
      && (forall k :: 0 <= k < |order| ==> order[k] < |source|)
      && r[0].parent.None? && r[0].prevSibling.None? && r[0].nextSibling.None?
  {
    var order := Numbering(source, x, f);
    NumberingWellFormed(source, x, f);
    CopyDistinct(source, order, base);
    var m := MapOf(order, base);
    MapOfKeys(order, base);
    var r := CopyTreeNodes(source, m, order, base);
    assert r[0] == CopyOf(source[x], m, base);
  }
}
