/**
 * `Tree::validate` (src/dom_tree/validation.rs) as written: a function that
 * performs the same checks in the same order and reports the first failure,
 * and a loop method with the source's loops proved equal to it.  The error
 * strings of the source are abstracted into `Fault` values that keep the
 * offending id.  Per-node checks use the node's own `id` field, as the
 * source does; the chain walks index the vector.
 */
module Validation {
  import opened Wrappers
  import opened Arena
  import opened Chains
  import opened Links
  import opened Invariant

  datatype Fault =
    | RootMissing
    | RootHasParent
    | SelfLink(at: NodeId, link: Link)
    | BadReference(at: NodeId)
    | Mismatch(at: NodeId)
    | LastChildMismatch(at: NodeId)
    | ParentCycle(at: NodeId)
    | SiblingCycle(at: NodeId)

  // ----- counting lemmas -----

  predicate Distinct(q: seq<NodeId>)
  {
    forall i, j :: 0 <= i < j < |q| ==> q[i] != q[j]
  }

  /** A set of ids below `n` has at most `n` elements. */
  lemma {:induction false} SubsetBound(s: set<nat>, n: nat)
    requires forall v :: v in s ==> v < n
    ensures |s| <= n
    decreases n
  {
    if n > 0 {
      var t := s - {n - 1};
      SubsetBound(t, n - 1);
      assert s <= t + {n - 1};
    } else {
      assert s == {};
    }
  }

  lemma {:induction false} DistinctSetSize(q: seq<NodeId>)
    requires Distinct(q)
    ensures |set k | 0 <= k < |q| :: q[k]| == |q|
  {
    if q != [] {
      var last := |q| - 1;
      DistinctSetSize(q[..last]);
      assert (set k | 0 <= k < |q| :: q[k]) == (set k | 0 <= k < last :: q[..last][k]) + {q[last]};
    }
  }

  /** A path of distinct in-range ids is no longer than the vector. */
  lemma DistinctBound(q: seq<NodeId>, n: nat)
    requires Distinct(q) && forall k :: 0 <= k < |q| ==> q[k] < n
    ensures |q| <= n
  {
    DistinctSetSize(q);
    SubsetBound(set k | 0 <= k < |q| :: q[k], n);
  }

  // ----- the child-chain walk (validation.rs:94-135) -----

  /** A walk from a first child in which each node names the previous one as `prev_sibling`. */
  predicate ReciprocalChain(nodes: seq<TreeNode>, q: seq<NodeId>)
  {
    && (forall t :: 0 <= t < |q| ==> q[t] < |nodes|)
    && (|q| > 0 ==> nodes[q[0]].prevSibling.None?)
    && (forall t :: 0 <= t < |q| - 1 ==> nodes[q[t + 1]].prevSibling == Some(q[t]))
  }

  /** Such a walk never visits a node twice, which is why the source's loop ends. */
  lemma ReciprocalChainDistinct(nodes: seq<TreeNode>, q: seq<NodeId>)
    requires ReciprocalChain(nodes, q)
    ensures Distinct(q)
  {
    forall i, j | 0 <= i < j < |q|
      ensures q[i] != q[j]
    {
      NotRepeated(nodes, q, i, j);
    }
  }

  lemma {:induction false} NotRepeated(nodes: seq<TreeNode>, q: seq<NodeId>, i: nat, j: nat)
    requires ReciprocalChain(nodes, q) && i < j < |q|
    ensures q[i] != q[j]
    decreases i
  {
    if i > 0 {
      NotRepeated(nodes, q, i - 1, j - 1);
    } else {
      assert nodes[q[j]].prevSibling == Some(q[j - 1]);
    }
  }

  /**
   * The chain check from `cid` on: each node must have parent `id` and
   * reciprocal sibling links; the result is the last node of the chain.
   */
  function ChainFrom(nodes: seq<TreeNode>, id: NodeId, cid: NodeId, ghost path: seq<NodeId>): Result<Option<NodeId>, Fault>
    requires cid < |nodes| && ReciprocalChain(nodes, path + [cid])
    decreases |nodes| - |path|
  {
    ReciprocalChainDistinct(nodes, path + [cid]);
    DistinctBound(path + [cid], |nodes|);
    var cur := nodes[cid];
    if cur.parent != Some(id) then Err(Mismatch(cid))
    else if cur.prevSibling.Some? && cur.prevSibling.value >= |nodes| then Err(BadReference(cur.prevSibling.value))
    else if cur.prevSibling.Some? && nodes[cur.prevSibling.value].nextSibling != Some(cid) then Err(Mismatch(cur.prevSibling.value))
    else if cur.nextSibling.Some? then
      var next := cur.nextSibling.value;
      if next >= |nodes| then Err(BadReference(next))
      else if nodes[next].prevSibling != Some(cid) then Err(Mismatch(next))
      else
        assert (path + [cid]) + [next] == path + [cid, next];
        ChainFrom(nodes, id, next, path + [cid])
    else Ok(Some(cid))
  }

  // ----- the per-node checks (validation.rs:53-189) -----

  function SelfLinkFault(n: TreeNode): Option<Fault>
  {
    if n.parent == Some(n.id) then Some(SelfLink(n.id, Parent))
    else if n.prevSibling == Some(n.id) then Some(SelfLink(n.id, Prev))
    else if n.nextSibling == Some(n.id) then Some(SelfLink(n.id, Next))
    else if n.firstChild == Some(n.id) then Some(SelfLink(n.id, First))
    else if n.lastChild == Some(n.id) then Some(SelfLink(n.id, Last))
    else None
  }

  function FirstChildFault(nodes: seq<TreeNode>, n: TreeNode): Option<Fault>
  {
    match n.firstChild
    case None => None
    case Some(f) =>
      if f >= |nodes| then Some(BadReference(n.id))
      else if nodes[f].parent != Some(n.id) then Some(Mismatch(n.id))
      else if nodes[f].prevSibling.Some? then Some(Mismatch(n.id))
      else
        match ChainFrom(nodes, n.id, f, [])
        case Err(e) => Some(e)
        case Ok(lastSeen) => if n.lastChild != lastSeen then Some(LastChildMismatch(n.id)) else None
  }

  function LastChildFault(nodes: seq<TreeNode>, n: TreeNode): Option<Fault>
  {
    match n.lastChild
    case None => None
    case Some(l) =>
      if l >= |nodes| then Some(BadReference(n.id))
      else if nodes[l].parent != Some(n.id) then Some(Mismatch(n.id))
      else if nodes[l].nextSibling.Some? then Some(Mismatch(n.id))
      else None
  }

  function SiblingFault(nodes: seq<TreeNode>, n: TreeNode): Option<Fault>
  {
    if n.prevSibling.Some? && n.prevSibling.value >= |nodes| then Some(BadReference(n.id))
    else if n.prevSibling.Some? && nodes[n.prevSibling.value].nextSibling != Some(n.id) then Some(Mismatch(n.prevSibling.value))
    else if n.nextSibling.Some? && n.nextSibling.value >= |nodes| then Some(BadReference(n.id))
    else if n.nextSibling.Some? && nodes[n.nextSibling.value].prevSibling != Some(n.id) then Some(Mismatch(n.nextSibling.value))
    else None
  }

  function NodeFault(nodes: seq<TreeNode>, n: TreeNode): Option<Fault>
  {
    var s := SelfLinkFault(n);
    if s.Some? then s
    else
      var f := FirstChildFault(nodes, n);
      if f.Some? then f
      else
        var l := LastChildFault(nodes, n);
        if l.Some? then l else SiblingFault(nodes, n)
  }

  /** The first fault among the nodes from index `i` on. */
  function NodesFault(nodes: seq<TreeNode>, i: nat): Option<Fault>
    decreases |nodes| - i
  {
    if i >= |nodes| then None
    else
      var f := NodeFault(nodes, nodes[i]);
      if f.Some? then f else NodesFault(nodes, i + 1)
  }

  // ----- the cycle checks (validation.rs:191-215) -----

  /**
   * Follow link `l` from `cur`, remembering the ids seen: the id met a
   * second time, or `None` when the walk leaves the vector or reaches `None`.
   */
  function RepeatedOn(nodes: seq<TreeNode>, cur: Option<NodeId>, l: Link, visited: set<nat>): Option<NodeId>
    requires forall v :: v in visited ==> v < |nodes|
    decreases |nodes| - |visited|
  {
    match cur
    case None => None
    case Some(c) =>
      if c in visited then Some(c)
      else if c >= |nodes| then None
      else
        SubsetBound(visited + {c}, |nodes|);
        RepeatedOn(nodes, Get(nodes[c], l), l, visited + {c})
  }

  function ParentCycleFault(nodes: seq<TreeNode>, i: nat): Option<Fault>
    decreases |nodes| - i
  {
    if i >= |nodes| then None
    else
      var c := RepeatedOn(nodes, Some(nodes[i].id), Parent, {});
      if c.Some? then Some(ParentCycle(c.value)) else ParentCycleFault(nodes, i + 1)
  }

  function SiblingCycleFault(nodes: seq<TreeNode>, i: nat): Option<Fault>
    decreases |nodes| - i
  {
    if i >= |nodes| then None
    else
      var c := if nodes[i].firstChild.Some? then RepeatedOn(nodes, nodes[i].firstChild, Next, {}) else None;
      if c.Some? then Some(SiblingCycle(c.value)) else SiblingCycleFault(nodes, i + 1)
  }

  /** `validate`: root check, per-node checks, parent cycles, sibling cycles, in that order. */
  function Validate(nodes: seq<TreeNode>): Result<(), Fault>
  {
    if |nodes| == 0 then Err(RootMissing)
    else if nodes[0].parent.Some? then Err(RootHasParent)
    else
      var f := NodesFault(nodes, 0);
      if f.Some? then Err(f.value)
      else
        var p := ParentCycleFault(nodes, 0);
        if p.Some? then Err(p.value)
        else
          var s := SiblingCycleFault(nodes, 0);
          if s.Some? then Err(s.value) else Ok(())
  }

  predicate Valid(nodes: seq<TreeNode>)
  {
    Validate(nodes).Ok?
  }

  // ----- the loops of the source, proved equal to the functions -----

  /** The `while let Some(cid) = current_id` loop of lines 94-135. */
  method CheckChain(nodes: seq<TreeNode>, id: NodeId, first: NodeId) returns (r: Result<Option<NodeId>, Fault>)
    requires first < |nodes| && nodes[first].prevSibling.None?
    ensures r == ChainFrom(nodes, id, first, [])
  {
    var current: Option<NodeId> := Some(first);
    var lastSeen: Option<NodeId> := None;
    ghost var path: seq<NodeId> := [];
    while current.Some?
      invariant current.Some? ==> current.value < |nodes| && ReciprocalChain(nodes, path + [current.value])
      invariant current.Some? ==> ChainFrom(nodes, id, first, []) == ChainFrom(nodes, id, current.value, path)
      invariant current.None? ==> ChainFrom(nodes, id, first, []) == Ok(lastSeen)
      invariant |path| < |nodes|
      decreases |nodes| - |path|, if current.Some? then 1 else 0
    {
      var cid := current.value;
      ReciprocalChainDistinct(nodes, path + [cid]);
      DistinctBound(path + [cid], |nodes|);
      var cur := nodes[cid];
      if cur.parent != Some(id) {
        return Err(Mismatch(cid));
      }
      if cur.prevSibling.Some? {
        var prev := cur.prevSibling.value;
        if prev >= |nodes| {
          return Err(BadReference(prev));
        }
        if nodes[prev].nextSibling != Some(cid) {
          return Err(Mismatch(prev));
        }
      }
      if cur.nextSibling.Some? {
        var next := cur.nextSibling.value;
        if next >= |nodes| {
          return Err(BadReference(next));
        }
        if nodes[next].prevSibling != Some(cid) {
          return Err(Mismatch(next));
        }
        assert (path + [cid]) + [next] == path + [cid, next];
        ReciprocalChainDistinct(nodes, path + [cid, next]);
        DistinctBound(path + [cid, next], |nodes|);
        path := path + [cid];
        current := Some(next);
      } else {
        lastSeen := Some(cid);
        current := None;
      }
    }
    return Ok(lastSeen);
  }

  /** The `visited` loops of lines 193-200 and 206-213. */
  method FindRepeated(nodes: seq<TreeNode>, start: Option<NodeId>, l: Link) returns (r: Option<NodeId>)
    ensures r == RepeatedOn(nodes, start, l, {})
  {
    var visited: set<nat> := {};
    var current := start;
    while current.Some?
      invariant forall v :: v in visited ==> v < |nodes|
      invariant current.Some? ==> RepeatedOn(nodes, start, l, {}) == RepeatedOn(nodes, current, l, visited)
      invariant current.None? ==> RepeatedOn(nodes, start, l, {}) == None
      decreases if current.Some? then |nodes| + 1 - |visited| else 0
    {
      var cid := current.value;
      SubsetBound(visited, |nodes|);
      if cid in visited {
        return Some(cid);
      }
      if cid < |nodes| {
        SubsetBound(visited + {cid}, |nodes|);
        visited := visited + {cid};
        current := Get(nodes[cid], l);
      } else {
        current := None;
      }
    }
    return None;
  }

  /** The body of the first `for node in nodes.iter()` loop, for one node. */
  method CheckNode(nodes: seq<TreeNode>, n: TreeNode) returns (r: Option<Fault>)
    ensures r == NodeFault(nodes, n)
  {
    r := SelfLinkFault(n);
    if r.Some? {
      return;
    }
    if n.firstChild.Some? {
      var f := n.firstChild.value;
      if f >= |nodes| {
        return Some(BadReference(n.id));
      }
      if nodes[f].parent != Some(n.id) || nodes[f].prevSibling.Some? {
        return Some(Mismatch(n.id));
      }
      var chain := CheckChain(nodes, n.id, f);
      if chain.Err? {
        return Some(chain.error);
      }
      if n.lastChild != chain.value {
        return Some(LastChildMismatch(n.id));
      }
    }
    r := LastChildFault(nodes, n);
    if r.Some? {
      return;
    }
    r := SiblingFault(nodes, n);
  }

  /** `Tree::validate` over the borrowed node vector. */
  method ValidateNodes(nodes: seq<TreeNode>) returns (r: Result<(), Fault>)
    ensures r == Validate(nodes)
  {
    if |nodes| == 0 {
      return Err(RootMissing);
    }
    if nodes[0].parent.Some? {
      return Err(RootHasParent);
    }
    var i := 0;
    while i < |nodes|
      invariant 0 <= i <= |nodes|
      invariant NodesFault(nodes, 0) == NodesFault(nodes, i)
    {
      var f := CheckNode(nodes, nodes[i]);
      if f.Some? {
        return Err(f.value);
      }
      i := i + 1;
    }
    i := 0;
    while i < |nodes|
      invariant 0 <= i <= |nodes|
      invariant ParentCycleFault(nodes, 0) == ParentCycleFault(nodes, i)
    {
      var c := FindRepeated(nodes, Some(nodes[i].id), Parent);
      if c.Some? {
        return Err(ParentCycle(c.value));
      }
      i := i + 1;
    }
    i := 0;
    while i < |nodes|
      invariant 0 <= i <= |nodes|
      invariant SiblingCycleFault(nodes, 0) == SiblingCycleFault(nodes, i)
    {
      if nodes[i].firstChild.Some? {
        var c := FindRepeated(nodes, nodes[i].firstChild, Next);
        if c.Some? {
          return Err(SiblingCycle(c.value));
        }
      }
      i := i + 1;
    }
    return Ok(());
  }

  // ----- what a successful validation guarantees -----

  lemma {:induction false} NoNodeFaultAt(nodes: seq<TreeNode>, k: nat, i: nat)
    requires NodesFault(nodes, k).None? && k <= i < |nodes|
    ensures NodeFault(nodes, nodes[i]).None?
    decreases i - k
  {
    if k < i {
      NoNodeFaultAt(nodes, k + 1, i);
    }
  }

  lemma {:induction false} NoCycleFaultAt(nodes: seq<TreeNode>, k: nat, i: nat)
    requires ParentCycleFault(nodes, k).None? && SiblingCycleFault(nodes, k).None? && k <= i < |nodes|
    ensures RepeatedOn(nodes, Some(nodes[i].id), Parent, {}).None?
    ensures nodes[i].firstChild.Some? ==> RepeatedOn(nodes, nodes[i].firstChild, Next, {}).None?
    decreases i - k
  {
    if k < i {
      NoCycleFaultAt(nodes, k + 1, i);
    }
  }

  /** `validate` succeeds only if node 0 exists and has no parent. */
  lemma ValidRoot(nodes: seq<TreeNode>)
    requires Valid(nodes)
    ensures |nodes| > 0 && nodes[0].parent.None?
  {
  }

  /** `validate` fails if any node names its own id in one of its five links. */
  lemma ValidNoSelfLinks(nodes: seq<TreeNode>, i: nat)
    requires Valid(nodes) && i < |nodes|
    ensures forall l: Link :: Get(nodes[i], l) != Some(nodes[i].id)
  {
    NoNodeFaultAt(nodes, 0, i);
  }

  /**
   * On a valid arena a first child lies inside the vector, names the node as
   * parent and has no previous sibling; a last child likewise has no next
   * sibling; and every sibling link is answered by the sibling.
   */
  lemma ValidChildAndSiblingLinks(nodes: seq<TreeNode>, i: nat)
    requires Valid(nodes) && i < |nodes|
    ensures var n := nodes[i];
      && (n.firstChild.Some? ==>
            n.firstChild.value < |nodes| && nodes[n.firstChild.value].parent == Some(n.id)
            && nodes[n.firstChild.value].prevSibling.None?)
      && (n.lastChild.Some? ==>
            n.lastChild.value < |nodes| && nodes[n.lastChild.value].parent == Some(n.id)
            && nodes[n.lastChild.value].nextSibling.None?)
      && (n.prevSibling.Some? ==> n.prevSibling.value < |nodes| && nodes[n.prevSibling.value].nextSibling == Some(n.id))
      && (n.nextSibling.Some? ==> n.nextSibling.value < |nodes| && nodes[n.nextSibling.value].prevSibling == Some(n.id))
  {
    NoNodeFaultAt(nodes, 0, i);
  }

  /** A chain check that succeeds walked a finite chain of children of `id` and returned its end. */
  lemma {:induction false} ChainFromOk(nodes: seq<TreeNode>, id: NodeId, cid: NodeId, path: seq<NodeId>)
    requires cid < |nodes| && ReciprocalChain(nodes, path + [cid])
    requires ChainFrom(nodes, id, cid, path).Ok?
    ensures |path| < |nodes|
    ensures var w := Walk(nodes, Some(cid), Next, |nodes| - |path|);
      && Ends(nodes, Some(cid), Next, |nodes| - |path|)
      && w != [] && ChainFrom(nodes, id, cid, path).value == Some(w[|w| - 1])
      && (forall k :: 0 <= k < |w| ==> nodes[w[k]].parent == Some(id))
    decreases |nodes| - |path|
  {
    ReciprocalChainDistinct(nodes, path + [cid]);
    DistinctBound(path + [cid], |nodes|);
    var cur := nodes[cid];
    if cur.nextSibling.Some? {
      var next := cur.nextSibling.value;
      assert (path + [cid]) + [next] == path + [cid, next];
      ChainFromOk(nodes, id, next, path + [cid]);
    }
  }

  /**
   * On a valid arena, walking `next_sibling` from a node's first child visits
   * only nodes whose parent is that node, reaches `None` inside the vector,
   * and ends exactly at the node's last child.
   */
  lemma ValidChildChain(nodes: seq<TreeNode>, i: nat)
    requires Valid(nodes) && i < |nodes| && nodes[i].firstChild.Some?
    ensures var cs := Children(nodes, i);
      && Ends(nodes, nodes[i].firstChild, Next, |nodes|)
      && cs != [] && nodes[i].lastChild == Some(cs[|cs| - 1])
      && (forall k :: 0 <= k < |cs| ==> nodes[cs[k]].parent == Some(nodes[i].id))
  {
    NoNodeFaultAt(nodes, 0, i);
    var f := nodes[i].firstChild.value;
    assert [] + [f] == [f];
    ChainFromOk(nodes, nodes[i].id, f, []);
  }

  /**
   * A visited-set walk that finds no repetition stops, at `None` or outside
   * the vector, within one step more than the ids left unvisited.
   */
  lemma {:induction false} NoRepeatStops(nodes: seq<TreeNode>, cur: Option<NodeId>, l: Link, visited: set<nat>)
    requires forall v :: v in visited ==> v < |nodes|
    requires RepeatedOn(nodes, cur, l, visited).None?
    ensures |visited| <= |nodes|
    ensures Stops(nodes, cur, l, |nodes| - |visited| + 1)
    decreases |nodes| - |visited|
  {
    SubsetBound(visited, |nodes|);
    if cur.Some? && cur.value < |nodes| {
      var c := cur.value;
      SubsetBound(visited + {c}, |nodes|);
      NoRepeatStops(nodes, Get(nodes[c], l), l, visited + {c});
    }
  }

  /**
   * On a valid arena no parent chain and no sibling chain from a first
   * child cycles: each walk stops within `|nodes| + 1` steps.
   */
  lemma ValidNoCycles(nodes: seq<TreeNode>, i: nat)
    requires Valid(nodes) && i < |nodes|
    ensures Stops(nodes, Some(nodes[i].id), Parent, |nodes| + 1)
    ensures nodes[i].firstChild.Some? ==> Stops(nodes, nodes[i].firstChild, Next, |nodes| + 1)
  {
    NoCycleFaultAt(nodes, 0, i);
    NoRepeatStops(nodes, Some(nodes[i].id), Parent, {});
    if nodes[i].firstChild.Some? {
      NoRepeatStops(nodes, nodes[i].firstChild, Next, {});
    }
  }

  // ----- a well-formed arena passes validation -----

  lemma {:induction false} ChainFromWellFormed(nodes: seq<TreeNode>, id: NodeId, cid: NodeId, path: seq<NodeId>)
    requires WellFormed(nodes) && id < |nodes|
    requires cid < |nodes| && ReciprocalChain(nodes, path + [cid]) && nodes[cid].parent == Some(id)
    ensures ChainFrom(nodes, id, cid, path) == Ok(nodes[id].lastChild)
    decreases |nodes| - |path|
  {
    ReciprocalChainDistinct(nodes, path + [cid]);
    DistinctBound(path + [cid], |nodes|);
    assert NodeWellLinked(nodes, cid);
    var cur := nodes[cid];
    if cur.nextSibling.Some? {
      var next := cur.nextSibling.value;
      assert (path + [cid]) + [next] == path + [cid, next];
      ChainFromWellFormed(nodes, id, next, path + [cid]);
    }
  }

  lemma {:induction false} RepeatedOnAcyclic(nodes: seq<TreeNode>, cur: Option<NodeId>, l: Link, visited: set<nat>)
    requires Acyclic(nodes, l) && (cur.Some? ==> cur.value < |nodes|)
    requires forall v :: v in visited ==> v < |nodes| && (cur.Some? ==> Rank(nodes, v, l) > Rank(nodes, cur.value, l))
    ensures RepeatedOn(nodes, cur, l, visited).None?
    decreases |nodes| - |visited|
  {
    if cur.Some? {
      var c := cur.value;
      SubsetBound(visited + {c}, |nodes|);
      var d := Get(nodes[c], l);
      if d.Some? {
        RankStep(nodes, c, l);
      }
      RepeatedOnAcyclic(nodes, d, l, visited + {c});
    }
  }

  lemma {:induction false} NodesFaultWellFormed(nodes: seq<TreeNode>, i: nat)
    requires WellFormed(nodes) && i <= |nodes|
    ensures NodesFault(nodes, i).None?
    ensures ParentCycleFault(nodes, i).None?
    ensures SiblingCycleFault(nodes, i).None?
    decreases |nodes| - i
  {
    if i < |nodes| {
      NodesFaultWellFormed(nodes, i + 1);
      NodeFaultWellFormed(nodes, i);
      if nodes[i].firstChild.Some? {
        RepeatedOnAcyclic(nodes, nodes[i].firstChild, Next, {});
      }
      assert NodeWellLinked(nodes, i);
      RepeatedOnAcyclic(nodes, Some(nodes[i].id), Parent, {});
    }
  }

  /** The per-node checks of `validate` pass on every node of a well-formed arena. */
  lemma NodeFaultWellFormed(nodes: seq<TreeNode>, i: nat)
    requires WellFormed(nodes) && i < |nodes|
    ensures NodeFault(nodes, nodes[i]).None?
  {
    var n := nodes[i];
    assert NodeWellLinked(nodes, i);
    NoSelfLinks(nodes, i);
    if n.firstChild.Some? {
      var f := n.firstChild.value;
      assert [] + [f] == [f];
      ChainFromWellFormed(nodes, i, f, []);
    }
    if n.lastChild.Some? {
      assert NodeWellLinked(nodes, n.lastChild.value);
    }
    if n.prevSibling.Some? {
      assert NodeWellLinked(nodes, n.prevSibling.value);
    }
    if n.nextSibling.Some? {
      assert NodeWellLinked(nodes, n.nextSibling.value);
    }
  }

  /** The corrected invariant is at least as strict as `validate`. */
  lemma WellFormedIsValid(nodes: seq<TreeNode>)
    requires WellFormed(nodes)
    ensures Valid(nodes)
  {
    NodesFaultWellFormed(nodes, 0);
  }

  // ----- the gap in `validate` -----

  /**
   * `validate` accepts this arena although node 0 has a last child but no
   * first child and node 1 links to node 2 without being a child of node 0;
   * `remove_from_parent(2)` then yields an arena that `validate` rejects.
   */
  lemma RemoveCanBreakValidity()
    ensures Valid(BrokenArena()) && !Valid(RemovedFromParent(BrokenArena(), 2)) && !WellFormed(BrokenArena())
  {
    BrokenArenaValid();
    BrokenArenaRemoved();
    assert !NodeWellLinked(BrokenArena(), 0);
  }

  /** Node 0 has a last child but no first child; node 1 links to node 2 without a parent. */
  function BrokenArena(): seq<TreeNode>
  {
    [ TreeNode(0, None, None, None, None, Some(2), Document),
      TreeNode(1, None, None, Some(2), None, None, Document),
      TreeNode(2, Some(0), Some(1), None, None, None, Document) ]
  }

  lemma BrokenArenaValid()
    ensures Valid(BrokenArena())
  {
    BrokenArenaNodes();
    BrokenArenaParents();
    assert SiblingCycleFault(BrokenArena(), 0).None?;
  }

  lemma BrokenArenaNodes()
    ensures NodesFault(BrokenArena(), 0).None?
  {
    var nodes := BrokenArena();
    assert NodesFault(nodes, 3).None?;
    assert NodesFault(nodes, 2).None?;
    assert NodesFault(nodes, 1).None?;
  }

  lemma BrokenArenaParents()
    ensures ParentCycleFault(BrokenArena(), 0).None?
  {
    var nodes := BrokenArena();
    assert RepeatedOn(nodes, None, Parent, {0}).None?;
    assert RepeatedOn(nodes, Some(0), Parent, {}).None?;
    assert RepeatedOn(nodes, None, Parent, {1}).None?;
    assert RepeatedOn(nodes, Some(1), Parent, {}).None?;
    assert RepeatedOn(nodes, None, Parent, {2, 0}).None?;
    assert RepeatedOn(nodes, Some(0), Parent, {2}).None?;
    assert RepeatedOn(nodes, Some(2), Parent, {}).None?;
    assert ParentCycleFault(nodes, 3).None?;
    assert ParentCycleFault(nodes, 2).None?;
    assert ParentCycleFault(nodes, 1).None?;
  }

  /** After the detach node 0's last child is node 1, which has no parent. */
  lemma BrokenArenaRemoved()
    ensures !Valid(RemovedFromParent(BrokenArena(), 2))
  {
    var r := RemovedFromParent(BrokenArena(), 2);
    assert r[0].lastChild == Some(1) && r[1].parent.None?;
    assert NodeFault(r, r[0]).Some?;
  }
}
