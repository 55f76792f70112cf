/**
 * Link fields of arena nodes and the walks that follow them.  A walk along
 * one link (parent, next sibling, ...) is what every cursor loop of the
 * library does; it is cut off by a fuel bound so that it is a total function
 * even on arenas whose links form a cycle.  On an arena without cycles a
 * fuel of `|nodes|` is never exhausted (`Ends` below).
 */
module Chains {
  import opened Wrappers
  import opened Arena

  /** The five link fields of a `TreeNode`. */
  datatype Link = Parent | Prev | Next | First | Last

  function Get(n: TreeNode, l: Link): Option<NodeId>
  {
    match l
    case Parent => n.parent
    case Prev => n.prevSibling
    case Next => n.nextSibling
    case First => n.firstChild
    case Last => n.lastChild
  }

  /** `n` with link `l` overwritten by `v`. */
  function Put(n: TreeNode, l: Link, v: Option<NodeId>): (r: TreeNode)
    ensures Get(r, l) == v
    ensures forall k: Link :: k != l ==> Get(r, k) == Get(n, k)
    ensures r.id == n.id && r.data == n.data
  {
    match l
    case Parent => n.(parent := v)
    case Prev => n.(prevSibling := v)
    case Next => n.(nextSibling := v)
    case First => n.(firstChild := v)
    case Last => n.(lastChild := v)
  }

  /**
   * `if let Some(node) = nodes.get_mut(i) { node.<l> = v }`: a write of one
   * link that silently does nothing when `i` is out of range.
   */
  function Set(nodes: seq<TreeNode>, i: NodeId, l: Link, v: Option<NodeId>): (r: seq<TreeNode>)
    ensures |r| == |nodes|
    ensures forall j :: 0 <= j < |nodes| && j != i ==> r[j] == nodes[j]
    ensures i < |nodes| ==> r[i] == Put(nodes[i], l, v)
    ensures forall j :: 0 <= j < |nodes| ==> r[j].id == nodes[j].id && r[j].data == nodes[j].data
  {
    if i < |nodes| then nodes[i := Put(nodes[i], l, v)] else nodes
  }

  /** The same write through an optional id (`opt.and_then(|id| nodes.get_mut(id))`). */
  function SetAt(nodes: seq<TreeNode>, o: Option<NodeId>, l: Link, v: Option<NodeId>): (r: seq<TreeNode>)
    ensures |r| == |nodes|
    ensures o.None? ==> r == nodes
    ensures o.Some? ==> r == Set(nodes, o.value, l, v)
    ensures forall j :: 0 <= j < |nodes| ==> r[j].id == nodes[j].id && r[j].data == nodes[j].data
  {
    if o.Some? then Set(nodes, o.value, l, v) else nodes
  }

  /**
   * The ids a cursor visits when it starts at `start` and follows link `l`:
   * it stops at `None`, at an id outside the arena, or when `fuel` runs out.
   */
  function Walk(nodes: seq<TreeNode>, start: Option<NodeId>, l: Link, fuel: nat): (w: seq<NodeId>)
    ensures |w| <= fuel
    ensures forall k :: 0 <= k < |w| ==> w[k] < |nodes|
    ensures start.Some? && start.value < |nodes| && fuel > 0 ==> w != [] && w[0] == start.value
    decreases fuel
  {
    if fuel == 0 || start.None? || start.value >= |nodes| then []
    else [start.value] + Walk(nodes, Get(nodes[start.value], l), l, fuel - 1)
  }

  /** The walk reaches `None` within `fuel` steps without leaving the arena. */
  predicate Ends(nodes: seq<TreeNode>, start: Option<NodeId>, l: Link, fuel: nat)
    decreases fuel
  {
    start.None? || (start.value < |nodes| && fuel > 0 && Ends(nodes, Get(nodes[start.value], l), l, fuel - 1))
  }

  /** The walk stops (at `None` or at an out-of-range id) within `fuel` steps. */
  predicate Stops(nodes: seq<TreeNode>, start: Option<NodeId>, l: Link, fuel: nat)
    decreases fuel
  {
    start.None? || start.value >= |nodes| || (fuel > 0 && Stops(nodes, Get(nodes[start.value], l), l, fuel - 1))
  }

  lemma {:induction false} EndsStops(nodes: seq<TreeNode>, start: Option<NodeId>, l: Link, fuel: nat)
    requires Ends(nodes, start, l, fuel)
    ensures Stops(nodes, start, l, fuel)
    decreases fuel
  {
    if start.Some? {
      EndsStops(nodes, Get(nodes[start.value], l), l, fuel - 1);
    }
  }

  /** More fuel never hurts a walk that ends. */
  lemma {:induction false} EndsMono(nodes: seq<TreeNode>, start: Option<NodeId>, l: Link, f: nat, g: nat)
    requires Ends(nodes, start, l, f) && f <= g
    ensures Ends(nodes, start, l, g)
    decreases f
  {
    if start.Some? {
      EndsMono(nodes, Get(nodes[start.value], l), l, f - 1, g - 1);
    }
  }

  /** Once a walk stops, extra fuel does not change what it visits. */
  lemma {:induction false} WalkFuel(nodes: seq<TreeNode>, start: Option<NodeId>, l: Link, f: nat, g: nat)
    requires Stops(nodes, start, l, f) && f <= g
    ensures Walk(nodes, start, l, f) == Walk(nodes, start, l, g)
    decreases f
  {
    if start.Some? && start.value < |nodes| {
      WalkFuel(nodes, Get(nodes[start.value], l), l, f - 1, g - 1);
    }
  }

  /** Every link walk from every node ends: there is no cycle along `l`. */
  predicate Acyclic(nodes: seq<TreeNode>, l: Link)
  {
    forall i :: 0 <= i < |nodes| ==> Ends(nodes, Some(i), l, |nodes|)
  }

  /** The number of nodes a walk along `l` visits, starting with `i` itself. */
  function Rank(nodes: seq<TreeNode>, i: NodeId, l: Link): nat
  {
    |Walk(nodes, Some(i), l, |nodes|)|
  }

  lemma RankBounds(nodes: seq<TreeNode>, i: NodeId, l: Link)
    requires i < |nodes|
    ensures 1 <= Rank(nodes, i, l) <= |nodes|
  {
  }

  /** Along an acyclic link, a node ranks one above the node it links to. */
  lemma RankStep(nodes: seq<TreeNode>, i: NodeId, l: Link)
    requires i < |nodes| && Ends(nodes, Some(i), l, |nodes|)
    requires Get(nodes[i], l).Some?
    ensures Get(nodes[i], l).value < |nodes|
    ensures Rank(nodes, i, l) == Rank(nodes, Get(nodes[i], l).value, l) + 1
  {
    var j := Get(nodes[i], l).value;
    EndsStops(nodes, Some(j), l, |nodes| - 1);
    WalkFuel(nodes, Some(j), l, |nodes| - 1, |nodes|);
  }

  /** No node links to itself along an acyclic link. */
  lemma NoSelfLink(nodes: seq<TreeNode>, i: NodeId, l: Link)
    requires i < |nodes| && Ends(nodes, Some(i), l, |nodes|)
    ensures Get(nodes[i], l) != Some(i)
  {
    if Get(nodes[i], l) == Some(i) {
      RankStep(nodes, i, l);
    }
  }

  /** No two nodes link to each other along an acyclic link. */
  lemma NoTwoCycle(nodes: seq<TreeNode>, i: NodeId, j: NodeId, l: Link)
    requires Acyclic(nodes, l) && i < |nodes| && j < |nodes|
    requires Get(nodes[i], l) == Some(j)
    ensures Get(nodes[j], l) != Some(i)
  {
    RankStep(nodes, i, l);
    if Get(nodes[j], l) == Some(i) {
      RankStep(nodes, j, l);
    }
  }

  /** The ids of the children of `id`: its child chain from `first_child`. */
  function Children(nodes: seq<TreeNode>, id: NodeId): (cs: seq<NodeId>)
    ensures forall k :: 0 <= k < |cs| ==> cs[k] < |nodes|
  {
    if id < |nodes| then Walk(nodes, nodes[id].firstChild, Next, |nodes|) else []
  }

  /** The ids on the parent chain of `id`, nearest first, `id` itself excluded. */
  function Ancestors(nodes: seq<TreeNode>, id: NodeId): (anc: seq<NodeId>)
    ensures forall k :: 0 <= k < |anc| ==> anc[k] < |nodes|
  {
    if id < |nodes| then Walk(nodes, nodes[id].parent, Parent, |nodes|) else []
  }

  function Reverse<T>(s: seq<T>): (r: seq<T>)
    ensures |r| == |s|
    ensures forall k :: 0 <= k < |s| ==> r[k] == s[|s| - 1 - k]
  {
    if s == [] then [] else Reverse(s[1..]) + [s[0]]
  }

  /** Concatenation is associative; a named step keeps long sequence goals small. */
  lemma ConcatAssoc<T>(a: seq<T>, b: seq<T>, c: seq<T>)
    ensures (a + b) + c == a + (b + c)
  {
  }
}
