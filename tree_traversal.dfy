/**
 * Name-path search over the arena (src/dom_tree/traversal.rs): the first
 * element child satisfying a predicate, the element reached by following a
 * path of child names, and every element reached by a path of descendant
 * names.  Child lists come from the forward child iterator.
 */
module TreeTraversal {
  import opened Wrappers
  import opened Arena
  import opened Chains
  import opened Invariant
  import opened Subtree
  import opened Iters

  /** `as_element().map(|el| el.node_name())`: the local name of an element. */
  function NodeName(n: TreeNode): (r: Option<string>)
    ensures r.Some? <==> IsElement(n)
  {
    match n.data
    case ElementData(e) => Some(e.name.local)
    case _ => None
  }

  /** The element node at `c` satisfies `f`. */
  predicate ElementWhere(nodes: seq<TreeNode>, c: NodeId, f: TreeNode -> bool)
    requires c < |nodes|
  {
    IsElement(nodes[c]) && f(nodes[c])
  }

  /**
   * `filter(is_element).find(f).map(|n| n.id)` over `ids`: the stored id of
   * the first element that satisfies `f`.
   */
  function FirstElementWhere(nodes: seq<TreeNode>, ids: seq<NodeId>, f: TreeNode -> bool): (r: Option<NodeId>)
    requires forall k :: 0 <= k < |ids| ==> ids[k] < |nodes|
    ensures r.None? <==> forall k :: 0 <= k < |ids| ==> !ElementWhere(nodes, ids[k], f)
    ensures r.Some? ==> exists k :: (0 <= k < |ids| && ElementWhere(nodes, ids[k], f) && r.value == nodes[ids[k]].id
      && forall j :: 0 <= j < k ==> !ElementWhere(nodes, ids[j], f))
    decreases |ids|
  {
    if ids == [] then None
    else if ElementWhere(nodes, ids[0], f) then Some(nodes[ids[0]].id)
    else
      var r := FirstElementWhere(nodes, ids[1..], f);
      assert forall k :: 1 <= k < |ids| ==> ids[k] == ids[1..][k - 1];
      r
  }

  /**
   * `Traversal::find_child_element`: the first element child of `id`, in
   * sibling order, that satisfies `f`, or `None` when there is none.
   */
  function FindChildElement(nodes: seq<TreeNode>, id: NodeId, f: TreeNode -> bool): (r: Option<NodeId>)
    ensures var cs := Children(nodes, id);
      && (r.None? <==> forall k :: 0 <= k < |cs| ==> !ElementWhere(nodes, cs[k], f))
      && (r.Some? ==> exists k :: (0 <= k < |cs| && ElementWhere(nodes, cs[k], f) && r.value == nodes[cs[k]].id
            && forall j :: 0 <= j < k ==> !ElementWhere(nodes, cs[j], f)))
  {
    FirstElementWhere(nodes, Children(nodes, id), f)
  }

  /** The element's local name is `name`. */
  predicate Named(name: string, n: TreeNode)
  {
    NodeName(n) == Some(name)
  }

  /** `Traversal::find_child_element_by_name`. */
  function FindChildElementByName(nodes: seq<TreeNode>, id: NodeId, name: string): (r: Option<NodeId>)
    ensures var cs := Children(nodes, id);
      && (r.None? <==> forall k :: 0 <= k < |cs| ==> !Named(name, nodes[cs[k]]))
      && (r.Some? ==> exists k :: (0 <= k < |cs| && Named(name, nodes[cs[k]]) && r.value == nodes[cs[k]].id
            && forall j :: 0 <= j < k ==> !Named(name, nodes[cs[j]])))
  {
    var f := (n: TreeNode) => Named(name, n);
    var r := FindChildElement(nodes, id, f);
    var cs := Children(nodes, id);
    assert forall k :: 0 <= k < |cs| ==> (ElementWhere(nodes, cs[k], f) <==> Named(name, nodes[cs[k]]));
    r
  }

  /**
   * `Traversal::find_descendant_element`: `try_fold` over the path, each step
   * moving to the first element child with the next name.
   */
  function FindDescendantElement(nodes: seq<TreeNode>, id: NodeId, path: seq<string>): Option<NodeId>
    decreases |path|
  {
    if path == [] then Some(id)
    else
      match FindChildElementByName(nodes, id, path[0])
      case None => None
      case Some(c) => FindDescendantElement(nodes, c, path[1..])
  }

  /** Following `p + q` is following `p`, then `q` from where `p` ended; a failed prefix fails the whole. */
  lemma {:induction false} FindDescendantElementCompose(nodes: seq<TreeNode>, id: NodeId, p: seq<string>, q: seq<string>)
    ensures FindDescendantElement(nodes, id, p + q) ==
      match FindDescendantElement(nodes, id, p)
      case None => None
      case Some(x) => FindDescendantElement(nodes, x, q)
    decreases |p|
  {
    if p == [] {
      assert p + q == q;
    } else {
      assert (p + q)[0] == p[0] && (p + q)[1..] == p[1..] + q;
      match FindChildElementByName(nodes, id, p[0])
      case None =>
      case Some(c) => FindDescendantElementCompose(nodes, c, p[1..], q);
    }
  }

  /**
   * On a well-formed arena a found element carries the last name of the path
   * and descends from `id`: `id` lies on its parent chain.
   */
  lemma {:induction false} FindDescendantElementNamed(nodes: seq<TreeNode>, id: NodeId, path: seq<string>)
    requires WellFormed(nodes) && id < |nodes| && path != []
    ensures var r := FindDescendantElement(nodes, id, path);
      r.Some? ==> r.value < |nodes| && Named(path[|path| - 1], nodes[r.value]) && id in Ancestors(nodes, r.value)
    decreases |path|
  {
    var r := FindDescendantElement(nodes, id, path);
    var step := FindChildElementByName(nodes, id, path[0]);
    if step.Some? {
      var c := step.value;
      FoundChild(nodes, id, path[0]);
      AncestorsOfChild(nodes, c);
      if |path| > 1 {
        FindDescendantElementNamed(nodes, c, path[1..]);
        if r.Some? {
          AncestorsTransitive(nodes, id, c, r.value);
        }
      }
    }
  }

  /** On a well-formed arena the child found by name is a child of `id` with that name. */
  lemma FoundChild(nodes: seq<TreeNode>, id: NodeId, name: string)
    requires WellFormed(nodes) && id < |nodes|
    ensures var r := FindChildElementByName(nodes, id, name);
      r.Some? ==> r.value < |nodes| && nodes[r.value].parent == Some(id) && Named(name, nodes[r.value])
  {
    var r := FindChildElementByName(nodes, id, name);
    if r.Some? {
      var cs := Children(nodes, id);
      var k :| 0 <= k < |cs| && Named(name, nodes[cs[k]]) && r.value == nodes[cs[k]].id;
      assert NodeWellLinked(nodes, cs[k]);
      ChildrenParented(nodes, id);
    }
  }

  // ----- the parent chain on a well-formed arena -----

  /** A child's parent chain is its parent followed by the parent's chain. */
  lemma AncestorsOfChild(nodes: seq<TreeNode>, c: NodeId)
    requires WellFormed(nodes) && c < |nodes| && nodes[c].parent.Some?
    ensures nodes[c].parent.value < |nodes|
    ensures Ancestors(nodes, c) == [nodes[c].parent.value] + Ancestors(nodes, nodes[c].parent.value)
  {
    var p := nodes[c].parent.value;
    assert NodeWellLinked(nodes, c);
    assert Ends(nodes, Some(p), Parent, |nodes|);
    EndsStops(nodes, nodes[p].parent, Parent, |nodes| - 1);
    WalkFuel(nodes, nodes[p].parent, Parent, |nodes| - 1, |nodes|);
  }

  /** Being on the parent chain is transitive. */
  lemma AncestorsTransitive(nodes: seq<TreeNode>, a: NodeId, b: NodeId, c: NodeId)
    requires WellFormed(nodes) && c < |nodes| && a in Ancestors(nodes, b) && b in Ancestors(nodes, c)
    ensures a in Ancestors(nodes, c)
    decreases Rank(nodes, c, Parent)
  {
    assert NodeWellLinked(nodes, c);
    AncestorsOfChild(nodes, c);
    var p := nodes[c].parent.value;
    if b != p {
      RankStep(nodes, c, Parent);
      AncestorsTransitive(nodes, a, b, p);
    }
  }

  // ----- collect_matching_descendants / find_descendant_elements -----

  /** The search of `collect_matching_descendants` goes below element `c` unless it matched on a step that is not the last. */
  predicate Descends(nodes: seq<TreeNode>, c: NodeId, name: string, isLast: bool)
    requires c < |nodes|
  {
    IsElement(nodes[c]) && (!Named(name, nodes[c]) || isLast)
  }

  /**
   * The search from `id` ends: every child chain it walks stops inside the
   * vector within `|nodes|` steps and the depth it descends is within `fuel`.
   * The source recursion never returns on a cyclic arena.
   */
  predicate SearchStops(nodes: seq<TreeNode>, id: NodeId, name: string, isLast: bool, fuel: nat)
    decreases fuel
  {
    && Stops(nodes, FirstChildOf(nodes, id), Next, |nodes|)
    && forall k :: 0 <= k < |Children(nodes, id)| && Descends(nodes, Children(nodes, id)[k], name, isLast) ==>
         fuel > 0 && SearchStops(nodes, Children(nodes, id)[k], name, isLast, fuel - 1)
  }

  /** What `collect_matching_descendants` pushes: the matching elements below `id`, in document pre-order. */
  function Matching(nodes: seq<TreeNode>, id: NodeId, name: string, isLast: bool, fuel: nat): seq<NodeId>
    decreases fuel, 1
  {
    MatchingIn(nodes, Children(nodes, id), name, isLast, fuel)
  }

  /** The same over a list of sibling ids, each at most `fuel` levels from the bottom of the search. */
  function MatchingIn(nodes: seq<TreeNode>, cs: seq<NodeId>, name: string, isLast: bool, fuel: nat): seq<NodeId>
    requires forall k :: 0 <= k < |cs| ==> cs[k] < |nodes|
    decreases fuel, 0, |cs|
  {
    if cs == [] then []
    else
      var c := cs[0];
      var here := if IsElement(nodes[c]) && Named(name, nodes[c]) then [c] else [];
      var below := if Descends(nodes, c, name, isLast) && fuel > 0 then Matching(nodes, c, name, isLast, fuel - 1) else [];
      here + below + MatchingIn(nodes, cs[1..], name, isLast, fuel)
  }

  /**
   * `collect_matching_descendants`: walk the element children of `id`;
   * push a child whose name matches; descend into it unless it matched and
   * this is not the last step.
   */
  method CollectMatchingDescendants(nodes: seq<TreeNode>, id: NodeId, name: string, isLast: bool,
                                    results: seq<NodeId>, ghost fuel: nat) returns (out: seq<NodeId>)
    requires SearchStops(nodes, id, name, isLast, fuel)
    ensures out == results + Matching(nodes, id, name, isLast, fuel)
    decreases fuel, 1
  {
    var it := new ChildNodes(nodes, id);
    out := results;
    ghost var cs := Children(nodes, id);
    ghost var done: nat := 0;
    ghost var f: nat := |nodes|;
    SearchStart(nodes, id, name, isLast, fuel, results);
    while true
      invariant it.nodes == nodes
      invariant SearchState(nodes, id, name, isLast, fuel, results, cs, done, it.nextChildId, f, out)
      decreases f
    {
      ghost var cursor := it.nextChildId;
      var item := it.Next();
      if item.None? {
        SearchDone(nodes, id, name, isLast, fuel, results, cs, done, cursor, f, out);
        break;
      }
      var childId := item.value;
      SearchVisit(nodes, id, name, isLast, fuel, results, cs, done, cursor, f, out);
      out := VisitChild(nodes, childId, name, isLast, out, fuel);
      done := done + 1;
      f := f - 1;
    }
  }

  /**
   * The body of the child loop of `collect_matching_descendants` for one
   * child `c`: skip a non-element; push a matching element; descend unless
   * it matched on a step that is not the last.
   */
  method VisitChild(nodes: seq<TreeNode>, c: NodeId, name: string, isLast: bool, results: seq<NodeId>, ghost fuel: nat)
    returns (out: seq<NodeId>)
    requires c < |nodes|
    requires Descends(nodes, c, name, isLast) ==> fuel > 0 && SearchStops(nodes, c, name, isLast, fuel - 1)
    ensures out == results + MatchingIn(nodes, [c], name, isLast, fuel)
    decreases fuel, 0
  {
    MatchingInSingle(nodes, c, name, isLast, fuel);
    out := results;
    if IsElement(nodes[c]) {
      var matched := NodeName(nodes[c]) == Some(name);
      if matched {
        out := out + [c];
      }
      if !matched || isLast {
        out := CollectMatchingDescendants(nodes, c, name, isLast, out, fuel - 1);
        if matched {
          ConcatAssoc(results, [c], Matching(nodes, c, name, isLast, fuel - 1));
        }
      } else {
        assert results + [c] == results + [c] + [];
      }
    } else {
      assert results == results + [] + [];
    }
  }

  /** One child's share of the search: itself when it matches, then its subtree when the search descends. */
  lemma MatchingInSingle(nodes: seq<TreeNode>, c: NodeId, name: string, isLast: bool, fuel: nat)
    requires c < |nodes|
    ensures MatchingIn(nodes, [c], name, isLast, fuel) ==
      (if IsElement(nodes[c]) && Named(name, nodes[c]) then [c] else [])
      + (if Descends(nodes, c, name, isLast) && fuel > 0 then Matching(nodes, c, name, isLast, fuel - 1) else [])
  {
    assert [c][1..] == [];
    var here := if IsElement(nodes[c]) && Named(name, nodes[c]) then [c] else [];
    var below := if Descends(nodes, c, name, isLast) && fuel > 0 then Matching(nodes, c, name, isLast, fuel - 1) else [];
    assert here + below + [] == here + below;
  }

  /**
   * The state of the child loop of `collect_matching_descendants` after
   * `done` children: the rest of the chain is the walk from the cursor, and
   * what has been pushed, followed by what the rest will push, is the result.
   */
  ghost predicate SearchState(nodes: seq<TreeNode>, id: NodeId, name: string, isLast: bool, fuel: nat,
                              results: seq<NodeId>, cs: seq<NodeId>, done: nat, cursor: Option<NodeId>, f: nat, out: seq<NodeId>)
  {
    && SearchStops(nodes, id, name, isLast, fuel)
    && cs == Children(nodes, id) && done <= |cs|
    && Stops(nodes, cursor, Next, f)
    && Walk(nodes, cursor, Next, f) == cs[done..]
    && out + MatchingIn(nodes, cs[done..], name, isLast, fuel) == results + Matching(nodes, id, name, isLast, fuel)
  }

  lemma SearchStart(nodes: seq<TreeNode>, id: NodeId, name: string, isLast: bool, fuel: nat, results: seq<NodeId>)
    requires SearchStops(nodes, id, name, isLast, fuel)
    ensures SearchState(nodes, id, name, isLast, fuel, results, Children(nodes, id), 0, FirstChildOf(nodes, id), |nodes|, results)
  {
    assert Children(nodes, id)[0..] == Children(nodes, id);
  }

  lemma SearchDone(nodes: seq<TreeNode>, id: NodeId, name: string, isLast: bool, fuel: nat,
                   results: seq<NodeId>, cs: seq<NodeId>, done: nat, cursor: Option<NodeId>, f: nat, out: seq<NodeId>)
    requires SearchState(nodes, id, name, isLast, fuel, results, cs, done, cursor, f, out)
    requires cursor.None? || cursor.value >= |nodes|
    ensures out == results + Matching(nodes, id, name, isLast, fuel)
  {
    assert cs[done..] == [];
    assert out + [] == out;
  }

  /** The cursor is at the next child of the chain, which is inside the vector; a descent has fuel left. */
  lemma SearchVisit(nodes: seq<TreeNode>, id: NodeId, name: string, isLast: bool, fuel: nat,
                    results: seq<NodeId>, cs: seq<NodeId>, done: nat, cursor: Option<NodeId>, f: nat, out: seq<NodeId>)
    requires SearchState(nodes, id, name, isLast, fuel, results, cs, done, cursor, f, out)
    requires cursor.Some? && cursor.value < |nodes|
    ensures done < |cs| && cs[done] == cursor.value && f > 0
    ensures SearchState(nodes, id, name, isLast, fuel, results, cs, done + 1, nodes[cursor.value].nextSibling, f - 1,
                        out + MatchingIn(nodes, [cursor.value], name, isLast, fuel))
    ensures Descends(nodes, cursor.value, name, isLast) ==> fuel > 0 && SearchStops(nodes, cursor.value, name, isLast, fuel - 1)
  {
    WalkNextStep(nodes, cursor.value, f);
    SuffixHead(cs, done, cursor.value, Walk(nodes, nodes[cursor.value].nextSibling, Next, f - 1));
    MatchingInAt(nodes, cs, done, name, isLast, fuel);
    ConcatAssoc(out, MatchingIn(nodes, [cursor.value], name, isLast, fuel), MatchingIn(nodes, cs[done + 1..], name, isLast, fuel));
    assert Children(nodes, id)[done] == cursor.value;
  }

  /** One step of a sibling walk that stops. */
  lemma WalkNextStep(nodes: seq<TreeNode>, c: NodeId, f: nat)
    requires c < |nodes| && Stops(nodes, Some(c), Next, f)
    ensures f > 0 && Stops(nodes, nodes[c].nextSibling, Next, f - 1)
    ensures Walk(nodes, Some(c), Next, f) == [c] + Walk(nodes, nodes[c].nextSibling, Next, f - 1)
  {
  }

  lemma SuffixHead<T>(xs: seq<T>, d: nat, x: T, ys: seq<T>)
    requires d <= |xs| && xs[d..] == [x] + ys
    ensures d < |xs| && xs[d] == x && xs[d + 1..] == ys
  {
    assert xs[d..][0] == x;
    assert xs[d + 1..] == xs[d..][1..];
  }

  /** The search over the children from the `d`-th on: the `d`-th child's share, then the rest. */
  lemma MatchingInAt(nodes: seq<TreeNode>, cs: seq<NodeId>, d: nat, name: string, isLast: bool, fuel: nat)
    requires forall k :: 0 <= k < |cs| ==> cs[k] < |nodes|
    requires d < |cs|
    ensures MatchingIn(nodes, cs[d..], name, isLast, fuel)
      == MatchingIn(nodes, [cs[d]], name, isLast, fuel) + MatchingIn(nodes, cs[d + 1..], name, isLast, fuel)
  {
    assert cs[d..][0] == cs[d];
    assert cs[d..][1..] == cs[d + 1..];
    MatchingInSingle(nodes, cs[d], name, isLast, fuel);
  }

  /** On a well-formed arena the search from any id stops, with fuel `|nodes|`. */
  lemma WellFormedSearchStops(nodes: seq<TreeNode>, x: NodeId, name: string, isLast: bool)
    requires WellFormed(nodes)
    ensures SearchStops(nodes, x, name, isLast, |nodes|)
  {
    if x < |nodes| {
      RankBounds(nodes, x, Parent);
    }
    SearchStopsByRank(nodes, x, name, isLast, |nodes|);
  }

  lemma {:induction false} SearchStopsByRank(nodes: seq<TreeNode>, x: NodeId, name: string, isLast: bool, f: nat)
    requires WellFormed(nodes) && (x < |nodes| ==> f + Rank(nodes, x, Parent) >= |nodes|)
    ensures SearchStops(nodes, x, name, isLast, f)
    decreases f
  {
    ChildChainStops(nodes, x);
    var cs := Children(nodes, x);
    if x < |nodes| {
      ChildrenParented(nodes, x);
      forall k | 0 <= k < |cs| && Descends(nodes, cs[k], name, isLast)
        ensures f > 0 && SearchStops(nodes, cs[k], name, isLast, f - 1)
      {
        RankStep(nodes, cs[k], Parent);
        RankBounds(nodes, cs[k], Parent);
        SearchStopsByRank(nodes, cs[k], name, isLast, f - 1);
      }
    }
  }

  /** The matches below each id of `stack`, stack entry by stack entry. */
  function MatchingAll(nodes: seq<TreeNode>, stack: seq<NodeId>, name: string, isLast: bool, fuel: nat): seq<NodeId>
    decreases |stack|
  {
    if stack == [] then []
    else MatchingAll(nodes, stack[..|stack| - 1], name, isLast, fuel) + Matching(nodes, stack[|stack| - 1], name, isLast, fuel)
  }

  /** What `find_descendant_elements` returns for the remaining `path` when the stack is `stack`. */
  function DescendantElements(nodes: seq<TreeNode>, stack: seq<NodeId>, path: seq<string>): seq<NodeId>
    decreases |path|
  {
    if path == [] then stack
    else DescendantElements(nodes, MatchingAll(nodes, stack, path[0], |path| == 1, |nodes|), path[1..])
  }

  /**
   * `Traversal::find_descendant_elements`: for each name of the path, the
   * new stack gathers the matches below every entry of the old one, in
   * order; the last name also searches below matches.
   */
  method FindDescendantElements(nodes: seq<TreeNode>, id: NodeId, path: seq<string>) returns (stack: seq<NodeId>)
    requires WellFormed(nodes)
    ensures stack == DescendantElements(nodes, [id], path)
    ensures path == [] ==> stack == [id]
  {
    stack := [id];
    for idx := 0 to |path|
      invariant DescendantElements(nodes, stack, path[idx..]) == DescendantElements(nodes, [id], path)
    {
      var name := path[idx];
      var isLast := |path| - 1 == idx;
      var newStack: seq<NodeId> := [];
      for j := 0 to |stack|
        invariant newStack == MatchingAll(nodes, stack[..j], name, isLast, |nodes|)
      {
        WellFormedSearchStops(nodes, stack[j], name, isLast);
        newStack := CollectMatchingDescendants(nodes, stack[j], name, isLast, newStack, |nodes|);
        assert stack[..j + 1][..j] == stack[..j];
      }
      assert stack[..|stack|] == stack;
      assert path[idx..][0] == name && path[idx..][1..] == path[idx + 1..];
      stack := newStack;
    }
    assert path[|path|..] == [];
  }

  /** The results of the search from `id` on a well-formed arena: elements named `name` that descend from `id`. */
  predicate FoundBelow(nodes: seq<TreeNode>, id: NodeId, name: string, rs: seq<NodeId>)
  {
    forall r :: r in rs ==> r < |nodes| && Named(name, nodes[r]) && id in Ancestors(nodes, r)
  }

  lemma {:induction false} MatchingFound(nodes: seq<TreeNode>, id: NodeId, name: string, isLast: bool, fuel: nat)
    requires WellFormed(nodes) && id < |nodes|
    ensures FoundBelow(nodes, id, name, Matching(nodes, id, name, isLast, fuel))
    decreases fuel, 1
  {
    ChildrenParented(nodes, id);
    MatchingInFound(nodes, id, Children(nodes, id), name, isLast, fuel);
  }

  lemma {:induction false} MatchingInFound(nodes: seq<TreeNode>, id: NodeId, cs: seq<NodeId>, name: string, isLast: bool, fuel: nat)
    requires WellFormed(nodes) && id < |nodes|
    requires forall k :: 0 <= k < |cs| ==> cs[k] < |nodes| && nodes[cs[k]].parent == Some(id)
    ensures FoundBelow(nodes, id, name, MatchingIn(nodes, cs, name, isLast, fuel))
    decreases fuel, 0, |cs|
  {
    if cs != [] {
      var c := cs[0];
      var here := if IsElement(nodes[c]) && Named(name, nodes[c]) then [c] else [];
      var below := if Descends(nodes, c, name, isLast) && fuel > 0 then Matching(nodes, c, name, isLast, fuel - 1) else [];
      var rest := MatchingIn(nodes, cs[1..], name, isLast, fuel);
      assert MatchingIn(nodes, cs, name, isLast, fuel) == here + below + rest;
      MatchingInFound(nodes, id, cs[1..], name, isLast, fuel);
      HereFound(nodes, id, c, name, here);
      if Descends(nodes, c, name, isLast) && fuel > 0 {
        MatchingFound(nodes, c, name, isLast, fuel - 1);
        BelowFound(nodes, id, c, name, below);
      }
      FoundBelowCat(nodes, id, name, here, below);
      FoundBelowCat(nodes, id, name, here + below, rest);
    }
  }

  lemma HereFound(nodes: seq<TreeNode>, id: NodeId, c: NodeId, name: string, here: seq<NodeId>)
    requires WellFormed(nodes) && c < |nodes| && nodes[c].parent == Some(id)
    requires here == if IsElement(nodes[c]) && Named(name, nodes[c]) then [c] else []
    ensures FoundBelow(nodes, id, name, here)
  {
    AncestorsOfChild(nodes, c);
  }

  /** What is found below a child of `id` is found below `id`. */
  lemma BelowFound(nodes: seq<TreeNode>, id: NodeId, c: NodeId, name: string, below: seq<NodeId>)
    requires WellFormed(nodes) && c < |nodes| && nodes[c].parent == Some(id)
    requires FoundBelow(nodes, c, name, below)
    ensures FoundBelow(nodes, id, name, below)
  {
    AncestorsOfChild(nodes, c);
    forall r | r in below
      ensures id in Ancestors(nodes, r)
    {
      AncestorsTransitive(nodes, id, c, r);
    }
  }

  lemma FoundBelowCat(nodes: seq<TreeNode>, id: NodeId, name: string, a: seq<NodeId>, b: seq<NodeId>)
    requires FoundBelow(nodes, id, name, a) && FoundBelow(nodes, id, name, b)
    ensures FoundBelow(nodes, id, name, a + b)
  {
    forall r | r in a + b
      ensures r < |nodes| && Named(name, nodes[r]) && id in Ancestors(nodes, r)
    {
      assert r in a || r in b;
    }
  }

  /** Every match gathered for a stack comes from one of its entries. */
  lemma {:induction false} MatchingAllMember(nodes: seq<TreeNode>, stack: seq<NodeId>, name: string, isLast: bool, fuel: nat, r: NodeId)
    requires r in MatchingAll(nodes, stack, name, isLast, fuel)
    ensures exists k :: 0 <= k < |stack| && r in Matching(nodes, stack[k], name, isLast, fuel)
    decreases |stack|
  {
    var n := |stack| - 1;
    if r !in Matching(nodes, stack[n], name, isLast, fuel) {
      MatchingAllMember(nodes, stack[..n], name, isLast, fuel, r);
      var k :| 0 <= k < n && r in Matching(nodes, stack[..n][k], name, isLast, fuel);
      assert stack[..n][k] == stack[k];
    }
  }

  /**
   * On a well-formed arena every result of `find_descendant_elements` for a
   * non-empty path is an element named after the last path entry that
   * descends from `id`.
   */
  lemma FindDescendantElementsFound(nodes: seq<TreeNode>, id: NodeId, path: seq<string>)
    requires WellFormed(nodes) && id < |nodes| && path != []
    ensures FoundBelow(nodes, id, path[|path| - 1], DescendantElements(nodes, [id], path))
  {
    DescendantElementsFound(nodes, id, [id], path);
  }

  lemma {:induction false} DescendantElementsFound(nodes: seq<TreeNode>, id: NodeId, stack: seq<NodeId>, path: seq<string>)
    requires WellFormed(nodes) && id < |nodes| && path != []
    requires forall k :: 0 <= k < |stack| ==> stack[k] < |nodes| && (stack[k] == id || id in Ancestors(nodes, stack[k]))
    ensures FoundBelow(nodes, id, path[|path| - 1], DescendantElements(nodes, stack, path))
    decreases |path|
  {
    var name := path[0];
    var isLast := |path| == 1;
    var next := MatchingAll(nodes, stack, name, isLast, |nodes|);
    forall r | r in next
      ensures r < |nodes| && Named(name, nodes[r]) && id in Ancestors(nodes, r)
    {
      MatchingAllMember(nodes, stack, name, isLast, |nodes|, r);
      var k :| 0 <= k < |stack| && r in Matching(nodes, stack[k], name, isLast, |nodes|);
      MatchingFound(nodes, stack[k], name, isLast, |nodes|);
      if stack[k] != id {
        AncestorsTransitive(nodes, id, stack[k], r);
      }
    }
    if |path| > 1 {
      assert path[1..][|path[1..]| - 1] == path[|path| - 1];
      forall k | 0 <= k < |next|
        ensures next[k] < |nodes| && (next[k] == id || id in Ancestors(nodes, next[k]))
      {
        assert next[k] in next;
      }
      DescendantElementsFound(nodes, id, next, path[1..]);
    }
  }

  /** Past the `i`-th entry, a parent chain is the parent chain of that entry. */
  lemma {:induction false} AncestorsSuffix(nodes: seq<TreeNode>, r: NodeId, i: nat)
    requires WellFormed(nodes) && r < |nodes| && i < |Ancestors(nodes, r)|
    ensures Ancestors(nodes, r)[i + 1..] == Ancestors(nodes, Ancestors(nodes, r)[i])
    decreases i
  {
    assert NodeWellLinked(nodes, r);
    AncestorsOfChild(nodes, r);
    var p := nodes[r].parent.value;
    if i > 0 {
      AncestorsSuffix(nodes, p, i - 1);
      assert Ancestors(nodes, r)[i] == Ancestors(nodes, p)[i - 1];
      assert Ancestors(nodes, r)[i + 1..] == Ancestors(nodes, p)[i..];
    }
  }

  /** `a` is on the parent chain of `r` and no element named `name` sits between them. */
  ghost predicate ClearPath(nodes: seq<TreeNode>, a: NodeId, r: NodeId, name: string)
  {
    exists i :: 0 <= i < |Ancestors(nodes, r)| && Ancestors(nodes, r)[i] == a
      && forall j :: 0 <= j < i ==> !Named(name, nodes[Ancestors(nodes, r)[j]])
  }

  /**
   * On a step that is not the last, a matching element is not searched
   * further: no result lies below another element with the same name.
   */
  lemma {:induction false} MatchingStopsAtMatch(nodes: seq<TreeNode>, id: NodeId, name: string, fuel: nat)
    requires WellFormed(nodes) && id < |nodes|
    ensures forall r :: r in Matching(nodes, id, name, false, fuel) ==> ClearPath(nodes, id, r, name)
    decreases fuel, 1
  {
    ChildrenParented(nodes, id);
    MatchingInStopsAtMatch(nodes, id, Children(nodes, id), name, fuel);
  }

  lemma {:induction false} MatchingInStopsAtMatch(nodes: seq<TreeNode>, id: NodeId, cs: seq<NodeId>, name: string, fuel: nat)
    requires WellFormed(nodes) && id < |nodes|
    requires forall k :: 0 <= k < |cs| ==> cs[k] < |nodes| && nodes[cs[k]].parent == Some(id)
    ensures forall r :: r in MatchingIn(nodes, cs, name, false, fuel) ==> ClearPath(nodes, id, r, name)
    decreases fuel, 0, |cs|
  {
    if cs != [] {
      var c := cs[0];
      var here := if IsElement(nodes[c]) && Named(name, nodes[c]) then [c] else [];
      var below := if Descends(nodes, c, name, false) && fuel > 0 then Matching(nodes, c, name, false, fuel - 1) else [];
      MatchingInStopsAtMatch(nodes, id, cs[1..], name, fuel);
      ClearPathChild(nodes, id, c, name);
      if Descends(nodes, c, name, false) && fuel > 0 {
        MatchingStopsAtMatch(nodes, c, name, fuel - 1);
        MatchingFound(nodes, c, name, false, fuel - 1);
        forall r | r in below
          ensures ClearPath(nodes, id, r, name)
        {
          ClearPathStep(nodes, id, c, r, name);
        }
      }
      var rest := MatchingIn(nodes, cs[1..], name, false, fuel);
      assert MatchingIn(nodes, cs, name, false, fuel) == here + below + rest;
    }
  }

  lemma ClearPathChild(nodes: seq<TreeNode>, id: NodeId, c: NodeId, name: string)
    requires WellFormed(nodes) && c < |nodes| && nodes[c].parent == Some(id)
    ensures ClearPath(nodes, id, c, name)
  {
    AncestorsOfChild(nodes, c);
    assert Ancestors(nodes, c)[0] == id;
  }

  /** A clear path from child `c` that does not match extends to its parent `id`. */
  lemma ClearPathStep(nodes: seq<TreeNode>, id: NodeId, c: NodeId, r: NodeId, name: string)
    requires WellFormed(nodes) && c < |nodes| && nodes[c].parent == Some(id) && !Named(name, nodes[c])
    requires r < |nodes| && ClearPath(nodes, c, r, name)
    ensures ClearPath(nodes, id, r, name)
  {
    var i := ClearIndex(nodes, c, r, name);
    NextOnPath(nodes, id, c, r, i);
    ClearExtend(nodes, r, name, i);
    ClearPathAt(nodes, id, r, name, i + 1);
  }

  lemma ClearIndex(nodes: seq<TreeNode>, a: NodeId, r: NodeId, name: string) returns (i: nat)
    requires ClearPath(nodes, a, r, name)
    ensures i < |Ancestors(nodes, r)| && Ancestors(nodes, r)[i] == a
    ensures forall j :: 0 <= j < i ==> !Named(name, nodes[Ancestors(nodes, r)[j]])
  {
    i :| 0 <= i < |Ancestors(nodes, r)| && Ancestors(nodes, r)[i] == a
      && forall j :: 0 <= j < i ==> !Named(name, nodes[Ancestors(nodes, r)[j]]);
  }

  /** The ancestor after a child on a parent chain is the child's parent. */
  lemma NextOnPath(nodes: seq<TreeNode>, id: NodeId, c: NodeId, r: NodeId, i: nat)
    requires WellFormed(nodes) && c < |nodes| && nodes[c].parent == Some(id)
    requires r < |nodes| && i < |Ancestors(nodes, r)| && Ancestors(nodes, r)[i] == c
    ensures i + 1 < |Ancestors(nodes, r)| && Ancestors(nodes, r)[i + 1] == id
  {
    AncestorsSuffix(nodes, r, i);
    AncestorsOfChild(nodes, c);
    assert Ancestors(nodes, r)[i + 1..][0] == id;
  }

  lemma ClearExtend(nodes: seq<TreeNode>, r: NodeId, name: string, i: nat)
    requires i < |Ancestors(nodes, r)| && !Named(name, nodes[Ancestors(nodes, r)[i]])
    requires forall j :: 0 <= j < i ==> !Named(name, nodes[Ancestors(nodes, r)[j]])
    ensures forall j :: 0 <= j < i + 1 ==> !Named(name, nodes[Ancestors(nodes, r)[j]])
  {
  }

  lemma ClearPathAt(nodes: seq<TreeNode>, a: NodeId, r: NodeId, name: string, i: nat)
    requires i < |Ancestors(nodes, r)| && Ancestors(nodes, r)[i] == a
    requires forall j :: 0 <= j < i ==> !Named(name, nodes[Ancestors(nodes, r)[j]])
    ensures ClearPath(nodes, a, r, name)
  {
  }
}
