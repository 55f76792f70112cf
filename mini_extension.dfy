/**
 * The `NodeRef` methods of src/mini_selector/extension.rs: the search of a
 * node's descendants for the matches of a mini selector list, and the test
 * of one node against a single mini selector.
 *
 * `MiniSelectorList` is not part of this model: its constructor's outcome
 * is given as a parameter (`None` for an error) and its `match_node` as a
 * function `listMatch`.
 */
module MiniExtension {
  import opened Wrappers
  import opened Arena
  import opened NodeRefs
  import opened MiniSelectors
  import opened MiniParser
  import opened MiniRender

  /** The ids of `ids` the list matches, in their order. */
  function Kept(sels: seq<MiniSelector>, nodes: seq<TreeNode>, ids: seq<NodeId>,
      listMatch: (seq<MiniSelector>, seq<TreeNode>, NodeId) -> bool): seq<NodeId>
  {
    if ids == [] then []
    else (if listMatch(sels, nodes, ids[0]) then [ids[0]] else []) + Kept(sels, nodes, ids[1..], listMatch)
  }

  /** Filtering distributes over concatenation, so the kept ids stay in document order. */
  lemma {:induction false} KeptAppend(sels: seq<MiniSelector>, nodes: seq<TreeNode>, a: seq<NodeId>, b: seq<NodeId>,
      listMatch: (seq<MiniSelector>, seq<TreeNode>, NodeId) -> bool)
    ensures Kept(sels, nodes, a + b, listMatch) == Kept(sels, nodes, a, listMatch) + Kept(sels, nodes, b, listMatch)
    decreases |a|
  {
    if a == [] {
      assert a + b == b;
    } else {
      assert (a + b)[1..] == a[1..] + b;
      KeptAppend(sels, nodes, a[1..], b, listMatch);
    }
  }

  /** An id is kept exactly when it is one of `ids` and the list matches it. */
  lemma {:induction false} KeptMembers(sels: seq<MiniSelector>, nodes: seq<TreeNode>, ids: seq<NodeId>,
      listMatch: (seq<MiniSelector>, seq<TreeNode>, NodeId) -> bool, x: NodeId)
    ensures x in Kept(sels, nodes, ids, listMatch) <==> x in ids && listMatch(sels, nodes, x)
    decreases |ids|
  {
    if ids != [] {
      KeptMembers(sels, nodes, ids[1..], listMatch, x);
      assert ids == [ids[0]] + ids[1..];
    }
  }

  /** Nothing is dropped when every id matches, and nothing is kept when none does. */
  lemma {:induction false} KeptExtremes(sels: seq<MiniSelector>, nodes: seq<TreeNode>, ids: seq<NodeId>,
      listMatch: (seq<MiniSelector>, seq<TreeNode>, NodeId) -> bool)
    ensures (forall k :: 0 <= k < |ids| ==> listMatch(sels, nodes, ids[k])) ==> Kept(sels, nodes, ids, listMatch) == ids
    ensures (forall k :: 0 <= k < |ids| ==> !listMatch(sels, nodes, ids[k])) ==> Kept(sels, nodes, ids, listMatch) == []
    ensures |Kept(sels, nodes, ids, listMatch)| <= |ids|
    decreases |ids|
  {
    if ids != [] {
      KeptExtremes(sels, nodes, ids[1..], listMatch);
      assert ids == [ids[0]] + ids[1..];
    }
  }

  /**
   * `find_descendant_ids`: an error when the selector list does not parse,
   * otherwise the descendants the list matches, in document order.
   */
  method FindDescendantIds(nodes: seq<TreeNode>, id: NodeId, selectors: Option<seq<MiniSelector>>,
      listMatch: (seq<MiniSelector>, seq<TreeNode>, NodeId) -> bool)
    returns (r: Result<seq<NodeId>, ()>)
    ensures r.Err? <==> selectors.None?
    ensures r.Ok? ==> r.value == Kept(selectors.value, nodes, Descendants(nodes, id), listMatch)
  {
    var descendants := Descendants(nodes, id);
    if selectors.None? {
      return Err(());
    }
    var sels := selectors.value;
    var res := [];
    var i := 0;
    while i < |descendants|
      invariant 0 <= i <= |descendants|
      invariant res == Kept(sels, nodes, descendants[..i], listMatch)
    {
      var node := descendants[i];
      KeptAppend(sels, nodes, descendants[..i], [node], listMatch);
      assert descendants[..i + 1] == descendants[..i] + [node];
      if listMatch(sels, nodes, node) {
        res := res + [node];
      }
      i := i + 1;
    }
    assert descendants[..i] == descendants;
    return Ok(res);
  }

  /** `find_descendants`: the matches, or no nodes at all when the selector list is invalid. */
  method FindDescendants(nodes: seq<TreeNode>, id: NodeId, selectors: Option<seq<MiniSelector>>,
      listMatch: (seq<MiniSelector>, seq<TreeNode>, NodeId) -> bool)
    returns (found: seq<NodeId>)
    ensures selectors.None? ==> found == []
    ensures selectors.Some? ==> found == Kept(selectors.value, nodes, Descendants(nodes, id), listMatch)
    ensures forall k :: 0 <= k < |found| ==> found[k] in Descendants(nodes, id)
  {
    var r := FindDescendantIds(nodes, id, selectors, listMatch);
    found := if r.Ok? then r.value else [];
    if selectors.Some? {
      forall k | 0 <= k < |found|
        ensures found[k] in Descendants(nodes, id)
      {
        assert found[k] in found;
        KeptMembers(selectors.value, nodes, Descendants(nodes, id), listMatch, found[k]);
      }
    }
  }

  /**
   * `mini_is`: the node matches the mini selector the text parses to; a
   * text that does not parse matches nothing.
   */
  predicate MiniIs(nodes: seq<TreeNode>, id: NodeId, css: string)
    requires id < |nodes|
  {
    match ParseMiniSelector(css)
    case Success(_, sel) => MatchNode(sel, nodes, id)
    case _ => false
  }

  /** A text that is no mini selector never matches, and a non-element never matches any text. */
  lemma MiniIsRejects(nodes: seq<TreeNode>, id: NodeId, css: string)
    requires id < |nodes|
    ensures !ParseMiniSelector(css).Success? ==> !MiniIs(nodes, id, css)
    ensures !IsElement(nodes[id]) ==> !MiniIs(nodes, id, css)
  {
    if ParseMiniSelector(css).Success? && !IsElement(nodes[id]) {
      NonElementsNeverMatch(ParseMiniSelector(css).value, nodes[id]);
    }
  }

  /**
   * `mini_is` reads one compound selector and ignores what follows it: with
   * a written compound `sel` in front, `sel > x`, `sel + x`, `sel ~ x` and
   * `sel x` all test the node against `sel` alone.
   */
  lemma MiniIsFirstCompoundOnly(nodes: seq<TreeNode>, id: NodeId, sel: MiniSelector, t: string)
    requires id < |nodes|
    requires WellFormedSelector(sel)
    requires t == [] || t[0] == ' '
    ensures MiniIs(nodes, id, RenderCompound(sel) + t) == MatchNode(sel, nodes, id)
  {
    var r := ParseMiniSelector(RenderCompound(sel) + t);
    CompoundOf(sel, t);
    assert r.Success? && r.value == sel.(combinator := r.value.combinator);
    CombinatorNotMatched(sel, r.value.combinator, nodes[id]);
  }

  /** The combinator plays no part in matching one node. */
  lemma CombinatorNotMatched(sel: MiniSelector, c: Combinator, n: TreeNode)
    ensures MatchTreeNode(sel.(combinator := c), n) == MatchTreeNode(sel, n)
  {
  }
}
