/**
 * The older `selectors::Element` implementation of src/element.rs, written
 * for the previous node type: its own `:empty`, `first_element_child`, link
 * tests, and the `:has()` search `has_descendant_match`, which walks the
 * children of a node with a sibling cursor and descends into element
 * children only.  The selector list it tests is a predicate `m` on ids.
 */
module LegacyElement {
  import opened Wrappers
  import opened Arena
  import opened Chains
  import opened Invariant
  import opened Copying
  import opened Elements
  import opened Subtree
  import opened Str
  import opened Iters
  import opened NodeRefs
  import opened MatchIters
  import opened SelectorAdapter

  // ----- :empty -----

  /** The old `is_empty`: no child is an element or a text node, whatever the text holds. */
  predicate OldIsEmpty(nodes: seq<TreeNode>, id: NodeId)
  {
    forall k :: 0 <= k < |Children(nodes, id)| ==>
      !IsElement(nodes[Children(nodes, id)[k]]) && !IsText(nodes[Children(nodes, id)[k]])
  }

  /** On an element the old test is the stricter one: empty by it is empty by `is_empty_element`. */
  lemma OldEmptyIsEmpty(nodes: seq<TreeNode>, id: NodeId)
    requires ElementAt(nodes, id).Some? && OldIsEmpty(nodes, id)
    ensures IsEmptyElement(nodes, id)
  {
    var cs := Children(nodes, id);
    forall k | 0 <= k < |cs|
      ensures !BlockingChild(nodes, cs[k])
    {
      assert !IsElement(nodes[cs[k]]) && !IsText(nodes[cs[k]]);
    }
  }

  /** A `<p>` holding nothing but a one-space text node. */
  function BlankParagraph(): seq<TreeNode>
  {
    [TreeNode(0, None, None, None, Some(1), Some(1), ElementData(Element(QualName(None, "", "p"), [], None, false))),
     TreeNode(1, Some(0), None, None, None, None, Text(" "))]
  }

  lemma BlankParagraphChildren()
    ensures Children(BlankParagraph(), 0) == [1]
  {
    var nodes := BlankParagraph();
    assert Walk(nodes, None, Next, 1) == [];
    assert Walk(nodes, Some(1), Next, 2) == [1];
  }

  /** A paragraph holding only whitespace is empty for `is_empty_element` but not for the old `is_empty`. */
  lemma BlankParagraphEmptiness()
    ensures IsEmptyElement(BlankParagraph(), 0) && !OldIsEmpty(BlankParagraph(), 0)
  {
    var nodes := BlankParagraph();
    BlankParagraphChildren();
    TextOfTextNode(nodes, 1);
    assert Trim(" ") == [];
    assert !BlockingChild(nodes, 1);
    assert IsText(nodes[Children(nodes, 0)[0]]);
  }

  // ----- first_element_child -----

  /** The first id of `cs` that is an element: `iter().find(is_element)`. */
  function FirstElementOf(nodes: seq<TreeNode>, cs: seq<NodeId>): (r: Option<NodeId>)
    ensures r.None? <==> forall j :: 0 <= j < |cs| ==> !IsElem(nodes, cs[j])
    ensures r.Some? ==> exists i :: (0 <= i < |cs| && cs[i] == r.value && IsElem(nodes, cs[i])
      && forall j :: 0 <= j < i ==> !IsElem(nodes, cs[j]))
  {
    if cs == [] then None
    else if IsElem(nodes, cs[0]) then Some(cs[0])
    else
      var r := FirstElementOf(nodes, cs[1..]);
      assert forall j :: 0 < j < |cs| ==> cs[j] == cs[1..][j - 1];
      FirstElementShift(nodes, cs, r);
      r
  }

  lemma FirstElementShift(nodes: seq<TreeNode>, cs: seq<NodeId>, r: Option<NodeId>)
    requires cs != [] && !IsElem(nodes, cs[0])
    requires r.Some? ==> exists i :: (0 <= i < |cs[1..]| && cs[1..][i] == r.value && IsElem(nodes, cs[1..][i])
      && forall j :: 0 <= j < i ==> !IsElem(nodes, cs[1..][j]))
    ensures r.Some? ==> exists i :: (0 <= i < |cs| && cs[i] == r.value && IsElem(nodes, cs[i])
      && forall j :: 0 <= j < i ==> !IsElem(nodes, cs[j]))
  {
    if r.Some? {
      var i :| 0 <= i < |cs[1..]| && cs[1..][i] == r.value && IsElem(nodes, cs[1..][i])
        && forall j :: 0 <= j < i ==> !IsElem(nodes, cs[1..][j]);
      assert forall j :: 0 < j < |cs| ==> cs[j] == cs[1..][j - 1];
      assert cs[i + 1] == r.value && forall j :: 0 <= j < i + 1 ==> !IsElem(nodes, cs[j]);
    }
  }

  /** The old `first_element_child`. */
  function OldFirstElementChild(nodes: seq<TreeNode>, id: NodeId): Option<NodeId>
  {
    FirstElementOf(nodes, Children(nodes, id))
  }

  lemma {:induction false} FirstElementIsHead(nodes: seq<TreeNode>, cs: seq<NodeId>)
    ensures FirstElementOf(nodes, cs) == Head(Elems(nodes, cs))
  {
    if cs != [] && !IsElem(nodes, cs[0]) {
      FirstElementIsHead(nodes, cs[1..]);
      assert Elems(nodes, cs) == [] + Elems(nodes, cs[1..]);
    }
  }

  /** The first element child is the head of the element children `Matches` pushes. */
  lemma FirstElementChildIsHead(nodes: seq<TreeNode>, id: NodeId)
    ensures OldFirstElementChild(nodes, id) == Head(ElementKids(nodes, id))
  {
    FirstElementIsHead(nodes, Children(nodes, id));
  }

  // ----- links -----

  /** The old `is_link`: an element named a, area or link with some `href` attribute. */
  predicate OldIsLink(nodes: seq<TreeNode>, id: NodeId)
  {
    match ElementAt(nodes, id)
    case None => false
    case Some(e) =>
      e.name.local in {"a", "area", "link"}
      && exists k :: 0 <= k < |e.attrs| && e.attrs[k].name.local == "href"
  }

  /** The old `:any-link` and `:link`: `node_name` is a, area or link and `attr("href")` is present. */
  predicate OldAnyLink(nodes: seq<TreeNode>, id: NodeId)
  {
    match ElementAt(nodes, id)
    case None => false
    case Some(e) => e.name.local in {"a", "area", "link"} && AttrValue(e.attrs, "href").Some?
  }

  /**
   * The two old link tests agree and are the new `:any-link`, while the new
   * adapter's own `is_link` hook no longer reports any link.
   */
  lemma OldLinkTests(nodes: seq<TreeNode>, id: NodeId)
    ensures OldAnyLink(nodes, id) <==> OldIsLink(nodes, id)
    ensures OldIsLink(nodes, id) <==> MatchNonTSPseudoClass(nodes, id, PseudoClasses.AnyLink)
    ensures OldIsLink(nodes, id) ==> !AdapterIsLink(nodes, id)
  {
  }

  // ----- :has() -----

  /** Some node of `cs`, or below an element of `cs`, satisfies `m`; `fuel` bounds the depth as in `Below`. */
  predicate AnyBelow(nodes: seq<TreeNode>, m: NodeId -> bool, cs: seq<NodeId>, fuel: nat)
    decreases fuel, |cs|
  {
    cs != [] && (m(cs[0]) || (IsElem(nodes, cs[0]) && MatchBelow(nodes, m, cs[0], fuel)) || AnyBelow(nodes, m, cs[1..], fuel))
  }

  /** Some node below `x`, reached through element children, satisfies `m`. */
  predicate MatchBelow(nodes: seq<TreeNode>, m: NodeId -> bool, x: NodeId, fuel: nat)
    decreases fuel, 0
  {
    x < |nodes| && fuel > 0 && AnyBelow(nodes, m, Children(nodes, x), fuel - 1)
  }

  /** `cs` is the sibling chain that starts at `first`: each entry's next sibling is the following entry, and the last has none. */
  predicate SiblingChain(nodes: seq<TreeNode>, first: Option<NodeId>, cs: seq<NodeId>)
  {
    && first == Head(cs)
    && forall k :: 0 <= k < |cs| ==>
      cs[k] < |nodes| && nodes[cs[k]].nextSibling == (if k + 1 < |cs| then Some(cs[k + 1]) else None)
  }

  lemma ChainAt(nodes: seq<TreeNode>, first: Option<NodeId>, cs: seq<NodeId>, k: nat)
    requires SiblingChain(nodes, first, cs) && k < |cs|
    ensures cs[k] < |nodes| && nodes[cs[k]].nextSibling == (if k + 1 < |cs| then Some(cs[k + 1]) else None)
  {
  }

  /** The children of `n` are its first child's sibling chain, one level below `n`. */
  ghost predicate ChildLinks(nodes: seq<TreeNode>, n: NodeId)
    requires n < |nodes|
  {
    && SiblingChain(nodes, nodes[n].firstChild, Children(nodes, n))
    && forall c :: c in Children(nodes, n) ==> c < |nodes| && Depth(nodes, c) + 1 == Depth(nodes, n)
  }

  /** Every node's children can be walked from its first child; the search needs no more of the arena. */
  ghost predicate Searchable(nodes: seq<TreeNode>)
  {
    forall n :: 0 <= n < |nodes| ==> ChildLinks(nodes, n)
  }

  lemma ChildCursor(nodes: seq<TreeNode>, n: NodeId)
    requires WellFormed(nodes) && n < |nodes|
    ensures ChildLinks(nodes, n)
  {
    var cs := Children(nodes, n);
    ChildrenAreChain(nodes, n);
    ChildChainStops(nodes, n);
    WalkLinked(nodes, nodes[n].firstChild, Next, |nodes|);
    ChildrenBelow(nodes, n);
    forall c | c in cs
      ensures Depth(nodes, c) + 1 == Depth(nodes, n) && c < |nodes|
    {
      RankBounds(nodes, c, Parent);
    }
  }

  /** A well-formed arena is searchable. */
  lemma WellFormedSearchable(nodes: seq<TreeNode>)
    requires WellFormed(nodes)
    ensures Searchable(nodes)
  {
    forall n | 0 <= n < |nodes|
      ensures ChildLinks(nodes, n)
    {
      ChildCursor(nodes, n);
    }
  }

  /** The search over `cs[i..]` is the test of `cs[i]` or the search over the rest. */
  lemma AnyBelowStep(nodes: seq<TreeNode>, m: NodeId -> bool, cs: seq<NodeId>, i: nat, d: nat)
    requires i < |cs|
    ensures AnyBelow(nodes, m, cs[i..], d)
      == (m(cs[i]) || (IsElem(nodes, cs[i]) && MatchBelow(nodes, m, cs[i], d)) || AnyBelow(nodes, m, cs[i + 1..], d))
  {
    assert cs[i..][0] == cs[i] && cs[i..][1..] == cs[i + 1..];
  }

  /**
   * `has_descendant_match`: the cursor starts at the first child, and a
   * child that satisfies `m`, or is an element with a match below it, ends
   * the search; otherwise the cursor moves to the next sibling.
   */
  method HasDescendantMatch(nodes: seq<TreeNode>, n: NodeId, m: NodeId -> bool) returns (b: bool)
    requires Searchable(nodes)
    ensures b == MatchBelow(nodes, m, n, Depth(nodes, n) + 1)
    decreases Depth(nodes, n)
  {
    if n >= |nodes| {
      return false;
    }
    ghost var cs := Children(nodes, n);
    ghost var d := Depth(nodes, n);
    assert ChildLinks(nodes, n);
    var node := nodes[n].firstChild;
    ghost var i := 0;
    while node.Some?
      invariant 0 <= i <= |cs|
      invariant node == if i < |cs| then Some(cs[i]) else None
      invariant AnyBelow(nodes, m, cs, d) == AnyBelow(nodes, m, cs[i..], d)
      decreases |cs| - i
    {
      var c := node.value;
      assert c == cs[i] && c in cs;
      var hit := m(c);
      if !hit && IsElement(nodes[c]) {
        hit := HasDescendantMatch(nodes, c, m);
      }
      AnyBelowStep(nodes, m, cs, i, d);
      if hit {
        return true;
      }
      ChainAt(nodes, nodes[n].firstChild, cs, i);
      node := nodes[c].nextSibling;
      i := i + 1;
    }
    assert cs[i..] == [];
    return false;
  }

  /** Every match the search finds lies among the descendants `Below` lists. */
  lemma {:induction false} MatchBelowSound(nodes: seq<TreeNode>, m: NodeId -> bool, x: NodeId, fuel: nat)
    ensures MatchBelow(nodes, m, x, fuel) ==> exists k :: k in Below(nodes, x, fuel) && m(k)
    decreases fuel, 0
  {
    if MatchBelow(nodes, m, x, fuel) {
      AnyBelowSound(nodes, m, Children(nodes, x), fuel - 1);
    }
  }

  lemma {:induction false} AnyBelowSound(nodes: seq<TreeNode>, m: NodeId -> bool, cs: seq<NodeId>, fuel: nat)
    ensures AnyBelow(nodes, m, cs, fuel) ==> exists k :: k in BelowAll(nodes, cs, fuel) && m(k)
    decreases fuel, |cs|
  {
    if AnyBelow(nodes, m, cs, fuel) {
      var all := BelowAll(nodes, cs, fuel);
      assert all == [cs[0]] + Below(nodes, cs[0], fuel) + BelowAll(nodes, cs[1..], fuel);
      if m(cs[0]) {
        assert cs[0] in all;
      } else if IsElem(nodes, cs[0]) && MatchBelow(nodes, m, cs[0], fuel) {
        MatchBelowSound(nodes, m, cs[0], fuel);
        var k :| k in Below(nodes, cs[0], fuel) && m(k);
        assert k in all;
      } else {
        AnyBelowSound(nodes, m, cs[1..], fuel);
        var k :| k in BelowAll(nodes, cs[1..], fuel) && m(k);
        assert k in all;
      }
    }
  }

  /** Below `x`, only elements have children. */
  predicate InnerElements(nodes: seq<TreeNode>, ys: seq<NodeId>)
  {
    forall y :: y in ys && !IsElem(nodes, y) ==> Children(nodes, y) == []
  }

  /** When only elements have children below `x`, every match `k` among `Below` is found. */
  lemma {:induction false} MatchBelowComplete(nodes: seq<TreeNode>, m: NodeId -> bool, x: NodeId, fuel: nat, k: NodeId)
    requires InnerElements(nodes, Below(nodes, x, fuel))
    requires k in Below(nodes, x, fuel) && m(k)
    ensures MatchBelow(nodes, m, x, fuel)
    decreases fuel, 0
  {
    AnyBelowComplete(nodes, m, Children(nodes, x), fuel - 1, k);
  }

  lemma InnerSubset(nodes: seq<TreeNode>, ys: seq<NodeId>, zs: seq<NodeId>)
    requires InnerElements(nodes, ys) && forall z :: z in zs ==> z in ys
    ensures InnerElements(nodes, zs)
  {
  }

  /** A first child that is no element has nothing below it. */
  lemma LeafHead(nodes: seq<TreeNode>, cs: seq<NodeId>, fuel: nat)
    requires cs != [] && InnerElements(nodes, BelowAll(nodes, cs, fuel))
    ensures !IsElem(nodes, cs[0]) ==> Below(nodes, cs[0], fuel) == []
  {
    assert cs[0] in BelowAll(nodes, cs, fuel);
    if fuel > 0 && cs[0] < |nodes| {
      assert BelowAll(nodes, [], fuel - 1) == [];
    }
  }

  lemma {:induction false} AnyBelowComplete(nodes: seq<TreeNode>, m: NodeId -> bool, cs: seq<NodeId>, fuel: nat, k: NodeId)
    requires InnerElements(nodes, BelowAll(nodes, cs, fuel))
    requires k in BelowAll(nodes, cs, fuel) && m(k)
    ensures AnyBelow(nodes, m, cs, fuel)
    decreases fuel, |cs|
  {
    var all := BelowAll(nodes, cs, fuel);
    var head := Below(nodes, cs[0], fuel);
    var tail := BelowAll(nodes, cs[1..], fuel);
    assert all == [cs[0]] + head + tail;
    if k != cs[0] {
      if k in head {
        LeafHead(nodes, cs, fuel);
        InnerSubset(nodes, all, head);
        MatchBelowComplete(nodes, m, cs[0], fuel, k);
      } else {
        InnerSubset(nodes, all, tail);
        AnyBelowComplete(nodes, m, cs[1..], fuel, k);
      }
    }
  }
}
