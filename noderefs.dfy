/**
 * The arena-level operations of `NodeRef` (src/node/node_ref.rs): the node
 * queries `has_name`, `is_nonempty_text`, `has_text`, `has_only_text` and
 * `is_empty_element`, and the link edits `prepend_child`, `replace_with` and
 * `unwrap_node`, which are compositions of the `TreeNodeOps` mutators.
 * `normalize` and `strip_elements` are in module `Forest`.
 */
module NodeRefs {
  import opened Wrappers
  import opened Arena
  import opened Chains
  import opened Links
  import opened Invariant
  import opened Subtree
  import opened Str
  import opened Iters
  import opened TreeTraversal
  import Ops
  import Trees

  // ----- queries -----

  /** `has_name`: the node is an element whose local name is `name`. */
  predicate HasName(nodes: seq<TreeNode>, id: NodeId, name: string)
  {
    id < |nodes| && Named(name, nodes[id])
  }

  /** The child `find_child_element_by_name` returns has that name. */
  lemma FoundChildHasName(nodes: seq<TreeNode>, id: NodeId, name: string)
    requires Trees.IdsMatch(nodes)
    requires FindChildElementByName(nodes, id, name).Some?
    ensures HasName(nodes, FindChildElementByName(nodes, id, name).value, name)
  {
    var cs := Children(nodes, id);
    var k :| 0 <= k < |cs| && Named(name, nodes[cs[k]]) && FindChildElementByName(nodes, id, name).value == nodes[cs[k]].id;
    assert nodes[cs[k]].id == cs[k];
  }

  /** `is_nonempty_text`: a text node whose contents do not trim to nothing. */
  predicate IsNonemptyText(nodes: seq<TreeNode>, id: NodeId)
  {
    id < |nodes| && nodes[id].data.Text? && Trim(nodes[id].data.contents) != []
  }

  /** A node is a nonempty text exactly when it is a text node with a non-whitespace character. */
  lemma NonemptyTextIff(nodes: seq<TreeNode>, id: NodeId)
    ensures IsNonemptyText(nodes, id) <==> id < |nodes| && nodes[id].data.Text? && NotBlank(nodes[id].data.contents)
  {
    if id < |nodes| && nodes[id].data.Text? {
      TrimEmptyIff(nodes[id].data.contents);
    }
  }

  /**
   * The ids `descendant_nodes` yields below `id`, in document order: each
   * child, then the ids below it, child after child.  `fuel` bounds the depth.
   */
  function Below(nodes: seq<TreeNode>, id: NodeId, fuel: nat): seq<NodeId>
    decreases fuel, 0
  {
    if id >= |nodes| || fuel == 0 then [] else BelowAll(nodes, Children(nodes, id), fuel - 1)
  }

  function BelowAll(nodes: seq<TreeNode>, cs: seq<NodeId>, fuel: nat): seq<NodeId>
    decreases fuel, |cs|
  {
    if cs == [] then [] else [cs[0]] + Below(nodes, cs[0], fuel) + BelowAll(nodes, cs[1..], fuel)
  }

  /** `descendant_nodes(nodes, id)` on an arena whose walks end within `|nodes|` steps. */
  function Descendants(nodes: seq<TreeNode>, id: NodeId): seq<NodeId>
  {
    Below(nodes, id, |nodes|)
  }

  /** The node at `k` is a text node whose contents contain `needle`. */
  predicate TextHolds(nodes: seq<TreeNode>, k: NodeId, needle: string)
  {
    k < |nodes| && nodes[k].data.Text? && Contains(nodes[k].data.contents, needle)
  }

  /** `NodeRef::has_text`: a search of the node and its descendants for one text node containing `needle`. */
  method HasText(nodes: seq<TreeNode>, id: NodeId, needle: string) returns (found: bool)
    ensures var ids := [id] + Descendants(nodes, id);
      found <==> exists k :: 0 <= k < |ids| && TextHolds(nodes, ids[k], needle)
  {
    var ids := [id] + Descendants(nodes, id);
    for i := 0 to |ids|
      invariant forall k :: 0 <= k < i ==> !TextHolds(nodes, ids[k], needle)
    {
      var nid := ids[i];
      if nid < |nodes| && nodes[nid].data.Text? && Contains(nodes[nid].data.contents, needle) {
        return true;
      }
    }
    return false;
  }

  /** The result of `has_text` as a predicate. */
  predicate HasTextIn(nodes: seq<TreeNode>, id: NodeId, needle: string)
  {
    var ids := [id] + Descendants(nodes, id);
    exists k :: 0 <= k < |ids| && TextHolds(nodes, ids[k], needle)
  }

  /** A `<p>` element holding the two text nodes "ab" and "cd". */
  function SplitTextArena(): seq<TreeNode>
  {
    [TreeNode(0, None, None, None, Some(1), Some(2), ElementData(Element(QualName(None, "", "p"), [], None, false))),
     TreeNode(1, Some(0), None, Some(2), None, None, Text("ab")),
     TreeNode(2, Some(0), Some(1), None, None, None, Text("cd"))]
  }

  lemma SplitTextChildren()
    ensures Children(SplitTextArena(), 0) == [1, 2]
    ensures Children(SplitTextArena(), 1) == [] && Children(SplitTextArena(), 2) == []
  {
    var nodes := SplitTextArena();
    assert |nodes| == 3 && nodes[1].firstChild.None? && nodes[2].firstChild.None?;
    assert Walk(nodes, None, Next, 1) == [] && Walk(nodes, None, Next, 3) == [];
    assert Walk(nodes, Some(2), Next, 2) == [2];
    assert Walk(nodes, Some(1), Next, 3) == [1, 2];
    assert Children(nodes, 1) == [] && Children(nodes, 2) == [];
  }

  lemma SplitTextWhole()
    ensures Subtree.Text(SplitTextArena(), 0) == "abcd"
  {
    var nodes := SplitTextArena();
    SplitTextChildren();
    assert TextUnder(nodes, 1, 2) == "ab" && TextUnder(nodes, 2, 2) == "cd";
    assert ForestText(nodes, [2], 2) == "cd";
    assert ForestText(nodes, [1, 2], 2) == "abcd";
  }

  lemma SplitTextDescendants()
    ensures [0] + Descendants(SplitTextArena(), 0) == [0, 1, 2]
  {
    var nodes := SplitTextArena();
    SplitTextChildren();
    assert Below(nodes, 1, 2) == [] && Below(nodes, 2, 2) == [];
    assert [1, 2][1..] == [2] && [2][1..] == [];
    assert BelowAll(nodes, [2], 2) == [2];
    assert BelowAll(nodes, [1, 2], 2) == [1, 2];
    assert Descendants(nodes, 0) == [1, 2];
  }

  lemma SplitTextSearches()
    ensures Contains("abcd", "bc") && !Contains("ab", "bc") && !Contains("cd", "bc")
  {
    assert "abcd"[1..] == "bcd" && "bcd"[..2] == "bc";
    assert "ab"[0] != "bc"[0] && "ab"[1..] == "b" && "b"[1..] == "";
    assert "cd"[0] != "bc"[0] && "cd"[1..] == "d" && "d"[1..] == "";
  }

  /**
   * `has_text` looks inside one text node at a time: an element holding the
   * texts "ab" and "cd" has the text "abcd", which contains "bc", yet no
   * single text node contains "bc".
   */
  lemma HasTextMissesSplitText()
    ensures Contains(Subtree.Text(SplitTextArena(), 0), "bc") && !HasTextIn(SplitTextArena(), 0, "bc")
  {
    var nodes := SplitTextArena();
    SplitTextWhole();
    SplitTextDescendants();
    SplitTextSearches();
    var ids := [0] + Descendants(nodes, 0);
    assert ids[0] == 0 && ids[1] == 1 && ids[2] == 2;
  }

  /**
   * `has_only_text`: the child iterator yields exactly one id, and the first
   * child is a text node whose `text_of` does not trim to nothing.
   */
  predicate HasOnlyText(nodes: seq<TreeNode>, id: NodeId)
  {
    && |Children(nodes, id)| == 1
    && var first := FirstChildOf(nodes, id);
      first.Some? && first.value < |nodes| && nodes[first.value].data.Text?
      && Trim(Subtree.Text(nodes, first.value)) != []
  }

  /** The text of a text node is its contents. */
  lemma TextOfTextNode(nodes: seq<TreeNode>, c: NodeId)
    requires c < |nodes| && nodes[c].data.Text?
    ensures Subtree.Text(nodes, c) == nodes[c].data.contents
  {
  }

  /**
   * On a well-formed arena `has_only_text` holds exactly when the first child
   * has no next sibling and is a text node with a non-whitespace character.
   */
  lemma HasOnlyTextIff(nodes: seq<TreeNode>, id: NodeId)
    requires WellFormed(nodes) && id < |nodes|
    ensures HasOnlyText(nodes, id) <==>
      (nodes[id].firstChild.Some? && nodes[id].firstChild.value < |nodes|
       && nodes[nodes[id].firstChild.value].nextSibling.None?
       && IsNonemptyText(nodes, nodes[id].firstChild.value))
  {
    ChildrenAreChain(nodes, id);
    assert NodeWellLinked(nodes, id);
    var cs := Children(nodes, id);
    if nodes[id].firstChild.Some? {
      var c := nodes[id].firstChild.value;
      assert NodeWellLinked(nodes, c);
      NoSelfLinks(nodes, c);
      if nodes[c].nextSibling.Some? {
        assert |nodes| > 1 by {
          assert c != nodes[c].nextSibling.value && nodes[c].nextSibling.value < |nodes|;
        }
        assert |cs| > 1 by {
          assert cs == Walk(nodes, Some(c), Next, |nodes|);
          assert cs == [c] + Walk(nodes, nodes[c].nextSibling, Next, |nodes| - 1);
        }
      } else {
        assert cs == Walk(nodes, Some(c), Next, |nodes|);
        assert Walk(nodes, None, Next, |nodes| - 1) == [];
        assert cs == [c];
      }
    }
  }

  /** A child is a text node that does not trim to nothing. */
  predicate BlockingChild(nodes: seq<TreeNode>, c: NodeId)
  {
    c < |nodes| && (IsElement(nodes[c]) || (nodes[c].data.Text? && Trim(Subtree.Text(nodes, c)) != []))
  }

  /**
   * `is_empty_element`: an element none of whose children is an element or a
   * text node that does not trim to nothing.
   */
  predicate IsEmptyElement(nodes: seq<TreeNode>, id: NodeId)
  {
    id < |nodes| && IsElement(nodes[id])
    && forall k :: 0 <= k < |Children(nodes, id)| ==> !BlockingChild(nodes, Children(nodes, id)[k])
  }

  /** An element with only text is not empty: the two pseudo-classes never hold together. */
  lemma OnlyTextNotEmpty(nodes: seq<TreeNode>, id: NodeId)
    requires WellFormed(nodes) && HasOnlyText(nodes, id)
    ensures !IsEmptyElement(nodes, id)
  {
    assert id < |nodes|;
    ChildrenAreChain(nodes, id);
    assert BlockingChild(nodes, Children(nodes, id)[0]);
  }

  // ----- link edits -----

  /** `prepend_child`: detach the incoming node, then make it the first child of `id`. */
  function PrependedChildDetached(nodes: seq<TreeNode>, id: NodeId, c: NodeId): seq<TreeNode>
  {
    PrependedChild(RemovedFromParent(nodes, c), id, c)
  }

  /** `NodeRef::prepend_child`. */
  method PrependChild(t: Trees.Tree, id: NodeId, c: NodeId)
    modifies t
    ensures t.nodes == PrependedChildDetached(old(t.nodes), id, c)
  {
    var a := t.Borrow();
    Ops.RemoveFromParent(a, c);
    Ops.PrependChildOf(a, id, c);
    t.nodes := a[..];
  }

  /** The facts about the detached arena that `prepend_child`'s second step needs. */
  lemma PrependSetup(nodes: seq<TreeNode>, id: NodeId, c: NodeId)
    requires WellFormed(nodes) && id < |nodes| && c < |nodes| && id != c
    ensures var s := RemovedFromParent(nodes, c);
      && Detached(s[c]) && s[c].firstChild == nodes[c].firstChild && s[c].lastChild == nodes[c].lastChild
      && s[id].firstChild != Some(c) && s[id].firstChild != Some(id) && InRange(s, s[id].firstChild)
  {
    var s := RemovedFromParent(nodes, c);
    RemovePreservesWellFormed(nodes, c);
    WellFormedNeighboursDistinct(nodes, c);
    RemoveEffectAtX(nodes, c);
    assert NodeWellLinked(s, id);
    NoSelfLinks(s, id);
  }

  /**
   * On a well-formed arena `prepend_child` makes `c` the first child of `id`,
   * with no previous sibling and the children `id` had after `c` left as
   * its next siblings; the rest of the arena is as `remove_from_parent(c)`
   * left it, apart from the old first child, which points back at `c`.
   */
  lemma PrependChildEffect(nodes: seq<TreeNode>, id: NodeId, c: NodeId)
    requires WellFormed(nodes) && id < |nodes| && c < |nodes| && id != c
    ensures var s := RemovedFromParent(nodes, c);
      var r := PrependedChildDetached(nodes, id, c);
      && r[id] == s[id].(firstChild := Some(c), lastChild := if s[id].firstChild.None? then Some(c) else s[id].lastChild)
      && r[c] == nodes[c].(parent := Some(id), prevSibling := None, nextSibling := s[id].firstChild)
      && (s[id].firstChild.Some? && s[id].firstChild.value < |nodes| ==>
            r[s[id].firstChild.value] == s[s[id].firstChild.value].(prevSibling := Some(c)))
      && (forall j :: 0 <= j < |nodes| && j != id && j != c && Some(j) != s[id].firstChild ==> r[j] == s[j])
  {
    var s := RemovedFromParent(nodes, c);
    PrependSetup(nodes, id, c);
    PrependEffect(s, id, c);
  }

  /** `replace_with`: insert the new node before `id`, then detach `id`. */
  function ReplacedWith(nodes: seq<TreeNode>, id: NodeId, ns: NodeId): seq<TreeNode>
  {
    RemovedFromParent(InsertedBefore(nodes, id, ns), id)
  }

  /** `NodeRef::replace_with`. */
  method ReplaceWith(t: Trees.Tree, id: NodeId, ns: NodeId)
    modifies t
    ensures t.nodes == ReplacedWith(old(t.nodes), id, ns)
  {
    var a := t.Borrow();
    Ops.InsertBeforeOf(a, id, ns);
    Ops.RemoveFromParent(a, id);
    t.nodes := a[..];
  }

  /** The facts about a detached replacement that both steps of `replace_with` need. */
  lemma ReplaceSetup(nodes: seq<TreeNode>, id: NodeId, ns: NodeId)
    requires WellFormed(nodes) && id < |nodes| && ns < |nodes| && id != ns
    requires Detached(nodes[ns]) && nodes[id].parent != Some(ns)
    ensures RemovedFromParent(nodes, ns) == nodes
    ensures var a := nodes[id];
      && a.parent != Some(id) && a.prevSibling != Some(id) && a.nextSibling != Some(id)
      && a.prevSibling != Some(ns) && a.nextSibling != Some(ns)
      && (a.parent.Some? ==> a.parent != a.prevSibling && a.parent != a.nextSibling)
      && (a.prevSibling.Some? ==> a.prevSibling != a.nextSibling)
      && InRange(nodes, a.parent) && InRange(nodes, a.prevSibling) && InRange(nodes, a.nextSibling)
  {
    RemoveNoOp(nodes, ns);
    WellFormedNeighboursDistinct(nodes, id);
    assert NodeWellLinked(nodes, id);
  }

  /** The arena between the two steps of `replace_with`. */
  lemma ReplaceMiddle(nodes: seq<TreeNode>, id: NodeId, ns: NodeId)
    requires WellFormed(nodes) && id < |nodes| && ns < |nodes| && id != ns
    requires Detached(nodes[ns]) && nodes[id].parent != Some(ns)
    ensures var m := InsertedBefore(nodes, id, ns);
      var a := nodes[id];
      && m[id] == a.(prevSibling := Some(ns))
      && NeighboursDistinct(m, id)
      && m[ns] == nodes[ns].(parent := a.parent, prevSibling := a.prevSibling, nextSibling := Some(id))
      && (a.prevSibling.Some? && a.prevSibling.value < |nodes| ==>
            m[a.prevSibling.value] == nodes[a.prevSibling.value].(nextSibling := Some(ns)))
      && (a.parent.Some? && a.parent.value < |nodes| ==>
            var p := nodes[a.parent.value];
            m[a.parent.value] == p.(firstChild := if p.firstChild == Some(id) then Some(ns) else p.firstChild))
      && (forall j :: 0 <= j < |nodes| && j != id && j != ns && Some(j) != a.parent && Some(j) != a.prevSibling
            ==> m[j] == nodes[j])
  {
    ReplaceSetup(nodes, id, ns);
    InsertBeforeEffect(nodes, id, ns);
  }

  /** The new node takes `id`'s parent and siblings, and `id` is left detached. */
  lemma ReplaceWithMoves(nodes: seq<TreeNode>, id: NodeId, ns: NodeId)
    requires WellFormed(nodes) && id < |nodes| && ns < |nodes| && id != ns
    requires Detached(nodes[ns]) && nodes[id].parent != Some(ns)
    ensures var r := ReplacedWith(nodes, id, ns);
      var a := nodes[id];
      && r[ns] == nodes[ns].(parent := a.parent, prevSibling := a.prevSibling, nextSibling := a.nextSibling)
      && r[id] == a.(parent := None, prevSibling := None, nextSibling := None)
  {
    ReplaceMiddle(nodes, id, ns);
    var m := InsertedBefore(nodes, id, ns);
    RemoveEffectAtX(m, id);
    RemoveEffectSiblings(m, id);
  }

  /** The old siblings of `id` point at the new node. */
  lemma ReplaceWithSiblings(nodes: seq<TreeNode>, id: NodeId, ns: NodeId)
    requires WellFormed(nodes) && id < |nodes| && ns < |nodes| && id != ns
    requires Detached(nodes[ns]) && nodes[id].parent != Some(ns)
    ensures var r := ReplacedWith(nodes, id, ns);
      var a := nodes[id];
      && (a.prevSibling.Some? && a.prevSibling.value < |nodes| ==>
            r[a.prevSibling.value] == nodes[a.prevSibling.value].(nextSibling := Some(ns)))
      && (a.nextSibling.Some? && a.nextSibling.value < |nodes| ==>
            r[a.nextSibling.value] == nodes[a.nextSibling.value].(prevSibling := Some(ns)))
  {
    ReplaceSetup(nodes, id, ns);
    ReplaceMiddle(nodes, id, ns);
    var m := InsertedBefore(nodes, id, ns);
    RemoveEffectSiblings(m, id);
    RemoveEffectElsewhere(m, id);
  }

  /** The parent's first and last child move from `id` to the new node. */
  lemma ReplaceWithParent(nodes: seq<TreeNode>, id: NodeId, ns: NodeId)
    requires WellFormed(nodes) && id < |nodes| && ns < |nodes| && id != ns
    requires Detached(nodes[ns]) && nodes[id].parent != Some(ns)
    ensures var r := ReplacedWith(nodes, id, ns);
      var a := nodes[id];
      a.parent.Some? && a.parent.value < |nodes| ==>
        var p := nodes[a.parent.value];
        r[a.parent.value] == p.(firstChild := if p.firstChild == Some(id) then Some(ns) else p.firstChild,
                                lastChild := if p.lastChild == Some(id) then Some(ns) else p.lastChild)
  {
    ReplaceSetup(nodes, id, ns);
    ReplaceMiddle(nodes, id, ns);
    var m := InsertedBefore(nodes, id, ns);
    RemoveEffectParent(m, id);
  }

  /** No node other than `id`, the new node and `id`'s neighbours changes. */
  lemma ReplaceWithElsewhere(nodes: seq<TreeNode>, id: NodeId, ns: NodeId)
    requires WellFormed(nodes) && id < |nodes| && ns < |nodes| && id != ns
    requires Detached(nodes[ns]) && nodes[id].parent != Some(ns)
    ensures var r := ReplacedWith(nodes, id, ns);
      var a := nodes[id];
      forall j :: (0 <= j < |nodes| && j != id && j != ns && Some(j) != a.parent && Some(j) != a.prevSibling
                   && Some(j) != a.nextSibling) ==> r[j] == nodes[j]
  {
    ReplaceMiddle(nodes, id, ns);
    var m := InsertedBefore(nodes, id, ns);
    RemoveEffectElsewhere(m, id);
  }

  /**
   * `unwrap_node`'s guard: the node has a parent, the parent is an element,
   * and the parent has a parent of its own.
   */
  predicate CanUnwrap(nodes: seq<TreeNode>, id: NodeId)
  {
    id < |nodes| && nodes[id].parent.Some?
    && var p := nodes[id].parent.value;
      p < |nodes| && IsElement(nodes[p]) && nodes[p].parent.Some?
  }

  /**
   * `NodeRef::unwrap_node`.  `insert_siblings_before` is not part of this
   * model; `insertSiblingsBefore(nodes, anchor, first)` stands for the vector
   * it leaves.
   */
  method UnwrapNode(t: Trees.Tree, id: NodeId, insertSiblingsBefore: (seq<TreeNode>, NodeId, NodeId) -> seq<TreeNode>)
    modifies t
    ensures CanUnwrap(old(t.nodes), id) ==>
      var p := old(t.nodes)[id].parent.value;
      t.nodes == RemovedFromParent(insertSiblingsBefore(old(t.nodes), p, id), p)
    ensures !CanUnwrap(old(t.nodes), id) ==> t.nodes == old(t.nodes)
  {
    if id >= |t.nodes| || t.nodes[id].parent.None? {
      return;
    }
    var p := t.nodes[id].parent.value;
    if p >= |t.nodes| || !IsElement(t.nodes[p]) {
      return;
    }
    if t.nodes[p].parent.Some? {
      t.nodes := insertSiblingsBefore(t.nodes, p, id);
      t.RemoveFromParent(p);
    }
  }

  /**
   * Whatever `insert_siblings_before` does, as long as it leaves the vector
   * well formed, `unwrap_node` ends with the old parent detached and the
   * arena still well formed.
   */
  lemma UnwrapDetachesParent(nodes: seq<TreeNode>, id: NodeId, insertSiblingsBefore: (seq<TreeNode>, NodeId, NodeId) -> seq<TreeNode>)
    requires CanUnwrap(nodes, id)
    requires var p := nodes[id].parent.value;
      WellFormed(insertSiblingsBefore(nodes, p, id)) && p < |insertSiblingsBefore(nodes, p, id)|
    ensures var p := nodes[id].parent.value;
      var r := RemovedFromParent(insertSiblingsBefore(nodes, p, id), p);
      Detached(r[p]) && WellFormed(r)
  {
    var p := nodes[id].parent.value;
    var s := insertSiblingsBefore(nodes, p, id);
    WellFormedNeighboursDistinct(s, p);
    RemoveEffectAtX(s, p);
    RemovePreservesWellFormed(s, p);
  }
}
