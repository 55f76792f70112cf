/**
 * The html5ever `TreeSink` callbacks of `Document` (src/document.rs): how
 * the parser's requests become arena edits.  The interesting rule is text
 * merging: text appended after, or inserted just after, a text node is
 * concatenated into that node instead of creating a neighbour.
 *
 * The tree builder itself is not part of this model; the callbacks are
 * methods on a `Document` that owns a `Trees.Tree`, the new-generation tree
 * whose methods of the same names the calls are read as.
 */
module Sink {
  import opened Wrappers
  import opened Arena
  import opened Links
  import opened Invariant
  import opened Elements
  import Trees

  /** html5ever's `NodeOrText`. */
  datatype NodeOrText = AppendNode(node: NodeId) | AppendText(text: string)

  datatype QuirksMode = NoQuirks | LimitedQuirks | Quirks

  datatype ElementFlags = ElementFlags(template: bool, mathmlAnnotationXmlIntegrationPoint: bool)

  // ----- the edits as functions of the node vector -----

  /**
   * `append_to_existing_text`: a text node gets `text` pushed onto its
   * contents and reports true; any other node is left alone and reports false.
   */
  function AppendToExistingText(n: TreeNode, text: string): (r: (TreeNode, bool))
  {
    match n.data
    case Text(contents) => (n.(data := Text(contents + text)), true)
    case _ => (n, false)
  }

  /** The merge touches only a text node's contents: the new contents end with `text`. */
  lemma AppendToExistingTextEffect(n: TreeNode, text: string)
    ensures var (m, merged) := AppendToExistingText(n, text);
      && (merged <==> n.data.Text?)
      && m.(data := n.data) == n
      && (merged ==> m.data.Text? && m.data.contents[..|n.data.contents|] == n.data.contents
                     && m.data.contents[|n.data.contents|..] == text)
      && (!merged ==> m == n)
  {
  }

  /**
   * `update_node(target, append_to_existing_text)`: the merge applied to the
   * node at `target` when there is one; no node means no merge.
   */
  function MergeInto(nodes: seq<TreeNode>, target: Option<NodeId>, text: string): (r: (seq<TreeNode>, bool))
  {
    if target.Some? && target.value < |nodes| then
      var (n, merged) := AppendToExistingText(nodes[target.value], text);
      if merged then (nodes[target.value := n], true) else (nodes, false)
    else (nodes, false)
  }

  /** The sink's `append`. */
  function Appended(nodes: seq<TreeNode>, parent: NodeId, child: NodeOrText): seq<TreeNode>
  {
    match child
    case AppendNode(c) => AppendedChild(nodes, parent, c)
    case AppendText(t) =>
      var last := if parent < |nodes| then nodes[parent].lastChild else None;
      var (m, merged) := MergeInto(nodes, last, t);
      if merged then m else AppendedChildData(nodes, parent, Text(t))
  }

  /** The sink's `append_before_sibling`; a new text node is created, then inserted. */
  function AppendedBeforeSibling(nodes: seq<TreeNode>, sibling: NodeId, child: NodeOrText): seq<TreeNode>
  {
    match child
    case AppendNode(c) => InsertedBefore(nodes, sibling, c)
    case AppendText(t) =>
      var prev := if sibling < |nodes| then nodes[sibling].prevSibling else None;
      var (m, merged) := MergeInto(nodes, prev, t);
      if merged then m else InsertedBefore(nodes + [NewNode(|nodes|, Text(t))], sibling, |nodes|)
  }

  /** The sink's `append_based_on_parent_node`. */
  function AppendedBasedOnParent(nodes: seq<TreeNode>, element: NodeId, prevElement: NodeId, child: NodeOrText): seq<TreeNode>
  {
    if element < |nodes| && nodes[element].parent.Some? then AppendedBeforeSibling(nodes, element, child)
    else Appended(nodes, prevElement, child)
  }

  /**
   * The sink's `create_element`: with the template flag a Document node for
   * the template contents is pushed first; then the element is pushed.
   */
  function CreatedElement(nodes: seq<TreeNode>, name: QualName, attrs: seq<Attr>, flags: ElementFlags): (seq<TreeNode>, NodeId)
  {
    var contents := if flags.template then Some(|nodes|) else None;
    var s := if flags.template then nodes + [NewNode(|nodes|, Document)] else nodes;
    var e := Element(name, attrs, contents, flags.mathmlAnnotationXmlIntegrationPoint);
    (s + [NewNode(|s|, ElementData(e))], |s|)
  }

  /** The sink's `add_attrs_if_missing`, through `as_element_mut`. */
  function AttrsAdded(nodes: seq<TreeNode>, target: NodeId, attrs: seq<Attr>): seq<TreeNode>
  {
    if target < |nodes| then
      match nodes[target].data
      case ElementData(e) => nodes[target := nodes[target].(data := ElementData(e.(attrs := WithMissingAttrs(e.attrs, attrs))))]
      case _ => nodes
    else nodes
  }

  // ----- what the edits achieve -----

  /**
   * Appending text after a text node merges into it: no node is created, the
   * last child's contents grow by `text`, and nothing else changes.
   */
  lemma AppendTextMerges(nodes: seq<TreeNode>, parent: NodeId, text: string)
    requires parent < |nodes|
    requires var last := nodes[parent].lastChild; last.Some? && last.value < |nodes| && nodes[last.value].data.Text?
    ensures var c := nodes[parent].lastChild.value;
      var r := Appended(nodes, parent, AppendText(text));
      && |r| == |nodes|
      && r[c] == nodes[c].(data := Text(nodes[c].data.contents + text))
      && forall j :: 0 <= j < |nodes| && j != c ==> r[j] == nodes[j]
  {
  }

  /**
   * Appending text anywhere else creates one text node, the new last child of
   * `parent` (and its first child when it had none), after the old last
   * child, which is therefore not a text node.
   */
  lemma AppendTextCreates(nodes: seq<TreeNode>, parent: NodeId, text: string)
    requires WellFormed(nodes) && parent < |nodes|
    requires var last := nodes[parent].lastChild; !(last.Some? && last.value < |nodes| && nodes[last.value].data.Text?)
    ensures var n := |nodes|;
      var last := nodes[parent].lastChild;
      var r := Appended(nodes, parent, AppendText(text));
      && |r| == n + 1
      && r[n] == TreeNode(n, Some(parent), last, None, None, None, Text(text))
      && r[parent].lastChild == Some(n)
      && (last.Some? ==> last.value < n && !r[last.value].data.Text? && r[last.value].nextSibling == Some(n))
      && forall j :: 0 <= j < n && j != parent && Some(j) != last ==> r[j] == nodes[j]
  {
    assert NodeWellLinked(nodes, parent);
    NoSelfLinks(nodes, parent);
    AppendDataEffect(nodes, parent, Text(text));
  }

  /**
   * Inserting text before a sibling whose previous sibling is a text node
   * merges into that node; nothing else changes.
   */
  lemma AppendBeforeSiblingMerges(nodes: seq<TreeNode>, sibling: NodeId, text: string)
    requires sibling < |nodes|
    requires var prev := nodes[sibling].prevSibling; prev.Some? && prev.value < |nodes| && nodes[prev.value].data.Text?
    ensures var c := nodes[sibling].prevSibling.value;
      var r := AppendedBeforeSibling(nodes, sibling, AppendText(text));
      && |r| == |nodes|
      && r[c] == nodes[c].(data := Text(nodes[c].data.contents + text))
      && forall j :: 0 <= j < |nodes| && j != c ==> r[j] == nodes[j]
  {
  }

  /**
   * Otherwise a new text node is created and placed just before `sibling`,
   * under `sibling`'s parent and after its old previous sibling, which is
   * not a text node.
   */
  lemma AppendBeforeSiblingCreates(nodes: seq<TreeNode>, sibling: NodeId, text: string)
    requires WellFormed(nodes) && sibling < |nodes|
    requires var prev := nodes[sibling].prevSibling; !(prev.Some? && prev.value < |nodes| && nodes[prev.value].data.Text?)
    ensures var n := |nodes|;
      var a := nodes[sibling];
      var r := AppendedBeforeSibling(nodes, sibling, AppendText(text));
      && |r| == n + 1
      && r[n] == TreeNode(n, a.parent, a.prevSibling, Some(sibling), None, None, Text(text))
      && r[sibling] == a.(prevSibling := Some(n))
      && (a.prevSibling.Some? ==> a.prevSibling.value < n && !r[a.prevSibling.value].data.Text?
                                   && r[a.prevSibling.value].nextSibling == Some(n))
  {
    var s := nodes + [NewNode(|nodes|, Text(text))];
    assert NodeWellLinked(nodes, sibling);
    NoSelfLinks(nodes, sibling);
    WellFormedNeighboursDistinct(nodes, sibling);
    RemoveNoOp(s, |nodes|);
    InsertBeforeEffect(s, sibling, |nodes|);
  }

  /** `append_based_on_parent_node` inserts before `element` when it has a parent, else appends to `prevElement`. */
  lemma AppendBasedOnParentChoice(nodes: seq<TreeNode>, element: NodeId, prevElement: NodeId, child: NodeOrText)
    ensures element < |nodes| && nodes[element].parent.Some? ==>
      AppendedBasedOnParent(nodes, element, prevElement, child) == AppendedBeforeSibling(nodes, element, child)
    ensures !(element < |nodes| && nodes[element].parent.Some?) ==>
      AppendedBasedOnParent(nodes, element, prevElement, child) == Appended(nodes, prevElement, child)
  {
  }

  /**
   * `create_element` returns the id of a new, unlinked element with the given
   * name and attributes; it has template contents exactly when the template
   * flag is set, and they are a new Document node just before it.
   */
  lemma CreateElementShape(nodes: seq<TreeNode>, name: QualName, attrs: seq<Attr>, flags: ElementFlags)
    ensures var (r, id) := CreatedElement(nodes, name, attrs, flags);
      && r[..|nodes|] == nodes
      && |r| == |nodes| + (if flags.template then 2 else 1) && id == |r| - 1
      && Unlinked(r[id]) && r[id].id == id && r[id].data.ElementData?
      && r[id].data.element.name == name && r[id].data.element.attrs == attrs
      && (r[id].data.element.templateContents.Some? <==> flags.template)
      && (flags.template ==>
            r[id].data.element.templateContents == Some(id - 1) && r[id - 1] == NewNode(id - 1, Document))
  {
  }

  /** The attributes of `add_attrs_if_missing` reach only the target element, and only as `WithMissingAttrs` adds them. */
  lemma AttrsAddedEffect(nodes: seq<TreeNode>, target: NodeId, attrs: seq<Attr>)
    ensures var r := AttrsAdded(nodes, target, attrs);
      && |r| == |nodes|
      && (forall j :: 0 <= j < |nodes| && j != target ==> r[j] == nodes[j])
      && (target < |nodes| && IsElement(nodes[target]) ==>
            var e := nodes[target].data.element;
            r[target] == WithElement(nodes[target], e.(attrs := WithMissingAttrs(e.attrs, attrs))))
      && (!(target < |nodes| && IsElement(nodes[target])) ==> r == nodes)
  {
  }

  // ----- the sink -----

  /** `Document`: the tree, the parse errors so far and the quirks mode. */
  class Document {
    const tree: Trees.Tree
    var errors: seq<string>
    var quirksMode: QuirksMode

    /** `Document::default`: a tree holding only the Document root, no errors, no quirks. */
    constructor ()
      ensures fresh(tree) && tree.nodes == [NewNode(0, Arena.Document)]
      ensures errors == [] && quirksMode == NoQuirks
    {
      tree := new Trees.Tree(Arena.Document);
      errors := [];
      quirksMode := NoQuirks;
    }

    /** `parse_error`: exactly one more message, the tree untouched. */
    method ParseError(msg: string)
      modifies this
      ensures errors == old(errors) + [msg] && |errors| == |old(errors)| + 1
      ensures quirksMode == old(quirksMode)
    {
      errors := errors + [msg];
    }

    /** `get_document`. */
    function GetDocument(): (r: NodeId)
      reads tree
      ensures WellFormed(tree.nodes) ==> r < |tree.nodes| && tree.nodes[r].parent.None?
    {
      tree.RootId()
    }

    /** `get_template_contents`; `None` where the source panics (the target is not an element with contents). */
    function GetTemplateContents(target: NodeId): (r: Option<NodeId>)
      reads tree
      ensures r.Some? <==> target < |tree.nodes| && IsElement(tree.nodes[target])
                           && tree.nodes[target].data.element.templateContents.Some?
      ensures r.Some? ==> r == tree.nodes[target].data.element.templateContents
    {
      if target < |tree.nodes| then
        match AsElement(tree.nodes[target])
        case Some(e) => e.templateContents
        case None => None
      else None
    }

    /** `set_quirks_mode`. */
    method SetQuirksMode(mode: QuirksMode)
      modifies this
      ensures quirksMode == mode && errors == old(errors)
    {
      quirksMode := mode;
    }

    /** `same_node`: handles are ids, so two handles are the same node when they are equal. */
    function SameNode(x: NodeId, y: NodeId): (r: bool)
      ensures r <==> x == y
    {
      x == y
    }

    /** `elem_name`; `None` where the source panics (the target is not an element). */
    function ElemName(target: NodeId): (r: Option<QualName>)
      reads tree
      ensures r.Some? <==> target < |tree.nodes| && IsElement(tree.nodes[target])
      ensures r.Some? ==> r.value == tree.nodes[target].data.element.name
    {
      if target < |tree.nodes| && IsElement(tree.nodes[target]) then Some(tree.nodes[target].data.element.name)
      else None
    }

    /** `create_element`. */
    method CreateElement(name: QualName, attrs: seq<Attr>, flags: ElementFlags) returns (id: NodeId)
      modifies tree
      ensures (tree.nodes, id) == CreatedElement(old(tree.nodes), name, attrs, flags)
    {
      var contents: Option<NodeId> := None;
      if flags.template {
        var c := tree.CreateNode(Arena.Document);
        contents := Some(c);
      }
      id := tree.CreateNode(ElementData(Element(name, attrs, contents, flags.mathmlAnnotationXmlIntegrationPoint)));
    }

    /** `create_comment`. */
    method CreateComment(text: string) returns (id: NodeId)
      modifies tree
      ensures id == old(|tree.nodes|) && tree.nodes == old(tree.nodes) + [NewNode(id, Comment(text))]
    {
      id := tree.CreateNode(Comment(text));
    }

    /** `create_pi`. */
    method CreatePi(target: string, data: string) returns (id: NodeId)
      modifies tree
      ensures id == old(|tree.nodes|) && tree.nodes == old(tree.nodes) + [NewNode(id, ProcessingInstruction(target, data))]
    {
      id := tree.CreateNode(ProcessingInstruction(target, data));
    }

    /** `update_node(target, append_to_existing_text).unwrap_or(false)`. */
    method MergeText(target: Option<NodeId>, text: string) returns (merged: bool)
      modifies tree
      ensures (tree.nodes, merged) == MergeInto(old(tree.nodes), target, text)
    {
      merged := false;
      if target.Some? && target.value < |tree.nodes| {
        var n := tree.nodes[target.value];
        if n.data.Text? {
          tree.nodes := tree.nodes[target.value := n.(data := Text(n.data.contents + text))];
          merged := true;
        }
      }
    }

    /** `append`. */
    method Append(parent: NodeId, child: NodeOrText)
      modifies tree
      ensures tree.nodes == Appended(old(tree.nodes), parent, child)
    {
      match child
      case AppendNode(c) =>
        tree.AppendChildOf(parent, c);
      case AppendText(t) =>
        var last := if parent < |tree.nodes| then tree.nodes[parent].lastChild else None;
        var merged := MergeText(last, t);
        if merged {
          return;
        }
        tree.AppendChildDataOf(parent, Text(t));
    }

    /** `append_before_sibling`. */
    method AppendBeforeSibling(sibling: NodeId, child: NodeOrText)
      modifies tree
      ensures tree.nodes == AppendedBeforeSibling(old(tree.nodes), sibling, child)
    {
      match child
      case AppendText(t) =>
        ghost var s := tree.nodes;
        var prev := if sibling < |tree.nodes| then tree.nodes[sibling].prevSibling else None;
        var merged := MergeText(prev, t);
        if merged {
          return;
        }
        assert tree.nodes == s;
        var id := tree.CreateNode(Text(t));
        assert tree.nodes == s + [NewNode(|s|, Text(t))] && id == |s|;
        tree.InsertBeforeOf(sibling, id);
      case AppendNode(id) =>
        tree.InsertBeforeOf(sibling, id);
    }

    /** `append_based_on_parent_node`. */
    method AppendBasedOnParentNode(element: NodeId, prevElement: NodeId, child: NodeOrText)
      modifies tree
      ensures tree.nodes == AppendedBasedOnParent(old(tree.nodes), element, prevElement, child)
    {
      var hasParent := element < |tree.nodes| && tree.nodes[element].parent.Some?;
      if hasParent {
        AppendBeforeSibling(element, child);
      } else {
        Append(prevElement, child);
      }
    }

    /** `append_doctype_to_document`: a Doctype node appended under the root. */
    method AppendDoctypeToDocument(name: string, publicId: string, systemId: string)
      modifies tree
      ensures tree.nodes == AppendedChildData(old(tree.nodes), 0, Doctype(name, publicId, systemId))
    {
      var root := tree.RootId();
      tree.AppendChildDataOf(root, Doctype(name, publicId, systemId));
    }

    /** `add_attrs_if_missing`. */
    method AddAttrsIfMissing(target: NodeId, attrs: seq<Attr>)
      modifies tree
      ensures tree.nodes == AttrsAdded(old(tree.nodes), target, attrs)
    {
      if target < |tree.nodes| {
        match tree.nodes[target].data
        case ElementData(e) =>
          tree.nodes := tree.nodes[target := tree.nodes[target].(data := ElementData(e.(attrs := WithMissingAttrs(e.attrs, attrs))))];
        case _ =>
      }
    }

    /** `remove_from_parent`. */
    method RemoveFromParent(target: NodeId)
      modifies tree
      ensures tree.nodes == RemovedFromParent(old(tree.nodes), target)
      ensures old(WellFormed(tree.nodes)) ==> WellFormed(tree.nodes)
    {
      tree.RemoveFromParent(target);
    }

    /** `reparent_children`. */
    method ReparentChildren(node: NodeId, newParent: NodeId)
      requires node < |tree.nodes| ==> Chains.Ends(tree.nodes, tree.nodes[node].firstChild, Chains.Next, |tree.nodes|)
      modifies tree
      ensures tree.nodes == Reparented(old(tree.nodes), node, Some(newParent))
    {
      tree.ReparentChildrenOf(node, Some(newParent));
    }
  }
}
