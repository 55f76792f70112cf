/**
 * The arena node of the DOM tree (src/node/inner.rs) and the node payload
 * types it carries (src/node/node_data.rs).  A node lives in a vector, is
 * named by its index there, and refers to its relatives by index.
 */
module Arena {
  import opened Wrappers

  type NodeId = nat

  /** html5ever's qualified name: optional prefix, namespace URL, local name. */
  datatype QualName = QualName(prefix: Option<string>, ns: string, local: string)

  datatype Attr = Attr(name: QualName, value: string)

  datatype Element = Element(
    name: QualName,
    attrs: seq<Attr>,
    templateContents: Option<NodeId>,
    mathmlAnnotationXmlIntegrationPoint: bool)

  /** `NodeData`; `ElementData` is the `NodeData::Element` variant. */
  datatype NodeData =
    | Document
    | Fragment
    | Doctype(doctypeName: string, publicId: string, systemId: string)
    | Text(contents: string)
    | Comment(comment: string)
    | ElementData(element: Element)
    | ProcessingInstruction(target: string, instruction: string)

  datatype TreeNode = TreeNode(
    id: NodeId,
    parent: Option<NodeId>,
    prevSibling: Option<NodeId>,
    nextSibling: Option<NodeId>,
    firstChild: Option<NodeId>,
    lastChild: Option<NodeId>,
    data: NodeData)

  /** A node none of whose five links is set. */
  predicate Unlinked(n: TreeNode)
  {
    n.parent.None? && n.prevSibling.None? && n.nextSibling.None?
    && n.firstChild.None? && n.lastChild.None?
  }

  /** `TreeNode::new`: a node with the given id and payload and no links. */
  function NewNode(id: NodeId, data: NodeData): (n: TreeNode)
    ensures n.id == id && n.data == data
    ensures Unlinked(n)
  {
    TreeNode(id, None, None, None, None, None, data)
  }

  function ShiftLink(link: Option<NodeId>, offset: nat): Option<NodeId>
  {
    match link
    case None => None
    case Some(v) => Some(v + offset)
  }

  /** `TreeNode::adjust(offset)` (and `fix_node` in tree.rs): every id moves up by `offset`. */
  function Adjusted(n: TreeNode, offset: nat): TreeNode
  {
    n.(id := n.id + offset,
       parent := ShiftLink(n.parent, offset),
       prevSibling := ShiftLink(n.prevSibling, offset),
       nextSibling := ShiftLink(n.nextSibling, offset),
       firstChild := ShiftLink(n.firstChild, offset),
       lastChild := ShiftLink(n.lastChild, offset))
  }

  /** `link` moved by `offset`: absent stays absent, present gains `offset`. */
  predicate ShiftedBy(link: Option<NodeId>, moved: Option<NodeId>, offset: nat)
  {
    (link.None? <==> moved.None?) && (link.Some? ==> moved.value == link.value + offset)
  }

  /** `adjust` shifts the id and every present link, keeps absent links absent and the payload. */
  lemma AdjustedShiftsEveryLink(n: TreeNode, offset: nat)
    ensures Adjusted(n, offset).id == n.id + offset
    ensures Adjusted(n, offset).data == n.data
    ensures ShiftedBy(n.parent, Adjusted(n, offset).parent, offset)
    ensures ShiftedBy(n.prevSibling, Adjusted(n, offset).prevSibling, offset)
    ensures ShiftedBy(n.nextSibling, Adjusted(n, offset).nextSibling, offset)
    ensures ShiftedBy(n.firstChild, Adjusted(n, offset).firstChild, offset)
    ensures ShiftedBy(n.lastChild, Adjusted(n, offset).lastChild, offset)
  {
  }

  /** Two adjustments are one by the sum of the offsets; offset 0 changes nothing. */
  lemma AdjustedComposes(n: TreeNode, a: nat, b: nat)
    ensures Adjusted(Adjusted(n, a), b) == Adjusted(n, a + b)
    ensures Adjusted(n, 0) == n
  {
  }

  predicate IsDocument(n: TreeNode) { n.data.Document? }
  predicate IsElement(n: TreeNode) { n.data.ElementData? }
  predicate IsText(n: TreeNode) { n.data.Text? }
  predicate IsComment(n: TreeNode) { n.data.Comment? }
  predicate IsFragment(n: TreeNode) { n.data.Fragment? }
  predicate IsDoctype(n: TreeNode) { n.data.Doctype? }

  function KindCount(n: TreeNode): nat
  {
    (if IsDocument(n) then 1 else 0) + (if IsElement(n) then 1 else 0)
    + (if IsText(n) then 1 else 0) + (if IsComment(n) then 1 else 0)
    + (if IsFragment(n) then 1 else 0) + (if IsDoctype(n) then 1 else 0)
  }

  /** Exactly one `is_*` predicate holds, except for processing instructions, which have none. */
  lemma KindsAreExclusive(n: TreeNode)
    ensures KindCount(n) == (if n.data.ProcessingInstruction? then 0 else 1)
  {
  }

  /** `may_have_children`. */
  predicate MayHaveChildren(n: TreeNode)
  {
    match n.data
    case Document => true
    case Fragment => true
    case ElementData(_) => true
    case _ => false
  }

  lemma MayHaveChildrenKinds(n: TreeNode)
    ensures MayHaveChildren(n) <==> IsDocument(n) || IsFragment(n) || IsElement(n)
  {
  }

  /** `as_element`. */
  function AsElement(n: TreeNode): (r: Option<Element>)
    ensures r.Some? <==> IsElement(n)
    ensures r.Some? ==> n.data == ElementData(r.value)
  {
    match n.data
    case ElementData(e) => Some(e)
    case _ => None
  }

  /**
   * `as_element_mut` followed by a write through the reference: the element
   * payload is replaced when the node is an element, and nothing happens otherwise.
   */
  function WithElement(n: TreeNode, e: Element): (r: TreeNode)
    ensures IsElement(n) ==> r == n.(data := ElementData(e))
    ensures !IsElement(n) ==> r == n
  {
    match n.data
    case ElementData(_) => n.(data := ElementData(e))
    case _ => n
  }

  /** The links and id of a node are untouched by element edits. */
  lemma WithElementKeepsLinks(n: TreeNode, e: Element)
    ensures WithElement(n, e).(data := n.data) == n
    ensures AsElement(WithElement(n, e)) == if IsElement(n) then Some(e) else None
  {
  }
}
