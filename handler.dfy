/**
 * `TreeNodeHandler` (src/dom_tree/handler.rs): the variants of `text_of`,
 * `append_child_of` and `remove_from_parent` that `Tree` delegates to.  Their
 * bodies are the same statements as in `TreeNodeOps`, so each is modelled by
 * running the `Ops` method and carries the same contract.
 */
module Handler {
  import opened Wrappers
  import opened Arena
  import opened Links
  import opened Invariant
  import opened Subtree
  import Ops

  /** `TreeNodeHandler::text_of`: the stack walk of `TreeNodeOps::text_of`. */
  method TextOf(id: NodeId, nodes: array<TreeNode>, ghost fuel: nat) returns (text: string)
    requires Finite(nodes[..], id, fuel)
    ensures text == TextUnder(nodes[..], id, fuel)
  {
    text := Ops.TextOf(nodes, id, fuel);
  }

  /** On a well-formed arena the handler's text is `Subtree.Text`, whatever depth bound is given. */
  method TextOfWellFormed(id: NodeId, nodes: array<TreeNode>) returns (text: string)
    requires WellFormed(nodes[..])
    ensures text == Subtree.Text(nodes[..], id)
  {
    WellFormedFinite(nodes[..], id);
    text := TextOf(id, nodes, nodes.Length);
  }

  /** `TreeNodeHandler::append_child_of`: the same writes as `TreeNodeOps::append_child_of`. */
  method AppendChildOf(nodes: array<TreeNode>, id: NodeId, newChildId: NodeId)
    modifies nodes
    ensures nodes[..] == AppendedChild(old(nodes[..]), id, newChildId)
  {
    Ops.AppendChildOf(nodes, id, newChildId);
  }

  /**
   * `TreeNodeHandler::remove_from_parent`: the same writes as
   * `TreeNodeOps::remove_from_parent`; the slot of the node stays in the
   * slice, so the node keeps its index and payload.
   */
  method RemoveFromParent(id: NodeId, nodes: array<TreeNode>)
    modifies nodes
    ensures nodes[..] == RemovedFromParent(old(nodes[..]), id)
    ensures id < nodes.Length ==> nodes[id].id == old(nodes[id].id) && nodes[id].data == old(nodes[id].data)
  {
    Ops.RemoveFromParent(nodes, id);
  }
}
