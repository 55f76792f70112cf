# dom_query core, modelled in Dafny

This project models the core of `dom_query`, an HTML DOM library. A document
is an arena: a vector of tree nodes, each holding its own id, five optional
links (parent, previous and next sibling, first and last child) and a
payload (Document, Fragment, Doctype, Text, Comment, Element or
ProcessingInstruction). Every operation on the tree is an edit of those
links by id.

The model follows the code file by file:

- **Arena** (`Arena`, `Chains`): the node record, `TreeNode::new`, `adjust`, the kind
  tests and `as_element`, and the walks along one kind of link.
- **Link mutators** (`Links`, `Ops`, `Handler`, `Trees`): the `TreeNodeOps` and
  `TreeNodeHandler` mutators are methods over an `array<TreeNode>` slice. Each is
  proved equal to a function on `seq<TreeNode>`, and each function's effect and
  frame are lemmas. `Tree` is a class with a `seq<TreeNode>` field. Its
  `merge`, `copy_node` and `copy_nodes_with_fn` drive the source's stacks,
  maps and loops.
- **The structural invariant** (`Invariant`, `Validation`):
  - `Validation` models `validate` as written, both as a function and as a loop
    method proved equal to it.
  - `Invariant.WellFormed` is the invariant that `validate` aims at.
  - `remove_from_parent` preserves `WellFormed`, and `WellFormed` implies that
    `validate` succeeds.
  - `validate` alone is not preserved: see "Findings".
- **Text and traversal** (`Subtree`, `Iters`, `TreeTraversal`, `Copying`):
  - the text of a subtree and the `text_of` stack loop;
  - the `ChildNodes` iterator;
  - the name-path searches of `Traversal`;
  - the numbering and renumbering of `copy_node`.
- **Node operations** (`NodeRefs`, `Forest`): the `NodeRef` queries and link
  compositions. `normalize` and `strip_elements` act on a subtree as a value.
- **Elements** (`Elements`): attributes as an ordered list and classes as a token
  set, with an `ElementRef` class whose methods edit one element in place.
- **Parser sink** (`Sink`): the tree-builder callbacks of `Document`. They merge
  text into an adjacent text node or create a new one.
- **Mini selector** (`MiniSelectors`, `MiniParser`, `MiniRender`, `MiniExamples`,
  `MiniExtension`):
  - the reduced selector and its element predicate;
  - the hand-written parser, with nom's `opt`, `many0`, `many1`, `cut` and `alt`
    as success / recoverable error / unrecoverable failure;
  - a printer, and the round trip from printing to parsing;
  - the parser's own test inputs;
  - the `NodeRef` descendant filter.

- **Selector path** (`CssPath`, `CssPathRender`, `CssPathExamples`): the older selector path of src/css_path.rs:
  - its node matcher, which lets an element without an id through and ignores the attribute operator;
  - `parse_selector_chain`, where a combinator belongs to the compound written after it;
  - a printer with the round trip, and the module's own test inputs.

- **Text formatting** (`TextNormal`, `DomHelpers`, `FormatSteps`, `FormatText`):
  - `push_normalized_text`, `push_escaped_chunk` and the trimming helpers;
  - `normalized_char_count`;
  - the stack loop of `format_text`, in its older form (src/node/serializing.rs) and its newer form (src/node/text_formatting.rs).
- **Markdown** (`MdText`, `MdWriter`): the string helpers of the Markdown writer, then the parts of `MdSerializer` that decide and lay out a block: the tag tables, prefixes and suffixes, lists' indentation, tables, block quotes, links, images and code blocks.
- **Markdown walk** (`MdSerializer`): `write`, the `ops` stack of open and close operations behind `to_markdown`. It covers skipped tags, the open and close steps with their blank lines, prefixes and suffixes, the list writers `write_list`, `write_list_item` and `write_list_item_blocks` that call back into it, the final trim, `serialize` and the plain-text walk `write_text`. Each loop is proved to equal a recursive fold over the child chains.
- **Selector hooks** (`PseudoClasses`, `SelectorAdapter`, `LegacyElement`):
  - the non-tree-structural pseudo-classes of src/matcher.rs: their two parser hooks, which ignore ASCII case, and `to_css`, with the round trip from printing to parsing;
  - the capability predicates `NodeRef` gives the selectors crate in src/node/selector.rs: id, class, attribute, same-type, pseudo-class, `:empty` and `:root` tests;
  - the older implementation of src/element.rs: its own `:empty`, `first_element_child` and link tests, and the sibling-cursor loop of the `:has()` search, proved sound and, when only elements have children, complete.
- **Match iterators** (`MatchIters`): `DescendantMatches` and `Matches` of src/matcher.rs as classes whose `next` methods are proved against the list of hits, and their `collect` and first item. `Matches` walks a stack and a seen set; what it yields is proved to be the roots' element descendants, last root first.
- **Selections** (`Selections`, `Query`, `SelectionTraversal`): a `Selection` is a list of references, each an id and the tree it borrows.
  - `Selections` models src/selection.rs: `is`, `is_matcher`, `is_selection`, the filters, `add_matcher`, `add_selection` and `merge_nodes`, `first`, `last` and `get`, the traversals that drop repeated ids, and `select_matcher`, `select_single_matcher` and `try_select` on top of the match iterators;
  - `Query` models the older tests of src/query.rs and proves them equal to those of `Selections`;
  - `SelectionTraversal` models the older traversals and selecting functions of src/traversal.rs. On a selection from one tree the traversals are proved to give what the newer ones give.

Integers are unbounded. Where the source indexes a vector with a raw id, the
model requires the id to be in range. Where it checks with `get`, the
out-of-range case is modelled.

Loops that the source does not bound are modelled in one of two ways:
- a ghost `fuel` bound, proved to suffice on a well-formed arena;
- a precondition that the walk ends.

These loops are:
- the sibling loop of `reparent_children_of`, which `reparent_children` of the sink runs too;
- the `last_sibling_of` walk;
- the `text_of` descent;
- `ChildNodes`.

On a cyclic chain the source loops for ever.

## Model

| member | source | states |
|---|---|---|
| Chains.Set | src/dom_tree/ops.rs:95-111 | a `get_mut` write of one link changes that link of the node in range and nothing else; out of range it does nothing |
| Chains.Walk | src/dom_tree/ops.rs:44-58 | the ids a cursor visits along one kind of link stay inside the vector and start at the start id |
| Links.RemovedFromParent | src/dom_tree/ops.rs:205-239 | `remove_from_parent` keeps the vector's length and every node's id and payload |
| Links.AppendedChild | src/dom_tree/ops.rs:86-112 | `append_child_of` keeps the vector's length and every node's id and payload |
| Links.PrependedChild | src/dom_tree/ops.rs:115-141 | `prepend_child_of` keeps the vector's length and every node's id and payload |
| Links.InsertedBefore | src/dom_tree/ops.rs:144-171 | `insert_before_of` keeps the vector's length and every node's id and payload |
| Links.InsertedAfter | src/dom_tree/ops.rs:174-201 | `insert_after_of` keeps the vector's length and every node's id and payload |
| Links.SetParentAllAt | src/dom_tree/ops.rs:262-268 | exactly the nodes of the chain get the new parent; nothing else changes |
| Links.Reparented | src/dom_tree/ops.rs:242-269 | `reparent_children_of` keeps the vector's length and every node's id and payload |
| Links.AppendedChildData | src/dom_tree/ops.rs:61-83 | `append_child_data_of` grows the vector by exactly one node |
| Arena.NewNode | src/node/inner.rs:20-30 | a new node carries the given id and payload and has all five links unset |
| Arena.AdjustedShiftsEveryLink | src/node/inner.rs:35-42 | `adjust(offset)` adds the offset to the id and to every present link, leaves absent links absent and keeps the payload |
| Arena.AdjustedComposes | src/node/inner.rs:35-42 | two adjustments equal one by the sum of the offsets, and offset 0 is the identity |
| Arena.KindsAreExclusive | src/node/inner.rs:47-74 | exactly one of the six `is_*` predicates holds, and none for a processing instruction |
| Arena.MayHaveChildrenKinds | src/node/inner.rs:77-85 | `may_have_children` holds iff the node is a document, a fragment or an element |
| Arena.AsElement | src/node/inner.rs:87-93 | `as_element` is Some iff the node is an element, and then it is that element's payload |
| Arena.WithElement | src/node/inner.rs:95-101 | writing through `as_element_mut` replaces an element's payload and leaves any other node as it is |
| Arena.WithElementKeepsLinks | src/node/inner.rs:95-101 | an element edit changes only the payload, and the node reads back the written element |
| Elements.FindAttr | src/node/node_data.rs:193-199 | the index found is that of the first attribute with the local name, and None means no attribute has it |
| Elements.AttrValue | src/node/node_data.rs:193-199 | `attr` is Some iff an attribute has the name, and then its value is that of one such attribute |
| Elements.HasClassWords | src/node/node_data.rs:13-15 | `has_class(c)` is membership of `c` in the ASCII-whitespace-separated words of the class attribute, false without one |
| Elements.HasClassBytesSensitive | src/node/node_data.rs:113-121 | case-sensitive `has_class_bytes` agrees with `has_class` |
| Elements.SetAttrEffect | src/node/node_data.rs:201-215 | after `set_attr(n, v)` the name reads `v`, every other name reads as before, an existing attribute is updated in place and a new one is appended |
| Elements.FindAttrAppend | src/node/node_data.rs:201-215 | appending an attribute finds it only when no earlier one has its name |
| Elements.FindAttrOthers | src/node/node_data.rs:201-215 | `set_attr` moves no other name's first attribute, and puts its own name at the old position or at the end |
| Elements.KeepAttrsSplit | src/node/node_data.rs:226-238 | `remove_attrs` and `retain_attrs` are complementary order-preserving filters: their members are those outside (inside) the names and their lengths add up |
| Elements.RemoveAttrEffect | src/node/node_data.rs:218-223 | `remove_attr(n)` removes every attribute named `n` and only those, and changes nothing when there is none |
| Elements.KeepAllAttrs | src/node/node_data.rs:226-232 | removing names no attribute has keeps the whole list |
| Elements.MissingSpec | src/node/node_data.rs:259-272 | the attributes `add_attrs_if_missing` picks are a subsequence of the input, exactly those whose qualified name is not present |
| Elements.AddAttrsIfMissingEffect | src/node/node_data.rs:259-272 | the existing list is kept as a prefix, the appended part holds exactly the missing incoming attributes in input order, and no existing name reads differently |
| Elements.IsLinkRename | src/node/node_data.rs:275-289 | `is_link` needs an `href`; after `rename(n)` the element is a link iff `n` is a, area or link and it has an `href` |
| Elements.AddClassValueWords | src/node/node_data.rs:139-148 | the loop over the hash set leaves the old words plus the words of every token |
| Elements.AddClassValueKnown | src/node/node_data.rs:139-148 | tokens that are all classes already leave the value unchanged |
| Elements.AddClassEffect | src/node/node_data.rs:123-159 | blank input changes nothing; otherwise the class words become the old words plus those of every token, and no other attribute changes |
| Elements.AddClassHasTokens | src/node/node_data.rs:123-159 | every token of the input is a class afterwards |
| Elements.AddClassNoDuplicates | src/node/node_data.rs:123-159 | when every token is already a class an existing class attribute is unchanged ("main main main" on "main") |
| Elements.RemoveClassBlank | src/node/node_data.rs:163-172 | blank input, or no class attribute, changes nothing |
| Elements.RemoveClassTokens | src/node/node_data.rs:163-189 | the class tokens become the old tokens minus the tokens of the input |
| Elements.RemoveClassKeepsOthers | src/node/node_data.rs:163-189 | no attribute other than the class attribute changes |
| Elements.ElementRef.AddClass | src/node/node_data.rs:123-159 | the method leaves the attributes `AddClassAttrs` describes and keeps the name |
| Elements.ElementRef.RemoveClass | src/node/node_data.rs:163-189 | the method leaves the attributes `RemoveClassAttrs` describes and keeps the name |
| Elements.ElementRef.SetAttr | src/node/node_data.rs:201-215 | the value of the first attribute named `n` is overwritten in place, or a new attribute is appended when there is none; the list is `SetAttrs`'s and the name is kept |
| Elements.ElementRef.RemoveAttribute | src/node/node_data.rs:218-223 | the attribute field becomes `RemoveAttr`'s list, the `retain` filter, and the name is kept |
| Elements.ElementRef.RemoveAttributes | src/node/node_data.rs:226-232 | the attribute field becomes `RemoveAttrs`'s list, the `retain` filter, and the name is kept |
| Elements.ElementRef.RetainAttributes | src/node/node_data.rs:235-238 | the attribute field becomes `RetainAttrs`'s list, the `retain` filter, and the name is kept |
| Elements.ElementRef.RemoveAllAttrs | src/node/node_data.rs:241-243 | the attribute list becomes empty and the name is kept |
| Elements.ElementRef.AddAttrsIfMissing | src/node/node_data.rs:259-272 | the loop leaves `WithMissingAttrs`'s list |
| Elements.ElementRef.Rename | src/node/node_data.rs:275-278 | only the name changes, to the local name in the empty namespace |
| Links.RemoveNoOp | src/dom_tree/ops.rs:205-216 | an out-of-range or already detached node is left alone: the arena is unchanged |
| Links.RemoveDetaches | src/dom_tree/ops.rs:218-220 | the node ends with parent, previous and next sibling all None, keeping its id and payload |
| Links.RemoveIdempotent | src/dom_tree/ops.rs:205-239 | removing twice is removing once |
| Links.RemoveEffect | src/dom_tree/ops.rs:205-239 | the old neighbours are spliced to each other, the parent's first/last child moves past the node when it was the node, and every other node is untouched |
| Links.RemoveFields | src/dom_tree/ops.rs:205-239 | the same effect link by link: which nodes may see each of the five links change, and to what |
| Links.AppendPrependOutOfRange | src/dom_tree/ops.rs:86-141 | a parent id outside the arena makes append and prepend no-ops |
| Links.AppendEffect | src/dom_tree/ops.rs:86-112 | the child becomes the parent's last child (and first when it had none), the old last child links forward to it, it links back and up, and nothing else moves |
| Links.AppendKeepsStaleNext | src/dom_tree/ops.rs:86-112 | an appended child that still has a next sibling keeps it, so callers must detach first |
| Links.PrependEffect | src/dom_tree/ops.rs:115-141 | the child becomes the first child (and last when there was none), with no previous sibling and the old first child, which links back, as next sibling |
| Links.InsertOutOfRange | src/dom_tree/ops.rs:144-201 | both insertions detach the new sibling first; an anchor outside the arena stops there |
| Links.InsertBeforeEffect | src/dom_tree/ops.rs:144-171 | after the detach the new sibling sits between the anchor's old previous sibling and the anchor under the same parent, whose first child moves only when it was the anchor |
| Links.InsertAfterEffect | src/dom_tree/ops.rs:174-201 | the mirror image for `insert_after_of`, with the next sibling and last child |
| Links.ReparentEffect | src/dom_tree/ops.rs:242-269 | the node loses its child list, the new parent receives it, every node on the old child chain points up to the new parent, and no other link changes |
| Links.AppendDataEffect | src/dom_tree/ops.rs:61-83 | the arena grows by one node whose id is the old length; it is the parent's new last child after the old last child, and every other node is untouched |
| Invariant.SingleRootWellFormed | src/dom_tree/tree.rs:80-87 | a tree holding only its root node is well formed |
| Invariant.NoSelfLinks | src/dom_tree/validation.rs:57-71 | in a well-formed arena no node names itself in any of its five links |
| Invariant.WellFormedNeighboursDistinct | src/dom_tree/ops.rs:222-238 | the parent and siblings `remove_from_parent` writes to are distinct nodes |
| Invariant.RemovePreservesWellFormed | src/dom_tree/ops.rs:205-239 | detaching a node keeps the arena well formed: the node becomes an orphan that keeps its children, and its old parent and siblings close ranks |
| Validation.CheckChain | src/dom_tree/validation.rs:94-142 | the child-chain loop computes `ChainFrom`, the chain check as a recursive function |
| Validation.FindRepeated | src/dom_tree/validation.rs:192-215 | the visited-set loops compute `RepeatedOn`, the first id a walk revisits |
| Validation.CheckNode | src/dom_tree/validation.rs:53-189 | the per-node checks compute `NodeFault`, the first fault of one node |
| Validation.ValidateNodes | src/dom_tree/validation.rs:41-218 | the whole method computes `Validate`, Ok exactly when no check fails |
| Validation.ReciprocalChainDistinct | src/dom_tree/validation.rs:192-215 | a walk that never meets a visited id visits no node twice, so the loops end |
| Validation.ValidRoot | src/dom_tree/validation.rs:45-51 | `validate` succeeds only if node 0 exists and has no parent |
| Validation.ValidNoSelfLinks | src/dom_tree/validation.rs:57-71 | `validate` fails if a node names its own id in any of its five links |
| Validation.ValidChildAndSiblingLinks | src/dom_tree/validation.rs:74-188 | on a valid arena a first child names the node as parent and has no previous sibling, a last child has no next sibling, and every sibling link is answered |
| Validation.ChainFromOk | src/dom_tree/validation.rs:94-135 | a succeeding chain check walked a finite chain of children of the node and returned its end |
| Validation.ValidChildChain | src/dom_tree/validation.rs:94-142 | on a valid arena the `next_sibling` walk from a first child visits only children of the node and ends exactly at its last child |
| Validation.NoRepeatStops | src/dom_tree/validation.rs:192-215 | a visited-set walk that finds no repetition stops within one step more than the ids left unvisited |
| Validation.ValidNoCycles | src/dom_tree/validation.rs:191-215 | on a valid arena no parent chain and no sibling chain from a first child cycles |
| Validation.NodeFaultWellFormed | src/dom_tree/validation.rs:53-189 | the per-node checks pass on every node of a well-formed arena |
| Validation.WellFormedIsValid | src/dom_tree/validation.rs:41-218 | the corrected invariant implies `validate` succeeds |
| Validation.RemoveCanBreakValidity | src/dom_tree/validation.rs:40 | a concrete arena that `validate` accepts and that `remove_from_parent(2)` turns into one it rejects |
| Subtree.TextUnderFuel | src/dom_tree/ops.rs:21-40 | once the descent from a node is finite, a larger depth bound changes neither its text nor its size |
| Subtree.ForestTextFuel | src/dom_tree/ops.rs:21-40 | the same for the texts of a list of siblings |
| Subtree.WalkShareParent | src/dom_tree/validation.rs:164-188 | on a well-formed arena every node of the next-sibling walk from a node shares its parent |
| Subtree.ChildrenParented | src/dom_tree/validation.rs:94-135 | in a well-formed arena every node of a child chain names its parent |
| Subtree.WellFormedFinite | src/dom_tree/ops.rs:21-40 | on a well-formed arena the descent from any node is finite within `|nodes|` levels |
| Subtree.TextNeedsNoMoreFuel | src/dom_tree/ops.rs:21-40 | on a well-formed arena the bounded text with any bound of at least `|nodes|` is the text of the node |
| Subtree.TextOfContainer | src/dom_tree/ops.rs:21-40 | a container's text is the concatenation of its children's texts in sibling order |
| Ops.SetLink | src/dom_tree/ops.rs:95-111 | one guarded `get_mut` write changes the named link of the node in range and nothing else |
| Ops.SetLinkAt | src/dom_tree/ops.rs:95-111 | the same write through an optional id does nothing for `None` |
| Ops.PushReversed | src/dom_tree/ops.rs:25-38 | pushing the children reversed puts the first child on top, so their text comes out in sibling order |
| Ops.TextOf | src/dom_tree/ops.rs:21-40 | the stack loop of `text_of` returns the concatenated text of the Text nodes under the node, in document order |
| Ops.TextPop | src/dom_tree/ops.rs:25-27 | popping the top id moves its text from the stack to the text already collected |
| Ops.PushChildren | src/dom_tree/ops.rs:28-31 | pushing a container's reversed children turns the stack's text into that container's text and shrinks the stack's size |
| Ops.LastSiblingOf | src/dom_tree/ops.rs:44-58 | the cursor loop of `last_sibling_of` returns the last node of the next-sibling walk, or `None` without a next sibling |
| Ops.WalkEndsAtNone | src/dom_tree/ops.rs:49-55 | a next-sibling walk that ends stops at a node without a next sibling |
| Ops.LastSiblingWellFormed | src/dom_tree/ops.rs:44-58 | on a well-formed arena the result is `None` exactly when the node has no next sibling, and otherwise a different node with no next sibling, the same parent and that parent's last child |
| Ops.AppendChildDataOf | src/dom_tree/ops.rs:61-83 | pushes one node holding the data at the next index and links it as the last child |
| Ops.AppendChildOf | src/dom_tree/ops.rs:86-112 | the writes of `append_child_of`, as the `Links.AppendedChild` function |
| Ops.PrependChildOf | src/dom_tree/ops.rs:115-141 | the writes of `prepend_child_of`, as `Links.PrependedChild` |
| Ops.RemoveFromParent | src/dom_tree/ops.rs:205-239 | the writes of `remove_from_parent`, as `Links.RemovedFromParent` |
| Ops.InsertBeforeOf | src/dom_tree/ops.rs:144-171 | the writes of `insert_before_of`, as `Links.InsertedBefore` |
| Ops.InsertAfterOf | src/dom_tree/ops.rs:174-201 | the writes of `insert_after_of`, as `Links.InsertedAfter` |
| Ops.AdvanceChain | src/dom_tree/ops.rs:263-268 | one cursor step of `reparent_children_of` on a chain that ends moves one node along it |
| Ops.MoveChildList | src/dom_tree/ops.rs:246-261 | the writes before the loop move the first and last child links from the node to the new parent |
| Ops.SetParentsAlongChain | src/dom_tree/ops.rs:262-268 | the loop sets the parent of every node on the old child chain |
| Ops.ReparentChildrenOf | src/dom_tree/ops.rs:242-269 | the whole method computes `Links.Reparented` |
| Handler.TextOf | src/dom_tree/handler.rs:10-27 | the handler's stack loop returns the same text as `TreeNodeOps::text_of` |
| Handler.TextOfWellFormed | src/dom_tree/handler.rs:10-27 | on a well-formed arena that text is the node's text whatever the depth bound |
| Handler.AppendChildOf | src/dom_tree/handler.rs:30-56 | the same writes as `TreeNodeOps::append_child_of` |
| Handler.RemoveFromParent | src/dom_tree/handler.rs:60-94 | the same writes as `TreeNodeOps::remove_from_parent`; the node keeps its index and payload |
| Copying.WellFormedBounded | src/dom_tree/tree.rs:572-579 | on a well-formed arena the numbering loop's descent from any node is finite within `|nodes|` levels |
| Copying.MapOfKeys | src/dom_tree/tree.rs:567-576 | the keys of `id_map` are exactly the ids the loop numbered |
| Copying.MapOfDistinct | src/dom_tree/tree.rs:567-576 | when no id is numbered twice every id keeps the number it was given |
| Copying.MapLink | src/dom_tree/tree.rs:601-615 | a link is renumbered through `id_map` when it names a copied node and becomes `None` otherwise |
| Copying.CopyOf | src/dom_tree/tree.rs:599-617 | the copy of one source node has the new id, the same payload and all five links sent through `id_map` |
| Copying.CopyTreeNodes | src/dom_tree/tree.rs:591-622 | `copy_tree_nodes` yields at most one node per map entry |
| Copying.CopyTreeNodesDistinct | src/dom_tree/tree.rs:591-622 | with a map built from a repetition-free order every entry is copied, sorted by new id |
| Copying.WalkDistinct | src/dom_tree/tree.rs:572-579 | along an acyclic link a walk never revisits a node |
| Copying.SameParentSameDepth | src/dom_tree/tree.rs:572-579 | siblings are at the same depth |
| Copying.KidsTree | src/dom_tree/tree.rs:572-579 | on a well-formed arena the ids numbered below a node repeat nothing and all descend from it |
| Copying.NumberingWellFormed | src/dom_tree/tree.rs:563-579 | on a well-formed arena the numbering of a subtree starts at its root, repeats no id, and leaves out the root's parent and siblings |
| Copying.CopyDistinct | src/dom_tree/tree.rs:591-622 | copying a repetition-free order yields one node per entry with consecutive ids and every kept link inside the copy |
| Copying.CopyWellFormed | src/dom_tree/tree.rs:563-588 | the copy of a subtree of a well-formed arena has one node per subtree node and its root has no parent and no siblings |
| Iters.ChildNodes.constructor | src/node/iters.rs:24-35 | the iterator starts at the node's first child, or at nothing for an id outside the vector |
| Iters.ChildNodes.Next | src/node/iters.rs:40-59 | an id inside the vector is yielded and the cursor moves to its next sibling; otherwise nothing is yielded and the cursor stays |
| Iters.CollectChildNodes | src/node/iters.rs:62-64 | draining `child_nodes` yields exactly the child chain of the node |
| Iters.WalkLinked | src/node/iters.rs:40-59 | a walk that ends visits a linked chain from its start to a node without a link |
| Iters.ChildChainStops | src/dom_tree/validation.rs:94-142 | on a well-formed arena the child chain of every node ends within `|nodes|` steps |
| Iters.ChildrenAreChain | src/node/iters.rs:40-64 | on a well-formed arena the iterator yields the first child first, each next sibling in turn, only children of the node, and ends at the last child |
| Trees.SameIdsKeepsIdsMatch | src/dom_tree/ops.rs:86-269 | the link mutators leave every node's id at its index |
| Trees.AppendDataKeepsIdsMatch | src/dom_tree/ops.rs:61-83 | the node `append_child_data_of` pushes takes the next free id |
| Trees.LastSiblingNone | src/dom_tree/tree.rs:246-255 | the tree's `last_sibling_of` is `None` exactly when the node has no next sibling or is outside the vector |
| Trees.LastLinkOnWalk | src/dom_tree/tree.rs:246-255 | the cursor loop returns the last node of the next-sibling walk |
| Trees.LastSiblingAgrees | src/dom_tree/tree.rs:246-255 | on a well-formed arena the tree's `last_sibling_of` and `TreeNodeOps::last_sibling_of` agree |
| Trees.Shifted | src/dom_tree/tree.rs:17-24 | every node is passed through `fix_node`, which shifts the id and every present link by the offset |
| Trees.MergeEffect | src/dom_tree/tree.rs:512-536 | `merge` keeps the destination, appends the other nodes from index 3 on with ids and links shifted by `len - 3`, and the first merged node gets id `len` |
| Trees.MergeNeedsRelinking | src/dom_tree/tree.rs:512-536 | a concrete merge whose merged node names, as parent, a destination node that does not list it as a child |
| Trees.PushKidsReversed | src/dom_tree/tree.rs:571-578 | pushing the children reversed makes the first child the next one numbered |
| Trees.MapOfSnoc | src/dom_tree/tree.rs:573-576 | `id_map` gains one entry per numbered child |
| Trees.Numberings | src/dom_tree/tree.rs:631-639 | one numbering order per node handed to `copy_nodes_with_fn` |
| Trees.CopyBlock | src/dom_tree/tree.rs:563-588 | one copied subtree of a well-formed source: consecutive ids from the base, and its first node is a detached copy of the root |
| Trees.CopiesAdvance | src/dom_tree/tree.rs:635-638 | one more `copy_node` call extends the nodes appended and the ids handed to the callback |
| Trees.CopiesEnd | src/dom_tree/tree.rs:631-639 | when the loop ends the appended nodes and ids are those of `Copies`, one well-formed block per node |
| Trees.BlocksStep | src/dom_tree/tree.rs:635-638 | one `copy_node` call on a well-formed source appends one more block |
| Trees.CopyPop | src/dom_tree/tree.rs:571-578 | one round of the `ops` loop numbers the popped node's children and pushes them reversed |
| Trees.PopKids | src/dom_tree/tree.rs:571-578 | that round keeps the ids still to be numbered from the stack |
| Trees.KidsSplit | src/dom_tree/tree.rs:571-578 | the ids numbered below a node are its children, then theirs |
| Trees.NumberChildren | src/dom_tree/tree.rs:572-575 | the inner loop gives each child the next id, in sibling order |
| Trees.Tree.constructor | src/dom_tree/tree.rs:86-91 | `Tree::new` holds the root alone with id 0, a well-formed tree |
| Trees.Tree.RootId | src/dom_tree/tree.rs:80-82 | on a well-formed tree id 0 is a node without a parent |
| Trees.Tree.GetNewId | src/dom_tree/tree.rs:539-541 | the length of the vector, an id no node has |
| Trees.Tree.Get | src/dom_tree/tree.rs:102-109 | a reference exactly when the vector holds a node at the id |
| Trees.Tree.CreateNode | src/dom_tree/tree.rs:93-99 | pushes one unlinked node holding the data, with the next free id |
| Trees.Tree.NewElement | src/dom_tree/tree.rs:48-56 | a new unlinked element with no namespace and no attributes |
| Trees.Tree.NewText | src/dom_tree/tree.rs:58-62 | a new unlinked text node |
| Trees.Tree.LastSiblingOf | src/dom_tree/tree.rs:246-255 | the cursor loop through `next_sibling_of` computes `LastSibling` |
| Trees.Tree.AppendChildDataOf | src/dom_tree/tree.rs:304-328 | the writes of `append_child_data_of`; ids still equal indices |
| Trees.Tree.AppendChildOf | src/dom_tree/tree.rs:331-359 | the writes of `append_child_of`; ids still equal indices |
| Trees.Tree.PrependChildOf | src/dom_tree/tree.rs:362-390 | the writes of `prepend_child_of`; ids still equal indices |
| Trees.Tree.RemoveFromParent | src/dom_tree/tree.rs:394-397 | the writes of `remove_from_parent`; a well-formed tree stays well formed |
| Trees.Tree.InsertBeforeOf | src/dom_tree/tree.rs:406-434 | the new sibling is detached and placed before the node |
| Trees.Tree.InsertAfterOf | src/dom_tree/tree.rs:437-465 | the new sibling is detached and placed after the node |
| Trees.Tree.ReparentChildrenOf | src/dom_tree/tree.rs:468-494 | the child list moves to the new parent and every child names it |
| Trees.Tree.TextOf | src/dom_tree/tree.rs:504-507 | the text of the Text nodes under the node, in document order |
| Trees.Tree.Merge | src/dom_tree/tree.rs:512-536 | computes `Merged`, whose effect `MergeEffect` states |
| Trees.Tree.MergeWithFn | src/dom_tree/tree.rs:545-553 | the id handed to the callback is the old length, the id of the first merged node |
| Trees.Tree.CopyNode | src/dom_tree/tree.rs:563-588 | appends the copy of the subtree and returns the id of its root, the old length |
| Trees.Tree.CopyNodesWithFn | src/dom_tree/tree.rs:631-639 | calls `copy_node` on each node in turn; the callback receives each copy's root id |
| Trees.CopyNodeDetachedRoot | src/dom_tree/tree.rs:563-588 | the returned id indexes a detached copy of the root with its payload, and ids still equal indices |
| TreeTraversal.NodeName | src/dom_tree/traversal.rs:122 | an element has a node name and nothing else has one |
| TreeTraversal.FirstElementWhere | src/dom_tree/traversal.rs:25-28 | the stored id of the first element of the list that satisfies the predicate, `None` exactly when none does |
| TreeTraversal.FindChildElement | src/dom_tree/traversal.rs:20-29 | the first element child, in sibling order, that satisfies the predicate, `None` exactly when none does |
| TreeTraversal.FindChildElementByName | src/dom_tree/traversal.rs:42-52 | the first element child with the given name, `None` exactly when no child has it |
| TreeTraversal.FindDescendantElementCompose | src/dom_tree/traversal.rs:65-73 | following a path `p + q` is following `p`, then `q` from where `p` ended; a failing prefix fails the whole |
| TreeTraversal.FindDescendantElementNamed | src/dom_tree/traversal.rs:65-73 | on a well-formed arena a found element carries the last name of the path and the start node is among its ancestors |
| TreeTraversal.FoundChild | src/dom_tree/traversal.rs:42-52 | on a well-formed arena the child found by name names the node as parent and has that name |
| TreeTraversal.AncestorsTransitive | src/dom_tree/traversal.rs:65-73 | being on a node's parent chain is transitive |
| TreeTraversal.CollectMatchingDescendants | src/dom_tree/traversal.rs:109-138 | the child loop appends `Matching`: each matching element child, then the matches below every child it descends into |
| TreeTraversal.VisitChild | src/dom_tree/traversal.rs:120-136 | one round of the child loop: skip a non-element, push a matching element, descend unless it matched on a step that is not the last |
| TreeTraversal.MatchingInSingle | src/dom_tree/traversal.rs:125-136 | one child's share of the search: itself when it matches, then its subtree when the search descends |
| TreeTraversal.SearchVisit | src/dom_tree/traversal.rs:117-137 | the cursor stays on the child chain and a descent has depth left |
| TreeTraversal.WellFormedSearchStops | src/dom_tree/traversal.rs:109-138 | on a well-formed arena the recursive search from any node ends within `|nodes|` levels |
| TreeTraversal.FindDescendantElements | src/dom_tree/traversal.rs:90-106 | for each name of the path the new stack gathers, in order, the matches below every entry of the old one; an empty path returns the start node |
| TreeTraversal.MatchingAllMember | src/dom_tree/traversal.rs:100-102 | every match gathered for a stack comes from one of its entries |
| TreeTraversal.FindDescendantElementsFound | src/dom_tree/traversal.rs:90-106 | on a well-formed arena every result for a non-empty path is an element with the last name that descends from the start node |
| TreeTraversal.MatchingStopsAtMatch | src/dom_tree/traversal.rs:131-136 | on a step that is not the last, no result lies below another element with the same name |
| NodeRefs.FoundChildHasName | src/node/node_ref.rs:844-847 | the child `find_child_element_by_name` returns passes `has_name` for that name |
| NodeRefs.NonemptyTextIff | src/node/node_ref.rs:853-862 | `is_nonempty_text` holds exactly for a text node with a non-whitespace character |
| NodeRefs.HasText | src/node/node_ref.rs:623-635 | true exactly when the node or one of its descendants is a text node whose contents contain the needle |
| NodeRefs.HasTextMissesSplitText | src/node/node_ref.rs:623-635 | an element with text children "ab" and "cd" has text "abcd", which contains "bc", yet `has_text("bc")` is false |
| NodeRefs.TextOfTextNode | src/dom_tree/ops.rs:21-40 | the text of a text node is its contents |
| NodeRefs.HasOnlyTextIff | src/node/node_ref.rs:638-654 | on a well-formed arena `has_only_text` holds exactly when the node has a single child and it is a text node with a non-whitespace character |
| NodeRefs.OnlyTextNotEmpty | src/node/node_ref.rs:638-676 | a node with only text is never an empty element |
| NodeRefs.PrependChild | src/node/node_ref.rs:217-222 | `remove_from_parent` of the new child followed by `prepend_child_of` |
| NodeRefs.PrependChildEffect | src/node/node_ref.rs:217-222 | on a well-formed arena the new child becomes the first child with no previous sibling, and the old first child points back at it |
| NodeRefs.ReplaceWith | src/node/node_ref.rs:249-253 | `insert_before_of` followed by `remove_from_parent` of the node |
| NodeRefs.ReplaceMiddle | src/node/node_ref.rs:251 | after the first step the new node sits just before the node |
| NodeRefs.ReplaceWithMoves | src/node/node_ref.rs:249-253 | a detached new node takes the node's parent and siblings, and the node is left detached |
| NodeRefs.ReplaceWithSiblings | src/node/node_ref.rs:249-253 | the old siblings of the node point at the new node |
| NodeRefs.ReplaceWithParent | src/node/node_ref.rs:249-253 | the parent's first and last child move from the node to the new node |
| NodeRefs.ReplaceWithElsewhere | src/node/node_ref.rs:249-253 | no other node changes |
| NodeRefs.UnwrapNode | src/node/node_ref.rs:378-393 | with an element parent that has a parent, the siblings move before the parent and the parent is removed; otherwise nothing changes |
| NodeRefs.UnwrapDetachesParent | src/node/node_ref.rs:378-393 | if `insert_siblings_before` keeps the arena well formed, the old parent ends detached and the arena stays well formed |
| Forest.KidsTextConcat | src/node/node_ref.rs:600-603 | the text of a child list distributes over concatenation |
| Forest.Normalize | src/node/node_ref.rs:680-703 | the sibling loop, recursing into children that may have children, computes `Normalized` |
| Forest.NormalizeKidsTidy | src/node/node_ref.rs:684-701 | the loop leaves a list with no empty text node and no two adjacent text nodes, with normalized containers |
| Forest.NormalizedNormal | src/node/node_ref.rs:677-703 | after `normalize` no child list in the subtree holds an empty text node or two adjacent text nodes |
| Forest.NormalizeKidsText | src/node/node_ref.rs:684-701 | the loop keeps the text: the gathered text followed by the list's text |
| Forest.NormalizedText | src/node/node_ref.rs:680-703 | `normalize` keeps the subtree's text |
| Forest.NormalizeKidsFixed | src/node/node_ref.rs:684-701 | on a list already in normal form the loop changes nothing |
| Forest.NormalFormFixed | src/node/node_ref.rs:680-703 | a subtree in normal form is left as it is |
| Forest.NormalizeIdempotent | src/node/node_ref.rs:680-703 | normalizing twice is normalizing once |
| Forest.StripElements | src/node/node_ref.rs:709-735 | the sibling loop computes `Stripped`; an empty name list changes nothing |
| Forest.StrippedClean | src/node/node_ref.rs:709-735 | no element with a listed name is left below the node |
| Forest.StrippedText | src/node/node_ref.rs:709-735 | stripping keeps the text, since a removed element's children take its place |
| Forest.CleanFixed | src/node/node_ref.rs:709-735 | on a list with no listed element the loop changes nothing |
| Forest.StripIdempotent | src/node/node_ref.rs:709-735 | stripping twice is stripping once |
| Sink.AppendToExistingTextEffect | src/document.rs:275-283 | only a text node merges, its contents growing by the text; any other node is left unchanged |
| Sink.AppendTextMerges | src/document.rs:160-182 | appending text after a text last child merges into it, and nothing else changes |
| Sink.AppendTextCreates | src/document.rs:160-182 | otherwise one text node is created as the new last child, after the old last child |
| Sink.AppendBeforeSiblingMerges | src/document.rs:188-213 | inserting text before a sibling whose previous sibling is a text node merges into that node |
| Sink.AppendBeforeSiblingCreates | src/document.rs:188-213 | otherwise a new text node is placed just before the sibling, under its parent |
| Sink.AppendBasedOnParentChoice | src/document.rs:218-231 | inserts before the element when it has a parent, else appends to the previous element |
| Sink.CreateElementShape | src/document.rs:119-140 | a new unlinked element with the name and attributes, with template contents exactly when the template flag is set |
| Sink.AttrsAddedEffect | src/document.rs:254-260 | the attributes reach only the target element, and only those it lacks |
| Sink.Document.constructor | src/document.rs:26-32 | a tree holding only the Document root, with no errors and no quirks |
| Sink.Document.ParseError | src/document.rs:65-68 | exactly one more message is recorded |
| Sink.Document.GetDocument | src/document.rs:72-74 | the root, which on a well-formed tree has no parent |
| Sink.Document.GetTemplateContents | src/document.rs:79-85 | the template contents of an element that has them, and `None` where the source panics |
| Sink.Document.SetQuirksMode | src/document.rs:89-91 | sets the quirks mode and nothing else |
| Sink.Document.SameNode | src/document.rs:95-97 | two handles are the same node exactly when their ids are equal |
| Sink.Document.ElemName | src/document.rs:102-112 | the qualified name of an element, and `None` where the source panics |
| Sink.Document.CreateElement | src/document.rs:119-140 | computes `CreatedElement`, whose shape `CreateElementShape` states |
| Sink.Document.CreateComment | src/document.rs:144-146 | pushes one unlinked comment node with the next free id |
| Sink.Document.CreatePi | src/document.rs:150-155 | pushes one unlinked processing instruction with the next free id |
| Sink.Document.MergeText | src/document.rs:275-283 | merges text into the target when it is a text node, reporting whether it merged |
| Sink.Document.Append | src/document.rs:160-182 | computes `Appended`: merge into a text last child, or append a node |
| Sink.Document.AppendBeforeSibling | src/document.rs:188-213 | computes `AppendedBeforeSibling`: merge into a text previous sibling, or insert before the sibling |
| Sink.Document.AppendBasedOnParentNode | src/document.rs:218-231 | computes `AppendedBasedOnParent` |
| Sink.Document.AppendDoctypeToDocument | src/document.rs:235-250 | a Doctype node appended under the root |
| Sink.Document.AddAttrsIfMissing | src/document.rs:254-260 | computes `AttrsAdded` |
| Sink.Document.RemoveFromParent | src/document.rs:264-266 | the writes of `remove_from_parent`; a well-formed tree stays well formed |
| Sink.Document.ReparentChildren | src/document.rs:270-272 | the children move to the new parent |
| MiniSelectors.SelectorWhitespaceIsAscii | src/mini_selector/selector.rs:5 | the selector whitespace set is exactly ASCII whitespace |
| MiniSelectors.EmptyValueNeverMatches | src/mini_selector/selector.rs:32-35 | no operator matches an empty attribute value |
| MiniSelectors.DashMatchIff | src/mini_selector/selector.rs:42-44 | `|=` holds exactly when the value is the operand or starts with the operand and a hyphen |
| MiniSelectors.IncludesIsClassWord | src/mini_selector/selector.rs:39-41 | `~=` with a non-empty operand holds exactly when the operand is one of the value's whitespace-separated words, so `[class~=c]` agrees with `has_class(c)` |
| MiniSelectors.AnyAttrMatches | src/mini_selector/selector.rs:140-146 | true exactly when some attribute with the key has a value the operator matches |
| MiniSelectors.MatchAttrs | src/mini_selector/selector.rs:136-155 | the loop that stops at the first failing test holds exactly when every attribute test holds |
| MiniSelectors.NonElementsNeverMatch | src/mini_selector/selector.rs:89-98 | a node that is not an element matches no selector |
| MiniSelectors.IdNeedsAttribute | src/mini_selector/selector.rs:119-128 | an element without an `id` attribute fails every selector with an id |
| MiniParser.Opt | src/mini_selector/parser.rs:102-132 | `opt` turns a recoverable error into `None` and gives the input back; an unrecoverable failure passes through |
| MiniParser.TakeRun | src/mini_selector/parser.rs:13-19 | `take_while1` takes the longest non-empty run of allowed characters, and fails recoverably on an empty input or a stop character |
| MiniParser.SkipSpace | src/mini_selector/parser.rs:47-61 | `multispace0` drops exactly the leading whitespace |
| MiniParser.Prefixed | src/mini_selector/parser.rs:21-41 | a mark followed by a name parses to the name, and fails recoverably otherwise |
| MiniParser.ParseClasses | src/mini_selector/parser.rs:32-41 | one or more classes, consuming input |
| MiniParser.OperatorAt | src/mini_selector/parser.rs:49-56 | the operator found is one whose text starts the input |
| MiniParser.ParseAttrOperator | src/mini_selector/parser.rs:47-61 | an operator with optional whitespace around it; a recoverable error exactly when none starts after the whitespace |
| MiniParser.QuotedValue | src/mini_selector/parser.rs:63-72 | a quoted value is a non-empty run without the quote, closed by the quote; an empty value or a missing closing quote is an unrecoverable failure |
| MiniParser.ParseAttrValue | src/mini_selector/parser.rs:63-72 | a parsed value consumes input |
| MiniParser.ParseAttr | src/mini_selector/parser.rs:74-83 | a parsed attribute consumes input |
| MiniParser.AttrsMany | src/mini_selector/parser.rs:85-87 | `many0` stops at the first recoverable error and passes an unrecoverable one through |
| MiniParser.ParseAttrs | src/mini_selector/parser.rs:85-87 | one or more attributes; a recoverable error exactly when the first attribute fails recoverably |
| MiniParser.ParseCombinator | src/mini_selector/parser.rs:89-100 | `>`, `+` or `~` with optional whitespace around it, never the descendant combinator; an error exactly when none starts after the whitespace |
| MiniParser.ParseMiniSelector | src/mini_selector/parser.rs:102-132 | a parsed selector consumes input |
| MiniParser.ParseSelectorList | src/mini_selector/parser.rs:134-138 | the list never fails recoverably, and an empty list gives the input back |
| MiniParser.MiniSelectorErrorIff | src/mini_selector/parser.rs:102-132 | the selector is missing exactly when none of its five parts parses at the start of the input |
| MiniRender.CompoundOf | src/mini_selector/parser.rs:102-132 | a written compound selector parses back to its parts, and the text after it decides the combinator |
| MiniRender.ParseRenderedList | src/mini_selector/parser.rs:134-138 | a well-formed selector list, written out, parses back to itself with nothing left over |
| MiniRender.OperatorAtOther | src/mini_selector/parser.rs:49-56 | no operator starts with a character other than the six operator characters |
| MiniRender.NoCombinatorAfterSpace | src/mini_selector/parser.rs:89-100 | a plain space is no combinator, so the descendant combinator applies |
| MiniExamples.SimplePathParses | src/mini_selector/parser.rs:145-178 | `div > a[href="example"] + span.class-1.class-2` parses to three selectors joined by `>` and `+` |
| MiniExamples.NamesParse | src/mini_selector/parser.rs:181-185 | `body td a` parses to three names joined by the descendant combinator |
| MiniRender.CompoundAlone | src/mini_selector/parser.rs:102-132 | a written compound selector alone parses whole, with the descendant combinator |
| MiniExamples.FullCompoundParses | src/mini_selector/parser.rs:303-320 | `a#main-link.main-class.extra-class[href="https://example.com"]` parses to all four parts at once |
| MiniExamples.OperatorsParse | src/mini_selector/parser.rs:187-275 | `span[title]`, and `span[title<op>"Title"]` for each of the six operators |
| MiniExamples.BareValueOf | src/mini_selector/parser.rs:63-72 | whitespace around an operator is skipped, and a bare value runs to the closing bracket |
| MiniExamples.SpacedQuotedOf | src/mini_selector/parser.rs:63-72 | whitespace around an operator is skipped before a quoted value |
| MiniExamples.OneValuedAttr | src/mini_selector/parser.rs:74-87 | one valued attribute is the whole attribute part |
| MiniExamples.NameThenAttr | src/mini_selector/parser.rs:102-132 | a name followed by one valued attribute parses to both |
| MiniExamples.SpacedQuotedParses | src/mini_selector/parser.rs:206-235 | `span[title ="Title"]`: the space before the operator is skipped |
| MiniExamples.SpacedBareParses | src/mini_selector/parser.rs:206-235 | `span[title =Title]`: a bare value runs to the closing bracket |
| MiniExamples.SpacedWordsParse | src/mini_selector/parser.rs:276-284 | `span[title = The Title]`: spaces on both sides of the operator and a bare value with a space inside |
| MiniExamples.DoubleStarNoOperator | src/mini_selector/parser.rs:47-61 | `**` is no operator |
| MiniExamples.BadValueSteps | src/mini_selector/parser.rs:85-87 | an attribute whose key is followed by neither an operator nor `]` is a recoverable error |
| MiniExamples.BadOperatorLeavesAttrs | src/mini_selector/parser.rs:286-300 | `span[title**"Title"]` parses to `span` alone, leaving the attribute text unparsed |
| MiniExtension.KeptAppend | src/mini_selector/extension.rs:5-24 | the filter distributes over concatenation, so the kept ids stay in document order |
| MiniExtension.KeptMembers | src/mini_selector/extension.rs:5-24 | an id is kept exactly when it is a descendant and the list matches it |
| MiniExtension.KeptExtremes | src/mini_selector/extension.rs:5-24 | nothing is dropped when every id matches, nothing is kept when none does, and no more ids come out than went in |
| MiniExtension.FindDescendantIds | src/mini_selector/extension.rs:5-24 | an error exactly when the selector list does not parse, otherwise the descendants the list matches, in document order |
| MiniExtension.FindDescendants | src/mini_selector/extension.rs:43-46 | the matches, or no nodes when the selector list is invalid; every node found is a descendant |
| MiniExtension.MiniIsRejects | src/mini_selector/extension.rs:89-91 | a text that is no selector matches nothing, and a non-element matches no text |
| MiniExtension.MiniIsFirstCompoundOnly | src/mini_selector/extension.rs:89-91 | `mini_is` tests the node against the first compound selector and ignores what follows it |
| MiniExtension.CombinatorNotMatched | src/mini_selector/extension.rs:105-107 | the combinator plays no part in matching one node |
| TextNormal.PushEscapedChunk | src/serializing/md/text_utils.rs:34-48 | the loop appends the chunk escaped: a backslash before each character the escaping covers, unless the character before it in the chunk is a backslash |
| TextNormal.EscapedKeepsChars | src/serializing/md/text_utils.rs:41-47 | every character other than a backslash occurs in the escaped chunk as often as in the chunk, and at most one backslash is added per character |
| TextNormal.EscapedCharsArePreceded | src/serializing/md/text_utils.rs:42-45 | unless backslash itself is escaped, every escapable character of the output sits right after a backslash |
| TextNormal.EscapedIdentity | src/serializing/md/text_utils.rs:35-46 | a chunk with no character to escape is copied unchanged |
| TextNormal.VerbatimIsIdentity | src/node/text_formatting.rs:70-97 | the plain-text formatter copies words verbatim |
| TextNormal.EscapeIdempotent | src/serializing/md/text_utils.rs:34-48 | escaping an escaped chunk again changes nothing |
| TextNormal.EscapedWord | src/serializing/md/text_utils.rs:41-47 | escaping a non-empty word without whitespace gives a non-empty word without whitespace |
| TextNormal.EscapedWordsTwice | src/serializing/md/serializer.rs:286-290 | `write_link` escapes the link text a second time; word by word that changes nothing |
| TextNormal.PushNormalizedText | src/node/text_formatting.rs:70-97 | the push leaves the text followed by the new text's words one space apart, with the leading and trailing spaces `push_normalized_text` decides (the same for the copy at src/serializing/md/text_utils.rs:5-32) |
| TextNormal.NormalizedExtends | src/node/text_formatting.rs:70-97 | a push never rewrites the text already there |
| TextNormal.NormalizedWords | src/node/text_formatting.rs:76-87 | the part a push appends splits into exactly the new text's words, escaped: only whitespace changes |
| TextNormal.NormalizedBlank | src/node/text_formatting.rs:88-96 | a blank new text adds nothing after a space, a line break or into an empty text; after another character that is not whitespace it adds exactly one space |
| TextNormal.NormalizedLeadingSpace | src/node/text_formatting.rs:71-81 | a new text with words is appended after a space exactly when it starts with whitespace and the text is neither empty nor ends in a space or line break |
| TextNormal.NormalizedTidy | src/node/text_formatting.rs:70-97 | a push keeps a text that has no two spaces side by side and does not start with whitespace that way |
| TextNormal.TrimRightSpaces | src/node/text_formatting.rs:99-103 | the trimmed text is a prefix of the text, does not end in a space, and only spaces were removed |
| TextNormal.TrimRightTendrilSpace | src/serializing/md/text_utils.rs:50-54 | the pop loop leaves the text without its trailing spaces |
| TextNormal.TrimRightSpacesTidy | src/node/text_formatting.rs:99-103 | trimming keeps a tidy text tidy and a second trim changes nothing |
| DomHelpers.NormalizedCharCount | src/dom_tree/helpers.rs:1-18 | the one-pass count equals the length of the text's words joined by single spaces, so it is 0 for blank text and counts no leading or trailing whitespace |
| FormatSteps.NormalizeText | src/node/serializing.rs:173-196 | the loop builds the normalised piece of the text |
| FormatSteps.NormalizedPieceShape | src/node/serializing.rs:173-196 | `normalize_text` is empty exactly for a blank text; otherwise it is the words joined by single spaces, with a leading space exactly when the text starts with whitespace and does not follow a line break, and a trailing one exactly when the text ends with whitespace |
| FormatSteps.NormalizedPieceWords | src/node/serializing.rs:178-189 | the piece holds exactly the words of the text |
| FormatSteps.AdjustedOffset | src/node/text_formatting.rs:105-108 | closing an element leaves an empty text empty and a non-empty one non-empty |
| FormatSteps.AdjustElementOffset | src/node/text_formatting.rs:105-124 | the method leaves what the close step says: nothing on an empty text or one ending in a blank line, a paragraph break after a block, a line break after `br`/`hr`/`li`/`tr`, a space after `td`/`th` |
| FormatSteps.AdjustedOffsetTidy | src/node/text_formatting.rs:105-124 | closing an element keeps the text tidy |
| FormatSteps.AdjustedOffsetEnds | src/node/text_formatting.rs:110-118 | after a non-empty text a closed block leaves it ending in "\n\n", and `br`/`hr`/`li`/`tr` in "\n" |
| FormatSteps.FormattedStepsTidy | src/node/text_formatting.rs:32-59 | each step of the newer formatter (text, open, close) keeps the text tidy |
| FormatSteps.PlainDoubleSpace | src/node/serializing.rs:112-116 | the older text step, after "a ", appends " b": two spaces between words |
| FormatSteps.PlainLeadingBreak | src/node/serializing.rs:132-155 | the older close step pushes a paragraph break into an empty text |
| FormatSteps.FormattedNoLeadingBreak | src/node/text_formatting.rs:37-41 | the newer close step leaves an empty text empty, and its text step never starts a text with whitespace |
| FormatText.OpensOf | src/node/text_formatting.rs:17-19 | one open operation per child id, in order |
| FormatText.FormatNodeText | src/node/text_formatting.rs:11-68 | the `ops` stack loop returns the recursive fold over the child chains: text nodes normalised, `pre` as its raw text, other elements through their children, then the close step; without `include_node` trailing whitespace is trimmed (the same for src/node/serializing.rs:90-171) |
| FormatText.TrimTrailingWhitespace | src/node/text_formatting.rs:62-66 | the pop loop removes exactly the trailing whitespace |
| FormatText.WellFormedFormats | src/node/text_formatting.rs:24-61 | on a well-formed arena the stack loop ends |
| FormatText.FormatUnderTidy | src/node/text_formatting.rs:24-61 | formatting a subtree without `pre` keeps the text tidy |
| FormatText.FormattedTextTidy | src/node/text_formatting.rs:11-68 | without `pre` the newer `format_text` never has two spaces side by side, never starts with whitespace and, without `include_node`, does not end with any |
| FormatText.FormattedNoLeadingWhitespace | src/node/text_formatting.rs:11-68 | without `pre` the newer `format_text` never starts with whitespace |
| FormatText.PlainDoubleSpaced | src/node/serializing.rs:112-116 | the older `format_text` of an element whose children are "a " and " b" is "a  b" |
| FormatText.FormattedSingleSpaced | src/node/text_formatting.rs:33-35 | the newer `format_text` of the same children has single spaces |
| FormatText.PlainLeadingBreak | src/node/serializing.rs:132-155 | the older `format_text` of an empty `p` followed by "b" is "\n\nb", starting with whitespace |
| MdText.Repeated | src/serializing/md/serializer.rs:250 | `n` copies of a text are `n` times as long |
| MdText.JoinTendrilStrings | src/serializing/md/text_utils.rs:56-69 | the loop leaves the items separated by the separator |
| MdText.JoinedLength | src/serializing/md/text_utils.rs:56-69 | joining no items gives the empty text; otherwise the length is the items' total plus one separator between neighbours |
| MdText.AddLinebreaks | src/serializing/md/text_utils.rs:71-76 | the text without trailing spaces, then the line breaks it lacks to end in a blank line |
| MdText.PadBlankLine | src/serializing/md/text_utils.rs:73-75 | the loop appends the fewest copies of the line break after which the text ends in two of them |
| MdText.BreaksLeast | src/serializing/md/text_utils.rs:73-75 | after that many copies the text ends in two line breaks, and after fewer it does not |
| MdText.LinebreaksShape | src/serializing/md/text_utils.rs:71-76 | the result ends in two line breaks, starts with the text without trailing spaces, and is at most two breaks longer than it |
| MdText.LinebreaksIdempotent | src/serializing/md/text_utils.rs:71-76 | a second `add_linebreaks` changes nothing when the line break does not end in a space |
| MdText.Filtered | src/serializing/md/text_utils.rs:82-84 | filtering never lengthens a text |
| MdText.FilteredSpec | src/serializing/md/text_utils.rs:82-84 | filtering keeps exactly the wanted characters, in order, and keeps a text made only of them unchanged |
| MdText.SanitizeSpec | src/serializing/md/text_utils.rs:79-85 | the sanitised value has only ASCII letters, digits and `-_+.#`, taken in order from the first ASCII-whitespace token; such a token comes through unchanged, and sanitising twice is sanitising once |
| MdText.SanitizeExample | src/serializing/md/text_utils.rs:79-85 | "c++ <x>" sanitises to "c++" |
| MdWriter.BlockLists | src/serializing/md/serializer.rs:471-491 | the newer block table is the older one of md.rs plus `hr`; the plain-text table is the older one plus `pre`; lists are blocks |
| MdWriter.SuffixMatchesPrefix | src/serializing/md/serializer.rs:505-532 | only `strong`, `b`, `em` and `i` have a suffix, and it equals their prefix; md.rs adds a backtick pair for `code` |
| MdWriter.Linebreak | src/serializing/md/serializer.rs:554-560 | the line break is non-empty and does not end in a space |
| MdWriter.ListIndent | src/serializing/md/serializer.rs:250 | a list at nesting `offset` is indented by `offset * 4` spaces |
| MdWriter.NestedIndent | src/serializing/md/serializer.rs:250-252 | a nested list, written at `offset + 1`, is indented four spaces more |
| MdWriter.SkipTagsReplace | src/serializing/md/serializer.rs:70-71 | by default script, style, meta and head are skipped; a caller's list replaces the default |
| MdWriter.IsTableNodeWritable | src/serializing/md/serializer.rs:534-552 | the loop says yes exactly when the table has no nested table and, after any rows without cells, every row has the same positive number of `td` cells |
| MdWriter.RowsDiffer | src/serializing/md/serializer.rs:545-547 | a row whose cell count differs from the first non-empty row's makes the table unwritable |
| MdWriter.NoCells | src/serializing/md/serializer.rs:551 | a table without any cell is unwritable |
| MdWriter.UniformCellsCases | src/serializing/md/serializer.rs:534-552 | all rows empty or two non-empty rows of different width: unwritable; rows of one positive width after empty ones: writable |
| MdWriter.Padded | src/serializing/md/serializer.rs:439-441 | the headings keep their order and are padded with " " up to the first row's width |
| MdWriter.PadHeadings | src/serializing/md/serializer.rs:439-441 | the padding loop leaves the padded headings |
| MdWriter.Dashes | src/serializing/md/serializer.rs:450-457 | one run of `-` per heading, as long as the heading |
| MdWriter.NonEmptyRows | src/serializing/md/serializer.rs:411-437 | the rows kept all have cells |
| MdWriter.WriteTable | src/serializing/md/serializer.rs:439-467 | the text, then the heading line, the separator line, one line per row and a line break |
| MdWriter.CollectRows | src/serializing/md/serializer.rs:411-437 | the rows that have cells, in order |
| MdWriter.WriteRows | src/serializing/md/serializer.rs:459-463 | one table line per row, in order |
| MdWriter.TableAligned | src/serializing/md/serializer.rs:439-457 | the separator line is as long as the heading line, holds only `-` runs, and there is a heading for every cell of the first row |
| MdWriter.WriteBlockquote | src/serializing/md/serializer.rs:389-409 | nothing for an empty quote; otherwise line breaks until a blank line, `> ` before each line of the quote, and a closing line break |
| MdWriter.WriteQuoteLines | src/serializing/md/serializer.rs:402-406 | `> `, the line and a line break, for each line in order |
| MdWriter.LinesHaveNoLineFeed | src/serializing/md/serializer.rs:402 | no line of `lines()` holds a line feed |
| MdWriter.QuotedLines | src/serializing/md/serializer.rs:402-406 | read back as lines, the quote has one line per quoted line, `> ` and the line |
| CssPath.AsMini | src/css_path.rs:39-46 | the mini selector with the same name, id, classes and combinator, and a single attribute test on the same key |
| CssPath.IdAbsentPasses | src/css_path.rs:74-81 | an element with no id attribute meets any id constraint of the path selector, while the mini selector rejects it |
| CssPath.OperatorIgnored | src/css_path.rs:89-102 | replacing the attribute operator changes nothing about whether an element matches |
| CssPath.PathMatchIsMini | src/css_path.rs:49-102 | a match here, on an element with an id and a non-empty wanted value, is a match of the mini selector with `=` |
| CssPath.MiniMatchIsPath | src/css_path.rs:49-102 | a match of the mini selector with `=` is a match here, when no two attributes share a local name |
| CssPath.ParseAttrOperator | src/css_path.rs:137-146 | never fails unrecoverably; an error exactly when no operator tag starts the input; on success the input is the operator's text followed by the rest |
| CssPath.QuotedPart | src/css_path.rs:151-154 | an error exactly when the input does not start with `"`; a value consumes input |
| CssPath.ParseAttr | src/css_path.rs:148-163 | an attribute test consumes input |
| CssPath.AttrTail | src/css_path.rs:150-162 | what follows the key consumes input and keeps the key |
| CssPath.ParseParts | src/css_path.rs:180-183 | the four optional parts never give a recoverable error; they consume input whenever one of them is present |
| CssPath.NoPartsAtStart | src/css_path.rs:180-185 | when all four parts are absent the input is given back, and none of the name, id, classes or attribute parsers succeeds at its start |
| CssPath.ParseSingleSelector | src/css_path.rs:178-203 | a selector consumes input |
| CssPath.SingleSelectorErrorIff | src/css_path.rs:185-191 | a selector is a recoverable error exactly when neither a combinator, a name, an id, classes nor an attribute parses at the start |
| CssPath.ChainItem | src/css_path.rs:206 | an item with its surrounding whitespace consumes input |
| CssPath.ParseSelectorChain | src/css_path.rs:205-209 | `many0` never gives a recoverable error; an empty chain gives the input back |
| CssPathRender.PathAttrOf | src/css_path.rs:148-163 | a written attribute test parses back to itself, whatever follows it |
| CssPathRender.ItemParses | src/css_path.rs:178-203 | a written selector parses back to itself when a space or nothing follows |
| CssPathRender.ChainItemOf | src/css_path.rs:206 | a written selector followed by a space and the next item is read as one chain item |
| CssPathRender.ParseRenderedChain | src/css_path.rs:205-209 | every well-formed chain, written with single spaces, parses back to itself with nothing left over |
| CssPathExamples.SimplePathParses | src/css_path.rs:215-226 | `div > a[href="example"] + span.class-1.class-2` is `div`, then `a` with `>` and the `href` test, then `span` with `+` and two classes |
| CssPathExamples.NamesParse | src/css_path.rs:228-233 | `body td a` is three descendant selectors |
| CssPathExamples.OperatorsParse | src/css_path.rs:234-245 | `span[title]` and `span[title<op>"Title"]`, for each of the six operators, parse to `span` with that attribute test |
| CssPathExamples.SpacedOperatorNoAttr | src/css_path.rs:246 | with a space before `=` the attribute test is not read, and the selector is `span` alone |
| CssPathExamples.BadOperatorNoAttr | src/css_path.rs:247 | with `**` as the operator the attribute test is not read, and the selector is `span` alone |
| MdWriter.BlockquoteLines | src/serializing/md/serializer.rs:402-406 | every line of a written quote starts with `> `, one per line of the quoted text |
| MdWriter.BlockquoteFrame | src/serializing/md/serializer.rs:394-408 | an empty quote writes nothing; otherwise the text is kept, padded to a blank line, and the quote ends in a line break |
| MdWriter.BlockquoteAfterBreak | src/serializing/md.rs:274-294 | after a text ending in one line break the newer writer adds one more and the older writer adds two |
| MdWriter.ImgCases | src/serializing/md/serializer.rs:306-325 | an image is written exactly when it has `src`; without `alt` and `title` it is `![](src)` |
| MdWriter.LinkFrame | src/serializing/md/serializer.rs:285-300 | an empty link text writes nothing; otherwise the link extends the text with `[` and ends with `)` |
| MdWriter.LinkWords | src/serializing/md/serializer.rs:288-291 | the words between the brackets are the link text's words escaped, and escaping them again changes nothing |
| MdWriter.PreBlocks | src/serializing/md/serializer.rs:357-365 | the code block opens and closes with a fence; the older block of md.rs is the newer one without a language |
| MdWriter.FirstLangAttr | src/serializing/md/serializer.rs:562-568 | the index of the first `data-lang` or `data-language` attribute, or none when there is none |
| MdWriter.FindCodeLangAttribute | src/serializing/md/serializer.rs:562-568 | a language exactly when the node is an element with a language attribute |
| MdWriter.NearAncestors | src/serializing/md/serializer.rs:336 | at most three ancestors are asked |
| MdWriter.CodeLanguageSpec | src/serializing/md/serializer.rs:330-353 | a language found anywhere holds only sanitised characters; the node's own attribute wins; the `code` class is consulted only when neither the node nor its three nearest ancestors has an attribute |
| CssPath.MatchNodeConjunction | src/css_path.rs:49-102 | a node passes `match_node` exactly when it is an element and passes all four tests: the name when one is given, the id when both the selector and the element have one, every listed class, and the attribute test; any other node fails |
| MdWriter.NonEmptyRowKept | src/serializing/md/serializer.rs:439-450 | a table with one row that has cells keeps a non-empty list of rows with cells |
| MdWriter.WritableHasRow | src/serializing/md/serializer.rs:534-552 | every table `is_table_node_writable` accepts has a row with cells, so the first row `write_table` reads is there |
| MdSerializer.New | src/serializing/md/serializer.rs:70-78 | the serializer keeps the arena; it skips exactly the caller's tags when given, otherwise script, style, meta and head |
| MdSerializer.Serialize | src/serializing/md/serializer.rs:80-88 | `write` of the root into an empty text, with the given `include_node` and every other option off |
| MdSerializer.Write | src/serializing/md/serializer.rs:90-169 | the stack loop leaves what the fold `WriteResult` gives: the root worked off with `include_node`, otherwise its children in order and the whole text trimmed at both ends |
| MdSerializer.WorkOff | src/serializing/md/serializer.rs:99-159 | popping the top operation and working it off keeps the rest of the stack's outcome and lowers the stack's weight |
| MdSerializer.OpenElement | src/serializing/md/serializer.rs:106-132 | opening an element that is not skipped: the open step, then its writer, or its close and its children pushed reversed so that the first child is worked off first |
| MdSerializer.OpenStep | src/serializing/md/serializer.rs:112-120 | before a block, line breaks up to a blank line unless line breaks are ignored; then the element's prefix |
| MdSerializer.CloseStep | src/serializing/md/serializer.rs:136-157 | the suffix; nothing more when the text already ends in a blank line; otherwise a blank line after a block, or for `br`, `li` and `tr` trailing spaces trimmed and two spaces and a line break added |
| MdSerializer.ClosedEnds | src/serializing/md/serializer.rs:136-157 | after the close step of a block the text ends in a blank line; after that of `br`, `li` or `tr` it ends in a line break |
| MdSerializer.TrimLeadingWhitespace | src/serializing/md/serializer.rs:165-167 | the loop leaves the text without its leading whitespace |
| MdSerializer.WriteElement | src/serializing/md/serializer.rs:188-212 | `ul` and `ol` go to the list writer with `- ` or `+ ` and `1. `, `img` appends its Markdown image, and `a`, `pre`, `blockquote`, `table` and `code` append what their writer gives |
| MdSerializer.WriteList | src/serializing/md/serializer.rs:249-278 | the list's children in order, each as `ListItem` decides, in a context one level deeper and indented by the list's own level |
| MdSerializer.WriteListItem | src/serializing/md/serializer.rs:261-276 | an `li` with block children goes to the block writer; another `li` is trailing spaces trimmed, indentation, marker, its content and a line break; any other child is written alone with defaults and `include_node` |
| MdSerializer.WriteListItemBlocks | src/serializing/md/serializer.rs:222-247 | the marker after the indentation, then each child: every block but the first is indented by the marker's width and followed by a blank line, other children are written with `include_node` |
| MdSerializer.WriteItemChild | src/serializing/md/serializer.rs:231-245 | one child of an item with blocks, as `BlockItems` says, including whether the first block has been seen |
| MdSerializer.AnyBlock | src/serializing/md/serializer.rs:264-266 | `has_blocks`: true exactly when some child is a block element that is not a list |
| MdSerializer.SkippedAddNothing | src/serializing/md/serializer.rs:108-110 | an element named in `skip_tags` leaves the text as it was; a run of siblings writes what it writes with the skipped ones removed |
| MdSerializer.SkippedChildrenDropped | src/serializing/md/serializer.rs:94-110 | without `include_node`, `write` gives what it gives for the root's children without the skipped ones; with it, a skipped root adds nothing |
| MdSerializer.TrimBothEnds | src/serializing/md/serializer.rs:161-168 | trimming the end and then the start leaves no whitespace at either end |
| MdSerializer.WriteTrimmed | src/serializing/md/serializer.rs:161-168 | with `include_node` false the text `write` leaves neither starts nor ends with whitespace |
| MdSerializer.WellFormedSerializes | src/serializing/md/serializer.rs:80-88 | on a well-formed arena the depth bound `|nodes|` makes the walk finite both with and without `include_node` |
| MdSerializer.ElementUnder | src/serializing/md/serializer.rs:106-135 | an element without a writer writes its open step, its children in order, then its close step |
| MdSerializer.ElementPushed | src/serializing/md/serializer.rs:127-132 | pushing the close and the reversed children leaves the stack's outcome unchanged and its weight lower |
| MdSerializer.ElementWeight | src/serializing/md/serializer.rs:127-132 | the pushed close and children weigh less than the open they replace, and every pushed open is finite |
| MdSerializer.PushOpens | src/serializing/md/serializer.rs:95-97 | children pushed reversed are worked off in sibling order |
| MdSerializer.StartWithRoot | src/serializing/md/serializer.rs:92-93 | with `include_node` the stack starts as the root's open, whose outcome is the root worked off |
| MdSerializer.StartWithChildren | src/serializing/md/serializer.rs:94-97 | without it the stack starts as the children reversed, whose outcome is the children worked off in order |
| MdSerializer.WritePop | src/serializing/md/serializer.rs:99 | popping the top operation splits off its weight, and the rest of the stack stays finite |
| MdSerializer.StackSnoc | src/serializing/md/serializer.rs:99 | the top operation of a stack is worked off first |
| MdSerializer.ChildrenFinite | src/serializing/md/serializer.rs:127-132 | an element finite at depth `f` with children has `f > 0`, and its children are finite one level down |
| MdSerializer.OpenFinite | src/serializing/md/serializer.rs:214-245 | the nested `write` of a list item is finite at the item's depth with `include_node`, one level down without it |
| MdSerializer.WriteText | src/serializing/md/serializer.rs:171-186 | `write_text` leaves what the fold `TextResult` gives: text nodes normalised and escaped unless `skip_escape`, elements walked into in child order, other nodes dropped, nothing trimmed |
| MdSerializer.TextStep | src/serializing/md/serializer.rs:178-185 | a text node is appended; an element is replaced on the stack by its children reversed; the weight drops |
| MdSerializer.TextPop | src/serializing/md/serializer.rs:178-185 | the stack's outcome is kept across one turn and the number of nodes still to visit drops |
| MdSerializer.PushIds | src/serializing/md/serializer.rs:172-176 | children pushed reversed are walked in sibling order and weigh what their subtrees hold |
| MdSerializer.PushedFinite | src/serializing/md/serializer.rs:184 | the children of a finite element, pushed reversed, are finite one level down |
| MdSerializer.TextExtends | src/serializing/md/serializer.rs:178-185 | `write_text` only appends: the text before is a prefix of the text after |
| MdSerializer.ForestTextExtends | src/serializing/md/serializer.rs:178-185 | the same for a run of siblings |
| MdSerializer.Unskipped | src/serializing/md/serializer.rs:108-110 | the siblings kept are exactly those that are not skipped elements |
| MatchIters.Hits | src/matcher.rs:74-88 | what the iterators yield: only ids of the input that are elements the selector list matches |
| MatchIters.HitsAppend | src/matcher.rs:74-88 | the hits of two lists joined are the hits of the first, then those of the second |
| MatchIters.HitsCons | src/matcher.rs:74-88 | a list's hits are its head, when that is a hit, then the hits of the rest |
| MatchIters.HitsKeep | src/matcher.rs:74-88 | every entry of a list that is a hit is kept |
| MatchIters.Head | src/selection.rs:624-638 | `next()` on a finished list: nothing for an empty list, the first entry otherwise |
| MatchIters.RootNotDescendant | src/matcher.rs:58-69 | in a well-formed arena the root is not among its own descendants, so `DescendantMatches` never yields it |
| MatchIters.DescendantMatches.constructor | src/matcher.rs:58-69 | the iterator starts on all descendants of the root, with the arena and the selector list it was given |
| MatchIters.DescendantMatches.Next | src/matcher.rs:74-88 | each call returns the first hit still pending and drops everything up to it; `None` only when nothing is pending; the hits before the call are the item returned followed by the hits after it |
| MatchIters.CollectDescendantMatches | src/matcher.rs:51-89 | collecting the iterator gives exactly the matching element descendants of the root, in document order |
| MatchIters.FirstDescendantMatch | src/matcher.rs:74-88 | the first item is the first matching element descendant, or nothing when there is none |
| MatchIters.Elems | src/matcher.rs:98-112 | the `is_element` filter keeps only elements of its input |
| MatchIters.KidsDepth | src/matcher.rs:117-133 | in a well-formed arena each element child is one level below its parent, which bounds the stack walk |
| MatchIters.AllLevelled | src/matcher.rs:117-133 | in a well-formed arena every node's element children are one level below it |
| MatchIters.KidsElements | src/matcher.rs:117-133 | the children `Matches` pushes are all elements |
| MatchIters.PendingAppend | src/matcher.rs:117-133 | what a stack yields is what its top part yields, then what the rest yields |
| MatchIters.PopStep | src/matcher.rs:117-133 | popping an element and pushing its element children yields that element, then exactly what was pending after it |
| MatchIters.RootPending | src/matcher.rs:98-112 | the element children of a root yield the root's element descendants in document order |
| MatchIters.InitialPending | src/matcher.rs:98-112 | the stack `Matches::new` builds yields the element descendants of the roots, last root first |
| MatchIters.BackwardReversed | src/matcher.rs:98-112 | walking a reversed list of roots from its end visits the roots in their original order |
| MatchIters.ReversedRootTours | src/selection.rs:582-594 | with the roots passed reversed, `Matches` yields the element descendants root by root, in the order of the selection |
| MatchIters.StackedElements | src/matcher.rs:98-112 | the initial stack holds only elements |
| MatchIters.Matches.constructor | src/matcher.rs:98-112 | the iterator starts with the element children of every root on its stack and nothing seen |
| MatchIters.Matches.Next | src/matcher.rs:117-133 | a returned node is a hit not seen before and is added to the seen set; `None` only when the stack is empty; what is pending shrinks to a suffix, and the node returned stands just before it; the hits walked so far, each once at its first occurrence, are what earlier calls returned followed by the node returned, whether or not the roots' subtrees overlap; the stack keeps holding elements whose tours are what is pending |
| MatchIters.NewMatches | src/matcher.rs:98-112 | a new iterator over a well-formed arena has nothing seen and will walk the roots' element descendants, last root first |
| MatchIters.SkipSeen | src/matcher.rs:118-121 | skipping an element already seen drops its whole subtree from what is pending |
| MatchIters.TakeStep | src/matcher.rs:122-131 | taking an unseen element drops just that element from what is pending |
| MatchIters.CollectMatches | src/matcher.rs:91-135 | collecting `Matches` over a well-formed arena gives each hit among the roots' element descendants once, at its first occurrence, for every list of roots, overlapping or not: only hits, every one of them, none twice, empty exactly when there is none, starting with the first hit, and all the hits in order when no subtree is visited twice |
| MatchIters.Collect | src/matcher.rs:117-133 | collecting a fresh iterator gives each hit of what it had pending once, at its first occurrence, with the consequences `CollectMatches` lists |
| MatchIters.FirstMatch | src/matcher.rs:117-133 | the first item `Matches` returns is the first hit among the roots' element descendants, or nothing |
| MatchIters.Pop | src/matcher.rs:117-132 | the loop of `next` on the stack and seen set: it keeps the state of `Matches`; what is pending after is a suffix of what was pending before; a node returned is an unseen hit standing just before that suffix, and is added to the seen set; it returns nothing only on an empty stack; the hits walked, once each, grow by exactly the node returned |
| MatchIters.PopSeen | src/matcher.rs:118-120 | skipping a node already seen keeps what the loop of `next` tracks and shortens what is pending |
| MatchIters.PopMiss | src/matcher.rs:122-131 | popping an unseen node that does not match and pushing its element children keeps what the loop tracks and shortens what is pending |
| MatchIters.PopHit | src/matcher.rs:122-130 | popping an unseen node that matches gives a hit; with it seen and its element children pushed, the state of `Matches` holds, it stands just before what is pending, and the hits walked once each grow by it |
| MatchIters.TrackSkip | src/matcher.rs:118-120 | skipping a seen element walks past its whole subtree, all of which was walked before, so the seen set is still the hits walked and the hits walked once each do not change |
| MatchIters.TrackPass | src/matcher.rs:122-131 | walking past an unseen element that is no hit keeps the seen set equal to the hits walked and the hits walked once each |
| MatchIters.TrackTake | src/matcher.rs:122-130 | walking past an unseen hit and marking it seen keeps the seen set equal to the hits walked, and the hits walked once each grow by it |
| MatchIters.WalkedTour | src/matcher.rs:118-120 | the subtree of an element met again lies wholly in the part of the walk already done, so skipping it walks past only ids seen before |
| MatchIters.TouredPending | src/matcher.rs:117-133 | in what a stack has pending, every id is followed by the element descendants it pushes in turn |
| MatchIters.TourLevels | src/matcher.rs:117-133 | the subtree walked below an element holds only elements deeper than it, so the element does not occur again inside it |
| MatchIters.SkipDone | src/matcher.rs:118-120 | a subtree walked earlier, whose first id does not occur again inside it, ended before the current position, so skipping it extends the part walked by ids all walked already |
| MatchIters.DedupHits | src/matcher.rs:117-133 | the hits of a walk kept once each are distinct, are exactly the hits of the walk, are empty exactly when it has none, start with its first hit, and are all its hits when no id occurs twice in it |
| MatchIters.HitsSubseq | src/matcher.rs:74-88 | the hits of a list keep the order of the list |
| PseudoClasses.ParseNonTSPseudoClass | src/matcher.rs:151-186 | a name parses to a non-functional class whose name it equals up to ASCII case; any other name is rejected with that name in the error |
| PseudoClasses.ParseNonTSFunctionalPseudoClass | src/matcher.rs:188-211 | `has-text` and `contains`, in any ASCII case, parse exactly when a quoted argument follows, and keep the argument; without one the error is `ExpectedString` |
| PseudoClasses.ToCss | src/matcher.rs:253-282 | the text is a colon, then the class's lower-case name; only the functional classes write anything after the name |
| PseudoClasses.DiffersAt | src/matcher.rs:151-186 | two names whose characters differ at one position even after lower-casing are not equal up to case |
| PseudoClasses.EqIgnoreCaseRefl | src/matcher.rs:151-186 | every name equals itself up to case |
| PseudoClasses.EqIgnoreCaseSwap | src/matcher.rs:151-186 | names equal up to case compare alike against any third name |
| PseudoClasses.ToCssNameParses | src/matcher.rs:151-211 | the name `to_css` writes after the colon parses back to the same class, with its argument for the functional ones |
| PseudoClasses.SimpleNamesApart | src/matcher.rs:158-183 | no class's name equals, up to case, the name of a different class, so the order of the parser's branches does not matter |
| PseudoClasses.UnsupportedIff | src/matcher.rs:151-186 | a name is rejected exactly when it equals none of the eleven non-functional names up to case |
| PseudoClasses.ParseIgnoresCase | src/matcher.rs:151-211 | names that are equal up to ASCII case parse to the same result, in both parsers |
| PseudoClasses.MixedCaseParses | src/matcher.rs:151-186 | `ANY-Link` parses to `:any-link` |
| SelectorAdapter.ElementAt | src/node/selector.rs:171-198 | the element payload is there exactly when the id is in the vector and names an element |
| SelectorAdapter.AnyIdAttr | src/node/selector.rs:171-185 | the scan is true exactly when some attribute named `id` equals the name under the given case sensitivity |
| SelectorAdapter.HasIdOfId | src/node/selector.rs:171-185 | `has_id` holds whenever the first `id` attribute, the one `Element::id` reads, equals the name under the case sensitivity; on an element with at most one `id` attribute it holds exactly then |
| SelectorAdapter.NonElementHasNoId | src/node/selector.rs:171-185 | a text node, a comment or a document has no id |
| SelectorAdapter.AdapterHasClassSensitive | src/node/selector.rs:187-198 | case-sensitively the adapter's class test is `Element::has_class`; ignoring ASCII case it accepts whatever the case-sensitive test accepts |
| SelectorAdapter.AnyAttrHit | src/node/selector.rs:115-130 | the scan is true exactly when some attribute passes the namespace, local name and value tests |
| SelectorAdapter.AttrMatchesNamespaces | src/node/selector.rs:115-130 | a match within a specific namespace is also a match for any namespace; a match for any namespace is an attribute with that local name whose value passes, whatever its namespace |
| SelectorAdapter.SameTypeEquivalence | src/node/selector.rs:102-112 | the same-type test holds only for elements and is reflexive, symmetric and transitive on them |
| SelectorAdapter.PseudoClassCases | src/node/selector.rs:132-148 | the dynamic states never match; `:any-link` and `:link` are both the element link test |
| SelectorAdapter.ContainsSpansTextNodes | src/node/selector.rs:132-148 | `:contains` sees text split over two text nodes, and `:has-text` does not |
| SelectorAdapter.HasTextIsContainsOfOneNode | src/node/selector.rs:132-148 | a `:has-text` match comes from one text node, either the node itself or below it, that contains the needle |
| SelectorAdapter.StructuralHooks | src/node/selector.rs:159-216 | in a well-formed arena `:empty` holds only on elements and `:root` only on the document, so never both; `:only-text` excludes `:empty`; the adapter's own `is_link` hook stays false even on a node `:any-link` matches |
| LegacyElement.OldEmptyIsEmpty | src/element.rs:225-230 | an element that is empty by the old test is empty by `is_empty_element` |
| LegacyElement.BlankParagraphChildren | src/element.rs:225-230 | the blank paragraph's only child is its text node |
| LegacyElement.BlankParagraphEmptiness | src/element.rs:225-230 | a paragraph holding only a space is empty for `is_empty_element` but not for the old test, so the two tests differ |
| LegacyElement.FirstElementOf | src/element.rs:237-242 | the first element of a list of children: none exactly when no child is an element; otherwise an element with no element before it |
| LegacyElement.FirstElementShift | src/element.rs:237-242 | a list that starts with a non-element has the same first element as its tail |
| LegacyElement.FirstElementIsHead | src/element.rs:237-242 | the first element of a list is the head of its `is_element` filter |
| LegacyElement.FirstElementChildIsHead | src/element.rs:237-242 | the old `first_element_child` is the first of the element children `Matches` pushes |
| LegacyElement.OldLinkTests | src/element.rs:131-170 | the old `:any-link` test and the old `is_link` agree; both are the newer link pseudo-class, and neither is the newer adapter's `is_link` hook, which always says no |
| LegacyElement.ChainAt | src/element.rs:247-262 | each entry of a sibling chain is in the vector, and its next sibling is the entry after it, or none for the last |
| LegacyElement.ChildCursor | src/element.rs:247-262 | in a well-formed arena a node's children are the sibling chain from its first child, each one level below it |
| LegacyElement.WellFormedSearchable | src/element.rs:247-262 | every well-formed arena can be searched by the sibling cursor |
| LegacyElement.AnyBelowStep | src/element.rs:251-259 | the search from one chain entry is that entry's test or the search from the next entry |
| LegacyElement.HasDescendantMatch | src/element.rs:247-262 | the cursor loop says yes exactly when some node below the node, reached through element children, satisfies the selector list |
| LegacyElement.MatchBelowSound | src/element.rs:247-262 | every match the search finds is a descendant of the node |
| LegacyElement.AnyBelowSound | src/element.rs:247-262 | every match the search over a chain finds is one of the chain's nodes or a descendant of one |
| LegacyElement.InnerSubset | src/element.rs:247-262 | if only elements have children among some nodes, the same holds among any of them |
| LegacyElement.LeafHead | src/element.rs:247-262 | under that condition, a chain entry that is no element has nothing below it |
| LegacyElement.MatchBelowComplete | src/element.rs:247-262 | when only elements have children below the node, every descendant that matches is found |
| LegacyElement.AnyBelowComplete | src/element.rs:247-262 | when only elements have children below the chain, every match among its nodes and their descendants is found |
| Selections.Ids | src/selection.rs:251-257 | the ids of a list of references, position by position |
| Selections.Tag | src/selection.rs:746-765 | the references to a list of ids in one tree, position by position |
| Selections.IdsTag | src/selection.rs:746-765 | tagging ids and taking the ids back gives the same ids |
| Selections.Keep | src/selection.rs:306-317 | the entries whose id satisfies the test, as a subsequence of the input |
| Selections.KeepSnoc | src/selection.rs:306-317 | filtering a list with one more entry filters the list, then keeps that entry when it passes |
| Selections.InIds | src/selection.rs:251-257 | an id is among a list's ids exactly when some entry has it |
| Selections.IdsCat | src/selection.rs:421-432 | the ids of two lists joined are the ids of the first, then of the second |
| Selections.IdsKeep | src/selection.rs:306-317 | the ids kept are the ids of the input that satisfy the test |
| Selections.IdsSubseq | src/selection.rs:306-317 | a subsequence of references has a subsequence of ids |
| Selections.KeepNoDupIds | src/selection.rs:306-317 | filtering a list without repeated ids gives a list without repeated ids |
| Selections.KeepNone | src/selection.rs:306-317 | when no id satisfies the test, nothing is kept |
| Selections.FilterMatcher | src/selection.rs:306-317 | the nodes that satisfy the matcher, in their order |
| Selections.FilterSelection | src/selection.rs:321-333 | with either side empty the selection is returned unchanged; otherwise its nodes whose id the other selection holds, in order |
| Selections.IsMatcherFilter | src/selection.rs:242-247 | `is_matcher` holds exactly when `filter_matcher` leaves something |
| Selections.IsSelectionFilter | src/selection.rs:251-257 | for two non-empty selections, `is_selection` holds exactly when `filter_selection` leaves something |
| Selections.IsSelectionSymmetric | src/selection.rs:251-257 | sharing a node does not depend on which selection asks |
| Selections.MergeNodes | src/selection.rs:421-432 | the selection's own nodes first, then, in order, those of the other list whose id is not among them |
| Selections.MergeIds | src/selection.rs:421-432 | the ids of the merge are the ids of either side |
| Selections.MergeNoDups | src/selection.rs:421-432 | two lists without repeated ids merge into one without repeated ids |
| Selections.MergeSelf | src/selection.rs:421-432 | merging a selection with its own nodes changes nothing |
| Selections.AddSelection | src/selection.rs:404-419 | an empty selection gives the other one, an empty other gives the selection; otherwise it fails exactly when the two borrow different trees, and on success the selection's nodes come first and the ids are the union |
| Selections.AddMatcher | src/selection.rs:383-391 | an empty selection is returned unchanged; otherwise the matching element descendants of the document root are merged after the selection's nodes, and the ids are the union |
| Selections.First | src/selection.rs:770-776 | the first node alone, or nothing for an empty selection |
| Selections.Last | src/selection.rs:781-787 | the last node alone, or nothing for an empty selection |
| Selections.GetNode | src/selection.rs:790-792 | the node at the index exactly when the index is in range |
| MatchIters.DedupStep | src/selection.rs:746-765 | one more id is kept exactly when it has not been kept before |
| MatchIters.DedupMembers | src/selection.rs:746-765 | dropping repeats keeps every id of the input and adds none |
| MatchIters.DedupNoDups | src/selection.rs:746-765 | the result has no repeated id |
| MatchIters.DedupSubseq | src/selection.rs:746-765 | the result is a subsequence of the input |
| MatchIters.DedupPrefix | src/selection.rs:746-765 | what is kept from a prefix is a prefix of what is kept from the whole |
| MatchIters.DedupDistinct | src/selection.rs:746-765 | ids without repeats are kept as they are |
| MatchIters.DedupAbsorb | src/selection.rs:746-765 | ids all kept already add nothing when they come again |
| MatchIters.DedupHead | src/selection.rs:746-765 | the first id is kept first |
| Selections.DerivedMembers | src/selection.rs:746-765 | an id is derived exactly when the step gives it for some node |
| Selections.DeriveFacts | src/selection.rs:746-765 | the derived selection has no repeats, keeps the order of first appearance, and holds exactly the ids the step gives for some node |
| Selections.DeriveSelection | src/selection.rs:746-765 | an empty selection gives an empty one; otherwise each id the step gives, at its first appearance, in the first node's tree |
| Selections.NextElementSibling | src/selection.rs:730-735 | a next element sibling is an element |
| Selections.PrevElementSibling | src/selection.rs:739-744 | a previous element sibling is an element |
| Selections.Parents | src/selection.rs:663-671 | the parents of the nodes, each at its first appearance |
| Selections.NextSiblings | src/selection.rs:730-735 | the next element siblings of the nodes, each at its first appearance |
| Selections.PrevSiblings | src/selection.rs:739-744 | the previous element siblings of the nodes, each at its first appearance |
| Selections.SiblingsAreElements | src/selection.rs:730-744 | the sibling results are all elements |
| Selections.ElemsSnoc | src/selection.rs:675-695 | filtering a list with one more entry filters the list, then keeps that entry when it is an element |
| Selections.GatherStep | src/selection.rs:675-695 | one more listed id is collected exactly when it is an element not collected yet |
| Selections.GatheredStep | src/selection.rs:675-695 | gathering one more node appends that node's list |
| Selections.AddElements | src/selection.rs:683-690 | the inner loop leaves the elements of all ids seen so far, each at its first appearance |
| Selections.CollectElements | src/selection.rs:675-695 | an empty selection gives an empty one; otherwise the element ids the nodes list, node after node, each at its first appearance |
| Selections.GatheredMembers | src/selection.rs:675-695 | an id is gathered exactly when some node lists it |
| Selections.ElemsMembers | src/selection.rs:675-695 | an id survives the `is_element` filter exactly when it is in the input and is an element |
| Selections.CollectFacts | src/selection.rs:675-695 | the collected selection has no repeats and holds exactly the elements some node lists |
| Selections.AncestorIds | src/selection.rs:706-726 | the ancestors up to the depth bound, nearest first: a prefix of all ancestors, of the bound's length when there are enough, and all of them without a bound or with bound 0 |
| Selections.ChildElements | src/selection.rs:675-695 | the element children of the nodes, node after node, each at its first appearance |
| Selections.AncestorElements | src/selection.rs:706-726 | the element ancestors of the nodes within the depth bound, each at its first appearance |
| Selections.EnumerationForward | src/selection.rs:582-594 | on more than one root, the reversed roots make `Matches` visit the selection's subtrees in the selection's order |
| Selections.FirstHit | src/selection.rs:624-638 | at most one node: none exactly when the selection is empty or nothing matches, otherwise the first enumerated match in the first node's tree |
| Selections.SelectMatcher | src/selection.rs:582-594 | empty on an empty selection; otherwise matching elements in the first node's tree, starting with the first enumerated match; on one root exactly the matching descendants in order; on several roots each hit of the enumeration once, at its first occurrence, whether the roots' subtrees overlap or not, and exactly the enumeration when no subtree is visited twice |
| Selections.SelectSingleMatcher | src/selection.rs:624-638 | at most one node, the first the same enumeration as `select_matcher` gives, or nothing |
| Selections.SingleIsFirstOfSelect | src/selection.rs:582-638 | the single selection is the first node of the full one |
| Selections.TrySelect | src/selection.rs:610-619 | `None` exactly when the selector does not parse, the selection is empty or nothing matches; otherwise what `select_matcher` gives: a non-empty selection of matches in the first node's tree that starts with the first one, the matching descendants of a lone node, or each hit over several roots once |
| Query.IsMatcher | src/query.rs:20-31 | counting the matching nodes agrees with `is_matcher` of src/selection.rs |
| Query.Is | src/query.rs:8-16 | agrees with `is` of src/selection.rs; false on an empty selection or a selector that does not parse |
| Query.FindIn | src/query.rs:35-48 | `find` gives nothing exactly when no id is in the set; otherwise a node in the set with none before it in the set |
| Query.IdSet | src/query.rs:35-48 | the set holds exactly the ids of the selection |
| Query.IsSelection | src/query.rs:35-48 | the set-and-find search agrees with `is_selection` of src/selection.rs |
| SelectionTraversal.UniqueStep | src/traversal.rs:167-181 | one more result is kept exactly when its id has not been taken |
| SelectionTraversal.ElemUniqueStep | src/traversal.rs:185-199 | one more child is kept exactly when it is an element whose id has not been taken |
| SelectionTraversal.GatheredRefsStep | src/traversal.rs:185-199 | gathering one more node appends that node's children |
| SelectionTraversal.DeriveUnique | src/traversal.rs:167-181 | the loop over the nodes keeps each result, in the tree it came from, at the first appearance of its id |
| SelectionTraversal.AddChildren | src/traversal.rs:188-195 | the inner loop keeps the element children whose id was not taken yet, and the taken set is the ids of the result |
| SelectionTraversal.GatherUnique | src/traversal.rs:185-199 | the loop keeps each element child of each node at the first appearance of its id |
| SelectionTraversal.Parents | src/traversal.rs:167-181 | the parents, each once in the tree of its child; on a selection from one tree, what the newer `parent` gives |
| SelectionTraversal.NextSiblings | src/traversal.rs:210-224 | the next element siblings, each once; on a selection from one tree, what the newer `next_sibling` gives |
| SelectionTraversal.PrevSiblings | src/traversal.rs:228-242 | the previous element siblings, each once; on a selection from one tree, what the newer `prev_sibling` gives |
| SelectionTraversal.ChildElements | src/traversal.rs:185-199 | the element children, each once; on a selection from one tree, what the newer `children` gives |
| SelectionTraversal.TaggedIds | src/traversal.rs:167-242 | references that all carry one tree are the tagged ids |
| SelectionTraversal.UniqueIds | src/traversal.rs:167-242 | keeping each id at its first appearance keeps the ids that dropping repeated ids keeps, and only input references |
| SelectionTraversal.DerivedRefsIds | src/traversal.rs:167-181 | on a selection from one tree, the ids of the results are the ids the step derives, all in that tree |
| SelectionTraversal.DeriveAgrees | src/traversal.rs:167-242 | on a selection from one tree, the older loop gives what `derive_selection` gives |
| SelectionTraversal.ElemRefsIds | src/traversal.rs:185-199 | the ids of the element references are the element ids |
| SelectionTraversal.ElemRefsMembers | src/traversal.rs:185-199 | the element references are references of the input |
| SelectionTraversal.GatheredRefsIds | src/traversal.rs:185-199 | on a selection from one tree, the ids of the gathered children are the children's ids, all in that tree |
| SelectionTraversal.ChildrenAgree | src/traversal.rs:185-199 | on a selection from one tree, the older `children` gives what the newer one gives |
| SelectionTraversal.SelectMatcher | src/traversal.rs:91-100 | the result's ids are what the iterator yields, in the tree of the nodes |
| SelectionTraversal.SelectSingleMatcher | src/traversal.rs:130-142 | the first node of `select_matcher`, alone: at most one node, and none exactly when nothing is yielded |
| SelectionTraversal.TrySelect | src/traversal.rs:116-125 | `None` exactly when the selector does not parse or nothing is yielded; otherwise the non-empty result of `select_matcher` |

## Left out

- HTML tokenising, tree construction and serialisation belong to html5ever and are not part of this model. That covers `Document::from`, `fragment` and `html`/`inner_html`. Only the tree-builder callbacks of `Document` are modelled.
- The `selectors`/`cssparser` matching algorithm is not part of this model. Where a full selector list is matched, the element predicate is a function parameter.
- `RefCell` borrows, lifetimes and the panics of a double borrow are not modelled. The vector behind a `RefCell` is a `seq` field of a class, or a mutable `array` slice.
- Hash-map iteration order:
  - `copy_tree_nodes` walks `id_map` in unspecified order and then sorts by new id. The model walks the numbering order, which is sorted by new id already, and the sort is left out.
  - `add_class`/`remove_class` build the new class value from hash sets. Their token order is a function parameter, and only set-level properties are stated about the tokens.
- `char::is_whitespace`, `split_whitespace` and `trim` use the Unicode White_Space set (`Str.IsWhitespace`). `has_class`, the class tokens and the selector whitespace use ASCII whitespace (`Str.IsAsciiWhitespace`), as the source does.
- Callbacks (`merge_with_fn`, `copy_nodes_with_fn`, `query_node`, `update_node`) are represented by the ids they receive.
- The helpers `insert_siblings_before`, `insert_siblings_after`, `append_children_of`, `prepend_children_of`, `set_text` and `next_element_sibling_of` are called but not shown:
  - `NodeRefs.UnwrapNode` takes the effect of `insert_siblings_before` as a function parameter;
  - `NodeRefs.UnwrapDetachesParent` assumes that parameter keeps the arena well formed.
- `descendant_nodes`, `ancestor_nodes` and the three-argument `child_nodes` of `dom_tree` are not shown:
  - descendants are taken in document pre-order (`NodeRefs.Descendants`);
  - the reverse child iterator is the child chain reversed.
- Forest.Normalize, Forest.StripElements: these act on a subtree as a value. The in-place relinking of the real methods is not modelled. `set_text` is taken to replace a text node's contents.
- TreeTraversal.FindDescendantElements, TreeTraversal.CollectMatchingDescendants: the depth bound is the ghost `fuel`; results are stated for a well-formed arena, where that bound suffices.
- Ops.TextOf, Handler.TextOf, Ops.ReparentChildrenOf, Ops.LastSiblingOf, Trees.Tree.LastSiblingOf, Trees.Tree.ReparentChildrenOf, Sink.Document.ReparentChildren, Iters.CollectChildNodes: each requires that the descent or sibling chain it walks ends within a bound. On a cyclic chain the source never returns (src/dom_tree/ops.rs:44-58, src/dom_tree/tree.rs:246-255).
- Sink.Document.GetTemplateContents, Sink.Document.ElemName: `None` stands where the source panics.
- `Document::finish`, `set_name` on an existing tree and the `QuirksMode` handling of html5ever are not modelled. src/document.rs uses an older `Tree` API than src/dom_tree/tree.rs. Its callbacks are modelled against the arena functions of this project.
- `wrap_node`/`wrap_html` are not modelled. They append without detaching, which breaks the sibling links. src/property.rs and src/manipulation.rs are thin per-node loops over calls that are not shown.
- MiniExtension.FindDescendantIds: `MiniSelectorList` is not part of this model:
  - its constructor's outcome is a parameter;
  - its `match_node` is a function parameter `listMatch`.
- `try_find_descendants` is `FindDescendantIds` itself. `mini_match` is `MiniSelectors.MatchNode`.
- MiniExtension.MiniIs: `mini_is` ignores what follows the first compound selector. The model keeps that behaviour.
- MiniSelectors.IsMatch: `Equals`, `Prefix`, `Suffix` and `Substring` compare characters, not bytes. On ASCII input the two agree.
- MiniParser: nom error kinds and positions are not modelled. nom's guard against a `many0` parser that consumes nothing never fires, because every item parser consumes input on success (proved).
- The scenario test of src/mini_selector/extension.rs compares against the full `select` on a test page. It depends on the full selector engine and an external page.
- A Rust `String` is a byte sequence; the model counts characters, which agree with bytes on ASCII text (`"-".repeat(..)` of `write_table` and `chars().count()` of `normalized_char_count`).
- MdText.AddLinebreaks: requires `end == linebreak + linebreak`, which both callers pass. For another `end` the loop need not stop.
- MdWriter.IsTableNodeWritable: takes the outcome of the `:has(table)` query on the table as a parameter, and the cell counts of its rows as a sequence.
- MdWriter.WriteTable, MdWriter.WriteBlockquote, MdWriter.LinkFrame, MdWriter.PreBlocks: the cell, quote, link and code texts that the recursive `write` and `write_text` produce are parameters.
- MdSerializer.WriteElement, MdSerializer.Write: what `write_link`, `write_pre`, `write_blockquote`, `write_table` and `write_code` append is the function parameter `writers` of the serializer. These writers are modelled on their own in `MdWriter`, with the texts they collect as parameters.
- MdSerializer.Write, MdSerializer.WriteText, MdSerializer.Serialize: an id past the end of the arena writes nothing, where the source panics on `nodes[id.value]`.
- MdSerializer.Write, MdSerializer.WriteText: the descent is bounded by a ghost depth `fuel` under which the subtree is finite. `MdSerializer.WellFormedSerializes` gives one for a well-formed arena. On a cyclic child chain the source does not stop.
- The older walk of src/serializing/md.rs is the same stack loop as the newer one. It is modelled only where its tables and writers differ from the newer ones (block table, `code` prefix, block quote and `pre`).
- MdWriter.CodeLanguageSpec: `ancestor_nodes(Some(3))` is taken as the first three entries of the ancestor chain.
- The `href`-less branch of `write_link` writes only the text; it is not modelled.
- CssPath.MatchAttr: the attribute value is compared as characters. Rust compares bytes; the two agree on ASCII text.
- CssPath.ParseSingleSelector: nom's `opt(parse_attr)` passes the cut of an unterminated quoted value through as a failure. The model keeps that, but states no contract about failure inputs.
- NodeRefs.ReplaceWithMoves, NodeRefs.ReplaceWithSiblings, NodeRefs.ReplaceWithParent, NodeRefs.ReplaceWithElsewhere: stated for a detached new node. When the new node is attached, `insert_before_of` first unlinks it from its old place, and the relinking of its old parent and siblings is not stated.
- SelectionTraversal.SelectMatcher, SelectionTraversal.SelectSingleMatcher, SelectionTraversal.TrySelect: `MatchScope`, `Matches::from_one` and `Matches::from_list`, which src/traversal.rs calls, are not part of this model; what that iterator yields is the parameter `enumerate`.
- Selections.AddElements, Selections.CollectElements, Selections.ChildElements, Selections.AncestorElements: the id a listed node carries is taken to be its index in the arena, which a well-formed arena guarantees; the source pushes the `id` field of the node it looks up (src/selection.rs:687-688, 718-719).
- Selections: a selection whose nodes borrow different trees is walked in the arena of its first node, as src/selection.rs does.
- Selections.AddSelection: the panic of `ensure_same_tree` is the error `DifferentTrees`.
- Selections.NextElementSibling, Selections.PrevElementSibling: `next_element_sibling_of` and `prev_element_sibling_of` are not shown. Each is taken as the first element along the sibling chain.
- Selections.AncestorIds: `ancestor_nodes` with a depth bound is not shown. Its result is taken as the first `max_depth` ancestors, nearest first, and all of them without a bound or with bound 0.
- The compiled selector list is a predicate on ids in MatchIters, Selections, Query and LegacyElement. The selector caches of `match_element_with_caches` are not modelled.
- PseudoClasses.ToCss: `serialize_string` of cssparser is a function parameter.
- LegacyElement.HasDescendantMatch: requires `Searchable`, which LegacyElement.WellFormedSearchable derives from a well-formed arena.
- LegacyElement.MatchBelowComplete, LegacyElement.AnyBelowComplete: proved only for subtrees where only elements have children. The search does not descend into other nodes.
- Of src/element.rs only `is_empty`, `first_element_child`, the link tests and `has_descendant_match` are modelled. Its other `selectors::Element` hooks are not modelled; src/node/selector.rs is the newer form of them.

## Findings

| source | as written | input that shows it | evidently intended | confidence | as-written member | corrected member |
|---|---|---|---|---|---|---|
| src/dom_tree/validation.rs:41-218 | `validate` checks `first_child` and `last_child` separately. It never asks that both be present or both absent, nor that a node's previous sibling share its parent. So it accepts arenas that `remove_from_parent` turns into ones `validate` rejects, although orphans are meant to be allowed (line 40) | node 0 has `last_child` 2 and no `first_child`; node 1 has `next_sibling` 2 and no parent; node 2 has parent 0 and `prev_sibling` 1. `remove_from_parent(2)` makes node 1 the last child of 0 while node 1 has no parent | the invariant `validate` aims at: a child chain whose two ends are `first_child` and `last_child`, and siblings that share their parent. `remove_from_parent` preserves it | not executed | Validation.RemoveCanBreakValidity | Invariant.RemovePreservesWellFormed |
| src/node/serializing.rs:112-116 | the older text step asks whether the text so far ends in a line feed, not in whitespace, before it pushes the normalised piece with its leading space | an element whose children are the text nodes "a " and " b" | one space between words, as the newer src/node/text_formatting.rs gives | not executed | FormatText.PlainDoubleSpaced | FormatText.FormattedTextTidy |
| src/node/serializing.rs:132-155 | the older close step pushes a paragraph break after a block element even when the text is still empty | an empty `p` followed by the text node "b" gives "\n\nb" | no leading line breaks, as the newer close step gives | not executed | FormatText.PlainLeadingBreak | FormatText.FormattedNoLeadingWhitespace |
