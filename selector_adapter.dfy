/**
 * The capability predicates `NodeRef` supplies to the selectors crate
 * (src/node/selector.rs): id, class and attribute tests, the same-type
 * test, the pseudo-classes of module `PseudoClasses`, and `:empty` and
 * `:root`.  A node outside the vector, or one that is not an element,
 * passes none of the element tests.
 */
module SelectorAdapter {
  import opened Wrappers
  import opened Arena
  import opened Invariant
  import opened Elements
  import opened Subtree
  import opened Str
  import opened NodeRefs
  import opened PseudoClasses

  /** `selectors::attr::NamespaceConstraint`. */
  datatype NamespaceConstraint = AnyNamespace | Specific(url: string)

  /** The element payload `query_or` hands to the closures, when there is one. */
  function ElementAt(nodes: seq<TreeNode>, id: NodeId): (r: Option<Element>)
    ensures r.Some? <==> id < |nodes| && IsElement(nodes[id])
    ensures r.Some? ==> nodes[id].data == ElementData(r.value)
  {
    if id < |nodes| then AsElement(nodes[id]) else None
  }

  // ----- id and class -----

  /** Whether some attribute of `attrs` is named `id` and equals `name` under `cs`, scanned left to right. */
  function AnyIdAttr(attrs: seq<Attr>, name: string, cs: CaseSensitivity): (r: bool)
    ensures r <==> exists k :: 0 <= k < |attrs| && attrs[k].name.local == "id" && CaseEq(cs, name, attrs[k].value)
  {
    if attrs == [] then false
    else
      (attrs[0].name.local == "id" && CaseEq(cs, name, attrs[0].value))
      || (assert forall k :: 0 < k < |attrs| ==> attrs[k] == attrs[1..][k - 1];
          AnyIdAttr(attrs[1..], name, cs))
  }

  /** `has_id`: an element with an `id` attribute equal to `name` under `cs`. */
  predicate HasId(nodes: seq<TreeNode>, id: NodeId, name: string, cs: CaseSensitivity)
  {
    match ElementAt(nodes, id)
    case None => false
    case Some(e) => AnyIdAttr(e.attrs, name, cs)
  }

  /**
   * `has_id` looks at every `id` attribute, so it agrees with `Element::id`,
   * which reads the first one, whenever that one matches, and exactly when
   * the element has at most one.
   */
  lemma HasIdOfId(nodes: seq<TreeNode>, id: NodeId, name: string, cs: CaseSensitivity)
    requires ElementAt(nodes, id).Some?
    ensures var e := ElementAt(nodes, id).value;
      Id(e).Some? && CaseEq(cs, name, Id(e).value) ==> HasId(nodes, id, name, cs)
    ensures var e := ElementAt(nodes, id).value;
      (forall i, j :: 0 <= i < j < |e.attrs| && e.attrs[i].name.local == "id" ==> e.attrs[j].name.local != "id")
      ==> (HasId(nodes, id, name, cs) <==> Id(e).Some? && CaseEq(cs, name, Id(e).value))
  {
    var e := ElementAt(nodes, id).value;
    if Id(e).Some? {
      var f := FindAttr(e.attrs, "id").value;
      assert e.attrs[f].name.local == "id" && e.attrs[f].value == Id(e).value;
    }
    if HasId(nodes, id, name, cs) && (forall i, j :: 0 <= i < j < |e.attrs| && e.attrs[i].name.local == "id" ==> e.attrs[j].name.local != "id") {
      var k :| 0 <= k < |e.attrs| && e.attrs[k].name.local == "id" && CaseEq(cs, name, e.attrs[k].value);
      var f := FindAttr(e.attrs, "id").value;
      assert f == k;
    }
  }

  /** A text node, a comment or a document has no id. */
  lemma NonElementHasNoId(nodes: seq<TreeNode>, id: NodeId, name: string, cs: CaseSensitivity)
    requires id < |nodes| && !IsElement(nodes[id])
    ensures !HasId(nodes, id, name, cs)
  {
  }

  /** `has_class`: an element whose class attribute has the word `name` under `cs`. */
  predicate AdapterHasClass(nodes: seq<TreeNode>, id: NodeId, name: string, cs: CaseSensitivity)
  {
    match ElementAt(nodes, id)
    case None => false
    case Some(e) => HasClassBytes(e, name, cs)
  }

  /** Case-sensitively the adapter's class test is `Element::has_class`, and ignoring case it accepts at least as much. */
  lemma AdapterHasClassSensitive(nodes: seq<TreeNode>, id: NodeId, name: string)
    ensures AdapterHasClass(nodes, id, name, CaseSensitive)
      <==> ElementAt(nodes, id).Some? && HasClass(ElementAt(nodes, id).value, name)
    ensures AdapterHasClass(nodes, id, name, CaseSensitive) ==> AdapterHasClass(nodes, id, name, AsciiCaseInsensitive)
  {
    if ElementAt(nodes, id).Some? {
      var e := ElementAt(nodes, id).value;
      HasClassBytesSensitive(e, name);
      if HasClassBytes(e, name, CaseSensitive) {
        var w :| w in AsciiWords(Class(e).value) && CaseEq(CaseSensitive, name, w);
        EqIgnoreCaseRefl(w);
        assert CaseEq(AsciiCaseInsensitive, name, w);
      }
    }
  }

  // ----- attributes -----

  /** One attribute against `attr_matches`' test: namespace, local name, then the operation on the value. */
  predicate AttrHit(a: Attr, ns: NamespaceConstraint, local: string, op: string -> bool)
  {
    match ns
    case Specific(url) => url == a.name.ns && local == a.name.local && op(a.value)
    case AnyNamespace => local == a.name.local && op(a.value)
  }

  /** `iter().any` of `AttrHit`. */
  function AnyAttrHit(attrs: seq<Attr>, ns: NamespaceConstraint, local: string, op: string -> bool): (r: bool)
    ensures r <==> exists k :: 0 <= k < |attrs| && AttrHit(attrs[k], ns, local, op)
  {
    if attrs == [] then false
    else
      AttrHit(attrs[0], ns, local, op)
      || (assert forall k :: 0 < k < |attrs| ==> attrs[k] == attrs[1..][k - 1];
          AnyAttrHit(attrs[1..], ns, local, op))
  }

  /**
   * `attr_matches`: some attribute of the element has the local name, lies
   * in the namespace when one is specified, and passes `op`, which stands
   * for `AttrSelectorOperation::eval_str`.
   */
  predicate AttrMatches(nodes: seq<TreeNode>, id: NodeId, ns: NamespaceConstraint, local: string, op: string -> bool)
  {
    match ElementAt(nodes, id)
    case None => false
    case Some(e) => AnyAttrHit(e.attrs, ns, local, op)
  }

  /**
   * A Specific namespace is respected: a match under it is a match under
   * any namespace, and comes from an attribute in that namespace; under any
   * namespace the match depends on local names and values only.
   */
  lemma AttrMatchesNamespaces(nodes: seq<TreeNode>, id: NodeId, url: string, local: string, op: string -> bool)
    ensures AttrMatches(nodes, id, Specific(url), local, op) ==> AttrMatches(nodes, id, AnyNamespace, local, op)
    ensures AttrMatches(nodes, id, Specific(url), local, op) ==>
      var attrs := ElementAt(nodes, id).value.attrs;
      exists k :: 0 <= k < |attrs| && attrs[k].name.ns == url && attrs[k].name.local == local && op(attrs[k].value)
    ensures AttrMatches(nodes, id, AnyNamespace, local, op) <==>
      (ElementAt(nodes, id).Some? && var attrs := ElementAt(nodes, id).value.attrs;
       exists k :: 0 <= k < |attrs| && attrs[k].name.local == local && op(attrs[k].value))
  {
    if AttrMatches(nodes, id, Specific(url), local, op) {
      var attrs := ElementAt(nodes, id).value.attrs;
      var k :| 0 <= k < |attrs| && AttrHit(attrs[k], Specific(url), local, op);
      assert AttrHit(attrs[k], AnyNamespace, local, op);
    }
  }

  // ----- same type -----

  /** `is_same_type`: both ids are in the vector and name elements with equal qualified names. */
  predicate IsSameType(nodes: seq<TreeNode>, a: NodeId, b: NodeId)
  {
    match (ElementAt(nodes, a), ElementAt(nodes, b))
    case (Some(e1), Some(e2)) => e1.name == e2.name
    case _ => false
  }

  /** On elements the same-type test is an equivalence, and it fails whenever either node is not an element. */
  lemma SameTypeEquivalence(nodes: seq<TreeNode>, a: NodeId, b: NodeId, c: NodeId)
    ensures IsSameType(nodes, a, b) ==> ElementAt(nodes, a).Some? && ElementAt(nodes, b).Some?
    ensures ElementAt(nodes, a).Some? ==> IsSameType(nodes, a, a)
    ensures IsSameType(nodes, a, b) <==> IsSameType(nodes, b, a)
    ensures IsSameType(nodes, a, b) && IsSameType(nodes, b, c) ==> IsSameType(nodes, a, c)
  {
  }

  // ----- pseudo-classes, :empty and :root -----

  /** The link test `TreeNode::is_link`: an element that `Element::is_link` accepts. */
  predicate NodeIsLink(nodes: seq<TreeNode>, id: NodeId)
  {
    match ElementAt(nodes, id)
    case None => false
    case Some(e) => IsLink(e)
  }

  /** The states that need a user or a form; the adapter never reports them. */
  predicate IsDynamicState(p: PseudoClass)
  {
    p.Active? || p.Focus? || p.Hover? || p.Enabled? || p.Disabled? || p.Checked? || p.Indeterminate? || p.Visited?
  }

  /**
   * `match_non_ts_pseudo_class`: links by `is_link`, `:only-text` by
   * `has_only_text`, `:has-text` by the per-text-node search `has_text`, and
   * `:contains` on the whole `text()` of the node.
   */
  predicate MatchNonTSPseudoClass(nodes: seq<TreeNode>, id: NodeId, p: PseudoClass)
  {
    match p
    case Active => false
    case Focus => false
    case Hover => false
    case Enabled => false
    case Disabled => false
    case Checked => false
    case Indeterminate => false
    case Visited => false
    case AnyLink => NodeIsLink(nodes, id)
    case Link => NodeIsLink(nodes, id)
    case OnlyText => HasOnlyText(nodes, id)
    case HasText(s) => HasTextIn(nodes, id, s)
    case Contains(s) => Str.Contains(Subtree.Text(nodes, id), s)
  }

  /** Dynamic states never match, and `:any-link` and `:link` are both the link test. */
  lemma PseudoClassCases(nodes: seq<TreeNode>, id: NodeId, p: PseudoClass)
    ensures IsDynamicState(p) ==> !MatchNonTSPseudoClass(nodes, id, p)
    ensures MatchNonTSPseudoClass(nodes, id, AnyLink) <==> MatchNonTSPseudoClass(nodes, id, Link)
    ensures MatchNonTSPseudoClass(nodes, id, AnyLink) <==>
      ElementAt(nodes, id).Some? && ElementAt(nodes, id).value.name.local in {"a", "area", "link"}
      && HasAttr(ElementAt(nodes, id).value.attrs, "href")
  {
  }

  /**
   * On `<p>ab</p>` split into the text nodes "ab" and "cd", `:contains("bc")`
   * matches the paragraph but `:has-text("bc")` does not, since no single
   * text node contains "bc".
   */
  lemma ContainsSpansTextNodes()
    ensures MatchNonTSPseudoClass(SplitTextArena(), 0, PseudoClasses.Contains("bc"))
    ensures !MatchNonTSPseudoClass(SplitTextArena(), 0, HasText("bc"))
  {
    HasTextMissesSplitText();
  }

  /** A `:has-text` match comes from one text node, the node itself or below it, that contains the needle. */
  lemma HasTextIsContainsOfOneNode(nodes: seq<TreeNode>, id: NodeId, s: string)
    requires MatchNonTSPseudoClass(nodes, id, HasText(s))
    ensures exists k :: k in [id] + Descendants(nodes, id) && k < |nodes| && nodes[k].data.Text? && Str.Contains(nodes[k].data.contents, s)
  {
    var ids := [id] + Descendants(nodes, id);
    var k :| 0 <= k < |ids| && TextHolds(nodes, ids[k], s);
    assert ids[k] in ids;
  }

  /** `is_empty` is `is_empty_element`. */
  predicate IsEmpty(nodes: seq<TreeNode>, id: NodeId)
  {
    IsEmptyElement(nodes, id)
  }

  /** `is_root` is `is_document`. */
  predicate IsRoot(nodes: seq<TreeNode>, id: NodeId)
  {
    id < |nodes| && IsDocument(nodes[id])
  }

  /** The adapter's own `is_link` hook. */
  predicate AdapterIsLink(nodes: seq<TreeNode>, id: NodeId)
  {
    false
  }

  /**
   * `:empty` holds only for elements and `:root` only for the document node,
   * so no node is both; an element with only text is not empty; and the
   * `is_link` hook stays false even on a link that `:any-link` matches.
   */
  lemma StructuralHooks(nodes: seq<TreeNode>, id: NodeId)
    requires WellFormed(nodes)
    ensures IsEmpty(nodes, id) ==> ElementAt(nodes, id).Some? && !IsRoot(nodes, id)
    ensures IsRoot(nodes, id) ==> ElementAt(nodes, id).None? && !IsEmpty(nodes, id)
    ensures MatchNonTSPseudoClass(nodes, id, OnlyText) ==> !IsEmpty(nodes, id)
    ensures MatchNonTSPseudoClass(nodes, id, AnyLink) ==> !AdapterIsLink(nodes, id)
  {
    if HasOnlyText(nodes, id) {
      OnlyTextNotEmpty(nodes, id);
    }
  }
}
