/**
 * The reduced selector of src/mini_selector/selector.rs: one compound
 * selector (optional local name, optional id, classes, attribute tests)
 * followed by the combinator that links it to the next compound, and the
 * predicate that tests one element against it.
 */
module MiniSelectors {
  import opened Wrappers
  import opened Str
  import opened Arena
  import opened Elements

  datatype AttrOperator = Equals | Includes | DashMatch | Prefix | Suffix | Substring

  datatype Combinator = Descendant | Child | Adjacent | Sibling

  datatype AttrValue = AttrValue(op: AttrOperator, value: string)

  datatype Attribute = Attribute(key: string, value: Option<AttrValue>)

  datatype MiniSelector = MiniSelector(
    name: Option<string>,
    id: Option<string>,
    classes: Option<seq<string>>,
    attrs: Option<seq<Attribute>>,
    combinator: Combinator)

  /** `SELECTOR_WHITESPACE`: space, tab, line feed, carriage return and form feed. */
  predicate IsSelectorWhitespace(c: char)
  {
    c == ' ' || c == '\t' || c == '\n' || c == '\r' || c == '\U{000C}'
  }

  /** The separators of `Includes` are exactly the ASCII whitespace of `str::split_ascii_whitespace`. */
  lemma SelectorWhitespaceIsAscii(c: char)
    ensures IsSelectorWhitespace(c) <==> IsAsciiWhitespace(c)
  {
  }

  /** `AttrValue::is_match`: the operator's test of an element's attribute value. */
  predicate IsMatch(av: AttrValue, elemValue: string)
  {
    if elemValue == [] then false
    else
      var e, s := elemValue, av.value;
      match av.op
      case Equals => e == s
      case Includes => s in SplitOn(e, IsSelectorWhitespace)
      case DashMatch => e == s || (StartsWith(e, s) && |e| > |s| && e[|s|] == '-')
      case Prefix => StartsWith(e, s)
      case Suffix => EndsWith(e, s)
      case Substring => Contains(e, s)
  }

  /** No operator matches an empty attribute value. */
  lemma EmptyValueNeverMatches(av: AttrValue)
    ensures !IsMatch(av, "")
  {
  }

  /** `|=` holds exactly when the value is the operand or starts with the operand and a hyphen. */
  lemma DashMatchIff(e: string, s: string)
    requires e != []
    ensures IsMatch(AttrValue(DashMatch, s), e) <==> e == s || StartsWith(e, s + "-")
  {
    if StartsWith(e, s + "-") {
      assert e[..|s|] == (s + "-")[..|s|] == s;
      assert e[|s|] == e[..|s| + 1][|s|];
    }
    if StartsWith(e, s) && |e| > |s| && e[|s|] == '-' {
      assert e[..|s| + 1] == e[..|s|] + [e[|s|]];
    }
  }

  /**
   * `~=` with a non-empty operand holds exactly when the operand is one of
   * the value's whitespace-separated words, so `[class~=c]` is `has_class(c)`.
   */
  lemma IncludesIsClassWord(e: Element, c: string)
    requires c != []
    ensures Class(e).Some? ==> (IsMatch(AttrValue(Includes, c), Class(e).value) <==> HasClass(e, c))
  {
    if Class(e).Some? {
      var v := Class(e).value;
      SplitOnFields(v, IsSelectorWhitespace, c);
      FieldsSameSeparators(v, IsSelectorWhitespace, IsAsciiWhitespace);
    }
  }

  /** `Element::id` exists and equals the selector's id, or the selector has none. */
  predicate MatchIdAttr(sel: MiniSelector, e: Element)
  {
    match sel.id
    case None => true
    case Some(id) => Id(e) == Some(id)
  }

  predicate MatchName(sel: MiniSelector, e: Element)
  {
    sel.name.None? || e.name.local == sel.name.value
  }

  predicate MatchClasses(sel: MiniSelector, e: Element)
  {
    match sel.classes
    case None => true
    case Some(cs) => forall k :: 0 <= k < |cs| ==> HasClass(e, cs[k])
  }

  /** One attribute test: a valued test needs a same-named attribute whose value matches; a bare key needs the attribute. */
  predicate AttrHolds(a: Attribute, e: Element)
  {
    match a.value
    case Some(av) => exists k :: 0 <= k < |e.attrs| && e.attrs[k].name.local == a.key && IsMatch(av, e.attrs[k].value)
    case None => HasAttr(e.attrs, a.key)
  }

  /** What `match_attrs` computes: every attribute test holds. */
  predicate AttrsHold(sel: MiniSelector, e: Element)
  {
    match sel.attrs
    case None => true
    case Some(attrs) => forall k :: 0 <= k < |attrs| ==> AttrHolds(attrs[k], e)
  }

  /** `match_tree_node`: elements only, and all four parts must match. */
  predicate MatchTreeNode(sel: MiniSelector, n: TreeNode)
  {
    match AsElement(n)
    case None => false
    case Some(e) => MatchName(sel, e) && MatchIdAttr(sel, e) && MatchClasses(sel, e) && AttrsHold(sel, e)
  }

  /** `match_node`; the source indexes the vector directly, so the id must be in range. */
  predicate MatchNode(sel: MiniSelector, nodes: seq<TreeNode>, id: NodeId)
    requires id < |nodes|
  {
    MatchTreeNode(sel, nodes[id])
  }

  /** `any` over the element's attributes, as a loop. */
  method AnyAttrMatches(e: Element, key: string, av: AttrValue) returns (found: bool)
    ensures found <==> exists k :: 0 <= k < |e.attrs| && e.attrs[k].name.local == key && IsMatch(av, e.attrs[k].value)
  {
    found := false;
    var k := 0;
    while k < |e.attrs|
      invariant 0 <= k <= |e.attrs|
      invariant forall j :: 0 <= j < k ==> !(e.attrs[j].name.local == key && IsMatch(av, e.attrs[j].value))
    {
      if e.attrs[k].name.local == key && IsMatch(av, e.attrs[k].value) {
        return true;
      }
      k := k + 1;
    }
  }

  /** `match_attrs`: the `is_ok` loop that stops at the first failing test. */
  method MatchAttrs(sel: MiniSelector, e: Element) returns (isOk: bool)
    ensures isOk <==> AttrsHold(sel, e)
  {
    if sel.attrs.None? {
      return true;
    }
    var attrs := sel.attrs.value;
    isOk := true;
    var i := 0;
    while i < |attrs|
      invariant 0 <= i <= |attrs|
      invariant isOk <==> forall k :: 0 <= k < i ==> AttrHolds(attrs[k], e)
    {
      var a := attrs[i];
      match a.value {
        case Some(av) =>
          isOk := AnyAttrMatches(e, a.key, av);
        case None =>
          isOk := HasAttr(e.attrs, a.key);
      }
      i := i + 1;
      if !isOk {
        break;
      }
    }
  }

  /** Non-elements never match: a text node does not match `#main-link`. */
  lemma NonElementsNeverMatch(sel: MiniSelector, n: TreeNode)
    requires !IsElement(n)
    ensures !MatchTreeNode(sel, n)
  {
  }

  /** An id test needs an id attribute: an element without one fails every selector with an id. */
  lemma IdNeedsAttribute(sel: MiniSelector, n: TreeNode)
    requires sel.id.Some? && IsElement(n) && !HasAttr(n.data.element.attrs, "id")
    ensures !MatchTreeNode(sel, n)
  {
  }
}
