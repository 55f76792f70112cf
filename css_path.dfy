/**
 * The older selector path of src/css_path.rs: the same compound parts as
 * the mini selector, parsed with the combinator in front of the compound
 * it introduces, at most one attribute test whose value must be
 * double-quoted, and a matcher that is laxer about ids and ignores the
 * attribute operator.
 *
 * Names, ids, classes and `multispace0`-delimited combinators are parsed
 * exactly as in src/mini_selector/parser.rs, so those parsers are shared
 * with module `MiniParser`.
 */
module CssPath {
  import opened Wrappers
  import opened Str
  import opened Arena
  import opened Elements
  import opened MiniSelectors
  import opened MiniParser

  /** `css_path::Attribute`: the operator and the value are parsed independently of each other. */
  datatype PathAttribute = PathAttribute(key: string, op: Option<AttrOperator>, value: Option<string>)

  /** `css_path::Selector`: the combinator is the one written before the compound. */
  datatype PathSelector = PathSelector(
    name: Option<string>,
    id: Option<string>,
    classes: Option<seq<string>>,
    attr: Option<PathAttribute>,
    combinator: Combinator)

  // ----- matching -----

  predicate MatchName(sel: PathSelector, e: Element)
  {
    sel.name.None? || e.name.local == sel.name.value
  }

  /** `match_id_attr`: only an id attribute that is present and different rejects the element. */
  predicate MatchIdAttr(sel: PathSelector, e: Element)
  {
    sel.id.None? || Id(e).None? || Id(e).value == sel.id.value
  }

  predicate MatchClasses(sel: PathSelector, e: Element)
  {
    match sel.classes
    case None => true
    case Some(cs) => forall k :: 0 <= k < |cs| ==> HasClass(e, cs[k])
  }

  /** `match_attr`: a value is compared for equality with `attr(key)`, whatever the operator; without one the key must be present. */
  predicate MatchAttr(sel: PathSelector, e: Element)
  {
    match sel.attr
    case None => true
    case Some(a) =>
      match a.value
      case Some(v) => Elements.AttrValue(e.attrs, a.key) == Some(v)
      case None => HasAttr(e.attrs, a.key)
  }

  /** `Selector::match_node`: elements only, and all four tests. */
  predicate MatchNode(sel: PathSelector, n: TreeNode)
  {
    match AsElement(n)
    case None => false
    case Some(e) => MatchName(sel, e) && MatchIdAttr(sel, e) && MatchClasses(sel, e) && MatchAttr(sel, e)
  }

  /**
   * What `match_node` asks of a node: that it is an element whose local
   * name is the selector's, whose id, when it has one, is the selector's,
   * that has every listed class, and that passes the attribute test.
   */
  lemma MatchNodeConjunction(sel: PathSelector, n: TreeNode)
    ensures !IsElement(n) ==> !MatchNode(sel, n)
    ensures IsElement(n) ==> (MatchNode(sel, n) <==>
      var e := n.data.element;
      && (sel.name.Some? ==> e.name.local == sel.name.value)
      && (sel.id.Some? && Id(e).Some? ==> Id(e) == sel.id)
      && (sel.classes.Some? ==> forall c :: c in sel.classes.value ==> HasClass(e, c))
      && MatchAttr(sel, e))
  {
  }

  /** An element without an id attribute meets every id constraint here, unlike in the mini selector. */
  lemma IdAbsentPasses(sel: PathSelector, e: Element, mini: MiniSelector)
    requires Id(e).None? && sel.id.Some? && mini.id == sel.id
    ensures MatchIdAttr(sel, e) && !MiniSelectors.MatchIdAttr(mini, e)
  {
  }

  /** The parsed operator plays no part: any two operators match alike. */
  lemma OperatorIgnored(sel: PathSelector, e: Element, op1: Option<AttrOperator>, op2: Option<AttrOperator>)
    requires sel.attr.Some?
    ensures MatchAttr(sel.(attr := Some(sel.attr.value.(op := op1))), e)
      <==> MatchAttr(sel.(attr := Some(sel.attr.value.(op := op2))), e)
  {
  }

  /** The mini selector this one reads as when every attribute operator is `=`. */
  function AsMini(sel: PathSelector): (m: MiniSelector)
    ensures m.name == sel.name && m.id == sel.id && m.classes == sel.classes && m.combinator == sel.combinator
    ensures sel.attr.None? ==> m.attrs.None?
    ensures sel.attr.Some? ==> m.attrs.Some? && |m.attrs.value| == 1 && m.attrs.value[0].key == sel.attr.value.key
  {
    var attrs := match sel.attr
      case None => None
      case Some(a) => Some([Attribute(a.key, if a.value.Some? then Some(MiniSelectors.AttrValue(Equals, a.value.value)) else None)]);
    MiniSelector(sel.name, sel.id, sel.classes, attrs, sel.combinator)
  }

  /**
   * Where the element has an id and the attribute value is not empty, a
   * match here is a match of the mini selector with `=`.
   */
  lemma PathMatchIsMini(sel: PathSelector, n: TreeNode)
    requires MatchNode(sel, n)
    requires Id(AsElement(n).value).Some?
    requires sel.attr.Some? && sel.attr.value.value.Some? ==> sel.attr.value.value.value != []
    ensures MatchTreeNode(AsMini(sel), n)
  {
    var e := AsElement(n).value;
    var m := AsMini(sel);
    if sel.attr.Some? {
      var a := sel.attr.value;
      var ma := m.attrs.value[0];
      if a.value.Some? {
        var k := FindAttr(e.attrs, a.key).value;
        assert e.attrs[k].name.local == ma.key && IsMatch(ma.value.value, e.attrs[k].value);
      }
      assert AttrHolds(ma, e);
    }
  }

  /**
   * Where no two attributes of the element share a local name, a match of
   * the mini selector with `=` is a match here.
   */
  lemma MiniMatchIsPath(sel: PathSelector, n: TreeNode)
    requires MatchTreeNode(AsMini(sel), n)
    requires var attrs := AsElement(n).value.attrs;
      forall i, j :: 0 <= i < j < |attrs| ==> attrs[i].name.local != attrs[j].name.local
    ensures MatchNode(sel, n)
  {
    var e := AsElement(n).value;
    var m := AsMini(sel);
    if sel.attr.Some? && sel.attr.value.value.Some? {
      var a := sel.attr.value;
      assert AttrHolds(m.attrs.value[0], e);
      var k :| 0 <= k < |e.attrs| && e.attrs[k].name.local == a.key && e.attrs[k].value == a.value.value;
      var f := FindAttr(e.attrs, a.key).value;
      assert f == k;
    }
  }

  // ----- parsing -----

  /** `parse_attr_operator`: the six tags, two-character ones first, with no whitespace around them. */
  function ParseAttrOperator(s: string): (r: Parsed<AttrOperator>)
    ensures !r.Failure?
    ensures r.Error? <==> OperatorAt(s).None?
    ensures r.Success? ==> s == OperatorText(r.value) + r.rest
  {
    match OperatorAt(s)
    case Some(op) =>
      assert s == s[..|OperatorText(op)|] + s[|OperatorText(op)|..];
      Success(s[|OperatorText(op)|..], op)
    case None => Error
  }

  /** The value of `parse_attr`: `"`, then `cut` of a non-empty run without `"` and the closing `"`. */
  function QuotedPart(s: string): (r: Parsed<string>)
    ensures r.Error? <==> s == [] || s[0] != '"'
    ensures r.Success? ==> |r.rest| < |s|
  {
    if s != [] && s[0] == '"' then QuotedValue(s[1..], IsDoubleQuote) else Error
  }

  /** `parse_attr`: `[`, a key, an optional operator, an optional quoted value, `]`. */
  function ParseAttr(s: string): (r: Parsed<PathAttribute>)
    ensures r.Success? ==> |r.rest| < |s|
  {
    if s == [] || s[0] != '[' then Error
    else
      match ParseName(s[1..])
      case Success(t, key) => AttrTail(t, key)
      case _ => Error
  }

  /** What `parse_attr` reads after the key: the optional operator and value, then `]`. */
  function AttrTail(t: string, key: string): (r: Parsed<PathAttribute>)
    ensures r.Success? ==> |r.rest| < |t| && r.value.key == key
  {
    var (t1, op) := Maybe(t, ParseAttrOperator(t));
    match Opt(t1, QuotedPart(t1))
    case Success(t2, value) =>
      if t2 != [] && t2[0] == ']' then Success(t2[1..], PathAttribute(key, op, value)) else Error
    case Error => Error
    case Failure => Failure
  }

  /** The four optional parts of a compound, before the selector is assembled. */
  datatype Parts = Parts(name: Option<string>, id: Option<string>, classes: Option<seq<string>>, attr: Option<PathAttribute>)

  predicate NoParts(p: Parts)
  {
    p.name.None? && p.id.None? && p.classes.None? && p.attr.None?
  }

  /**
   * The name, id, classes and attribute of `parse_single_selector`, each
   * optional and tried in turn; only a cut inside the attribute fails.
   */
  function ParseParts(s: string): (r: Parsed<Parts>)
    ensures !r.Error?
    ensures r.Success? ==> |r.rest| <= |s|
    ensures r.Success? && !NoParts(r.value) ==> |r.rest| < |s|
  {
    var (s1, name) := Maybe(s, ParseName(s));
    var (s2, id) := Maybe(s1, ParseId(s1));
    var (s3, classes) := Maybe(s2, ParseClasses(s2));
    var attrR := ParseAttr(s3);
    if attrR.Failure? then Failure
    else
      var (s4, attr) := Maybe(s3, attrR);
      Success(s4, Parts(name, id, classes, attr))
  }

  /** Parts that are all absent give the input back, and then nothing parsed at its start. */
  lemma NoPartsAtStart(s: string)
    requires ParseParts(s).Success? && NoParts(ParseParts(s).value)
    ensures ParseParts(s).rest == s
    ensures ParseName(s).Error? && ParseId(s).Error? && ParseClasses(s).Error? && ParseAttr(s).Error?
  {
  }

  /**
   * `parse_single_selector`: an optional combinator, then the optional name,
   * id, classes and single attribute; an error when all five are absent,
   * and the descendant combinator when none is written.
   */
  function ParseSingleSelector(s: string): (r: Parsed<PathSelector>)
    ensures r.Success? ==> |r.rest| < |s|
  {
    var (s1, comb) := Maybe(s, ParseCombinator(s));
    match ParseParts(s1)
    case Success(s2, p) =>
      if comb.None? && NoParts(p) then Error
      else Success(s2, PathSelector(p.name, p.id, p.classes, p.attr, comb.UnwrapOr(Descendant)))
    case Error => Error
    case Failure => Failure
  }

  /** One item of `parse_selector_chain`: a selector with optional whitespace around it. */
  function ChainItem(s: string): (r: Parsed<PathSelector>)
    ensures r.Success? ==> |r.rest| < |s|
  {
    var t := SkipSpace(s);
    match ParseSingleSelector(t)
    case Success(u, sel) => Success(SkipSpace(u), sel)
    case Error => Error
    case Failure => Failure
  }

  /** `parse_selector_chain`: `many0` of chain items. */
  function ParseSelectorChain(s: string): (r: Parsed<seq<PathSelector>>)
    ensures !r.Error?
    ensures r.Success? ==> |r.rest| <= |s|
    ensures r.Success? && r.value == [] ==> r.rest == s
    decreases |s|
  {
    match ChainItem(s)
    case Success(t, sel) =>
      var inner := ParseSelectorChain(t);
      if inner.Failure? then Failure
      else Success(inner.rest, [sel] + inner.value)
    case Error => Success(s, [])
    case Failure => Failure
  }

  /**
   * A selector is missing exactly when none of the five parts parses at the
   * start of the input, and a present one always consumes input.
   */
  lemma SingleSelectorErrorIff(s: string)
    ensures ParseSingleSelector(s).Error?
      <==> (ParseCombinator(s).Error? && ParseName(s).Error? && ParseId(s).Error?
            && ParseClasses(s).Error? && ParseAttr(s).Error?)
  {
    var p := ParseParts(s);
    if ParseSingleSelector(s).Error? {
      NoPartsAtStart(s);
    }
  }
}
