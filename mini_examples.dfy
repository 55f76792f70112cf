/**
 * The selectors of the parser's own examples in src/mini_selector/parser.rs,
 * and what they parse to: the written forms follow from the round trip,
 * the forms with extra whitespace, bare values or a bad operator from the
 * parser's steps.
 */
module MiniExamples {
  import opened Wrappers
  import opened Str
  import opened MiniSelectors
  import opened MiniParser
  import opened MiniRender

  // ---------------------------------------------------------------------
  // Written forms, through the round trip

  /** A three-selector list, written out piece by piece. */
  lemma RenderThree(s0: MiniSelector, s1: MiniSelector, s2: MiniSelector)
    requires s2.combinator == Descendant
    ensures RenderList([s0, s1, s2])
      == RenderCompound(s0) + CombinatorText(s0.combinator)
         + (RenderCompound(s1) + CombinatorText(s1.combinator) + RenderCompound(s2))
  {
    assert [s0, s1, s2][1..] == [s1, s2];
    assert [s1, s2][1..] == [s2];
    assert RenderList([s2]) == RenderCompound(s2);
  }

  lemma AllWellFormed(s0: MiniSelector, s1: MiniSelector, s2: MiniSelector)
    requires WellFormedSelector(s0) && WellFormedSelector(s1) && WellFormedSelector(s2)
    ensures forall k :: 0 <= k < |[s0, s1, s2]| ==> WellFormedSelector([s0, s1, s2][k])
  {
  }

  function Div(): MiniSelector
  {
    MiniSelector(Some("div"), None, None, None, Child)
  }

  function Href(): Attribute
  {
    Attribute("href", Some(AttrValue(Equals, "example")))
  }

  function Link(): MiniSelector
  {
    MiniSelector(Some("a"), None, None, Some([Href()]), Adjacent)
  }

  function SpanClasses(): MiniSelector
  {
    MiniSelector(Some("span"), None, Some(["class-1", "class-2"]), None, Descendant)
  }

  lemma DivWritten()
    ensures WellFormedSelector(Div()) && RenderCompound(Div()) == "div"
  {
    assert IsName("div");
  }

  lemma LinkWellFormed()
    ensures WellFormedSelector(Link())
  {
    assert IsName("a") && IsName("href");
    assert !SomeChar("example", IsDoubleQuote);
  }

  lemma LinkWritten()
    ensures RenderCompound(Link()) == "a[href=\"example\"]"
  {
    OneAttr(Href());
    assert RenderAttr(Href()) == "[href=\"example\"]";
  }

  lemma SpanClassesWellFormed()
    ensures WellFormedSelector(SpanClasses())
  {
    assert IsName("span") && IsName("class-1") && IsName("class-2");
  }

  lemma SpanClassesWritten()
    ensures RenderCompound(SpanClasses()) == "span.class-1.class-2"
  {
    TwoClasses("class-1", "class-2");
  }

  /** `div > a[href="example"] + span.class-1.class-2` is three selectors joined by `>` and `+`. */
  lemma SimplePathParses()
    ensures ParseSelectorList("div" + " > " + ("a[href=\"example\"]" + " + " + "span.class-1.class-2"))
      == Success([], [Div(), Link(), SpanClasses()])
  {
    DivWritten();
    LinkWellFormed();
    LinkWritten();
    SpanClassesWellFormed();
    SpanClassesWritten();
    AllWellFormed(Div(), Link(), SpanClasses());
    RenderThree(Div(), Link(), SpanClasses());
    ParseRenderedList([Div(), Link(), SpanClasses()]);
  }

  function Named(name: string): MiniSelector
  {
    MiniSelector(Some(name), None, None, None, Descendant)
  }

  lemma NamedWritten(name: string)
    requires IsName(name)
    ensures WellFormedSelector(Named(name)) && RenderCompound(Named(name)) == name
  {
  }

  /** `body td a` is three selectors joined by the descendant combinator. */
  lemma NamesParse()
    ensures ParseSelectorList("body" + " " + ("td" + " " + "a")) == Success([], [Named("body"), Named("td"), Named("a")])
  {
    assert IsName("body") && IsName("td") && IsName("a");
    NamedWritten("body");
    NamedWritten("td");
    NamedWritten("a");
    AllWellFormed(Named("body"), Named("td"), Named("a"));
    RenderThree(Named("body"), Named("td"), Named("a"));
    ParseRenderedList([Named("body"), Named("td"), Named("a")]);
  }

  function MainHref(): Attribute
  {
    Attribute("href", Some(AttrValue(Equals, "https://example.com")))
  }

  function FullCompound(): MiniSelector
  {
    MiniSelector(Some("a"), Some("main-link"), Some(["main-class", "extra-class"]), Some([MainHref()]), Descendant)
  }

  lemma FullCompoundWellFormed()
    ensures WellFormedSelector(FullCompound())
  {
    assert IsName("a") && IsName("main-link") && IsName("main-class") && IsName("extra-class") && IsName("href");
    assert !SomeChar("https://example.com", IsDoubleQuote);
  }

  lemma FullCompoundWritten()
    ensures RenderCompound(FullCompound())
      == "a" + ("#" + "main-link") + ("." + "main-class" + ("." + "extra-class"))
         + ("[" + "href" + ("=" + "\"" + "https://example.com" + "\"") + "]")
  {
    TwoClasses("main-class", "extra-class");
    OneAttr(MainHref());
  }

  /** `a#main-link.main-class.extra-class[href="https://example.com"]`: all four parts at once. */
  lemma FullCompoundParses()
    ensures ParseMiniSelector("a" + ("#" + "main-link") + ("." + "main-class" + ("." + "extra-class"))
         + ("[" + "href" + ("=" + "\"" + "https://example.com" + "\"") + "]"))
      == Success([], FullCompound())
  {
    FullCompoundWellFormed();
    FullCompoundWritten();
    CompoundAlone(FullCompound());
  }

  lemma TwoClasses(c1: string, c2: string)
    ensures RenderClasses([c1, c2]) == "." + c1 + ("." + c2)
  {
    assert [c1, c2][1..] == [c2];
    assert RenderClasses([c2]) == "." + c2 + [];
  }

  lemma OneAttr(a: Attribute)
    ensures RenderAttrs([a]) == RenderAttr(a)
  {
    assert RenderAttrs([a]) == RenderAttr(a) + RenderAttrs([]);
  }

  function SpanWith(attrs: Option<seq<Attribute>>): MiniSelector
  {
    MiniSelector(Some("span"), None, None, attrs, Descendant)
  }

  function Title(op: AttrOperator): Attribute
  {
    Attribute("title", Some(AttrValue(op, "Title")))
  }

  lemma SpanWithWritten(a: Attribute)
    ensures RenderCompound(SpanWith(Some([a]))) == "span" + RenderAttr(a)
  {
    OneAttr(a);
  }

  lemma SpanWithWellFormed(a: Attribute)
    requires WellFormedAttr(a)
    ensures WellFormedSelector(SpanWith(Some([a])))
  {
    assert IsName("span");
  }

  lemma TitleWellFormed(op: AttrOperator)
    ensures WellFormedAttr(Title(op)) && WellFormedAttr(Attribute("title", None))
  {
    assert IsName("title");
    assert !SomeChar("Title", IsDoubleQuote);
  }

  /** `span[title]`, and `span[title<op>"Title"]` for each of the six operators. */
  lemma OperatorsParse(op: AttrOperator)
    ensures ParseMiniSelector("span" + ("[" + "title" + "" + "]")) == Success([], SpanWith(Some([Attribute("title", None)])))
    ensures ParseMiniSelector("span" + ("[" + "title" + (OperatorText(op) + "\"" + "Title" + "\"") + "]"))
      == Success([], SpanWith(Some([Title(op)])))
  {
    TitleWellFormed(op);
    SpanWithWellFormed(Title(op));
    SpanWithWritten(Title(op));
    CompoundAlone(SpanWith(Some([Title(op)])));
    SpanWithWellFormed(Attribute("title", None));
    SpanWithWritten(Attribute("title", None));
    CompoundAlone(SpanWith(Some([Attribute("title", None)])));
  }

  // ---------------------------------------------------------------------
  // Forms the writer does not produce

  lemma OperatorSteps(s: string, x: string, op: AttrOperator, r: string)
    requires SkipSpace(s) == x && OperatorAt(x) == Some(op)
    requires SkipSpace(x[|OperatorText(op)|..]) == r
    ensures ParseAttrOperator(s) == Success(r, op)
  {
  }

  lemma BareSteps(s: string, r: string, op: AttrOperator, v: string, t: string)
    requires ParseAttrOperator(s) == Success(r, op)
    requires r != [] && r[0] != '"' && r[0] != '\''
    requires TakeRun(r, IsCloseBracket) == Success(t, v)
    ensures ParseAttrValue(s) == Success(t, AttrValue(op, v))
  {
  }

  lemma QuotedSteps(s: string, r: string, op: AttrOperator, v: string, t: string)
    requires ParseAttrOperator(s) == Success(r, op)
    requires r != [] && r[0] == '"'
    requires QuotedValue(r[1..], IsDoubleQuote) == Success(t, v)
    ensures ParseAttrValue(s) == Success(t, AttrValue(op, v))
  {
  }

  /** The operator step: blanks, the operator's text and blanks again, up to the first non-blank. */
  lemma OperatorPart(sp1: string, op: AttrOperator, sp2: string, w: string)
    requires !SomeChar(sp1, NotMultispace) && !SomeChar(sp2, NotMultispace)
    requires w != [] && NotMultispace(w[0])
    ensures ParseAttrOperator(sp1 + (OperatorText(op) + (sp2 + w))) == Success(w, op)
  {
    OperatorFirst(op, sp2 + w);
    SkipSpaceOf(sp1, OperatorText(op) + (sp2 + w));
    OperatorAtOf(op, sp2 + w);
    DropPrefix(OperatorText(op), sp2 + w);
    SkipSpaceOf(sp2, w);
    OperatorSteps(sp1 + (OperatorText(op) + (sp2 + w)), OperatorText(op) + (sp2 + w), op, w);
  }

  lemma OperatorFirst(op: AttrOperator, y: string)
    ensures OperatorText(op) + y != [] && NotMultispace((OperatorText(op) + y)[0])
  {
    FirstOfAppend(OperatorText(op), y);
  }

  /** Whitespace around an operator is skipped, and a bare value runs to the closing bracket. */
  lemma BareValueOf(sp1: string, op: AttrOperator, sp2: string, v: string, t: string)
    requires !SomeChar(sp1, NotMultispace) && !SomeChar(sp2, NotMultispace)
    requires v != [] && NotMultispace(v[0]) && v[0] != '"' && v[0] != '\'' && !SomeChar(v, IsCloseBracket)
    requires t != [] && t[0] == ']'
    ensures ParseAttrValue(sp1 + OperatorText(op) + sp2 + v + t) == Success(t, AttrValue(op, v))
  {
    Assoc5(sp1, OperatorText(op), sp2, v, t);
    FirstOfAppend(v, t);
    OperatorPart(sp1, op, sp2, v + t);
    TakeRunOf(v, t, IsCloseBracket);
    BareSteps(sp1 + OperatorText(op) + sp2 + v + t, v + t, op, v, t);
  }

  /** Whitespace around an operator is skipped before a quoted value too. */
  lemma SpacedQuotedOf(sp1: string, op: AttrOperator, sp2: string, v: string, t: string)
    requires !SomeChar(sp1, NotMultispace) && !SomeChar(sp2, NotMultispace)
    requires v != [] && !SomeChar(v, IsDoubleQuote)
    ensures ParseAttrValue(sp1 + OperatorText(op) + sp2 + ("\"" + v + "\"") + t) == Success(t, AttrValue(op, v))
  {
    Assoc5(sp1, OperatorText(op), sp2, "\"" + v + "\"", t);
    Assoc4("\"", v, "\"", t);
    QuotedPart(v, t);
    OperatorPart(sp1, op, sp2, "\"" + (v + ("\"" + t)));
    QuotedSteps(sp1 + OperatorText(op) + sp2 + ("\"" + v + "\"") + t, "\"" + (v + ("\"" + t)), op, v, t);
  }

  /** A quote, a value without quotes, a closing quote. */
  lemma QuotedPart(v: string, t: string)
    requires v != [] && !SomeChar(v, IsDoubleQuote)
    ensures "\"" + (v + ("\"" + t)) != [] && ("\"" + (v + ("\"" + t)))[0] == '"'
    ensures QuotedValue(("\"" + (v + ("\"" + t)))[1..], IsDoubleQuote) == Success(t, v)
  {
    ConsTail('"', v + ("\"" + t));
    ConsTail('"', t);
    TakeRunOf(v, "\"" + t, IsDoubleQuote);
    QuotedOf(v, t);
  }

  lemma QuotedOf(v: string, t: string)
    requires v != [] && !SomeChar(v, IsDoubleQuote)
    requires TakeRun(v + (['"'] + t), IsDoubleQuote) == Success(['"'] + t, v)
    ensures QuotedValue(v + (['"'] + t), IsDoubleQuote) == Success(t, v)
  {
    ConsTail('"', t);
  }

  lemma OneAttrSteps(s: string, a: Attribute)
    requires AttrsMany(s) == Success([], [a])
    ensures ParseAttrs(s) == Success([], [a])
  {
  }

  lemma AttrSteps(s: string, t: string, key: string, av: AttrValue)
    requires s != [] && s[0] == '['
    requires ParseName(s[1..]) == Success(t, key)
    requires ParseAttrValue(t) == Success("]", av)
    ensures ParseAttr(s) == Success([], Attribute(key, Some(av)))
  {
  }

  lemma LastAttrSteps(s: string, a: Attribute)
    requires ParseAttr(s) == Success([], a)
    ensures AttrsMany(s) == Success([], [a])
  {
    assert AttrItem(s) == Success([], a);
    assert AttrsMany([]) == Success([], []);
    AttrsManyCons(s, a, [], [], []);
    assert [a] + [] == [a];
  }

  lemma KeyAfterBracket(key: string, vt: string)
    requires IsName(key)
    requires vt != [] && !IsNameChar(vt[0])
    ensures var x1 := "[" + key + vt + "]"; x1 != [] && x1[0] == '[' && ParseName(x1[1..]) == Success(vt + "]", key)
  {
    var x1 := "[" + key + vt + "]";
    assert x1 == ['['] + (key + (vt + "]"));
    ConsTail('[', key + (vt + "]"));
    FirstOfAppend(vt, "]");
    ParseNameOf(key, vt + "]");
  }

  /** One valued attribute, whatever text spells its operator and value, is the whole attribute part. */
  lemma OneValuedAttr(key: string, vt: string, av: AttrValue)
    requires IsName(key)
    requires vt != [] && !IsNameChar(vt[0])
    requires ParseAttrValue(vt + "]") == Success("]", av)
    ensures ParseAttrs("[" + key + vt + "]") == Success([], [Attribute(key, Some(av))])
  {
    KeyAfterBracket(key, vt);
    AttrSteps("[" + key + vt + "]", vt + "]", key, av);
    LastAttrSteps("[" + key + vt + "]", Attribute(key, Some(av)));
    OneAttrSteps("[" + key + vt + "]", Attribute(key, Some(av)));
  }

  lemma NameBeforeBracket(name: string, x: string)
    requires IsName(name)
    requires x != [] && x[0] == '['
    ensures ParseName(name + x) == Success(x, name)
  {
    ParseNameOf(name, x);
  }

  lemma AttrsNext(x: string)
    requires x != [] && x[0] == '['
    ensures ParseId(x).Error? && ParseClasses(x).Error?
  {
  }

  lemma NameAttrsSteps(s: string, x: string, name: string, attrs: seq<Attribute>)
    requires ParseName(s) == Success(x, name)
    requires ParseId(x).Error? && ParseClasses(x).Error?
    requires ParseAttrs(x) == Success([], attrs)
    ensures ParseMiniSelector(s) == Success([], MiniSelector(Some(name), None, None, Some(attrs), Descendant))
  {
    NothingAfter();
    MiniSelectorSteps(s, x, x, x, [], Some(name), None, None, Some(attrs));
  }

  /** A name followed by one valued attribute. */
  lemma NameThenAttr(name: string, key: string, vt: string, av: AttrValue)
    requires IsName(name) && IsName(key)
    requires vt != [] && !IsNameChar(vt[0])
    requires ParseAttrValue(vt + "]") == Success("]", av)
    ensures ParseMiniSelector(name + ("[" + key + vt + "]"))
      == Success([], MiniSelector(Some(name), None, None, Some([Attribute(key, Some(av))]), Descendant))
  {
    KeyAfterBracket(key, vt);
    NameBeforeBracket(name, "[" + key + vt + "]");
    AttrsNext("[" + key + vt + "]");
    OneValuedAttr(key, vt, av);
    NameAttrsSteps(name + ("[" + key + vt + "]"), "[" + key + vt + "]", name, [Attribute(key, Some(av))]);
  }

  lemma SpaceFirst(a: string, b: string, c: string)
    ensures (" " + a + b + c) != [] && (" " + a + b + c)[0] == ' '
  {
    assert " " + a + b + c == [' '] + (a + b + c);
  }

  /** A name, then one attribute whose key is followed by a space, an operator, more blanks and a quoted value. */
  lemma NameSpacedQuoted(name: string, key: string, op: AttrOperator, sp2: string, v: string)
    requires IsName(name) && IsName(key)
    requires !SomeChar(sp2, NotMultispace) && v != [] && !SomeChar(v, IsDoubleQuote)
    ensures ParseMiniSelector(name + ("[" + key + (" " + OperatorText(op) + sp2 + ("\"" + v + "\"")) + "]"))
      == Success([], MiniSelector(Some(name), None, None, Some([Attribute(key, Some(AttrValue(op, v)))]), Descendant))
  {
    QuotedAfterSpace(op, sp2, v);
    SpacedNotName(OperatorText(op), sp2, "\"" + v + "\"");
    NameThenAttr(name, key, " " + OperatorText(op) + sp2 + ("\"" + v + "\""), AttrValue(op, v));
  }

  /** A name, then one attribute whose key is followed by a space, an operator, more blanks and a bare value. */
  lemma NameSpacedBare(name: string, key: string, op: AttrOperator, sp2: string, v: string)
    requires IsName(name) && IsName(key)
    requires !SomeChar(sp2, NotMultispace)
    requires v != [] && NotMultispace(v[0]) && v[0] != '"' && v[0] != '\'' && !SomeChar(v, IsCloseBracket)
    ensures ParseMiniSelector(name + ("[" + key + (" " + OperatorText(op) + sp2 + v) + "]"))
      == Success([], MiniSelector(Some(name), None, None, Some([Attribute(key, Some(AttrValue(op, v)))]), Descendant))
  {
    BareAfterSpace(op, sp2, v);
    SpacedNotName(OperatorText(op), sp2, v);
    NameThenAttr(name, key, " " + OperatorText(op) + sp2 + v, AttrValue(op, v));
  }

  lemma QuotedAfterSpace(op: AttrOperator, sp2: string, v: string)
    requires !SomeChar(sp2, NotMultispace) && v != [] && !SomeChar(v, IsDoubleQuote)
    ensures ParseAttrValue(" " + OperatorText(op) + sp2 + ("\"" + v + "\"") + "]") == Success("]", AttrValue(op, v))
  {
    assert !SomeChar(" ", NotMultispace);
    SpacedQuotedOf(" ", op, sp2, v, "]");
  }

  lemma BareAfterSpace(op: AttrOperator, sp2: string, v: string)
    requires !SomeChar(sp2, NotMultispace)
    requires v != [] && NotMultispace(v[0]) && v[0] != '"' && v[0] != '\'' && !SomeChar(v, IsCloseBracket)
    ensures ParseAttrValue(" " + OperatorText(op) + sp2 + v + "]") == Success("]", AttrValue(op, v))
  {
    assert !SomeChar(" ", NotMultispace);
    BareValueOf(" ", op, sp2, v, "]");
  }

  lemma SpacedNotName(a: string, b: string, c: string)
    ensures " " + a + b + c != [] && !IsNameChar((" " + a + b + c)[0])
  {
    SpaceFirst(a, b, c);
  }

  /** `span[title ="Title"]`: the space before the operator is skipped. */
  lemma SpacedQuotedParses()
    ensures ParseMiniSelector("span" + ("[" + "title" + (" " + OperatorText(Equals) + "" + ("\"" + "Title" + "\"")) + "]"))
      == Success([], SpanWith(Some([Title(Equals)])))
  {
    assert IsName("span") && IsName("title");
    assert !SomeChar("", NotMultispace) && !SomeChar("Title", IsDoubleQuote);
    NameSpacedQuoted("span", "title", Equals, "", "Title");
  }

  /** `span[title =Title]`: a bare value runs to the closing bracket. */
  lemma SpacedBareParses()
    ensures ParseMiniSelector("span" + ("[" + "title" + (" " + OperatorText(Equals) + "" + "Title") + "]"))
      == Success([], SpanWith(Some([Title(Equals)])))
  {
    assert IsName("span") && IsName("title");
    assert !SomeChar("", NotMultispace) && !SomeChar("Title", IsCloseBracket);
    NameSpacedBare("span", "title", Equals, "", "Title");
  }

  /** `span[title = The Title]`: spaces on both sides of the operator, and a bare value with a space inside. */
  lemma SpacedWordsParse()
    ensures ParseMiniSelector("span" + ("[" + "title" + (" " + OperatorText(Equals) + " " + "The Title") + "]"))
      == Success([], SpanWith(Some([Attribute("title", Some(AttrValue(Equals, "The Title")))])))
  {
    assert IsName("span") && IsName("title");
    assert !SomeChar(" ", NotMultispace) && !SomeChar("The Title", IsCloseBracket);
    NameSpacedBare("span", "title", Equals, " ", "The Title");
  }

  /** `**` is no operator: no tag starts with two asterisks. */
  lemma DoubleStarNoOperator(q: string)
    ensures ParseAttrValue("**" + q).Error?
  {
    var u := "**" + q;
    assert u == ['*'] + (['*'] + q);
    SkipNoSpace(u);
    if StartsWith(u, "~=") { StartsWithFirst(u, "~="); }
    if StartsWith(u, "|=") { StartsWithFirst(u, "|="); }
    if StartsWith(u, "^=") { StartsWithFirst(u, "^="); }
    if StartsWith(u, "$=") { StartsWithFirst(u, "$="); }
    if StartsWith(u, "=") { StartsWithFirst(u, "="); }
  }

  /** An attribute whose key is followed by neither a valid operator nor `]` is a recoverable error. */
  lemma BadValueSteps(s: string, t: string, key: string)
    requires s != [] && s[0] == '['
    requires ParseName(s[1..]) == Success(t, key)
    requires ParseAttrValue(t).Error? && t != [] && t[0] != ']'
    ensures ParseAttrs(s).Error?
  {
    assert ParseAttr(s).Error?;
  }

  lemma NameOnlySteps(s: string, x: string, name: string)
    requires ParseName(s) == Success(x, name)
    requires ParseId(x).Error? && ParseClasses(x).Error? && ParseAttrs(x).Error?
    requires ParseCombinator(x).Error?
    ensures ParseMiniSelector(s) == Success(x, MiniSelector(Some(name), None, None, None, Descendant))
  {
    MiniSelectorSteps(s, x, x, x, x, Some(name), None, None, None);
  }

  lemma BracketNoCombinator(x: string)
    requires x != [] && x[0] == '['
    ensures ParseCombinator(x).Error?
  {
    SkipNoSpace(x);
  }

  lemma BadOperatorAttr(q: string)
    ensures ParseAttrs("[" + "title" + ("**" + q)).Error?
  {
    var x := "[" + "title" + ("**" + q);
    assert x == ['['] + ("title" + ("**" + q));
    ConsTail('[', "title" + ("**" + q));
    assert ("**" + q)[0] == '*';
    assert IsName("title");
    ParseNameOf("title", "**" + q);
    DoubleStarNoOperator(q);
    BadValueSteps(x, "**" + q, "title");
  }

  /** `span[title**"Title"]`: `**` is no operator, so the attribute part is absent and left unparsed. */
  lemma BadOperatorLeavesAttrs()
    ensures ParseMiniSelector("span" + ("[" + "title" + ("**" + "\"Title\"]")))
      == Success("[" + "title" + ("**" + "\"Title\"]"), SpanWith(None))
  {
    assert IsName("span");
    BadOperatorAttr("\"Title\"]");
    assert ("[" + "title" + ("**" + "\"Title\"]"))[0] == '[';
    NameBeforeBracket("span", "[" + "title" + ("**" + "\"Title\"]"));
    AttrsNext("[" + "title" + ("**" + "\"Title\"]"));
    BracketNoCombinator("[" + "title" + ("**" + "\"Title\"]"));
    NameOnlySteps("span" + ("[" + "title" + ("**" + "\"Title\"]")), "[" + "title" + ("**" + "\"Title\"]"), "span");
  }
}
