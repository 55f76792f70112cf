/**
 * The inputs of the tests in src/css_path.rs, parsed: each combinator
 * belongs to the compound written after it, and an attribute test with
 * whitespace before its operator, or with no operator the parser knows,
 * is not read at all.
 */
module CssPathExamples {
  import opened Wrappers
  import opened Str
  import opened MiniSelectors
  import opened MiniParser
  import opened MiniRender
  import opened CssPath
  import opened CssPathRender

  function Span(attr: Option<PathAttribute>): PathSelector
  {
    PathSelector(Some("span"), None, None, attr, Descendant)
  }

  function Named(name: string, c: Combinator): PathSelector
  {
    PathSelector(Some(name), None, None, None, c)
  }

  function HrefLink(): PathSelector
  {
    PathSelector(Some("a"), None, None, Some(PathAttribute("href", Some(Equals), Some("example"))), Child)
  }

  function SpanClasses(): PathSelector
  {
    PathSelector(Some("span"), None, Some(["class-1", "class-2"]), None, Adjacent)
  }

  lemma NamedWellFormed(name: string, c: Combinator)
    requires IsName(name)
    ensures WellFormedPath(Named(name, c))
  {
  }

  lemma LinkWritten()
    ensures WellFormedPath(HrefLink()) && RenderItem(HrefLink()) == "> a[href=\"example\"]"
  {
    assert IsName("a") && IsName("href") && !SomeChar("example", IsDoubleQuote);
  }

  lemma SpanClassesWritten()
    ensures WellFormedPath(SpanClasses())
    ensures RenderItem(SpanClasses()) == "+ " + ("span" + (".class-1" + ".class-2"))
  {
    var cs := ["class-1", "class-2"];
    assert IsName("span") && IsName("class-1") && IsName("class-2");
    assert cs[1..] == ["class-2"] && ["class-2"][1..] == [];
    assert RenderClasses(["class-2"]) == ".class-2";
    assert RenderClasses(cs) == ".class-1" + ".class-2";
    assert PathCompound(SpanClasses()) == "span" + (".class-1" + ".class-2");
  }

  function SimplePath(): seq<PathSelector>
  {
    [Named("div", Descendant), HrefLink(), SpanClasses()]
  }

  /** The text of `SimplePath`, piece by piece: `div > a[href="example"] + span.class-1.class-2`. */
  function SimplePathText(): string
  {
    "div" + " " + ("> a[href=\"example\"]" + " " + ("+ " + ("span" + (".class-1" + ".class-2"))))
  }

  lemma SimplePathWritten()
    ensures forall k :: 0 <= k < |SimplePath()| ==> WellFormedPath(SimplePath()[k])
    ensures RenderChain(SimplePath()) == SimplePathText()
  {
    var sels := SimplePath();
    assert IsName("div");
    NamedWellFormed("div", Descendant);
    LinkWritten();
    SpanClassesWritten();
    assert sels[1..][1..] == sels[2..] == [SpanClasses()];
    assert RenderChain(sels[2..]) == RenderItem(SpanClasses());
    assert RenderChain(sels[1..]) == RenderItem(HrefLink()) + " " + RenderItem(SpanClasses());
    assert RenderItem(sels[0]) == "div";
  }

  /** `div > a[href="example"] + span.class-1.class-2`: `a` carries `>` and `span` carries `+`. */
  lemma SimplePathParses()
    ensures ParseSelectorChain(SimplePathText())
      == Success([], [Named("div", Descendant), HrefLink(), SpanClasses()])
  {
    SimplePathWritten();
    ParseRenderedChain(SimplePath());
  }

  /** `body td a` is three selectors. */
  lemma NamesParse()
    ensures ParseSelectorChain("body td a") == Success([], [Named("body", Descendant), Named("td", Descendant), Named("a", Descendant)])
  {
    assert IsName("body") && IsName("td") && IsName("a");
    var sels := [Named("body", Descendant), Named("td", Descendant), Named("a", Descendant)];
    NamedWellFormed("body", Descendant);
    NamedWellFormed("td", Descendant);
    NamedWellFormed("a", Descendant);
    assert RenderChain(sels[1..]) == "td a";
    assert RenderChain(sels) == "body td a";
    ParseRenderedChain(sels);
  }

  /** `span[title]` and `span[title<op>"Title"]` for every operator parse to that one attribute test. */
  lemma OperatorsParse(op: Option<AttrOperator>)
    ensures var a := PathAttribute("title", op, if op.Some? then Some("Title") else None);
      ParseSingleSelector(RenderItem(Span(Some(a)))) == Success([], Span(Some(a)))
  {
    var a := PathAttribute("title", op, if op.Some? then Some("Title") else None);
    assert IsName("span") && IsName("title") && !SomeChar("Title", IsDoubleQuote);
    assert WellFormedPath(Span(Some(a)));
    ItemParses(Span(Some(a)), []);
    EmptyRight(RenderItem(Span(Some(a))));
  }

  /** The text `span[title="Title"]` is the item `OperatorsParse` reads with `=`. */
  lemma EqualsWritten()
    ensures RenderItem(Span(Some(PathAttribute("title", Some(Equals), Some("Title"))))) == "span[title=\"Title\"]"
  {
  }

  /** `span[title ="Title"]`: the space stops the operator, so no attribute test is read. */
  lemma SpacedOperatorNoAttr()
    ensures ParseSingleSelector("span[title =\"Title\"]") == Success("[title =\"Title\"]", Span(None))
  {
    var y := " =\"Title\"]";
    OperatorAtOther(y);
    assert "span[title =\"Title\"]" == "span" + ("[title" + y);
    assert "[title =\"Title\"]" == "[title" + y;
    UnreadAttr(y);
  }

  /** `span[title**"Title"]`: `**` is no operator, so no attribute test is read. */
  lemma BadOperatorNoAttr()
    ensures ParseSingleSelector("span[title**\"Title\"]") == Success("[title**\"Title\"]", Span(None))
  {
    var y := "**\"Title\"]";
    NotOperator(y);
    assert "span[title**\"Title\"]" == "span" + ("[title" + y);
    assert "[title**\"Title\"]" == "[title" + y;
    UnreadAttr(y);
  }

  lemma NotOperator(y: string)
    requires |y| >= 2 && y[0] == '*' && y[1] == '*'
    ensures OperatorAt(y).None?
  {
    if StartsWith(y, "~=") { StartsWithFirst(y, "~="); }
    if StartsWith(y, "|=") { StartsWithFirst(y, "|="); }
    if StartsWith(y, "^=") { StartsWithFirst(y, "^="); }
    if StartsWith(y, "$=") { StartsWithFirst(y, "$="); }
    if StartsWith(y, "=") { StartsWithFirst(y, "="); }
    assert y[..2][1] == '*';
  }

  /** After `span[title`, text that starts with neither an operator, a quote nor `]` leaves the attribute unread. */
  lemma UnreadAttr(y: string)
    requires y != [] && !IsNameChar(y[0]) && y[0] != '"' && y[0] != ']'
    requires OperatorAt(y).None?
    ensures ParseSingleSelector("span" + ("[title" + y)) == Success("[title" + y, Span(None))
  {
    var x := "[title" + y;
    assert x[1..] == "title" + y;
    assert IsName("span") && IsName("title");
    ParseNameOf("title", y);
    assert CssPath.ParseAttr(x).Error?;
    ParseNameOf("span", x);
    var s := "span" + x;
    assert !StartsWith(s, ">") && !StartsWith(s, "+") && !StartsWith(s, "~");
    SkipNoSpace(s);
    assert ParseCombinator(s).Error?;
    assert ParseId(x).Error? && ParseClasses(x).Error?;
  }
}
