/**
 * Writing a `css_path` selector chain back as text, and the round trip:
 * every well-formed chain, written with its combinators in front of the
 * compounds they introduce, parses back to itself. The writer is the
 * reference that pins down what `parse_selector_chain` accepts.
 */
module CssPathRender {
  import opened Wrappers
  import opened Str
  import opened MiniSelectors
  import opened MiniParser
  import opened MiniRender
  import opened CssPath

  /** An attribute test the writer can quote: a name for a key and a non-empty value without `"`. */
  predicate WellFormedPathAttr(a: PathAttribute)
  {
    IsName(a.key) && (a.value.Some? ==> a.value.value != [] && !SomeChar(a.value.value, IsDoubleQuote))
  }

  /** A selector the parser can produce with a non-empty compound after its combinator. */
  predicate WellFormedPath(sel: PathSelector)
  {
    (sel.name.Some? ==> IsName(sel.name.value))
    && (sel.id.Some? ==> IsName(sel.id.value))
    && (sel.classes.Some? ==> sel.classes.value != [] && forall k :: 0 <= k < |sel.classes.value| ==> IsName(sel.classes.value[k]))
    && (sel.attr.Some? ==> WellFormedPathAttr(sel.attr.value))
    && (sel.name.Some? || sel.id.Some? || sel.classes.Some? || sel.attr.Some?)
  }

  function PathOperatorText(op: Option<AttrOperator>): string
  {
    if op.Some? then OperatorText(op.value) else ""
  }

  function PathValueText(v: Option<string>): string
  {
    if v.Some? then "\"" + v.value + "\"" else ""
  }

  function RenderPathAttr(a: PathAttribute): string
  {
    "[" + a.key + PathOperatorText(a.op) + PathValueText(a.value) + "]"
  }

  function PathNameText(sel: PathSelector): string
  {
    if sel.name.Some? then sel.name.value else []
  }

  function PathIdText(sel: PathSelector): string
  {
    if sel.id.Some? then "#" + sel.id.value else []
  }

  function PathClassesText(sel: PathSelector): string
  {
    if sel.classes.Some? then RenderClasses(sel.classes.value) else []
  }

  function PathAttrText(sel: PathSelector): string
  {
    if sel.attr.Some? then RenderPathAttr(sel.attr.value) else []
  }

  /** The compound: name, `#id`, `.class`es and the one `[attr]`, in the parser's order. */
  function PathCompound(sel: PathSelector): string
  {
    PathNameText(sel) + PathIdText(sel) + PathClassesText(sel) + PathAttrText(sel)
  }

  /** The combinator written before its compound: nothing for the descendant one. */
  function Lead(c: Combinator): string
  {
    if c == Descendant then [] else [CombinatorChar(c)] + " "
  }

  function RenderItem(sel: PathSelector): string
  {
    Lead(sel.combinator) + PathCompound(sel)
  }

  /** A chain as text: the items separated by single spaces. */
  function RenderChain(sels: seq<PathSelector>): string
  {
    if sels == [] then []
    else if |sels| == 1 then RenderItem(sels[0])
    else RenderItem(sels[0]) + " " + RenderChain(sels[1..])
  }

  // ----- one attribute -----

  lemma OperatorPartOf(op: Option<AttrOperator>, y: string)
    requires y != [] && (y[0] == '"' || y[0] == ']')
    ensures Maybe(PathOperatorText(op) + y, CssPath.ParseAttrOperator(PathOperatorText(op) + y)) == (y, op)
  {
    var x := PathOperatorText(op) + y;
    if op.Some? {
      OperatorAtOf(op.value, y);
      DropPrefix(OperatorText(op.value), y);
    } else {
      assert x == y;
      OperatorAtOther(y);
    }
  }

  lemma ValuePartOf(v: Option<string>, t: string)
    requires v.Some? ==> v.value != [] && !SomeChar(v.value, IsDoubleQuote)
    ensures Opt(PathValueText(v) + ("]" + t), QuotedPart(PathValueText(v) + ("]" + t))) == Success("]" + t, v)
  {
    var b := "]" + t;
    if v.Some? {
      var z := ['"'] + b;
      Assoc2(['"'], v.value, z);
      assert PathValueText(v) + b == ['"'] + (v.value + z);
      ConsTail('"', v.value + z);
      TakeRunOf(v.value, z, IsDoubleQuote);
      ConsTail('"', b);
    } else {
      assert PathValueText(v) + b == b;
    }
  }

  /** A written attribute test parses back, whatever follows it. */
  lemma PathAttrOf(a: PathAttribute, t: string)
    requires WellFormedPathAttr(a)
    ensures CssPath.ParseAttr(RenderPathAttr(a) + t) == Success(t, a)
  {
    var v := PathOperatorText(a.op) + (PathValueText(a.value) + ("]" + t));
    Assoc5(['['], a.key, PathOperatorText(a.op), PathValueText(a.value), "]" + t);
    assert RenderPathAttr(a) + t == ['['] + (a.key + v);
    ConsTail('[', a.key + v);
    AfterKeyStarts(a, t);
    ParseNameOf(a.key, v);
    AttrTailOf(a, t);
  }

  /** What follows the key starts with an operator, a quote or `]`, none of them a name character. */
  lemma AfterKeyStarts(a: PathAttribute, t: string)
    ensures var y := PathValueText(a.value) + ("]" + t);
      y != [] && (y[0] == '"' || y[0] == ']')
    ensures var v := PathOperatorText(a.op) + (PathValueText(a.value) + ("]" + t));
      v != [] && !IsNameChar(v[0])
  {
    var y := PathValueText(a.value) + ("]" + t);
    FirstOfAppend(PathValueText(a.value), "]" + t);
    FirstOfAppend(PathOperatorText(a.op), y);
    if a.op.Some? {
      assert OperatorText(a.op.value)[0] in {'~', '|', '^', '$', '*', '='};
    }
  }

  lemma AttrTailOf(a: PathAttribute, t: string)
    requires WellFormedPathAttr(a)
    ensures AttrTail(PathOperatorText(a.op) + (PathValueText(a.value) + ("]" + t)), a.key) == Success(t, a)
  {
    AfterKeyStarts(a, t);
    OperatorPartOf(a.op, PathValueText(a.value) + ("]" + t));
    ValuePartOf(a.value, t);
    ConsTail(']', t);
  }

  // ----- one compound -----

  /** The text after each part of a compound starts with a character that part cannot consume. */
  lemma PathLayout(sel: PathSelector, t: string)
    requires WellFormedPath(sel)
    requires t == [] || t[0] == ' '
    ensures var x3 := PathAttrText(sel) + t;
      x3 == [] || x3[0] == ' ' || x3[0] == '['
    ensures var x2 := PathClassesText(sel) + (PathAttrText(sel) + t);
      x2 == [] || x2[0] == ' ' || x2[0] == '[' || x2[0] == '.'
    ensures var x1 := PathIdText(sel) + (PathClassesText(sel) + (PathAttrText(sel) + t));
      x1 == [] || x1[0] == ' ' || x1[0] == '[' || x1[0] == '.' || x1[0] == '#'
  {
    var x3 := PathAttrText(sel) + t;
    var x2 := PathClassesText(sel) + x3;
    var x1 := PathIdText(sel) + x2;
    if x3 != [] {
      FirstOfAppend(PathAttrText(sel), t);
    }
    if sel.classes.Some? {
      ClassesStart(sel.classes.value);
    }
    if x2 != [] {
      FirstOfAppend(PathClassesText(sel), x3);
    }
    if x1 != [] {
      FirstOfAppend(PathIdText(sel), x2);
    }
  }

  lemma PathNameStep(sel: PathSelector, x1: string)
    requires WellFormedPath(sel)
    requires x1 == [] || x1[0] == ' ' || x1[0] == '[' || x1[0] == '.' || x1[0] == '#'
    ensures Maybe(PathNameText(sel) + x1, ParseName(PathNameText(sel) + x1)) == (x1, sel.name)
  {
    if sel.name.Some? {
      ParseNameOf(sel.name.value, x1);
    } else {
      assert PathNameText(sel) + x1 == x1;
    }
  }

  lemma PathIdStep(sel: PathSelector, x2: string)
    requires WellFormedPath(sel)
    requires x2 == [] || x2[0] == ' ' || x2[0] == '[' || x2[0] == '.'
    ensures Maybe(PathIdText(sel) + x2, ParseId(PathIdText(sel) + x2)) == (x2, sel.id)
  {
    if sel.id.Some? {
      PrefixedOf('#', sel.id.value, x2);
    } else {
      assert PathIdText(sel) + x2 == x2;
    }
  }

  lemma PathClassesStep(sel: PathSelector, x3: string)
    requires WellFormedPath(sel)
    requires x3 == [] || x3[0] == ' ' || x3[0] == '['
    ensures Maybe(PathClassesText(sel) + x3, ParseClasses(PathClassesText(sel) + x3)) == (x3, sel.classes)
  {
    if sel.classes.Some? {
      ClassesOf(sel.classes.value, x3);
    } else {
      assert PathClassesText(sel) + x3 == x3;
      ClassesOf([], x3);
      assert RenderClasses([]) + x3 == x3;
    }
  }

  lemma PathAttrStep(sel: PathSelector, t: string)
    requires WellFormedPath(sel)
    requires t == [] || t[0] == ' '
    ensures !CssPath.ParseAttr(PathAttrText(sel) + t).Failure?
    ensures Maybe(PathAttrText(sel) + t, CssPath.ParseAttr(PathAttrText(sel) + t)) == (t, sel.attr)
  {
    if sel.attr.Some? {
      PathAttrOf(sel.attr.value, t);
    } else {
      assert PathAttrText(sel) + t == t;
    }
  }

  /** The four parts from the results of their steps. */
  lemma PartsSteps(s: string, s1: string, s2: string, s3: string, s4: string, sel: PathSelector)
    requires Maybe(s, ParseName(s)) == (s1, sel.name)
    requires Maybe(s1, ParseId(s1)) == (s2, sel.id)
    requires Maybe(s2, ParseClasses(s2)) == (s3, sel.classes)
    requires !CssPath.ParseAttr(s3).Failure? && Maybe(s3, CssPath.ParseAttr(s3)) == (s4, sel.attr)
    ensures ParseParts(s) == Success(s4, Parts(sel.name, sel.id, sel.classes, sel.attr))
  {
  }

  /** `parse_single_selector` from its combinator and its parts. */
  lemma SingleSteps(s: string, s1: string, t: string, sel: PathSelector)
    requires Maybe(s, ParseCombinator(s)) == (s1, if sel.combinator == Descendant then None else Some(sel.combinator))
    requires ParseParts(s1) == Success(t, Parts(sel.name, sel.id, sel.classes, sel.attr))
    requires sel.name.Some? || sel.id.Some? || sel.classes.Some? || sel.attr.Some?
    ensures ParseSingleSelector(s) == Success(t, sel)
  {
  }

  /** The leading combinator is read back, and nothing is read when there is none. */
  lemma LeadStep(c: Combinator, x: string)
    requires x != [] && NotMultispace(x[0]) && x[0] != '>' && x[0] != '+' && x[0] != '~'
    ensures Maybe(Lead(c) + x, ParseCombinator(Lead(c) + x)) == (x, if c == Descendant then None else Some(c))
  {
    if c == Descendant {
      assert Lead(c) + x == x;
      NoLead(x);
    } else {
      SomeLead(c, x);
    }
  }

  lemma NoLead(x: string)
    requires x != [] && NotMultispace(x[0]) && x[0] != '>' && x[0] != '+' && x[0] != '~'
    ensures ParseCombinator(x).Error?
  {
    SkipNoSpace(x);
    if StartsWith(x, ">") { StartsWithFirst(x, ">"); }
    if StartsWith(x, "+") { StartsWithFirst(x, "+"); }
    if StartsWith(x, "~") { StartsWithFirst(x, "~"); }
  }

  lemma SomeLead(c: Combinator, x: string)
    requires c != Descendant
    requires x != [] && NotMultispace(x[0])
    ensures ParseCombinator(Lead(c) + x) == Success(x, c)
  {
    var u := " " + x;
    Assoc2([CombinatorChar(c)], " ", x);
    CombinatorStep(c, u);
    SkipSpaceOf(" ", x);
  }

  /** A combinator character with nothing before it is read, and the whitespace after it skipped. */
  lemma CombinatorStep(c: Combinator, u: string)
    requires c != Descendant
    ensures ParseCombinator([CombinatorChar(c)] + u) == Success(SkipSpace(u), c)
  {
    var s := [CombinatorChar(c)] + u;
    SkipNoSpace(s);
    CombinatorAtOf(c, u);
    ConsTail(CombinatorChar(c), u);
  }

  /** A compound starts with a name character, `#`, `.` or `[`. */
  lemma PathCompoundStarts(sel: PathSelector)
    requires WellFormedPath(sel)
    ensures StartsCompound(PathCompound(sel))
  {
    if sel.name.Some? {
      assert PathCompound(sel)[0] == sel.name.value[0];
    } else if sel.id.Some? {
      assert PathCompound(sel)[0] == '#';
    } else if sel.classes.Some? {
      assert PathCompound(sel)[0] == RenderClasses(sel.classes.value)[0] == '.';
    } else {
      assert PathCompound(sel)[0] == '[';
    }
  }

  /** A written item parses back to its selector, leaving what follows it. */
  lemma ItemParses(sel: PathSelector, t: string)
    requires WellFormedPath(sel)
    requires t == [] || t[0] == ' '
    ensures ParseSingleSelector(RenderItem(sel) + t) == Success(t, sel)
  {
    var x3 := PathAttrText(sel) + t;
    var x2 := PathClassesText(sel) + x3;
    var x1 := PathIdText(sel) + x2;
    var x0 := PathNameText(sel) + x1;
    Assoc5(PathNameText(sel), PathIdText(sel), PathClassesText(sel), PathAttrText(sel), t);
    assert x0 == PathCompound(sel) + t;
    PathCompoundStarts(sel);
    FirstOfAppend(PathCompound(sel), t);
    Assoc2(Lead(sel.combinator), PathCompound(sel), t);
    LeadStep(sel.combinator, x0);
    PathLayout(sel, t);
    PathNameStep(sel, x1);
    PathIdStep(sel, x2);
    PathClassesStep(sel, x3);
    PathAttrStep(sel, t);
    PartsSteps(x0, x1, x2, x3, t, sel);
    SingleSteps(RenderItem(sel) + t, x0, t, sel);
  }

  // ----- chains -----

  /** Characters a written item can start with. */
  predicate StartsItem(t: string)
  {
    StartsCompound(t) || (t != [] && (t[0] == '>' || t[0] == '+' || t[0] == '~'))
  }

  lemma ItemStarts(sel: PathSelector)
    requires WellFormedPath(sel)
    ensures StartsItem(RenderItem(sel))
  {
    PathCompoundStarts(sel);
    if sel.combinator == Descendant {
      assert RenderItem(sel) == PathCompound(sel);
    } else {
      assert RenderItem(sel)[0] == CombinatorChar(sel.combinator);
    }
  }

  lemma ChainStarts(sels: seq<PathSelector>)
    requires forall k :: 0 <= k < |sels| ==> WellFormedPath(sels[k])
    ensures sels != [] ==> StartsItem(RenderChain(sels))
  {
    if sels != [] {
      ItemStarts(sels[0]);
      if |sels| > 1 {
        FirstOfAppend(RenderItem(sels[0]), " " + RenderChain(sels[1..]));
        Assoc2(RenderItem(sels[0]), " ", RenderChain(sels[1..]));
      }
    }
  }

  /** One chain item: the item, the space after it, and nothing more. */
  lemma ChainItemOf(sel: PathSelector, next: string)
    requires WellFormedPath(sel)
    requires next == [] || StartsItem(next)
    ensures ChainItem(RenderItem(sel) + " " + next) == Success(next, sel)
  {
    var item := RenderItem(sel);
    var x := item + (" " + next);
    Assoc2(item, " ", next);
    ItemStarts(sel);
    ItemStartNotSpace(item);
    FirstOfAppend(item, " " + next);
    SkipNoSpace(x);
    ItemParses(sel, " " + next);
    if next != [] {
      ItemStartNotSpace(next);
    }
    SkipSpaceOf(" ", next);
    ChainItemSteps(x, " " + next, sel);
  }

  lemma ItemStartNotSpace(t: string)
    requires StartsItem(t)
    ensures t != [] && NotMultispace(t[0])
  {
  }

  lemma ChainItemSteps(s: string, u: string, sel: PathSelector)
    requires ParseSingleSelector(SkipSpace(s)) == Success(u, sel)
    ensures ChainItem(s) == Success(SkipSpace(u), sel)
  {
  }

  /** The last chain item. */
  lemma LastChainItemOf(sel: PathSelector)
    requires WellFormedPath(sel)
    ensures ChainItem(RenderItem(sel)) == Success([], sel)
  {
    ItemStarts(sel);
    SkipNoSpace(RenderItem(sel));
    ItemParses(sel, []);
    EmptyRight(RenderItem(sel));
    assert SkipSpace([]) == [];
  }

  lemma EmptyChainOf()
    ensures ParseSelectorChain([]) == Success([], [])
  {
    assert SkipSpace([]) == [];
    assert ParseCombinator([]).Error? && ParseName([]).Error?;
  }

  /** The round trip: a well-formed chain, written out, parses back to itself with nothing left over. */
  lemma {:induction false} ParseRenderedChain(sels: seq<PathSelector>)
    requires forall k :: 0 <= k < |sels| ==> WellFormedPath(sels[k])
    ensures ParseSelectorChain(RenderChain(sels)) == Success([], sels)
    decreases |sels|
  {
    if sels == [] {
      EmptyChainOf();
    } else if |sels| == 1 {
      LastChainItemOf(sels[0]);
      EmptyChainOf();
      ConsSplit(sels);
    } else {
      var rest := RenderChain(sels[1..]);
      ParseRenderedChain(sels[1..]);
      ChainStarts(sels[1..]);
      ChainItemOf(sels[0], rest);
      ConsSplit(sels);
    }
  }
}
