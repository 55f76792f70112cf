/**
 * Writing a mini selector back as CSS text, and the round trip: every
 * well-formed selector list, written out, parses back to itself. The
 * writer is the reference that pins down what the parser accepts.
 */
module MiniRender {
  import opened Wrappers
  import opened Str
  import opened MiniSelectors
  import opened MiniParser

  /** A non-empty run of name characters: what `take_while1` of name characters yields. */
  predicate IsName(w: string)
  {
    w != [] && AllChars(w, IsNameChar)
  }

  /** An attribute the writer can quote with double quotes. */
  predicate WellFormedAttr(a: Attribute)
  {
    IsName(a.key)
    && (a.value.Some? ==> a.value.value.value != [] && !SomeChar(a.value.value.value, IsDoubleQuote))
  }

  /** A selector the parser can produce: names are runs of name characters, lists are non-empty, something precedes the combinator. */
  predicate WellFormedSelector(sel: MiniSelector)
  {
    (sel.name.Some? ==> IsName(sel.name.value))
    && (sel.id.Some? ==> IsName(sel.id.value))
    && (sel.classes.Some? ==> sel.classes.value != [] && forall k :: 0 <= k < |sel.classes.value| ==> IsName(sel.classes.value[k]))
    && (sel.attrs.Some? ==> sel.attrs.value != [] && forall k :: 0 <= k < |sel.attrs.value| ==> WellFormedAttr(sel.attrs.value[k]))
    && (sel.name.Some? || sel.id.Some? || sel.classes.Some? || sel.attrs.Some?)
  }

  function RenderClasses(cs: seq<string>): string
  {
    if cs == [] then [] else "." + cs[0] + RenderClasses(cs[1..])
  }

  function RenderAttrValue(v: Option<AttrValue>): string
  {
    match v
    case None => ""
    case Some(av) => OperatorText(av.op) + "\"" + av.value + "\""
  }

  function RenderAttr(a: Attribute): string
  {
    "[" + a.key + RenderAttrValue(a.value) + "]"
  }

  function RenderAttrs(attrs: seq<Attribute>): string
  {
    if attrs == [] then [] else RenderAttr(attrs[0]) + RenderAttrs(attrs[1..])
  }

  function NameText(sel: MiniSelector): string
  {
    if sel.name.Some? then sel.name.value else []
  }

  function IdText(sel: MiniSelector): string
  {
    if sel.id.Some? then "#" + sel.id.value else []
  }

  function ClassesText(sel: MiniSelector): string
  {
    if sel.classes.Some? then RenderClasses(sel.classes.value) else []
  }

  function AttrsText(sel: MiniSelector): string
  {
    if sel.attrs.Some? then RenderAttrs(sel.attrs.value) else []
  }

  /** The compound selector: name, `#id`, `.class`es and `[attr]`s, in the parser's order. */
  function RenderCompound(sel: MiniSelector): string
  {
    NameText(sel) + IdText(sel) + ClassesText(sel) + AttrsText(sel)
  }

  function CombinatorText(c: Combinator): string
  {
    match c
    case Descendant => " "
    case Child => " > "
    case Adjacent => " + "
    case Sibling => " ~ "
  }

  /** A selector list as text; a descendant combinator after the last selector is left implicit. */
  function RenderList(sels: seq<MiniSelector>): string
  {
    if sels == [] then []
    else if |sels| == 1 && sels[0].combinator == Descendant then RenderCompound(sels[0])
    else RenderCompound(sels[0]) + CombinatorText(sels[0].combinator) + RenderList(sels[1..])
  }

  /** Characters a compound selector can start with. */
  predicate StartsCompound(t: string)
  {
    t != [] && (IsNameChar(t[0]) || t[0] == '#' || t[0] == '.' || t[0] == '[')
  }

  // ---------------------------------------------------------------------
  // The building blocks

  lemma ConsTail(c: char, w: string)
    ensures ([c] + w)[1..] == w
  {
  }

  lemma DropPrefix(p: string, w: string)
    ensures (p + w)[|p|..] == w
  {
  }

  lemma ConsSplit<T>(xs: seq<T>)
    requires xs != []
    ensures [xs[0]] + xs[1..] == xs
  {
  }

  lemma Assoc2(a: string, b: string, c: string)
    ensures a + b + c == a + (b + c)
  {
  }

  lemma Assoc5(a: string, b: string, c: string, d: string, e: string)
    ensures a + b + c + d + e == a + (b + (c + (d + e)))
  {
  }

  lemma Assoc4(a: string, b: string, c: string, d: string)
    ensures a + b + c + d == a + (b + (c + d))
  {
  }

  /** `take_while1` takes exactly a run that is followed by a stop character. */
  lemma TakeRunOf(w: string, t: string, stop: char -> bool)
    requires w != [] && !SomeChar(w, stop)
    requires t == [] || stop(t[0])
    ensures TakeRun(w + t, stop) == Success(t, w)
  {
    RunLenAppend(w, t, stop);
    RunLenFree(w, stop);
    assert (w + t)[..|w|] == w;
    assert (w + t)[|w|..] == t;
  }

  lemma ParseNameOf(w: string, t: string)
    requires IsName(w)
    requires t == [] || !IsNameChar(t[0])
    ensures ParseName(w + t) == Success(t, w)
  {
    assert !SomeChar(w, NotNameChar) by {
      forall i | 0 <= i < |w|
        ensures !NotNameChar(w[i])
      {
      }
    }
    TakeRunOf(w, t, NotNameChar);
  }

  lemma PrefixedOf(mark: char, w: string, t: string)
    requires IsName(w)
    requires t == [] || !IsNameChar(t[0])
    ensures Prefixed([mark] + w + t, mark) == Success(t, w)
  {
    assert ([mark] + w + t)[1..] == w + t;
    ParseNameOf(w, t);
  }

  /** `multispace0` drops exactly a run of spaces that is followed by something else. */
  lemma SkipSpaceOf(w: string, x: string)
    requires !SomeChar(w, NotMultispace)
    requires x == [] || NotMultispace(x[0])
    ensures SkipSpace(w + x) == x
  {
    RunLenAppend(w, x, NotMultispace);
    RunLenFree(w, NotMultispace);
    assert (w + x)[|w|..] == x;
  }

  lemma SkipNoSpace(x: string)
    requires x == [] || NotMultispace(x[0])
    ensures SkipSpace(x) == x
  {
    SkipSpaceOf([], x);
    assert [] + x == x;
  }

  lemma {:induction false} ClassesOf(cs: seq<string>, t: string)
    requires forall k :: 0 <= k < |cs| ==> IsName(cs[k])
    requires t == [] || (!IsNameChar(t[0]) && t[0] != '.')
    ensures ClassesMany(RenderClasses(cs) + t) == (t, cs)
    decreases |cs|
  {
    if cs == [] {
      assert RenderClasses(cs) + t == t;
    } else {
      var rest := RenderClasses(cs[1..]) + t;
      assert RenderClasses(cs) + t == ['.'] + cs[0] + rest;
      assert rest == [] || !IsNameChar(rest[0]) by {
        if cs[1..] != [] {
          assert rest[0] == '.';
        } else {
          assert rest == t;
        }
      }
      PrefixedOf('.', cs[0], rest);
      ClassesOf(cs[1..], t);
      assert [cs[0]] + cs[1..] == cs;
    }
  }

  lemma OperatorAtOf(op: AttrOperator, y: string)
    ensures OperatorAt(OperatorText(op) + y) == Some(op)
  {
    var x := OperatorText(op) + y;
    assert x[0] == OperatorText(op)[0];
    assert x[..|OperatorText(op)|] == OperatorText(op);
    if op != Equals {
      assert x[1] == '=';
    }
  }

  lemma StartsWithFirst(t: string, p: string)
    requires p != [] && StartsWith(t, p)
    ensures t[0] == p[0]
  {
    assert t[..|p|][0] == t[0];
  }

  /** No operator starts with a character other than the six operator characters. */
  lemma OperatorAtOther(t: string)
    requires t != [] && t[0] != '~' && t[0] != '|' && t[0] != '^' && t[0] != '$' && t[0] != '*' && t[0] != '='
    ensures OperatorAt(t).None?
  {
    if StartsWith(t, "~=") { StartsWithFirst(t, "~="); }
    if StartsWith(t, "|=") { StartsWithFirst(t, "|="); }
    if StartsWith(t, "^=") { StartsWithFirst(t, "^="); }
    if StartsWith(t, "$=") { StartsWithFirst(t, "$="); }
    if StartsWith(t, "*=") { StartsWithFirst(t, "*="); }
    if StartsWith(t, "=") { StartsWithFirst(t, "="); }
  }

  lemma AttrValueOf(av: AttrValue, t: string)
    requires av.value != [] && !SomeChar(av.value, IsDoubleQuote)
    ensures ParseAttrValue(RenderAttrValue(Some(av)) + t) == Success(t, av)
  {
    var z := ['"'] + t;
    var y := ['"'] + (av.value + z);
    var x := OperatorText(av.op) + y;
    Assoc4(OperatorText(av.op), ['"'], av.value, ['"'] + t);
    Assoc2(OperatorText(av.op) + ['"'] + av.value, ['"'], t);
    OperatorAtOf(av.op, y);
    SkipNoSpace(x);
    DropPrefix(OperatorText(av.op), y);
    SkipNoSpace(y);
    ConsTail('"', av.value + z);
    TakeRunOf(av.value, z, IsDoubleQuote);
    ConsTail('"', t);
  }

  lemma AttrOf(a: Attribute, t: string)
    requires WellFormedAttr(a)
    ensures ParseAttr(RenderAttr(a) + t) == Success(t, a)
  {
    var b := [']'] + t;
    var v := RenderAttrValue(a.value) + b;
    Assoc5(['['], a.key, RenderAttrValue(a.value), [']'], t);
    ConsTail('[', a.key + v);
    ParseNameOf(a.key, v);
    ConsTail(']', t);
    match a.value {
      case None =>
        assert v == b;
        SkipNoSpace(b);
        OperatorAtOther(b);
      case Some(av) =>
        AttrValueOf(av, b);
    }
  }

  lemma AttrItemOf(a: Attribute, t: string)
    requires WellFormedAttr(a)
    requires t == [] || t[0] != ']'
    ensures AttrItem(RenderAttr(a) + t) == Success(t, a)
  {
    AttrOf(a, t);
  }

  lemma AttrsStart(attrs: seq<Attribute>, t: string)
    requires attrs != []
    ensures RenderAttrs(attrs) + t != [] && (RenderAttrs(attrs) + t)[0] == '['
  {
    AttrStart(attrs[0]);
    Assoc2(RenderAttr(attrs[0]), RenderAttrs(attrs[1..]), t);
    FirstOfAppend(RenderAttr(attrs[0]), RenderAttrs(attrs[1..]) + t);
  }

  lemma AttrStart(a: Attribute)
    ensures RenderAttr(a) != [] && RenderAttr(a)[0] == '['
  {
    Assoc4("[", a.key, RenderAttrValue(a.value), "]");
    FirstOfAppend("[", a.key + (RenderAttrValue(a.value) + "]"));
  }

  lemma AttrsManyCons(s: string, a: Attribute, rest: string, t: string, more: seq<Attribute>)
    requires AttrItem(s) == Success(rest, a)
    requires AttrsMany(rest) == Success(t, more)
    ensures AttrsMany(s) == Success(t, [a] + more)
  {
  }

  lemma {:induction false} AttrsOf(attrs: seq<Attribute>, t: string)
    requires forall k :: 0 <= k < |attrs| ==> WellFormedAttr(attrs[k])
    requires t == [] || (t[0] != '[' && t[0] != ']')
    ensures AttrsMany(RenderAttrs(attrs) + t) == Success(t, attrs)
    decreases |attrs|
  {
    if attrs == [] {
      assert RenderAttrs(attrs) + t == t;
      assert ParseAttr(t).Error?;
    } else {
      var rest := RenderAttrs(attrs[1..]) + t;
      Assoc2(RenderAttr(attrs[0]), RenderAttrs(attrs[1..]), t);
      if attrs[1..] != [] {
        AttrsStart(attrs[1..], t);
      } else {
        assert rest == t;
      }
      AttrItemOf(attrs[0], rest);
      AttrsOf(attrs[1..], t);
      ConsSplit(attrs);
      AttrsManyCons(RenderAttrs(attrs) + t, attrs[0], rest, t, attrs[1..]);
    }
  }

  /** The character of `>`, `+` and `~`. */
  function CombinatorChar(c: Combinator): char
  {
    match c
    case Descendant => ' '
    case Child => '>'
    case Adjacent => '+'
    case Sibling => '~'
  }

  lemma CombinatorAtOf(c: Combinator, rest: string)
    requires c != Descendant
    ensures CombinatorAt([CombinatorChar(c)] + rest) == Some(c)
  {
    var t := [CombinatorChar(c)] + rest;
    assert t[..1] == [CombinatorChar(c)];
  }

  lemma CombinatorOf(c: Combinator, next: string)
    requires c != Descendant
    requires next == [] || NotMultispace(next[0])
    ensures ParseCombinator(CombinatorText(c) + next) == Success(next, c)
  {
    var t := [CombinatorChar(c)] + (" " + next);
    assert CombinatorText(c) == " " + [CombinatorChar(c)] + " ";
    Assoc2(" " + [CombinatorChar(c)], " ", next);
    Assoc2(" ", [CombinatorChar(c)], " " + next);
    SkipSpaceOf(" ", t);
    CombinatorAtOf(c, " " + next);
    ConsTail(CombinatorChar(c), " " + next);
    SkipSpaceOf(" ", next);
  }

  lemma NoCombinatorAfterSpace(next: string)
    requires next == [] || StartsCompound(next)
    ensures ParseCombinator(" " + next).Error?
    ensures SkipSpace(" " + next) == next
  {
    SkipSpaceOf(" ", next);
  }

  // ---------------------------------------------------------------------
  // One compound selector

  lemma FirstOfAppend(a: string, b: string)
    requires a + b != []
    ensures (a + b)[0] == if a != [] then a[0] else b[0]
  {
    if a == [] {
      assert a + b == b;
    }
  }

  /** The text after each part of a compound selector starts with a character the part cannot consume. */
  lemma CompoundLayout(sel: MiniSelector, t: string)
    requires WellFormedSelector(sel)
    requires t == [] || t[0] == ' '
    ensures var x3 := AttrsText(sel) + t;
      x3 == [] || x3[0] == ' ' || x3[0] == '['
    ensures var x2 := ClassesText(sel) + (AttrsText(sel) + t);
      x2 == [] || x2[0] == ' ' || x2[0] == '[' || x2[0] == '.'
    ensures var x1 := IdText(sel) + (ClassesText(sel) + (AttrsText(sel) + t));
      x1 == [] || x1[0] == ' ' || x1[0] == '[' || x1[0] == '.' || x1[0] == '#'
  {
    var x3 := AttrsText(sel) + t;
    var x2 := ClassesText(sel) + x3;
    var x1 := IdText(sel) + x2;
    if sel.attrs.Some? {
      AttrsStart(sel.attrs.value, []);
      assert RenderAttrs(sel.attrs.value) + [] == RenderAttrs(sel.attrs.value);
    }
    if x3 != [] {
      FirstOfAppend(AttrsText(sel), t);
    }
    if sel.classes.Some? {
      ClassesStart(sel.classes.value);
    }
    if x2 != [] {
      FirstOfAppend(ClassesText(sel), x3);
    }
    if x1 != [] {
      FirstOfAppend(IdText(sel), x2);
    }
  }

  lemma ClassesStart(cs: seq<string>)
    requires cs != []
    ensures RenderClasses(cs) != [] && RenderClasses(cs)[0] == '.'
  {
  }

  /** `parse_mini_selector` from the results of its first four steps. */
  lemma MiniSelectorSteps(s: string, s1: string, s2: string, s3: string, s4: string,
      name: Option<string>, id: Option<string>, classes: Option<seq<string>>, attrs: Option<seq<Attribute>>)
    requires Maybe(s, ParseName(s)) == (s1, name)
    requires Maybe(s1, ParseId(s1)) == (s2, id)
    requires Maybe(s2, ParseClasses(s2)) == (s3, classes)
    requires !ParseAttrs(s3).Failure? && Maybe(s3, ParseAttrs(s3)) == (s4, attrs)
    requires name.Some? || id.Some? || classes.Some? || attrs.Some?
    ensures ParseMiniSelector(s)
      == match ParseCombinator(s4)
         case Success(u, c) => Success(u, MiniSelector(name, id, classes, attrs, c))
         case _ => Success(s4, MiniSelector(name, id, classes, attrs, Descendant))
  {
    var (s5, comb) := Maybe(s4, ParseCombinator(s4));
    assert ParseMiniSelector(s) == Success(s5, MiniSelector(name, id, classes, attrs, comb.UnwrapOr(Descendant)));
  }

  /**
   * A written compound selector parses back to its parts; what follows it
   * decides the combinator, the descendant one when no `>`, `+` or `~` comes.
   */
  lemma CompoundOf(sel: MiniSelector, t: string)
    requires WellFormedSelector(sel)
    requires t == [] || t[0] == ' '
    ensures ParseMiniSelector(RenderCompound(sel) + t)
      == match ParseCombinator(t)
         case Success(u, c) => Success(u, sel.(combinator := c))
         case _ => Success(t, sel.(combinator := Descendant))
  {
    var x3 := AttrsText(sel) + t;
    var x2 := ClassesText(sel) + x3;
    var x1 := IdText(sel) + x2;
    var x0 := NameText(sel) + x1;
    Assoc5(NameText(sel), IdText(sel), ClassesText(sel), AttrsText(sel), t);
    CompoundLayout(sel, t);
    NameStep(sel, x1);
    IdStep(sel, x2);
    ClassesStep(sel, x3);
    AttrsStep(sel, t);
    MiniSelectorSteps(x0, x1, x2, x3, t, sel.name, sel.id, sel.classes, sel.attrs);
  }

  lemma NameStep(sel: MiniSelector, x1: string)
    requires WellFormedSelector(sel)
    requires x1 == [] || x1[0] == ' ' || x1[0] == '[' || x1[0] == '.' || x1[0] == '#'
    ensures Maybe(NameText(sel) + x1, ParseName(NameText(sel) + x1)) == (x1, sel.name)
  {
    if sel.name.Some? {
      ParseNameOf(sel.name.value, x1);
    } else {
      assert NameText(sel) + x1 == x1;
    }
  }

  lemma IdStep(sel: MiniSelector, x2: string)
    requires WellFormedSelector(sel)
    requires x2 == [] || x2[0] == ' ' || x2[0] == '[' || x2[0] == '.'
    ensures Maybe(IdText(sel) + x2, ParseId(IdText(sel) + x2)) == (x2, sel.id)
  {
    if sel.id.Some? {
      PrefixedOf('#', sel.id.value, x2);
    } else {
      assert IdText(sel) + x2 == x2;
    }
  }

  lemma ClassesStep(sel: MiniSelector, x3: string)
    requires WellFormedSelector(sel)
    requires x3 == [] || x3[0] == ' ' || x3[0] == '['
    ensures Maybe(ClassesText(sel) + x3, ParseClasses(ClassesText(sel) + x3)) == (x3, sel.classes)
  {
    if sel.classes.Some? {
      ClassesOf(sel.classes.value, x3);
    } else {
      assert ClassesText(sel) + x3 == x3;
      ClassesOf([], x3);
      assert RenderClasses([]) + x3 == x3;
    }
  }

  lemma AttrsStep(sel: MiniSelector, t: string)
    requires WellFormedSelector(sel)
    requires t == [] || t[0] == ' '
    ensures !ParseAttrs(AttrsText(sel) + t).Failure?
    ensures Maybe(AttrsText(sel) + t, ParseAttrs(AttrsText(sel) + t)) == (t, sel.attrs)
  {
    if sel.attrs.Some? {
      AttrsOf(sel.attrs.value, t);
    } else {
      assert AttrsText(sel) + t == t;
      AttrsOf([], t);
      assert RenderAttrs([]) + t == t;
    }
  }

  // ---------------------------------------------------------------------
  // Selector lists

  lemma CompoundStarts(sel: MiniSelector)
    requires WellFormedSelector(sel)
    ensures StartsCompound(RenderCompound(sel))
  {
    if sel.name.Some? {
      assert RenderCompound(sel)[0] == sel.name.value[0];
    } else if sel.id.Some? {
      assert RenderCompound(sel)[0] == '#';
    } else if sel.classes.Some? {
      assert RenderCompound(sel)[0] == RenderClasses(sel.classes.value)[0] == '.';
    } else {
      assert RenderCompound(sel)[0] == RenderAttrs(sel.attrs.value)[0] == '[';
    }
  }

  lemma ListStarts(sels: seq<MiniSelector>)
    requires forall k :: 0 <= k < |sels| ==> WellFormedSelector(sels[k])
    ensures RenderList(sels) == [] || StartsCompound(RenderList(sels))
  {
    if sels != [] {
      CompoundStarts(sels[0]);
    }
  }

  lemma ItemSteps(s: string, u: string, sel: MiniSelector)
    requires ParseMiniSelector(SkipSpace(s)) == Success(u, sel)
    ensures SelectorItem(s) == Success(SkipSpace(u), sel)
  {
  }

  lemma ListCons(s: string, rest: string, sel: MiniSelector, r: string, more: seq<MiniSelector>)
    requires SelectorItem(s) == Success(rest, sel)
    requires ParseSelectorList(rest) == Success(r, more)
    ensures ParseSelectorList(s) == Success(r, [sel] + more)
  {
  }

  lemma StartsNotSpace(next: string)
    requires next == [] || StartsCompound(next)
    ensures next == [] || NotMultispace(next[0])
  {
  }

  /** One written selector followed by the rest of a list is one `parse_selector_list` item. */
  lemma ItemOf(sel: MiniSelector, next: string)
    requires WellFormedSelector(sel)
    requires next == [] || StartsCompound(next)
    ensures SelectorItem(RenderCompound(sel) + CombinatorText(sel.combinator) + next) == Success(next, sel)
  {
    var t := CombinatorText(sel.combinator) + next;
    var x := RenderCompound(sel) + t;
    Assoc2(RenderCompound(sel), CombinatorText(sel.combinator), next);
    CompoundStarts(sel);
    FirstOfAppend(RenderCompound(sel), t);
    SkipNoSpace(x);
    FirstOfAppend(CombinatorText(sel.combinator), next);
    CompoundOf(sel, t);
    if sel.combinator == Descendant {
      DescendantItem(sel, next);
    } else {
      StartsNotSpace(next);
      CombinatorOf(sel.combinator, next);
      SkipNoSpace(next);
      assert sel.(combinator := sel.combinator) == sel;
      assert ParseMiniSelector(x) == Success(next, sel);
      ItemSteps(x, next, sel);
    }
  }

  lemma DescendantItem(sel: MiniSelector, next: string)
    requires sel.combinator == Descendant
    requires next == [] || StartsCompound(next)
    requires var x := RenderCompound(sel) + (" " + next);
      SkipSpace(x) == x && ParseMiniSelector(x)
        == match ParseCombinator(" " + next)
           case Success(u, c) => Success(u, sel.(combinator := c))
           case _ => Success(" " + next, sel.(combinator := Descendant))
    ensures SelectorItem(RenderCompound(sel) + (" " + next)) == Success(next, sel)
  {
    NoCombinatorAfterSpace(next);
    assert sel.(combinator := Descendant) == sel;
    ItemSteps(RenderCompound(sel) + (" " + next), " " + next, sel);
  }

  lemma NothingAfter()
    ensures ParseCombinator([]).Error?
  {
    assert SkipSpace([]) == [];
  }

  lemma EmptyRight(a: string)
    ensures a + [] == a
  {
  }

  /** A written compound selector alone is parsed whole, with the descendant combinator. */
  lemma CompoundAlone(sel: MiniSelector)
    requires WellFormedSelector(sel) && sel.combinator == Descendant
    ensures ParseMiniSelector(RenderCompound(sel)) == Success([], sel)
  {
    CompoundOf(sel, []);
    NothingAfter();
    EmptyRight(RenderCompound(sel));
    assert sel.(combinator := Descendant) == sel;
  }

  /** The last selector, with its descendant combinator left implicit. */
  lemma LastItemOf(sel: MiniSelector)
    requires WellFormedSelector(sel) && sel.combinator == Descendant
    ensures SelectorItem(RenderCompound(sel)) == Success([], sel)
  {
    CompoundStarts(sel);
    SkipNoSpace(RenderCompound(sel));
    CompoundAlone(sel);
    assert SkipSpace([]) == [];
  }

  lemma EmptyListOf()
    ensures ParseSelectorList([]) == Success([], [])
  {
    assert SkipSpace([]) == [];
    assert ParseName([]).Error?;
    assert ParseAttrs([]).Error?;
  }

  /** The round trip: a well-formed selector list, written out, parses back to itself with nothing left over. */
  lemma {:induction false} ParseRenderedList(sels: seq<MiniSelector>)
    requires forall k :: 0 <= k < |sels| ==> WellFormedSelector(sels[k])
    ensures ParseSelectorList(RenderList(sels)) == Success([], sels)
    decreases |sels|
  {
    if sels == [] {
      EmptyListOf();
    } else if |sels| == 1 && sels[0].combinator == Descendant {
      SingleListOf(sels);
    } else {
      ParseRenderedList(sels[1..]);
      ConsListOf(sels);
    }
  }

  /** A list of one selector with the implicit combinator. */
  lemma SingleListOf(sels: seq<MiniSelector>)
    requires |sels| == 1 && sels[0].combinator == Descendant && WellFormedSelector(sels[0])
    ensures ParseSelectorList(RenderList(sels)) == Success([], sels)
  {
    LastItemOf(sels[0]);
    EmptyListOf();
    ListCons(RenderCompound(sels[0]), [], sels[0], [], []);
    ConsSplit(sels);
  }

  /** The first selector and its combinator in front of a list that parses back. */
  lemma ConsListOf(sels: seq<MiniSelector>)
    requires sels != [] && !(|sels| == 1 && sels[0].combinator == Descendant)
    requires forall k :: 0 <= k < |sels| ==> WellFormedSelector(sels[k])
    requires ParseSelectorList(RenderList(sels[1..])) == Success([], sels[1..])
    ensures ParseSelectorList(RenderList(sels)) == Success([], sels)
  {
    var rest := RenderList(sels[1..]);
    ListStarts(sels[1..]);
    ItemOf(sels[0], rest);
    ListCons(RenderList(sels), rest, sels[0], [], sels[1..]);
    ConsSplit(sels);
  }
}
