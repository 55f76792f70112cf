/**
 * The element payload of src/node/node_data.rs: the ordered attribute list
 * with its queries and edits, and the class attribute read as a set of
 * whitespace-separated tokens.
 *
 * `add_class` and `remove_class` go through a hash set, whose iteration
 * order is not specified; the model takes that order as a parameter
 * (`order`), constrained only to enumerate the set.
 */
module Elements {
  import opened Wrappers
  import opened Str
  import opened Arena
  import opened Seqs

  /** `ns!()`, the namespace given to attributes the library creates. */
  const EmptyNs: string := ""

  /** `selectors::attr::CaseSensitivity`. */
  datatype CaseSensitivity = CaseSensitive | AsciiCaseInsensitive

  predicate CaseEq(cs: CaseSensitivity, a: string, b: string)
  {
    match cs
    case CaseSensitive => a == b
    case AsciiCaseInsensitive => EqIgnoreAsciiCase(a, b)
  }

  predicate IsSpace(c: char) { c == ' ' }

  /** The set of the ASCII-whitespace-separated words of `s`. */
  function WordSet(s: string): set<string>
  {
    set w | w in AsciiWords(s)
  }

  /** `contains_class`: `target` is one of the ASCII-whitespace-separated words of `classes`. */
  predicate ContainsClass(classes: string, target: string)
  {
    target in AsciiWords(classes)
  }

  // ---------------------------------------------------------------- attributes

  /** The index of the first attribute whose local name is `name` (`iter().find`). */
  function FindAttr(attrs: seq<Attr>, name: string): (r: Option<nat>)
    ensures r.None? <==> forall k :: 0 <= k < |attrs| ==> attrs[k].name.local != name
    ensures r.Some? ==> r.value < |attrs| && attrs[r.value].name.local == name
    ensures r.Some? ==> forall k :: 0 <= k < r.value ==> attrs[k].name.local != name
    decreases |attrs|
  {
    if attrs == [] then None
    else if attrs[0].name.local == name then Some(0)
    else match FindAttr(attrs[1..], name)
      case None => None
      case Some(k) => Some(k + 1)
  }

  /** `Element::attr` and `attr_ref`: the value of the first attribute named `name`. */
  function AttrValue(attrs: seq<Attr>, name: string): (r: Option<string>)
    ensures r.Some? <==> HasAttr(attrs, name)
    ensures r.Some? ==> exists k :: 0 <= k < |attrs| && attrs[k].name.local == name && attrs[k].value == r.value
  {
    match FindAttr(attrs, name)
    case None => None
    case Some(k) => Some(attrs[k].value)
  }

  /** `Element::has_attr`. */
  predicate HasAttr(attrs: seq<Attr>, name: string)
  {
    exists k :: 0 <= k < |attrs| && attrs[k].name.local == name
  }

  /** `Element::class`. */
  function Class(e: Element): Option<string>
  {
    AttrValue(e.attrs, "class")
  }

  /** `Element::id`. */
  function Id(e: Element): Option<string>
  {
    AttrValue(e.attrs, "id")
  }

  /** `Element::has_class`. */
  predicate HasClass(e: Element, c: string)
  {
    match Class(e)
    case None => false
    case Some(v) => ContainsClass(v, c)
  }

  /** `Element::has_class_bytes`: as `has_class`, under the given case sensitivity. */
  predicate HasClassBytes(e: Element, name: string, cs: CaseSensitivity)
  {
    match Class(e)
    case None => false
    case Some(v) => exists w :: w in AsciiWords(v) && CaseEq(cs, name, w)
  }

  /** `Element::is_link`. */
  predicate IsLink(e: Element)
  {
    e.name.local in {"a", "area", "link"} && HasAttr(e.attrs, "href")
  }

  /** The class words of an attribute list; none without a class attribute. */
  function ClassWords(attrs: seq<Attr>): set<string>
  {
    match AttrValue(attrs, "class")
    case None => {}
    case Some(v) => WordSet(v)
  }

  /** `has_class` is membership in the class words, false when there is no class attribute. */
  lemma HasClassWords(e: Element, c: string)
    ensures HasClass(e, c) <==> c in ClassWords(e.attrs)
    ensures !HasAttr(e.attrs, "class") ==> !HasClass(e, c)
  {
  }

  /** Case-sensitive `has_class_bytes` is `has_class`. */
  lemma HasClassBytesSensitive(e: Element, c: string)
    ensures HasClassBytes(e, c, CaseSensitive) <==> HasClass(e, c)
  {
    if HasClass(e, c) {
      assert CaseEq(CaseSensitive, c, c);
    }
  }

  /** `set_attr`: overwrite the value of the first attribute named `name`, or append one. */
  function SetAttrs(attrs: seq<Attr>, name: string, val: string): seq<Attr>
  {
    match FindAttr(attrs, name)
    case Some(k) => attrs[k := attrs[k].(value := val)]
    case None => attrs + [Attr(QualName(None, EmptyNs, name), val)]
  }

  /**
   * After `set_attr(name, val)` the attribute reads `val`, every other name
   * reads as before, an existing attribute is updated in place and a new
   * one goes at the end.
   */
  lemma SetAttrEffect(attrs: seq<Attr>, name: string, val: string)
    ensures AttrValue(SetAttrs(attrs, name, val), name) == Some(val)
    ensures forall m :: m != name ==> AttrValue(SetAttrs(attrs, name, val), m) == AttrValue(attrs, m)
    ensures HasAttr(attrs, name) ==> (|SetAttrs(attrs, name, val)| == |attrs|
      && forall k :: 0 <= k < |attrs| ==> SetAttrs(attrs, name, val)[k].name == attrs[k].name)
    ensures !HasAttr(attrs, name) ==> SetAttrs(attrs, name, val) == attrs + [Attr(QualName(None, EmptyNs, name), val)]
  {
    var r := SetAttrs(attrs, name, val);
    FindAttrOthers(attrs, name, val, name);
    forall m | m != name
      ensures AttrValue(r, m) == AttrValue(attrs, m)
    {
      FindAttrOthers(attrs, name, val, m);
    }
  }

  /** Lists with the same local names at the same positions find the same attribute. */
  lemma {:induction false} FindAttrNames(a: seq<Attr>, b: seq<Attr>, m: string)
    requires |a| == |b| && forall k :: 0 <= k < |a| ==> a[k].name.local == b[k].name.local
    ensures FindAttr(a, m) == FindAttr(b, m)
    decreases |a|
  {
    if a != [] && a[0].name.local != m {
      FindAttrNames(a[1..], b[1..], m);
    }
  }

  /** Appending an attribute finds it only when no earlier one has the name. */
  lemma {:induction false} FindAttrAppend(a: seq<Attr>, x: Attr, m: string)
    ensures FindAttr(a + [x], m) == match FindAttr(a, m)
      case Some(k) => Some(k)
      case None => if x.name.local == m then Some(|a|) else None
    decreases |a|
  {
    if a == [] {
      assert [] + [x] == [x];
    } else {
      assert (a + [x])[0] == a[0];
      assert (a + [x])[1..] == a[1..] + [x];
      FindAttrAppend(a[1..], x, m);
    }
  }

  lemma FindAttrOthers(attrs: seq<Attr>, name: string, val: string, m: string)
    ensures m != name ==> FindAttr(SetAttrs(attrs, name, val), m) == FindAttr(attrs, m)
    ensures m == name ==> FindAttr(SetAttrs(attrs, name, val), m) == Some(if HasAttr(attrs, name) then FindAttr(attrs, name).value else |attrs|)
  {
    var r := SetAttrs(attrs, name, val);
    match FindAttr(attrs, name)
    case Some(k) =>
      FindAttrNames(r, attrs, m);
    case None =>
      FindAttrAppend(attrs, Attr(QualName(None, EmptyNs, name), val), m);
  }

  /** The attributes whose local name is (`keep`) or is not (`!keep`) in `names`, in order. */
  function KeepAttrs(attrs: seq<Attr>, names: seq<string>, keep: bool): seq<Attr>
  {
    if attrs == [] then []
    else
      var rest := KeepAttrs(attrs[1..], names, keep);
      if (attrs[0].name.local in names) == keep then [attrs[0]] + rest else rest
  }

  /** `remove_attr(name)`: `retain` of the attributes not named `name`. */
  function RemoveAttr(attrs: seq<Attr>, name: string): seq<Attr>
  {
    KeepAttrs(attrs, [name], false)
  }

  /** `remove_attrs(names)`: `retain` of the attributes not named in `names`. */
  function RemoveAttrs(attrs: seq<Attr>, names: seq<string>): seq<Attr>
  {
    KeepAttrs(attrs, names, false)
  }

  /** `retain_attrs(names)`: `retain` of the attributes named in `names`. */
  function RetainAttrs(attrs: seq<Attr>, names: seq<string>): seq<Attr>
  {
    KeepAttrs(attrs, names, true)
  }

  /**
   * `remove_attrs` and `retain_attrs` split the list: each is an
   * order-preserving subsequence, they hold exactly the attributes whose name
   * is outside (inside) `names`, and their lengths add up to the whole.
   */
  lemma {:induction false} KeepAttrsSplit(attrs: seq<Attr>, names: seq<string>)
    ensures IsSubseq(RemoveAttrs(attrs, names), attrs) && IsSubseq(RetainAttrs(attrs, names), attrs)
    ensures |RemoveAttrs(attrs, names)| + |RetainAttrs(attrs, names)| == |attrs|
    ensures forall a :: a in RemoveAttrs(attrs, names) <==> a in attrs && a.name.local !in names
    ensures forall a :: a in RetainAttrs(attrs, names) <==> a in attrs && a.name.local in names
    decreases |attrs|
  {
    if attrs != [] {
      KeepAttrsSplit(attrs[1..], names);
      var x := attrs[0];
      assert attrs == [x] + attrs[1..];
      var rem := RemoveAttrs(attrs[1..], names);
      var ret := RetainAttrs(attrs[1..], names);
      if x.name.local in names {
        SubseqSkip(x, rem, attrs[1..]);
        SubseqCons(x, ret, attrs[1..]);
      } else {
        SubseqCons(x, rem, attrs[1..]);
        SubseqSkip(x, ret, attrs[1..]);
      }
    }
  }

  /** `remove_attr(name)` drops every attribute named `name`, and only those. */
  lemma RemoveAttrEffect(attrs: seq<Attr>, name: string)
    ensures forall m :: HasAttr(RemoveAttr(attrs, name), m) <==> m != name && HasAttr(attrs, m)
    ensures !HasAttr(attrs, name) ==> RemoveAttr(attrs, name) == attrs
  {
    KeepAttrsSplit(attrs, [name]);
    var r := RemoveAttr(attrs, name);
    forall m
      ensures HasAttr(r, m) <==> m != name && HasAttr(attrs, m)
    {
      if HasAttr(r, m) {
        var k :| 0 <= k < |r| && r[k].name.local == m;
        assert r[k] in r;
        var j :| 0 <= j < |attrs| && attrs[j] == r[k];
      }
      if m != name && HasAttr(attrs, m) {
        var k :| 0 <= k < |attrs| && attrs[k].name.local == m;
        assert attrs[k] in r;
        var j :| 0 <= j < |r| && r[j] == attrs[k];
      }
    }
    if !HasAttr(attrs, name) {
      KeepAllAttrs(attrs, [name]);
    }
  }

  /** When no attribute is named in `names`, removing them keeps the whole list. */
  lemma {:induction false} KeepAllAttrs(attrs: seq<Attr>, names: seq<string>)
    requires forall k :: 0 <= k < |attrs| ==> attrs[k].name.local !in names
    ensures RemoveAttrs(attrs, names) == attrs
    decreases |attrs|
  {
    if attrs != [] {
      KeepAllAttrs(attrs[1..], names);
      assert [attrs[0]] + attrs[1..] == attrs;
    }
  }

  /** The qualified names of an attribute list. */
  function QualNames(attrs: seq<Attr>): seq<QualName>
  {
    if attrs == [] then [] else [attrs[0].name] + QualNames(attrs[1..])
  }

  /** The attributes of `incoming` whose qualified name is not in `existing`, in order. */
  function Missing(incoming: seq<Attr>, existing: seq<QualName>): seq<Attr>
  {
    if incoming == [] then []
    else
      var rest := Missing(incoming[1..], existing);
      if incoming[0].name in existing then rest else [incoming[0]] + rest
  }

  /** `add_attrs_if_missing`. */
  function WithMissingAttrs(attrs: seq<Attr>, incoming: seq<Attr>): seq<Attr>
  {
    attrs + Missing(incoming, QualNames(attrs))
  }

  lemma {:induction false} QualNamesMember(attrs: seq<Attr>, q: QualName)
    ensures q in QualNames(attrs) <==> exists k :: 0 <= k < |attrs| && attrs[k].name == q
    decreases |attrs|
  {
    if attrs != [] {
      QualNamesMember(attrs[1..], q);
      if exists k :: 0 <= k < |attrs| && attrs[k].name == q {
        var k :| 0 <= k < |attrs| && attrs[k].name == q;
        if k > 0 {
          assert attrs[1..][k - 1] == attrs[k];
        }
      }
      if q in QualNames(attrs[1..]) {
        var k :| 0 <= k < |attrs| - 1 && attrs[1..][k].name == q;
        assert attrs[k + 1] == attrs[1..][k];
      }
    }
  }

  lemma {:induction false} MissingSpec(incoming: seq<Attr>, existing: seq<QualName>)
    ensures IsSubseq(Missing(incoming, existing), incoming)
    ensures forall a :: a in Missing(incoming, existing) <==> a in incoming && a.name !in existing
    decreases |incoming|
  {
    if incoming != [] {
      MissingSpec(incoming[1..], existing);
      var x := incoming[0];
      assert incoming == [x] + incoming[1..];
      if x.name in existing {
        SubseqSkip(x, Missing(incoming[1..], existing), incoming[1..]);
      } else {
        SubseqCons(x, Missing(incoming[1..], existing), incoming[1..]);
      }
    }
  }

  /**
   * `add_attrs_if_missing` keeps the existing list as a prefix and appends,
   * in input order, exactly the incoming attributes whose qualified name is
   * not already present; every existing name reads as before.
   */
  lemma AddAttrsIfMissingEffect(attrs: seq<Attr>, incoming: seq<Attr>)
    ensures var r := WithMissingAttrs(attrs, incoming);
      && r[..|attrs|] == attrs
      && IsSubseq(r[|attrs|..], incoming)
      && (forall a :: a in r[|attrs|..] <==> a in incoming && forall k :: 0 <= k < |attrs| ==> attrs[k].name != a.name)
      && (forall m :: HasAttr(attrs, m) ==> AttrValue(r, m) == AttrValue(attrs, m))
  {
    var r := WithMissingAttrs(attrs, incoming);
    var added := Missing(incoming, QualNames(attrs));
    MissingSpec(incoming, QualNames(attrs));
    assert r[..|attrs|] == attrs && r[|attrs|..] == added;
    forall a
      ensures a in added <==> a in incoming && forall k :: 0 <= k < |attrs| ==> attrs[k].name != a.name
    {
      QualNamesMember(attrs, a.name);
    }
    forall m | HasAttr(attrs, m)
      ensures AttrValue(r, m) == AttrValue(attrs, m)
    {
      assert FindAttr(r, m) == FindAttr(attrs, m);
    }
  }

  /** `is_link` depends only on the name and the presence of `href`; a renamed element is a link only under a link name. */
  lemma IsLinkRename(e: Element, name: string)
    ensures IsLink(e) ==> AttrValue(e.attrs, "href").Some?
    ensures IsLink(e.(name := QualName(None, EmptyNs, name))) <==> name in {"a", "area", "link"} && HasAttr(e.attrs, "href")
  {
  }

  // ------------------------------------------------------------------ classes

  /** The trimmed non-empty pieces, in order. */
  function TrimmedTokens(pieces: seq<string>): seq<string>
  {
    if pieces == [] then []
    else
      var rest := TrimmedTokens(pieces[1..]);
      if Trim(pieces[0]) == [] then rest else [Trim(pieces[0])] + rest
  }

  /** `s.split(' ').map(trim).filter(non-empty)`, the tokens `add_class` and `remove_class` read. */
  function SpaceTokenList(s: string): seq<string>
  {
    TrimmedTokens(SplitOn(s, IsSpace))
  }

  function SpaceTokens(s: string): set<string>
  {
    set t | t in SpaceTokenList(s)
  }

  /** A space token is non-empty, already trimmed and holds no space. */
  predicate Token(t: string)
  {
    t != [] && Trim(t) == t && !SomeChar(t, IsSpace)
  }

  lemma {:induction false} TrimmedTokensShape(pieces: seq<string>, t: string)
    requires forall k :: 0 <= k < |pieces| ==> !SomeChar(pieces[k], IsSpace)
    requires t in TrimmedTokens(pieces)
    ensures Token(t)
    decreases |pieces|
  {
    var rest := TrimmedTokens(pieces[1..]);
    if t in rest {
      TrimmedTokensShape(pieces[1..], t);
    } else {
      var p := pieces[0];
      assert t == Trim(p);
      TrimIdempotent(p);
      forall i | 0 <= i < |t|
        ensures !IsSpace(t[i])
      {
        TrimKeepsChars(p, t[i]);
      }
    }
  }

  lemma SpaceTokenShape(s: string, t: string)
    requires t in SpaceTokens(s)
    ensures Token(t)
  {
    SplitOnPieces(s, IsSpace);
    TrimmedTokensShape(SplitOn(s, IsSpace), t);
  }

  /** `order` lists the set `tokens`, each once: a hash set's iteration order. */
  predicate Enumerates(order: seq<string>, tokens: set<string>)
  {
    NoDups(order) && (forall t :: t in order ==> t in tokens) && (forall t :: t in tokens ==> t in order)
  }

  /** The `for item in class_set` loop of `add_class`: append each token not yet a class. */
  function AddClassValue(value: string, order: seq<string>): string
    decreases |order|
  {
    if order == [] then value
    else
      var v := if ContainsClass(value, order[0]) then value else value + " " + order[0];
      AddClassValue(v, order[1..])
  }

  /** `add_class(classes)`, with the hash set iterated in `order`. */
  function AddClassAttrs(attrs: seq<Attr>, classes: string, order: seq<string>): seq<Attr>
  {
    if Trim(classes) == [] then attrs
    else match FindAttr(attrs, "class")
      case Some(k) => attrs[k := attrs[k].(value := AddClassValue(attrs[k].value, order))]
      case None => attrs + [Attr(QualName(None, EmptyNs, "class"), Join(order, " "))]
  }

  /** The words of the tokens in `order`. */
  function OrderWords(order: seq<string>): set<string>
  {
    if order == [] then {} else WordSet(order[0]) + OrderWords(order[1..])
  }

  /** The words of the tokens in a set. */
  function TokenWords(tokens: set<string>): set<string>
  {
    set t, w | t in tokens && w in AsciiWords(t) :: w
  }

  lemma {:induction false} OrderWordsMember(order: seq<string>, w: string)
    ensures w in OrderWords(order) <==> exists k :: 0 <= k < |order| && w in AsciiWords(order[k])
    decreases |order|
  {
    if order != [] {
      OrderWordsMember(order[1..], w);
      if w in OrderWords(order[1..]) {
        var k :| 0 <= k < |order| - 1 && w in AsciiWords(order[1..][k]);
        assert order[k + 1] == order[1..][k];
      }
      if exists k :: 0 <= k < |order| && w in AsciiWords(order[k]) {
        var k :| 0 <= k < |order| && w in AsciiWords(order[k]);
        if k > 0 {
          assert order[1..][k - 1] == order[k];
        }
      }
    }
  }

  lemma OrderWordsOfSet(order: seq<string>, tokens: set<string>)
    requires forall t :: t in order <==> t in tokens
    ensures OrderWords(order) == TokenWords(tokens)
  {
    forall w
      ensures w in OrderWords(order) <==> w in TokenWords(tokens)
    {
      OrderWordsMember(order, w);
      if w in TokenWords(tokens) {
        var t :| t in tokens && w in AsciiWords(t);
        var k :| 0 <= k < |order| && order[k] == t;
      }
    }
  }

  /** The words after the loop are the old words plus the words of every token. */
  lemma {:induction false} AddClassValueWords(value: string, order: seq<string>)
    ensures WordSet(AddClassValue(value, order)) == WordSet(value) + OrderWords(order)
    decreases |order|
  {
    if order != [] {
      var t := order[0];
      var v := if ContainsClass(value, t) then value else value + " " + t;
      AddClassValueWords(v, order[1..]);
      if ContainsClass(value, t) {
        FieldsWords(value, IsAsciiWhitespace);
        SeparatorFree(t, IsAsciiWhitespace);
      } else {
        FieldsSplice(value, ' ', t, IsAsciiWhitespace);
      }
      assert WordSet(v) == WordSet(value) + WordSet(t);
    }
  }

  /** Tokens that are all classes already leave the value as it is ("main main main" on "main"). */
  lemma {:induction false} AddClassValueKnown(value: string, order: seq<string>)
    requires forall k :: 0 <= k < |order| ==> ContainsClass(value, order[k])
    ensures AddClassValue(value, order) == value
    decreases |order|
  {
    if order != [] {
      AddClassValueKnown(value, order[1..]);
    }
  }

  /** The words of tokens joined by single spaces are the words of the tokens. */
  lemma JoinWords(order: seq<string>)
    ensures WordSet(Join(order, " ")) == OrderWords(order)
  {
    FieldsJoin(order, ' ', IsAsciiWhitespace);
    forall w
      ensures w in WordSet(Join(order, " ")) <==> w in OrderWords(order)
    {
      FieldsAllMember(order, IsAsciiWhitespace, w);
      OrderWordsMember(order, w);
    }
  }

  /**
   * `add_class(classes)`: blank input changes nothing; otherwise the class
   * words become the old ones plus the words of every token of `classes`,
   * and no other attribute reads differently.
   */
  lemma AddClassEffect(attrs: seq<Attr>, classes: string, order: seq<string>)
    requires Enumerates(order, SpaceTokens(classes))
    ensures Trim(classes) == [] ==> AddClassAttrs(attrs, classes, order) == attrs
    ensures Trim(classes) != [] ==>
      ClassWords(AddClassAttrs(attrs, classes, order)) == ClassWords(attrs) + TokenWords(SpaceTokens(classes))
    ensures forall m :: m != "class" ==> AttrValue(AddClassAttrs(attrs, classes, order), m) == AttrValue(attrs, m)
  {
    OrderWordsOfSet(order, SpaceTokens(classes));
    var r := AddClassAttrs(attrs, classes, order);
    if Trim(classes) != [] {
      match FindAttr(attrs, "class")
      case Some(k) =>
        AddClassValueWords(attrs[k].value, order);
        SetAttrEffect(attrs, "class", AddClassValue(attrs[k].value, order));
      case None =>
        JoinWords(order);
        SetAttrEffect(attrs, "class", Join(order, " "));
    }
  }

  /** Every space-free, ASCII-whitespace-free token of `classes` is a class after `add_class`. */
  lemma AddClassHasTokens(e: Element, classes: string, order: seq<string>, t: string)
    requires Enumerates(order, SpaceTokens(classes))
    requires Trim(classes) != []
    requires t in SpaceTokens(classes) && !SomeChar(t, IsAsciiWhitespace)
    ensures HasClass(e.(attrs := AddClassAttrs(e.attrs, classes, order)), t)
  {
    HasClassWords(e.(attrs := AddClassAttrs(e.attrs, classes, order)), t);
    AddClassEffect(e.attrs, classes, order);
    SpaceTokenShape(classes, t);
    SeparatorFree(t, IsAsciiWhitespace);
    assert t in AsciiWords(t);
    assert t in TokenWords(SpaceTokens(classes));
  }

  /** When every token is already a class, `add_class` leaves an existing class attribute unchanged. */
  lemma AddClassNoDuplicates(attrs: seq<Attr>, classes: string, order: seq<string>)
    requires Enumerates(order, SpaceTokens(classes)) && AttrValue(attrs, "class").Some?
    requires forall t :: t in SpaceTokens(classes) ==> ContainsClass(AttrValue(attrs, "class").value, t)
    ensures AddClassAttrs(attrs, classes, order) == attrs
  {
    if Trim(classes) != [] {
      var k := FindAttr(attrs, "class").value;
      AddClassValueKnown(attrs[k].value, order);
      assert attrs[k := attrs[k]] == attrs;
    }
  }

  /** The class tokens `remove_class` starts from; none without a class attribute. */
  function ClassTokens(attrs: seq<Attr>): set<string>
  {
    match AttrValue(attrs, "class")
    case None => {}
    case Some(v) => SpaceTokens(v)
  }

  /** `remove_class(cls)`, with the remaining hash set iterated in `order`. */
  function RemoveClassAttrs(attrs: seq<Attr>, cls: string, order: seq<string>): seq<Attr>
  {
    if Trim(cls) == [] then attrs
    else match FindAttr(attrs, "class")
      case Some(k) => attrs[k := attrs[k].(value := Join(order, " "))]
      case None => attrs
  }

  /** The tokens of tokens joined by single spaces are those tokens. */
  lemma JoinTokens(order: seq<string>)
    requires forall k :: 0 <= k < |order| ==> Token(order[k])
    ensures SpaceTokens(Join(order, " ")) == set t | t in order
  {
    if order == [] {
      assert SplitOn([], IsSpace) == [[]];
      assert Trim([]) == [];
      assert TrimmedTokens([[]]) == [];
    } else {
      SplitOnJoin(order, ' ', IsSpace);
      TrimmedTokensOfTokens(order);
      assert SpaceTokenList(Join(order, " ")) == order;
    }
  }

  lemma {:induction false} TrimmedTokensOfTokens(order: seq<string>)
    requires forall k :: 0 <= k < |order| ==> Token(order[k])
    ensures TrimmedTokens(order) == order
    decreases |order|
  {
    if order != [] {
      TokensTail(order);
      TrimmedTokensOfTokens(order[1..]);
      TrimmedTokensCons(order);
    }
  }

  lemma TrimmedTokensCons(order: seq<string>)
    requires order != [] && Token(order[0])
    requires TrimmedTokens(order[1..]) == order[1..]
    ensures TrimmedTokens(order) == order
  {
    assert TrimmedTokens(order) == [order[0]] + TrimmedTokens(order[1..]);
    assert [order[0]] + order[1..] == order;
  }

  lemma TokensTail(order: seq<string>)
    requires order != [] && forall k :: 0 <= k < |order| ==> Token(order[k])
    ensures forall k :: 0 <= k < |order[1..]| ==> Token(order[1..][k])
  {
    forall k | 0 <= k < |order[1..]|
      ensures Token(order[1..][k])
    {
      assert order[1..][k] == order[k + 1];
    }
  }

  /** `remove_class` with blank input, or without a class attribute, changes nothing. */
  lemma RemoveClassBlank(attrs: seq<Attr>, cls: string, order: seq<string>)
    ensures Trim(cls) == [] || !HasAttr(attrs, "class") ==> RemoveClassAttrs(attrs, cls, order) == attrs
  {
  }

  /**
   * `remove_class(cls)` on an element with a class attribute: the class
   * tokens become the old ones minus those of `cls`.
   */
  lemma RemoveClassTokens(attrs: seq<Attr>, cls: string, order: seq<string>)
    requires Enumerates(order, ClassTokens(attrs) - SpaceTokens(cls))
    requires Trim(cls) != [] && HasAttr(attrs, "class")
    ensures ClassTokens(RemoveClassAttrs(attrs, cls, order)) == ClassTokens(attrs) - SpaceTokens(cls)
  {
    var k := FindAttr(attrs, "class").value;
    var v := attrs[k].value;
    assert ClassTokens(attrs) == SpaceTokens(v);
    forall i | 0 <= i < |order|
      ensures Token(order[i])
    {
      assert order[i] in order;
      SpaceTokenShape(v, order[i]);
    }
    JoinTokens(order);
    SetAttrEffect(attrs, "class", Join(order, " "));
  }

  /** `remove_class` touches no attribute but the class attribute. */
  lemma RemoveClassKeepsOthers(attrs: seq<Attr>, cls: string, order: seq<string>, m: string)
    requires m != "class"
    ensures AttrValue(RemoveClassAttrs(attrs, cls, order), m) == AttrValue(attrs, m)
  {
    if Trim(cls) != [] && HasAttr(attrs, "class") {
      SetAttrEffect(attrs, "class", Join(order, " "));
    }
  }

  // ------------------------------------------------------------ the element

  /** An element borrowed mutably from its node: `&mut Element`. */
  class ElementRef {
    var name: QualName
    var attrs: seq<Attr>
    const templateContents: Option<NodeId>
    const mathmlAnnotationXmlIntegrationPoint: bool

    function Value(): Element
      reads this
    {
      Element(name, attrs, templateContents, mathmlAnnotationXmlIntegrationPoint)
    }

    constructor (e: Element)
      ensures Value() == e
    {
      name := e.name;
      attrs := e.attrs;
      templateContents := e.templateContents;
      mathmlAnnotationXmlIntegrationPoint := e.mathmlAnnotationXmlIntegrationPoint;
    }

    /** `add_class`: the `classes` tokens are visited in the hash set's `order`. */
    method AddClass(classes: string, order: seq<string>)
      requires Enumerates(order, SpaceTokens(classes))
      modifies this
      ensures attrs == AddClassAttrs(old(attrs), classes, order) && name == old(name)
    {
      if Trim(classes) == [] {
        return;
      }
      match FindAttr(attrs, "class")
      case Some(k) =>
        var value := attrs[k].value;
        for i := 0 to |order|
          invariant AddClassValue(value, order[i..]) == AddClassValue(attrs[k].value, order)
        {
          assert order[i..][1..] == order[i + 1..];
          if !ContainsClass(value, order[i]) {
            value := value + " " + order[i];
          }
        }
        attrs := attrs[k := attrs[k].(value := value)];
      case None =>
        attrs := attrs + [Attr(QualName(None, EmptyNs, "class"), Join(order, " "))];
    }

    /**
     * `remove_class`: the class tokens become a hash set, the tokens of
     * `cls` are removed from it one by one, and what is left is joined,
     * in the set's `order`, by single spaces.
     */
    method RemoveClass(cls: string, order: seq<string>)
      requires Enumerates(order, ClassTokens(attrs) - SpaceTokens(cls))
      modifies this
      ensures attrs == RemoveClassAttrs(old(attrs), cls, order) && name == old(name)
    {
      if Trim(cls) == [] {
        return;
      }
      match FindAttr(attrs, "class")
      case Some(k) =>
        var tokens := RemainingTokens(attrs[k].value, SpaceTokenList(cls));
        assert tokens == ClassTokens(attrs) - SpaceTokens(cls);
        attrs := attrs[k := attrs[k].(value := Join(order, " "))];
      case None =>
    }

    /** The `for remove in removes { set.remove(remove) }` loop of `remove_class`. */
    static method RemainingTokens(v: string, removes: seq<string>) returns (tokens: set<string>)
      ensures tokens == SpaceTokens(v) - set t | t in removes
    {
      tokens := SpaceTokens(v);
      for i := 0 to |removes|
        invariant forall t :: t in tokens <==> t in SpaceTokens(v) && t !in removes[..i]
      {
        assert removes[..i + 1] == removes[..i] + [removes[i]];
        tokens := tokens - {removes[i]};
      }
      assert removes[..|removes|] == removes;
    }

    /** `set_attr`. */
    method SetAttr(n: string, val: string)
      modifies this
      ensures attrs == SetAttrs(old(attrs), n, val) && name == old(name)
    {
      match FindAttr(attrs, n)
      case Some(k) =>
        attrs := attrs[k := attrs[k].(value := val)];
      case None =>
        attrs := attrs + [Attr(QualName(None, EmptyNs, n), val)];
    }

    /** `remove_attr`. */
    method RemoveAttribute(n: string)
      modifies this
      ensures attrs == RemoveAttr(old(attrs), n) && name == old(name)
    {
      attrs := KeepAttrs(attrs, [n], false);
    }

    /** `remove_attrs`. */
    method RemoveAttributes(names: seq<string>)
      modifies this
      ensures attrs == RemoveAttrs(old(attrs), names) && name == old(name)
    {
      attrs := KeepAttrs(attrs, names, false);
    }

    /** `retain_attrs`. */
    method RetainAttributes(names: seq<string>)
      modifies this
      ensures attrs == RetainAttrs(old(attrs), names) && name == old(name)
    {
      attrs := KeepAttrs(attrs, names, true);
    }

    /** `remove_all_attrs`. */
    method RemoveAllAttrs()
      modifies this
      ensures attrs == [] && name == old(name)
    {
      attrs := [];
    }

    /** `add_attrs_if_missing`. */
    method AddAttrsIfMissing(incoming: seq<Attr>)
      modifies this
      ensures attrs == WithMissingAttrs(old(attrs), incoming) && name == old(name)
    {
      attrs := attrs + Missing(incoming, QualNames(attrs));
    }

    /** `rename`: only the name changes, to `n` in the empty namespace without prefix. */
    method Rename(n: string)
      modifies this
      ensures name == QualName(None, EmptyNs, n) && attrs == old(attrs)
    {
      name := QualName(None, EmptyNs, n);
    }
  }
}
