/**
 * The nom parser of src/mini_selector/parser.rs, as functions on strings.
 * A parser returns the unconsumed input and a value, a recoverable error
 * (`nom::Err::Error`, on which `opt`, `alt` and `many0` back off) or an
 * unrecoverable one (`nom::Err::Failure`, raised by `cut` and propagated by
 * every combinator).
 */
module MiniParser {
  import opened Wrappers
  import opened Str
  import opened MiniSelectors

  datatype Parsed<T> = Success(rest: string, value: T) | Error | Failure

  /** `rest` is what is left of `s` once a prefix has been consumed. */
  predicate IsSuffix(rest: string, s: string)
  {
    |rest| <= |s| && s[|s| - |rest|..] == rest
  }

  /** A parser made optional (`opt`): a recoverable error becomes `None` and gives back the input. */
  function Opt<T>(s: string, p: Parsed<T>): (r: Parsed<Option<T>>)
    ensures r.Success? <==> !p.Failure?
    ensures r.Success? && r.value.None? ==> r.rest == s
  {
    match p
    case Success(t, v) => Success(t, Some(v))
    case Error => Success(s, None)
    case Failure => Failure
  }

  /** The characters of names, ids, classes and attribute keys: ASCII alphanumerics and `-`. */
  predicate IsNameChar(c: char)
  {
    IsAsciiAlphanumeric(c) || c == '-'
  }

  predicate NotNameChar(c: char)
  {
    !IsNameChar(c)
  }

  /** The characters `multispace0` skips. */
  predicate NotMultispace(c: char)
  {
    !(c == ' ' || c == '\t' || c == '\r' || c == '\n')
  }

  predicate IsDoubleQuote(c: char)
  {
    c == '"'
  }

  predicate IsSingleQuote(c: char)
  {
    c == '\''
  }

  predicate IsCloseBracket(c: char)
  {
    c == ']'
  }

  /**
   * `take_while1` of the characters that do not satisfy `stop` (also
   * `is_not`): the longest non-empty such prefix, or an error when the
   * input is empty or starts with a stop character.
   */
  function TakeRun(s: string, stop: char -> bool): (r: Parsed<string>)
    ensures !r.Failure?
    ensures r.Error? <==> s == [] || stop(s[0])
    ensures r.Success? ==> s == r.value + r.rest && r.value != [] && !SomeChar(r.value, stop)
    ensures r.Success? ==> r.rest == [] || stop(r.rest[0])
  {
    var n := RunLen(s, stop);
    RunLenSpec(s, stop);
    if n == 0 then Error
    else
      assert s == s[..n] + s[n..];
      Success(s[n..], s[..n])
  }

  /** `multispace0`: drops the leading spaces, tabs and line breaks. */
  function SkipSpace(s: string): (r: string)
    ensures IsSuffix(r, s)
    ensures r == [] || NotMultispace(r[0])
    ensures forall i :: 0 <= i < |s| - |r| ==> !NotMultispace(s[i])
  {
    RunLenSpec(s, NotMultispace);
    s[RunLen(s, NotMultispace)..]
  }

  /** `parse_name`, and `parse_attr_key`, which has the same definition. */
  function ParseName(s: string): Parsed<string>
  {
    TakeRun(s, NotNameChar)
  }

  /** A `#` or `.` followed by a name: `parse_id`, and one item of `parse_classes`. */
  function Prefixed(s: string, mark: char): (r: Parsed<string>)
    ensures !r.Failure?
    ensures r.Success? ==> s == [mark] + r.value + r.rest
    ensures r.Error? <==> !(|s| >= 2 && s[0] == mark && IsNameChar(s[1]))
  {
    if s != [] && s[0] == mark then
      match ParseName(s[1..])
      case Success(t, v) => assert s == [s[0]] + s[1..]; Success(t, v)
      case _ => Error
    else Error
  }

  function ParseId(s: string): Parsed<string>
  {
    Prefixed(s, '#')
  }

  /** `many1` of `.name` without the at-least-one test: the classes and what follows them. */
  function ClassesMany(s: string): (r: (string, seq<string>))
    ensures |r.0| <= |s|
    ensures r.1 != [] ==> |r.0| < |s|
    ensures r.1 == [] <==> Prefixed(s, '.').Error?
    decreases |s|
  {
    match Prefixed(s, '.')
    case Success(t, c) =>
      var (t2, cs) := ClassesMany(t);
      (t2, [c] + cs)
    case _ => (s, [])
  }

  /** `parse_classes`: one or more `.name`. */
  function ParseClasses(s: string): (r: Parsed<seq<string>>)
    ensures !r.Failure?
    ensures r.Success? ==> |r.rest| < |s| && r.value != []
  {
    var (t, cs) := ClassesMany(s);
    if cs == [] then Error else Success(t, cs)
  }

  /** The text of each attribute operator. */
  function OperatorText(op: AttrOperator): string
  {
    match op
    case Includes => "~="
    case DashMatch => "|="
    case Prefix => "^="
    case Suffix => "$="
    case Substring => "*="
    case Equals => "="
  }

  /** The `alt` of the six operator tags, tried in the source's order. */
  function OperatorAt(t: string): (r: Option<AttrOperator>)
    ensures r.Some? ==> StartsWith(t, OperatorText(r.value))
  {
    if StartsWith(t, "~=") then Some(Includes)
    else if StartsWith(t, "|=") then Some(DashMatch)
    else if StartsWith(t, "^=") then Some(Prefix)
    else if StartsWith(t, "$=") then Some(Suffix)
    else if StartsWith(t, "*=") then Some(Substring)
    else if StartsWith(t, "=") then Some(Equals)
    else None
  }

  /** `parse_attr_operator`: an operator with optional whitespace around it. */
  function ParseAttrOperator(s: string): (r: Parsed<AttrOperator>)
    ensures !r.Failure?
    ensures r.Success? ==> |r.rest| < |s|
    ensures r.Error? <==> OperatorAt(SkipSpace(s)).None?
  {
    var t := SkipSpace(s);
    match OperatorAt(t)
    case Some(op) =>
      var u := t[|OperatorText(op)|..];
      Success(SkipSpace(u), op)
    case None => Error
  }

  /**
   * The quoted branch of `parse_attr_value`, after the opening quote:
   * `cut(terminated(is_not(q), char(q)))`. An empty value or a missing
   * closing quote is unrecoverable.
   */
  function QuotedValue(body: string, isQuote: char -> bool): (r: Parsed<string>)
    ensures !r.Error?
    ensures r.Success? ==> |r.value| < |body| && body == r.value + [body[|r.value|]] + r.rest && isQuote(body[|r.value|])
    ensures r.Success? ==> r.value != [] && !SomeChar(r.value, isQuote)
    ensures r.Failure? <==> body == [] || isQuote(body[0]) || !SomeChar(body, isQuote)
  {
    match TakeRun(body, isQuote)
    case Success(t, v) =>
      if t != [] then
        assert body == v + t;
        assert body[|v|] == t[0];
        assert body == v + [body[|v|]] + t[1..];
        Success(t[1..], v)
      else
        assert body == v;
        Failure
    case _ => Failure
  }

  /** `parse_attr_value`: an operator, then a double-quoted, single-quoted or bare value. */
  function ParseAttrValue(s: string): (r: Parsed<AttrValue>)
    ensures r.Success? ==> |r.rest| < |s|
  {
    match ParseAttrOperator(s)
    case Success(t, op) =>
      var v :=
        if t != [] && t[0] == '"' then QuotedValue(t[1..], IsDoubleQuote)
        else if t != [] && t[0] == '\'' then QuotedValue(t[1..], IsSingleQuote)
        else TakeRun(t, IsCloseBracket);
      (match v
      case Success(u, x) =>
        Success(u, AttrValue(op, x))
      case Error => Error
      case Failure => Failure)
    case Error => Error
    case Failure => Failure
  }

  /** `parse_attr`: `[`, a key, an optional operator and value, `]`. */
  function ParseAttr(s: string): (r: Parsed<Attribute>)
    ensures r.Success? ==> |r.rest| < |s|
  {
    if s == [] || s[0] != '[' then Error
    else
      match ParseName(s[1..])
      case Success(t, key) =>
        (match Opt(t, ParseAttrValue(t))
        case Success(t2, value) =>
          if t2 != [] && t2[0] == ']' then
            Success(t2[1..], Attribute(key, value))
          else Error
        case Error => Error
        case Failure => Failure)
      case Error => Error
      case Failure => Failure
  }

  /** One item of `parse_attrs`: an attribute not directly followed by another `]`. */
  function AttrItem(s: string): (r: Parsed<Attribute>)
    ensures r.Success? ==> |r.rest| < |s|
    ensures r.Success? ==> r.rest == [] || r.rest[0] != ']'
  {
    match ParseAttr(s)
    case Success(t, a) => if t != [] && t[0] == ']' then Error else Success(t, a)
    case Error => Error
    case Failure => Failure
  }

  /** `many0` of attribute items: stops at the first recoverable error, propagates a failure. */
  function AttrsMany(s: string): (r: Parsed<seq<Attribute>>)
    ensures !r.Error?
    ensures r.Success? ==> |r.rest| <= |s| && (r.value != [] ==> |r.rest| < |s|)
    ensures r.Success? && r.value == [] ==> AttrItem(s).Error?
    decreases |s|
  {
    match AttrItem(s)
    case Success(t, a) =>
      var inner := AttrsMany(t);
      if inner.Failure? then Failure
      else
        Success(inner.rest, [a] + inner.value)
    case Error => Success(s, [])
    case Failure => Failure
  }

  /** `parse_attrs`: `many1` of attribute items. */
  function ParseAttrs(s: string): (r: Parsed<seq<Attribute>>)
    ensures r.Success? ==> |r.rest| < |s| && r.value != []
    ensures r.Error? <==> AttrItem(s).Error?
  {
    match AttrsMany(s)
    case Success(t, attrs) => if attrs == [] then Error else Success(t, attrs)
    case Error => Error
    case Failure => Failure
  }

  /** The `alt` of the three combinator tags. */
  function CombinatorAt(t: string): Option<Combinator>
  {
    if StartsWith(t, ">") then Some(Child)
    else if StartsWith(t, "+") then Some(Adjacent)
    else if StartsWith(t, "~") then Some(Sibling)
    else None
  }

  /** `parse_combinator`: `>`, `+` or `~` with optional whitespace around it; the descendant space is not one. */
  function ParseCombinator(s: string): (r: Parsed<Combinator>)
    ensures !r.Failure?
    ensures r.Success? ==> |r.rest| < |s| && r.value != Descendant
    ensures r.Error? <==> CombinatorAt(SkipSpace(s)).None?
  {
    var t := SkipSpace(s);
    match CombinatorAt(t)
    case Some(c) =>
      Success(SkipSpace(t[1..]), c)
    case None => Error
  }

  /** The value of a parser that cannot fail, made optional. */
  function Maybe<T>(s: string, p: Parsed<T>): (r: (string, Option<T>))
    requires !p.Failure?
  {
    match p
    case Success(t, v) => (t, Some(v))
    case _ => (s, None)
  }

  /**
   * `parse_mini_selector`: the five optional parts in order; an error when
   * all five are absent, and the descendant combinator when none is given.
   */
  function ParseMiniSelector(s: string): (r: Parsed<MiniSelector>)
    ensures r.Success? ==> |r.rest| < |s|
  {
    var (s1, name) := Maybe(s, ParseName(s));
    var (s2, id) := Maybe(s1, ParseId(s1));
    var (s3, classes) := Maybe(s2, ParseClasses(s2));
    var attrsR := ParseAttrs(s3);
    if attrsR.Failure? then Failure
    else
      var (s4, attrs) := Maybe(s3, attrsR);
      var (s5, comb) := Maybe(s4, ParseCombinator(s4));
      if name.None? && id.None? && classes.None? && attrs.None? && comb.None? then Error
      else
        Success(s5, MiniSelector(name, id, classes, attrs, comb.UnwrapOr(Descendant)))
  }

  /** One item of `parse_selector_list`: a selector with optional whitespace around it. */
  function SelectorItem(s: string): (r: Parsed<MiniSelector>)
    ensures r.Success? ==> |r.rest| < |s|
  {
    var t := SkipSpace(s);
    match ParseMiniSelector(t)
    case Success(u, sel) =>
      Success(SkipSpace(u), sel)
    case Error => Error
    case Failure => Failure
  }

  /** `parse_selector_list`: `many0` of selector items. */
  function ParseSelectorList(s: string): (r: Parsed<seq<MiniSelector>>)
    ensures !r.Error?
    ensures r.Success? ==> |r.rest| <= |s|
    ensures r.Success? && r.value == [] ==> r.rest == s
    decreases |s|
  {
    match SelectorItem(s)
    case Success(t, sel) =>
      var inner := ParseSelectorList(t);
      if inner.Failure? then Failure
      else
        Success(inner.rest, [sel] + inner.value)
    case Error => Success(s, [])
    case Failure => Failure
  }

  /**
   * A selector is missing exactly when none of its five parts parses at the
   * start of the input: an absent part gives the input back, so every part
   * is tried at the same place.
   */
  lemma MiniSelectorErrorIff(s: string)
    ensures ParseMiniSelector(s).Error?
      <==> ParseName(s).Error? && ParseId(s).Error? && ParseClasses(s).Error?
           && ParseAttrs(s).Error? && ParseCombinator(s).Error?
  {
  }
}
