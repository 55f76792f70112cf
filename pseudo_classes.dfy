/**
 * The pseudo-classes the selector parser of src/matcher.rs accepts beyond
 * the standard tree-structural ones: eleven names without an argument and
 * two functions taking a quoted string.  Names are compared ASCII
 * case-insensitively; anything else is an unsupported pseudo-class.
 */
module PseudoClasses {
  import opened Wrappers
  import opened Str

  /** `NonTSPseudoClass`. */
  datatype PseudoClass =
    | AnyLink | Link | Visited | Active | Focus | Hover
    | Enabled | Disabled | Checked | Indeterminate | OnlyText
    | HasText(text: string)
    | Contains(text: string)

  /** The two errors of the parser hooks: an unknown name, or a function argument that is not a quoted string. */
  datatype PseudoError = UnsupportedPseudoClass(name: string) | ExpectedString

  predicate IsFunctional(p: PseudoClass)
  {
    p.HasText? || p.Contains?
  }

  /** The name `to_css` writes after the colon, in lower case. */
  function Name(p: PseudoClass): string
  {
    match p
    case AnyLink => "any-link"
    case Link => "link"
    case Visited => "visited"
    case Active => "active"
    case Focus => "focus"
    case Hover => "hover"
    case Enabled => "enabled"
    case Disabled => "disabled"
    case Checked => "checked"
    case Indeterminate => "indeterminate"
    case OnlyText => "only-text"
    case HasText(_) => "has-text"
    case Contains(_) => "contains"
  }

  /**
   * `parse_non_ts_pseudo_class`: the first of the eleven names equal to
   * `name` up to ASCII case, or the unsupported-name error carrying `name`.
   */
  function ParseNonTSPseudoClass(name: string): (r: Result<PseudoClass, PseudoError>)
    ensures r.Ok? ==> !IsFunctional(r.value) && EqIgnoreAsciiCase(name, Name(r.value))
    ensures r.Err? ==> r.error == UnsupportedPseudoClass(name)
  {
    if EqIgnoreAsciiCase(name, "any-link") then Ok(AnyLink)
    else if EqIgnoreAsciiCase(name, "link") then Ok(Link)
    else if EqIgnoreAsciiCase(name, "visited") then Ok(Visited)
    else if EqIgnoreAsciiCase(name, "active") then Ok(Active)
    else if EqIgnoreAsciiCase(name, "focus") then Ok(Focus)
    else if EqIgnoreAsciiCase(name, "hover") then Ok(Hover)
    else if EqIgnoreAsciiCase(name, "enabled") then Ok(Enabled)
    else if EqIgnoreAsciiCase(name, "disabled") then Ok(Disabled)
    else if EqIgnoreAsciiCase(name, "checked") then Ok(Checked)
    else if EqIgnoreAsciiCase(name, "indeterminate") then Ok(Indeterminate)
    else if EqIgnoreAsciiCase(name, "only-text") then Ok(OnlyText)
    else Err(UnsupportedPseudoClass(name))
  }

  /**
   * `parse_non_ts_functional_pseudo_class`: `has-text` or `contains` up to
   * ASCII case, whose argument must be a quoted string; `arg` is that
   * string when the next token is one.
   */
  function ParseNonTSFunctionalPseudoClass(name: string, arg: Option<string>): (r: Result<PseudoClass, PseudoError>)
    ensures r.Ok? <==> (EqIgnoreAsciiCase(name, "has-text") || EqIgnoreAsciiCase(name, "contains")) && arg.Some?
    ensures r.Ok? ==> IsFunctional(r.value) && r.value.text == arg.value && EqIgnoreAsciiCase(name, Name(r.value))
    ensures r == Err(ExpectedString) <==> (EqIgnoreAsciiCase(name, "has-text") || EqIgnoreAsciiCase(name, "contains")) && arg.None?
  {
    if EqIgnoreAsciiCase(name, "has-text") then
      match arg
      case Some(s) => Ok(HasText(s))
      case None => Err(ExpectedString)
    else if EqIgnoreAsciiCase(name, "contains") then
      match arg
      case Some(s) => Ok(Contains(s))
      case None => Err(ExpectedString)
    else Err(UnsupportedPseudoClass(name))
  }

  /**
   * `to_css`: a colon and the name, and for the two functions the argument
   * as `CssString::to_css` writes it between parentheses; `serialize`
   * stands for that serialisation.
   */
  function ToCss(p: PseudoClass, serialize: string -> string): (r: string)
    ensures |r| > |Name(p)| && r[0] == ':' && r[1..|Name(p)| + 1] == Name(p)
    ensures !IsFunctional(p) <==> |r| == |Name(p)| + 1
  {
    var head := ":" + Name(p);
    if IsFunctional(p) then head + "(" + serialize(p.text) + ")" else head
  }

  lemma DiffersAt(a: string, b: string, i: nat)
    requires i < |a| && i < |b| && ToAsciiLower(a[i]) != ToAsciiLower(b[i])
    ensures !EqIgnoreAsciiCase(a, b)
  {
  }

  lemma EqIgnoreCaseRefl(a: string)
    ensures EqIgnoreAsciiCase(a, a)
  {
  }

  /** Two names equal up to ASCII case agree with every third name alike. */
  lemma EqIgnoreCaseSwap(a: string, b: string, x: string)
    requires EqIgnoreAsciiCase(a, b)
    ensures EqIgnoreAsciiCase(a, x) <==> EqIgnoreAsciiCase(b, x)
  {
  }

  /** Every name differs from the other twelve even up to case, so parsing what `to_css` writes after the colon gives the class back. */
  lemma ToCssNameParses(p: PseudoClass, serialize: string -> string)
    ensures !IsFunctional(p) ==> ParseNonTSPseudoClass(ToCss(p, serialize)[1..]) == Ok(p)
    ensures IsFunctional(p) ==> ParseNonTSFunctionalPseudoClass(ToCss(p, serialize)[1..|Name(p)| + 1], Some(p.text)) == Ok(p)
  {
    var n := Name(p);
    var r := ToCss(p, serialize);
    if !IsFunctional(p) {
      assert r[1..] == n;
    } else {
      assert r[1..|n| + 1] == n;
    }
    SimpleNamesApart(p);
    EqIgnoreCaseRefl(n);
    if p.Contains? {
      DiffersAt(n, "has-text", 0);
    }
  }

  /** The earlier branches of the parser reject the name of a later one. */
  lemma SimpleNamesApart(p: PseudoClass)
    ensures p != AnyLink ==> !EqIgnoreAsciiCase(Name(p), "any-link")
    ensures p != Link ==> !EqIgnoreAsciiCase(Name(p), "link")
    ensures p != Visited ==> !EqIgnoreAsciiCase(Name(p), "visited")
    ensures p != Active ==> !EqIgnoreAsciiCase(Name(p), "active")
    ensures !p.Focus? ==> !EqIgnoreAsciiCase(Name(p), "focus")
    ensures !p.Hover? ==> !EqIgnoreAsciiCase(Name(p), "hover")
    ensures !p.Enabled? ==> !EqIgnoreAsciiCase(Name(p), "enabled")
    ensures !p.Disabled? ==> !EqIgnoreAsciiCase(Name(p), "disabled")
    ensures !p.Checked? ==> !EqIgnoreAsciiCase(Name(p), "checked")
    ensures !p.Indeterminate? ==> !EqIgnoreAsciiCase(Name(p), "indeterminate")
    ensures !p.OnlyText? ==> !EqIgnoreAsciiCase(Name(p), "only-text")
  {
    var n := Name(p);
    match p
    case AnyLink => DiffersAt(n, "disabled", 0);
    case Disabled => DiffersAt(n, "any-link", 0);
    case Visited => DiffersAt(n, "enabled", 0); DiffersAt(n, "checked", 0);
    case Enabled => DiffersAt(n, "visited", 0); DiffersAt(n, "checked", 0);
    case Checked => DiffersAt(n, "visited", 0); DiffersAt(n, "enabled", 0);
    case Focus => DiffersAt(n, "hover", 0);
    case Hover => DiffersAt(n, "focus", 0);
    case HasText(_) => DiffersAt(n, "any-link", 0); DiffersAt(n, "disabled", 0);
    case Contains(_) => DiffersAt(n, "any-link", 0); DiffersAt(n, "disabled", 0);
    case _ =>
  }

  /** A name the parser rejects equals none of the eleven names up to case. */
  lemma UnsupportedIff(name: string)
    ensures ParseNonTSPseudoClass(name).Err?
      <==> forall p: PseudoClass :: !IsFunctional(p) ==> !EqIgnoreAsciiCase(name, Name(p))
  {
    if ParseNonTSPseudoClass(name).Err? {
      forall p: PseudoClass | !IsFunctional(p)
        ensures !EqIgnoreAsciiCase(name, Name(p))
      {
        match p
        case AnyLink =>
        case Link =>
        case Visited =>
        case Active =>
        case Focus =>
        case Hover =>
        case Enabled =>
        case Disabled =>
        case Checked =>
        case Indeterminate =>
        case OnlyText =>
      }
    }
  }

  /** Names that differ only in ASCII case parse alike. */
  lemma ParseIgnoresCase(a: string, b: string, arg: Option<string>)
    requires EqIgnoreAsciiCase(a, b)
    ensures ParseNonTSPseudoClass(a).Ok? == ParseNonTSPseudoClass(b).Ok?
    ensures ParseNonTSPseudoClass(a).Ok? ==> ParseNonTSPseudoClass(a).value == ParseNonTSPseudoClass(b).value
    ensures ParseNonTSFunctionalPseudoClass(a, arg).Ok? == ParseNonTSFunctionalPseudoClass(b, arg).Ok?
    ensures ParseNonTSFunctionalPseudoClass(a, arg).Ok? ==> ParseNonTSFunctionalPseudoClass(a, arg) == ParseNonTSFunctionalPseudoClass(b, arg)
  {
    EqIgnoreCaseSwap(a, b, "any-link");
    EqIgnoreCaseSwap(a, b, "link");
    EqIgnoreCaseSwap(a, b, "visited");
    EqIgnoreCaseSwap(a, b, "active");
    EqIgnoreCaseSwap(a, b, "focus");
    EqIgnoreCaseSwap(a, b, "hover");
    EqIgnoreCaseSwap(a, b, "enabled");
    EqIgnoreCaseSwap(a, b, "disabled");
    EqIgnoreCaseSwap(a, b, "checked");
    EqIgnoreCaseSwap(a, b, "indeterminate");
    EqIgnoreCaseSwap(a, b, "only-text");
    EqIgnoreCaseSwap(a, b, "has-text");
    EqIgnoreCaseSwap(a, b, "contains");
  }

  /** `:ANY-Link` is `:any-link`. */
  lemma MixedCaseParses()
    ensures ParseNonTSPseudoClass("ANY-Link") == Ok(AnyLink)
  {
    assert EqIgnoreAsciiCase("ANY-Link", "any-link");
  }
}
