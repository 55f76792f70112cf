/**
 * The steps of the two `format_text` loops, the older one of
 * src/node/serializing.rs (style `Plain`) and the newer one of
 * src/node/text_formatting.rs (style `Formatted`): what a text node
 * appends, what opening and closing an element does to the text so far.
 * The loops themselves are in module `FormatText`.
 */
module FormatSteps {
  import opened Str
  import opened Arena
  import opened TextNormal

  datatype Style = Plain | Formatted

  /** `elem_require_linebreak` of text_formatting.rs, and the block list of serializing.rs's close step. */
  predicate ElemRequireLinebreak(name: QualName)
  {
    name.local in ["article", "blockquote", "section", "div", "p", "pre",
                   "h1", "h2", "h3", "h4", "h5", "h6", "ul", "ol", "dl", "table"]
  }

  /** The elements closed by a single line break. */
  predicate BreaksLine(name: QualName)
  {
    name.local in ["br", "hr", "li", "tr"]
  }

  /** Table cells, closed by a space. */
  predicate IsCell(name: QualName)
  {
    name.local in ["td", "th"]
  }

  // ----- serializing.rs -----

  /** `text.ends_with('\n') || text.is_empty()` of serializing.rs: only a line break counts. */
  predicate FollowsNewline(text: string)
  {
    text == [] || text[|text| - 1] == '\n'
  }

  /**
   * What `normalize_text` returns: the words one space apart, with one
   * space in front when the text starts with whitespace and does not follow
   * a line break, one space behind when it ends with whitespace, and nothing
   * at all when it has no word.
   */
  function NormalizedPiece(text: string, followsNewline: bool): string
  {
    var result := SpacedWords(Words(text), !followsNewline && StartsWithSpace(text), Verbatim);
    if result == [] then [] else if EndsWithSpace(text) then result + " " else result
  }

  /** `normalize_text` of serializing.rs. */
  method NormalizeText(text: string, followsNewline: bool) returns (result: string)
    ensures result == NormalizedPiece(text, followsNewline)
  {
    var pushStartWhitespace := !followsNewline && StartsWithSpace(text);
    var pushEndWhitespace := EndsWithSpace(text);
    result := PushWords(Words(text), pushStartWhitespace, Verbatim);
    if result == [] {
      return;
    }
    if pushEndWhitespace {
      result := result + " ";
    }
  }

  /** Copying words verbatim leaves them as they are. */
  lemma {:induction false} VerbatimWords(words: seq<string>)
    ensures EscapedWords(words, Verbatim) == words
    decreases |words|
  {
    if words != [] {
      VerbatimIsIdentity(words[0]);
      VerbatimWords(words[1..]);
    }
  }

  /**
   * `normalize_text` is empty exactly for a blank text; otherwise it is the
   * text's words joined by single spaces, with a leading space exactly when
   * the text starts with whitespace and does not follow a line break, and a
   * trailing one exactly when the text ends with whitespace.
   */
  lemma NormalizedPieceShape(text: string, followsNewline: bool)
    ensures NormalizedPiece(text, followsNewline) == [] <==> !NotBlank(text)
    ensures NotBlank(text) ==> (NormalizedPiece(text, followsNewline)
      == (if !followsNewline && StartsWithSpace(text) then " " else "")
         + Join(Words(text), " ")
         + (if EndsWithSpace(text) then " " else ""))
  {
    var words := Words(text);
    WordsEmptyIff(text);
    VerbatimWords(words);
    if words != [] {
      FieldsWords(text, IsWhitespace);
      JoinSingleSpaced(words);
    }
  }

  /** The piece holds exactly the words of the text. */
  lemma NormalizedPieceWords(text: string, followsNewline: bool)
    ensures Words(NormalizedPiece(text, followsNewline)) == Words(text)
  {
    var words := Words(text);
    var lead := !followsNewline && StartsWithSpace(text);
    VerbatimWords(words);
    FieldsWords(text, IsWhitespace);
    if words != [] {
      WordsOfJoin(words);
      var tail := if EndsWithSpace(text) then " " else "";
      JoinSingleSpaced(words);
      assert NormalizedPiece(text, followsNewline) == SpacedWords(words, lead, Verbatim) + tail;
      WordsAround(lead, Join(words, " "), tail);
    }
  }

  /** `format_text`'s close step in serializing.rs. */
  function PlainClose(text: string, name: QualName): string
  {
    if EndsWith(text, "\n\n") then text
    else if ElemRequireLinebreak(name) then text + "\n\n"
    else if BreaksLine(name) then text + "\n"
    else text
  }

  // ----- text_formatting.rs -----

  /** What `adjust_element_offset` leaves when `name` is closed. */
  function AdjustedOffset(text: string, name: QualName): (r: string)
    ensures r == [] <==> text == []
  {
    if text == [] || EndsWith(text, "\n\n") then text
    else if ElemRequireLinebreak(name) then TrimRightSpaces(text) + "\n\n"
    else if BreaksLine(name) then TrimRightSpaces(text) + "\n"
    else if IsCell(name) && !FollowsBreak(text) then text + " "
    else text
  }

  /** `adjust_element_offset`. */
  method AdjustElementOffset(text: string, name: QualName) returns (r: string)
    ensures r == AdjustedOffset(text, name)
  {
    r := text;
    if r == [] || EndsWith(r, "\n\n") {
      return;
    }
    if ElemRequireLinebreak(name) {
      r := TrimRightTendrilSpace(r);
      r := r + "\n\n";
    } else if BreaksLine(name) {
      r := TrimRightTendrilSpace(r);
      r := r + "\n";
    } else if IsCell(name) && !FollowsBreak(r) {
      r := r + " ";
    }
  }

  /** The line break an opening block element starts on, unless the text is empty or already ends a paragraph. */
  function LinebreakBefore(text: string, name: QualName): string
  {
    if !(text == [] || EndsWith(text, "\n\n")) && ElemRequireLinebreak(name) then text + "\n" else text
  }

  // ----- the steps of either style -----

  /** What a text node with `contents` does to the text so far. */
  function TextStep(style: Style, text: string, contents: string): string
  {
    match style
    case Plain => text + NormalizedPiece(contents, FollowsNewline(text))
    case Formatted => Normalized(text, contents, Verbatim)
  }

  /** What opening an element does. */
  function OpenStep(style: Style, text: string, name: QualName): string
  {
    match style
    case Plain => text
    case Formatted => LinebreakBefore(text, name)
  }

  /** What closing an element does. */
  function CloseStep(style: Style, text: string, name: QualName): string
  {
    match style
    case Plain => PlainClose(text, name)
    case Formatted => AdjustedOffset(text, name)
  }

  /** Appending a text that starts with neither a space nor whitespace keeps single spacing, as does a leading character other than a space. */
  lemma AppendTidy(text: string, tail: string)
    requires Tidy(text) && SingleSpaced(tail)
    requires tail != [] && tail[0] != ' '
    requires text == [] ==> !StartsWithSpace(tail)
    ensures Tidy(text + tail)
  {
    AppendSingleSpaced(text, tail);
    if text != [] {
      assert (text + tail)[0] == text[0];
    } else {
      assert text + tail == tail;
    }
  }

  /** Closing an element keeps the formatted text tidy. */
  lemma AdjustedOffsetTidy(text: string, name: QualName)
    requires Tidy(text)
    ensures Tidy(AdjustedOffset(text, name))
  {
    if !(text == [] || EndsWith(text, "\n\n")) {
      var t := TrimRightSpaces(text);
      TrimRightSpacesTidy(text);
      if ElemRequireLinebreak(name) {
        AppendTidy(t, "\n\n");
      } else if BreaksLine(name) {
        AppendTidy(t, "\n");
      } else if IsCell(name) && !FollowsBreak(text) {
        AppendSingleSpaced(text, " ");
        assert (text + " ")[0] == text[0];
      }
    }
  }

  /** A closed block leaves the text ending a paragraph, and a line-breaking element a line, unless the text was empty. */
  lemma AdjustedOffsetEnds(text: string, name: QualName)
    requires text != []
    ensures ElemRequireLinebreak(name) ==> EndsWith(AdjustedOffset(text, name), "\n\n")
    ensures BreaksLine(name) ==> EndsWith(AdjustedOffset(text, name), "\n")
  {
    var r := AdjustedOffset(text, name);
    if EndsWith(text, "\n\n") {
      assert r == text;
      assert r[|r| - 1..] == r[|r| - 2..][1..];
    }
  }

  /** Every step of the formatted style keeps the text tidy. */
  lemma FormattedStepsTidy(text: string, contents: string, name: QualName)
    requires Tidy(text)
    ensures Tidy(TextStep(Formatted, text, contents))
    ensures Tidy(OpenStep(Formatted, text, name))
    ensures Tidy(CloseStep(Formatted, text, name))
  {
    NormalizedTidy(text, contents, Verbatim);
    AdjustedOffsetTidy(text, name);
    if !(text == [] || EndsWith(text, "\n\n")) && ElemRequireLinebreak(name) {
      AppendTidy(text, "\n");
    }
  }

  /**
   * In serializing.rs the follow-up test looks for a line break only, so a
   * text node after one that ended in a space starts with another space:
   * "a " and " b" give "a  b", two spaces between words.
   */
  lemma PlainDoubleSpace()
    ensures TextStep(Plain, TextStep(Plain, "", "a "), " b") == "a  b"
    ensures !SingleSpaced(TextStep(Plain, TextStep(Plain, "", "a "), " b"))
  {
    PlainPieceA();
    PlainPieceB();
    var s := TextStep(Plain, TextStep(Plain, "", "a "), " b");
    assert s[1] == ' ' && s[2] == ' ';
  }

  lemma PlainPieceA()
    ensures TextStep(Plain, "", "a ") == "a "
  {
    WordsOfJoin(["a"]);
    assert Join(["a"], " ") == "a";
    WordsTwoChars('a', ' ');
    VerbatimWords(["a"]);
  }

  lemma PlainPieceB()
    ensures TextStep(Plain, "a ", " b") == "a  b"
  {
    WordsTwoChars(' ', 'b');
    VerbatimWords(["b"]);
    assert !FollowsNewline("a ");
  }

  /** The words of a two-character text with one space. */
  lemma WordsTwoChars(x: char, y: char)
    requires (x == ' ') != (y == ' ')
    requires !IsWhitespace(x) || !IsWhitespace(y)
    ensures Words([x, y]) == if x == ' ' then [[y]] else [[x]]
  {
    var s := [x, y];
    if x == ' ' {
      assert s[1..] == [y];
      assert [y][1..] == [];
      assert RunLen([y], IsWhitespace) == 1;
      assert [y][..1] == [y];
      assert Fields([y], IsWhitespace) == [[y]] + Fields([], IsWhitespace);
      assert Fields(s, IsWhitespace) == Fields([y], IsWhitespace);
    } else {
      assert s[1..] == [y];
      assert [y][1..] == [];
      assert RunLen(s, IsWhitespace) == 1;
      assert s[..1] == [x] && s[1..] == [y];
      assert Fields([y], IsWhitespace) == Fields([], IsWhitespace) == [];
    }
  }

  /**
   * The close step of serializing.rs pushes a paragraph break even into an
   * empty text, so an empty paragraph in front of the first word leaves the
   * text starting with whitespace.
   */
  lemma PlainLeadingBreak(name: QualName)
    requires ElemRequireLinebreak(name)
    ensures PlainClose("", name) == "\n\n"
    ensures StartsWithSpace(CloseStep(Plain, "", name))
  {
  }

  /** The newer close step leaves an empty text empty, and the newer text step never starts one with a space. */
  lemma FormattedNoLeadingBreak(name: QualName, contents: string)
    ensures CloseStep(Formatted, "", name) == ""
    ensures !StartsWithSpace(TextStep(Formatted, "", contents))
  {
    assert Tidy("");
    NormalizedTidy("", contents, Verbatim);
  }
}
