/**
 * The whitespace normalisation that src/node/text_formatting.rs,
 * src/serializing/md/text_utils.rs and src/serializing/md.rs each carry a
 * copy of: `push_normalized_text` collapses every whitespace run of a text
 * node to one space while appending it, `push_escaped_chunk` puts a
 * backslash before Markdown punctuation, and `trim_right_tendril_space`
 * drops trailing spaces.  The three copies differ only in how a word is
 * escaped, which `Escaping` chooses.
 */
module TextNormal {
  import opened Str

  /** `ESCAPE_CHARS` of src/serializing/md/constants.rs. */
  const EscapeChars: seq<char> := ['`', '*', '_', '{', '}', '[', ']', '<', '>', '(', ')', '#', '+', '.', '!', '|', '"']

  /** The older `ESCAPE_CHARS` of src/serializing/md.rs: the same list without the double quote. */
  const LegacyEscapeChars: seq<char> := ['`', '*', '_', '{', '}', '[', ']', '<', '>', '(', ')', '#', '+', '.', '!', '|']

  /**
   * How a word is copied: verbatim (`push_slice`, text_formatting.rs), with
   * only backticks escaped (`escape_all == false`), or with every listed
   * character escaped.
   */
  datatype Escaping = Verbatim | BackticksOnly | Escape(chars: seq<char>)

  /** `escape_all` of text_utils.rs. */
  function EscapingFor(escapeAll: bool): Escaping
  {
    if escapeAll then Escape(EscapeChars) else BackticksOnly
  }

  predicate ShouldEscape(e: Escaping, c: char)
  {
    match e
    case Verbatim => false
    case BackticksOnly => c == '`'
    case Escape(cs) => c in cs
  }

  /** What the loop of `push_escaped_chunk` writes for `chunk[i]`: a backslash first unless the previous character was one. */
  function EscapeAt(chunk: string, e: Escaping, i: nat): string
    requires i < |chunk|
  {
    (if ShouldEscape(e, chunk[i]) && !(i > 0 && chunk[i - 1] == '\\') then "\\" else "") + [chunk[i]]
  }

  /** The output for the first `n` characters of `chunk`. */
  function EscapedPrefix(chunk: string, e: Escaping, n: nat): string
    requires n <= |chunk|
    decreases n
  {
    if n == 0 then "" else EscapedPrefix(chunk, e, n - 1) + EscapeAt(chunk, e, n - 1)
  }

  function Escaped(chunk: string, e: Escaping): string
  {
    EscapedPrefix(chunk, e, |chunk|)
  }

  /** `push_escaped_chunk`: append `chunk`, escaping as `e` says. */
  method PushEscapedChunk(text: string, chunk: string, e: Escaping) returns (r: string)
    ensures r == text + Escaped(chunk, e)
  {
    r := text;
    var prevEscape := false;
    var i := 0;
    while i < |chunk|
      invariant 0 <= i <= |chunk|
      invariant r == text + EscapedPrefix(chunk, e, i)
      invariant prevEscape <==> i > 0 && chunk[i - 1] == '\\'
    {
      var c := chunk[i];
      if ShouldEscape(e, c) && !prevEscape {
        r := r + "\\";
      }
      prevEscape := c == '\\';
      r := r + [c];
      i := i + 1;
    }
  }

  /** The output for `n > 0` characters ends with the `n`-th character. */
  lemma EscapedPrefixLast(chunk: string, e: Escaping, n: nat)
    requires 0 < n <= |chunk|
    ensures var out := EscapedPrefix(chunk, e, n); out != [] && out[|out| - 1] == chunk[n - 1]
  {
  }

  /**
   * Escaping only inserts backslashes: every other character occurs in the
   * output exactly as often as in the chunk, and at most one backslash is
   * inserted per character.
   */
  lemma {:induction false} EscapedKeepsChars(chunk: string, e: Escaping, n: nat)
    requires n <= |chunk|
    ensures forall c :: c != '\\' ==> multiset(EscapedPrefix(chunk, e, n))[c] == multiset(chunk[..n])[c]
    ensures |chunk[..n]| <= |EscapedPrefix(chunk, e, n)| <= 2 * n
    decreases n
  {
    if n > 0 {
      EscapedKeepsChars(chunk, e, n - 1);
      assert chunk[..n] == chunk[..n - 1] + [chunk[n - 1]];
      var piece := EscapeAt(chunk, e, n - 1);
      assert piece == [chunk[n - 1]] || piece == "\\" + [chunk[n - 1]];
      KeepsStep(EscapedPrefix(chunk, e, n - 1), piece, chunk[..n - 1], chunk[n - 1]);
    }
  }

  /** One more character, after at most one backslash, keeps the other counts equal. */
  lemma KeepsStep(before: string, piece: string, pre: string, x: char)
    requires forall c :: c != '\\' ==> multiset(before)[c] == multiset(pre)[c]
    requires piece == [x] || piece == "\\" + [x]
    ensures forall c :: c != '\\' ==> multiset(before + piece)[c] == multiset(pre + [x])[c]
  {
    forall c | c != '\\'
      ensures multiset(before + piece)[c] == multiset(pre + [x])[c]
    {
      assert multiset(before + piece) == multiset(before) + multiset(piece);
      assert multiset(pre + [x]) == multiset(pre) + multiset([x]);
      if piece != [x] {
        assert multiset(piece) == multiset("\\") + multiset([x]);
      }
    }
  }

  /**
   * Every character that escaping covers is preceded by a backslash in the
   * output, either one the escape inserted or the one the chunk already had.
   */
  lemma {:induction false} EscapedCharsArePreceded(chunk: string, e: Escaping, n: nat)
    requires n <= |chunk| && !ShouldEscape(e, '\\')
    ensures BackslashBefore(EscapedPrefix(chunk, e, n), e)
    decreases n
  {
    if n > 0 {
      EscapedCharsArePreceded(chunk, e, n - 1);
      var before := EscapedPrefix(chunk, e, n - 1);
      var piece := EscapeAt(chunk, e, n - 1);
      var out := before + piece;
      if n > 1 {
        EscapedPrefixLast(chunk, e, n - 1);
      }
      forall j | 0 <= j < |out| && ShouldEscape(e, out[j])
        ensures j > 0 && out[j - 1] == '\\'
      {
        if j < |before| {
          assert out[j] == before[j] && out[j - 1] == before[j - 1];
        } else if |piece| == 2 {
          assert out[j] == piece[j - |before|];
          assert j == |before| + 1;
          assert out[j - 1] == piece[0];
        } else {
          assert out[j] == piece[0] == chunk[n - 1];
          assert n > 1 && chunk[n - 2] == '\\';
          assert out[j - 1] == before[|before| - 1];
        }
      }
    }
  }

  /** A chunk without any character to escape is copied unchanged; verbatim copying never changes one. */
  lemma {:induction false} EscapedIdentity(chunk: string, e: Escaping, n: nat)
    requires n <= |chunk|
    requires forall i :: 0 <= i < n ==> !ShouldEscape(e, chunk[i])
    ensures EscapedPrefix(chunk, e, n) == chunk[..n]
    decreases n
  {
    if n > 0 {
      EscapedIdentity(chunk, e, n - 1);
      assert chunk[..n] == chunk[..n - 1] + [chunk[n - 1]];
    }
  }

  /** Every character `e` escapes sits right after a backslash. */
  predicate BackslashBefore(s: string, e: Escaping)
  {
    forall j :: 0 <= j < |s| && ShouldEscape(e, s[j]) ==> j > 0 && s[j - 1] == '\\'
  }

  /** A chunk whose every escapable character already follows a backslash is copied unchanged. */
  lemma {:induction false} EscapedPreceded(chunk: string, e: Escaping, n: nat)
    requires n <= |chunk| && BackslashBefore(chunk, e)
    ensures EscapedPrefix(chunk, e, n) == chunk[..n]
    decreases n
  {
    if n > 0 {
      EscapedPreceded(chunk, e, n - 1);
      assert chunk[..n] == chunk[..n - 1] + [chunk[n - 1]];
    }
  }

  /**
   * Escaping twice is escaping once: the second pass finds every escapable
   * character behind a backslash already.  The Markdown link writer relies
   * on it, escaping the link text a second time.
   */
  lemma EscapeIdempotent(chunk: string, e: Escaping)
    requires !ShouldEscape(e, '\\')
    ensures Escaped(Escaped(chunk, e), e) == Escaped(chunk, e)
  {
    var out := EscapedPrefix(chunk, e, |chunk|);
    EscapedCharsArePreceded(chunk, e, |chunk|);
    EscapedPreceded(out, e, |out|);
    assert out[..|out|] == out;
  }

  lemma VerbatimIsIdentity(chunk: string)
    ensures Escaped(chunk, Verbatim) == chunk
  {
    EscapedIdentity(chunk, Verbatim, |chunk|);
    assert chunk[..|chunk|] == chunk;
  }

  /** Escaping adds no whitespace: a whitespace-free, non-empty word stays so. */
  lemma EscapedWord(w: string, e: Escaping)
    requires w != [] && !SomeChar(w, IsWhitespace)
    ensures Escaped(w, e) != [] && !SomeChar(Escaped(w, e), IsWhitespace)
  {
    var out := Escaped(w, e);
    EscapedKeepsChars(w, e, |w|);
    assert w[..|w|] == w;
    forall j | 0 <= j < |out|
      ensures !IsWhitespace(out[j])
    {
      if out[j] != '\\' {
        assert multiset(out)[out[j]] > 0;
        assert out[j] in multiset(w);
        var i :| 0 <= i < |w| && w[i] == out[j];
      }
    }
  }

  // ----- push_normalized_text -----

  function EscapedWords(words: seq<string>, e: Escaping): (r: seq<string>)
    ensures |r| == |words|
    ensures forall k :: 0 <= k < |words| ==> r[k] == Escaped(words[k], e)
  {
    if words == [] then [] else [Escaped(words[0], e)] + EscapedWords(words[1..], e)
  }

  /** Escaping a list of words twice is escaping it once. */
  lemma EscapedWordsTwice(words: seq<string>, e: Escaping)
    requires !ShouldEscape(e, '\\')
    ensures EscapedWords(EscapedWords(words, e), e) == EscapedWords(words, e)
  {
    var once := EscapedWords(words, e);
    forall k | 0 <= k < |words|
      ensures EscapedWords(once, e)[k] == once[k]
    {
      EscapeIdempotent(words[k], e);
    }
  }

  /** The words, escaped and separated by single spaces, after one space when `lead` holds; nothing without words. */
  function SpacedWords(words: seq<string>, lead: bool, e: Escaping): string
  {
    if words == [] then "" else (if lead then " " else "") + Join(EscapedWords(words, e), " ")
  }

  /** `text.ends_with(['\n', ' ']) || text.is_empty()`. */
  predicate FollowsBreak(text: string)
  {
    text == [] || text[|text| - 1] == '\n' || text[|text| - 1] == ' '
  }

  predicate StartsWithSpace(s: string) { s != [] && IsWhitespace(s[0]) }

  predicate EndsWithSpace(s: string) { s != [] && IsWhitespace(s[|s| - 1]) }

  /**
   * What `push_normalized_text` leaves in `text`: the words of the new text,
   * one space apart, with one leading space when the new text starts with
   * whitespace and the text does not already end in a space or line break,
   * and one trailing space when the new text ends with whitespace and the
   * result does not.  A blank new text after a break adds nothing.
   */
  function Normalized(text: string, newText: string, e: Escaping): string
  {
    var follows := FollowsBreak(text);
    var result := SpacedWords(Words(newText), !follows && StartsWithSpace(newText), e);
    if result == [] && follows then text
    else
      var t := text + result;
      if EndsWithSpace(newText) && !EndsWithSpace(t) then t + " " else t
  }

  /** `push_normalized_text`: the copies in text_formatting.rs, text_utils.rs and md.rs differ only in `e`. */
  method PushNormalizedText(text: string, newText: string, e: Escaping) returns (r: string)
    ensures r == Normalized(text, newText, e)
  {
    var followsNewline := FollowsBreak(text);
    var pushStartWhitespace := !followsNewline && StartsWithSpace(newText);
    var pushEndWhitespace := EndsWithSpace(newText);
    var result := PushWords(Words(newText), pushStartWhitespace, e);
    if result == [] && followsNewline {
      return text;
    }
    r := text + result;
    if pushEndWhitespace && !EndsWithSpace(r) {
      r := r + " ";
    }
  }

  /** The `split_whitespace` loop of `push_normalized_text`: the first word after an optional space, then space and word. */
  method PushWords(words: seq<string>, lead: bool, e: Escaping) returns (result: string)
    ensures result == SpacedWords(words, lead, e)
  {
    result := "";
    if words != [] {
      if lead {
        result := " ";
      }
      ghost var front := result;
      result := PushEscapedChunk(result, words[0], e);
      assert EscapedWords(words[..1], e) == [Escaped(words[0], e)];
      var i := 1;
      while i < |words|
        invariant 1 <= i <= |words|
        invariant result == front + Join(EscapedWords(words[..i], e), " ")
      {
        WordsStep(words, i, e);
        ghost var joined := Join(EscapedWords(words[..i], e), " ");
        result := result + " ";
        result := PushEscapedChunk(result, words[i], e);
        AppendWordAssoc(front, joined, Escaped(words[i], e));
        i := i + 1;
      }
      assert words[..i] == words;
    }
  }

  lemma AppendWordAssoc(front: string, joined: string, w: string)
    ensures front + joined + " " + w == front + (joined + " " + w)
  {
  }

  lemma WordsStep(words: seq<string>, i: nat, e: Escaping)
    requires 1 <= i < |words|
    ensures Join(EscapedWords(words[..i + 1], e), " ") == Join(EscapedWords(words[..i], e), " ") + " " + Escaped(words[i], e)
  {
    assert words[..i + 1] == words[..i] + [words[i]];
    assert EscapedWords(words[..i + 1], e) == EscapedWords(words[..i], e) + [Escaped(words[i], e)];
    JoinSnoc(EscapedWords(words[..i], e), " ", Escaped(words[i], e));
  }

  /** `Join` grows one item at a time. */
  lemma {:induction false} JoinSnoc(items: seq<string>, sep: string, x: string)
    requires items != []
    ensures Join(items + [x], sep) == Join(items, sep) + sep + x
    decreases |items|
  {
    if |items| == 1 {
      assert (items + [x])[1..] == [x];
    } else {
      assert (items + [x])[1..] == items[1..] + [x];
      JoinSnoc(items[1..], sep, x);
    }
  }

  /** Pushing never rewrites what is already there. */
  lemma NormalizedExtends(text: string, newText: string, e: Escaping)
    ensures StartsWith(Normalized(text, newText, e), text)
  {
    var r := Normalized(text, newText, e);
    assert r[..|text|] == text;
  }

  /** Words made only of non-whitespace characters come back out of the fielding of their join. */
  lemma {:induction false} FieldsAllOfWords(items: seq<string>)
    requires forall k :: 0 <= k < |items| ==> items[k] != [] && !SomeChar(items[k], IsWhitespace)
    ensures FieldsAll(items, IsWhitespace) == items
    decreases |items|
  {
    if items != [] {
      SeparatorFree(items[0], IsWhitespace);
      FieldsAllOfWords(items[1..]);
    }
  }

  /** Joining words at single spaces and splitting at whitespace gives the words back. */
  lemma WordsOfJoin(items: seq<string>)
    requires forall k :: 0 <= k < |items| ==> items[k] != [] && !SomeChar(items[k], IsWhitespace)
    ensures Words(Join(items, " ")) == items
  {
    FieldsJoin(items, ' ', IsWhitespace);
    FieldsAllOfWords(items);
  }

  lemma EscapedWordsAreWords(words: seq<string>, e: Escaping)
    requires forall k :: 0 <= k < |words| ==> words[k] != [] && !SomeChar(words[k], IsWhitespace)
    ensures forall k :: 0 <= k < |words| ==> EscapedWords(words, e)[k] != [] && !SomeChar(EscapedWords(words, e)[k], IsWhitespace)
  {
    forall k | 0 <= k < |words|
      ensures EscapedWords(words, e)[k] != [] && !SomeChar(EscapedWords(words, e)[k], IsWhitespace)
    {
      EscapedWord(words[k], e);
    }
  }

  /**
   * The spaces a push of a blank text adds: nothing after a space or line
   * break or into an empty text, one space after any other character that
   * is not whitespace, and nothing for an empty new text.
   */
  lemma NormalizedBlank(text: string, newText: string, e: Escaping)
    requires !NotBlank(newText)
    ensures FollowsBreak(text) || newText == [] ==> Normalized(text, newText, e) == text
    ensures !FollowsBreak(text) && newText != [] && !EndsWithSpace(text) ==> Normalized(text, newText, e) == text + " "
    ensures !FollowsBreak(text) && EndsWithSpace(text) ==> Normalized(text, newText, e) == text
  {
    WordsEmptyIff(newText);
    assert text + "" == text;
    if newText != [] {
      assert !IsWhitespace(newText[|newText| - 1]) ==> NotBlank(newText);
    }
  }

  /**
   * A push of a text with words begins with a space exactly when the new
   * text starts with whitespace and the text does not already end in a
   * space or line break.
   */
  lemma NormalizedLeadingSpace(text: string, newText: string, e: Escaping)
    requires NotBlank(newText)
    ensures var r := Normalized(text, newText, e);
      |r| > |text| && (r[|text|] == ' ' <==> !FollowsBreak(text) && StartsWithSpace(newText))
    ensures var r := Normalized(text, newText, e);
      (!FollowsBreak(text) && StartsWithSpace(newText)) || !IsWhitespace(r[|text|])
  {
    var words := Words(newText);
    WordsEmptyIff(newText);
    FieldsWords(newText, IsWhitespace);
    EscapedWordsAreWords(words, e);
    var ews := EscapedWords(words, e);
    var joined := Join(ews, " ");
    if |ews| > 1 {
      JoinCons(ews, " ");
    }
    assert joined[0] == ews[0][0];
    var lead := !FollowsBreak(text) && StartsWithSpace(newText);
    var result := SpacedWords(words, lead, e);
    assert result == (if lead then " " else "") + joined;
    var r := Normalized(text, newText, e);
    var tail := if EndsWithSpace(newText) && !EndsWithSpace(text + result) then " " else "";
    assert r == text + (result + tail);
    assert r[|text|] == result[0];
  }

  /**
   * The part a push appends splits into exactly the (escaped) words of the
   * new text: normalisation changes whitespace and nothing else.
   */
  lemma NormalizedWords(text: string, newText: string, e: Escaping)
    ensures var r := Normalized(text, newText, e);
      |text| <= |r| && Words(r[|text|..]) == EscapedWords(Words(newText), e)
  {
    var words := Words(newText);
    var r := Normalized(text, newText, e);
    FieldsWords(newText, IsWhitespace);
    EscapedWordsAreWords(words, e);
    var joined := Join(EscapedWords(words, e), " ");
    if words != [] {
      WordsOfJoin(EscapedWords(words, e));
    }
    var lead := !FollowsBreak(text) && StartsWithSpace(newText);
    var result := SpacedWords(words, lead, e);
    var part := r[|text|..];
    if result == [] && FollowsBreak(text) {
      assert part == [];
    } else {
      var tail := if EndsWithSpace(newText) && !EndsWithSpace(text + result) then " " else "";
      assert r == text + (result + tail);
      assert part == result + tail;
      WordsAround(lead, joined, tail);
    }
  }

  /** Spaces around a text do not change its words. */
  lemma WordsAround(lead: bool, joined: string, tail: string)
    requires tail == "" || tail == " "
    ensures Words((if joined == [] then "" else (if lead then " " else "") + joined) + tail) == Words(joined)
  {
    var front := if joined == [] then "" else (if lead then " " else "") + joined;
    if joined != [] && lead {
      assert (front + tail)[0] == ' ';
      assert (front + tail)[1..] == joined + tail;
    } else {
      assert front + tail == joined + tail;
    }
    WordsSpaceAfter(joined, tail);
  }

  lemma {:induction false} WordsSpaceAfter(s: string, tail: string)
    requires tail == "" || tail == " "
    ensures Words(s + tail) == Words(s)
    decreases |s|
  {
    if tail == "" {
      assert s + tail == s;
    } else if s == [] {
      assert s + tail == " ";
      assert (s + tail)[1..] == [];
    } else if IsWhitespace(s[0]) {
      assert (s + tail)[1..] == s[1..] + tail;
      WordsSpaceAfter(s[1..], tail);
    } else {
      var n := RunLen(s, IsWhitespace);
      RunLenAppend(s, tail, IsWhitespace);
      assert (s + tail)[..n] == s[..n];
      assert (s + tail)[n..] == s[n..] + tail;
      WordsSpaceAfter(s[n..], tail);
    }
  }

  // ----- tidy text -----

  /** No two adjacent spaces. */
  predicate SingleSpaced(s: string)
  {
    forall i :: 0 < i < |s| ==> !(s[i - 1] == ' ' && s[i] == ' ')
  }

  /** Single-spaced and not starting with whitespace: what the formatted text promises. */
  predicate Tidy(s: string)
  {
    SingleSpaced(s) && !StartsWithSpace(s)
  }

  /** Words joined at single spaces hold no two adjacent spaces and start with a word. */
  lemma {:induction false} JoinSingleSpaced(items: seq<string>)
    requires forall k :: 0 <= k < |items| ==> items[k] != [] && !SomeChar(items[k], IsWhitespace)
    ensures SingleSpaced(Join(items, " "))
    ensures items != [] ==> (Join(items, " ") != [] && !IsWhitespace(Join(items, " ")[0])
      && !IsWhitespace(Join(items, " ")[|Join(items, " ")| - 1]))
    decreases |items|
  {
    if |items| > 1 {
      JoinSingleSpaced(items[1..]);
      var w := items[0];
      var rest := Join(items[1..], " ");
      assert Join(items, " ") == w + " " + rest;
      AppendSingleSpaced(w + " ", rest);
      AppendSingleSpaced(w, " ");
    }
  }

  /** Concatenation keeps single spacing unless it joins a space to a space. */
  lemma AppendSingleSpaced(a: string, b: string)
    requires SingleSpaced(a) && SingleSpaced(b)
    requires !(a != [] && b != [] && a[|a| - 1] == ' ' && b[0] == ' ')
    ensures SingleSpaced(a + b)
  {
    var s := a + b;
    forall i | 0 < i < |s|
      ensures !(s[i - 1] == ' ' && s[i] == ' ')
    {
      if i < |a| {
        assert s[i - 1] == a[i - 1] && s[i] == a[i];
      } else if i > |a| {
        assert s[i - 1] == b[i - 1 - |a|] && s[i] == b[i - |a|];
      }
    }
  }

  /** A push keeps the text tidy. */
  lemma NormalizedTidy(text: string, newText: string, e: Escaping)
    requires Tidy(text)
    ensures Tidy(Normalized(text, newText, e))
  {
    var words := Words(newText);
    var follows := FollowsBreak(text);
    if words != [] {
      NormalizedTidyWords(text, newText, e);
    } else if !follows {
      if EndsWithSpace(newText) && !EndsWithSpace(text) {
        assert text + SpacedWords(words, false, e) == text;
        AppendSingleSpaced(text, " ");
        assert (text + " ")[0] == text[0];
      }
    }
  }

  /** The case of `NormalizedTidy` where the new text has words. */
  lemma NormalizedTidyWords(text: string, newText: string, e: Escaping)
    requires Tidy(text) && Words(newText) != []
    ensures Tidy(Normalized(text, newText, e))
  {
    var words := Words(newText);
    var lead := !FollowsBreak(text) && StartsWithSpace(newText);
    var result := SpacedWords(words, lead, e);
    FieldsWords(newText, IsWhitespace);
    EscapedWordsAreWords(words, e);
    var joined := Join(EscapedWords(words, e), " ");
    JoinSingleSpaced(EscapedWords(words, e));
    if lead {
      AppendSingleSpaced(" ", joined);
      assert result == " " + joined;
    } else {
      assert result == joined;
    }
    AppendSingleSpaced(text, result);
    var t := text + result;
    assert t[|t| - 1] == joined[|joined| - 1];
    assert !EndsWithSpace(t);
    if text == [] {
      assert t[0] == joined[0];
    } else {
      assert t[0] == text[0];
    }
    if EndsWithSpace(newText) {
      AppendSingleSpaced(t, " ");
      assert (t + " ")[0] == t[0];
    }
  }

  // ----- trim_right_tendril_space -----

  /** `s` without its trailing spaces (only U+0020). */
  function TrimRightSpaces(s: string): (r: string)
    ensures |r| <= |s| && r == s[..|r|]
    ensures r == [] || r[|r| - 1] != ' '
    ensures forall i :: |r| <= i < |s| ==> s[i] == ' '
    decreases |s|
  {
    if s != [] && s[|s| - 1] == ' ' then TrimRightSpaces(s[..|s| - 1]) else s
  }

  /** `trim_right_tendril_space`: pop spaces off the end. */
  method TrimRightTendrilSpace(s: string) returns (r: string)
    ensures r == TrimRightSpaces(s)
  {
    r := s;
    while r != [] && r[|r| - 1] == ' '
      invariant |r| <= |s| && r == s[..|r|]
      invariant TrimRightSpaces(r) == TrimRightSpaces(s)
    {
      r := r[..|r| - 1];
    }
  }

  /** Trimming keeps a text tidy and is idempotent. */
  lemma TrimRightSpacesTidy(s: string)
    requires Tidy(s)
    ensures Tidy(TrimRightSpaces(s))
    ensures TrimRightSpaces(TrimRightSpaces(s)) == TrimRightSpaces(s)
  {
    var r := TrimRightSpaces(s);
    forall i | 0 < i < |r|
      ensures !(r[i - 1] == ' ' && r[i] == ' ')
    {
      assert r[i - 1] == s[i - 1] && r[i] == s[i];
    }
    if r != [] {
      assert r[0] == s[0];
    }
  }
}
