/**
 * src/dom_tree/helpers.rs: `normalized_char_count`, the length a text would
 * have once every whitespace run is one space and the ends are trimmed,
 * counted in one pass without building that text.
 */
module DomHelpers {
  import opened Str

  /**
   * The length of the normalised text: the words of `text` joined by single
   * spaces (the `normalize_spaces(..).chars().count()` the library's
   * benchmark compares against).
   */
  function NormalizedLength(text: string): nat
  {
    |Join(Words(text), " ")|
  }

  /** `normalized_char_count`. */
  method NormalizedCharCount(text: string) returns (charCount: nat)
    ensures charCount == NormalizedLength(text)
  {
    charCount := 0;
    var prevWasWhitespace := true;
    var i := 0;
    while i < |text|
      invariant 0 <= i <= |text|
      invariant CountState(text[..i], charCount, prevWasWhitespace)
    {
      CountStep(text[..i], text[i], charCount, prevWasWhitespace);
      assert text[..i + 1] == text[..i] + [text[i]];
      var c := text[i];
      i := i + 1;
      if prevWasWhitespace && IsWhitespace(c) {
        continue;
      }
      charCount := charCount + 1;
      prevWasWhitespace := IsWhitespace(c);
    }
    assert text[..i] == text;
    CountEnd(text, charCount, prevWasWhitespace);
    if prevWasWhitespace && charCount > 0 {
      charCount := charCount - 1;
    }
  }

  /** Characters of the words plus one space between neighbours. */
  function WordsLength(ws: seq<string>): nat
  {
    if ws == [] then 0 else TotalLength(ws) + |ws| - 1
  }

  /**
   * After the prefix `p`: `prev` says whether `p` is empty or ends in
   * whitespace, and the count is the normalised length plus the one pending
   * space a whitespace run after a word has already been counted for.
   */
  ghost predicate CountState(p: string, count: nat, prev: bool)
  {
    && (prev <==> p == [] || IsWhitespace(p[|p| - 1]))
    && count == WordsLength(Words(p)) + (if Words(p) != [] && prev then 1 else 0)
  }

  lemma CountStep(p: string, c: char, count: nat, prev: bool)
    requires CountState(p, count, prev)
    ensures var skip := prev && IsWhitespace(c);
      CountState(p + [c], if skip then count else count + 1, if skip then prev else IsWhitespace(c))
  {
    FieldsSnoc(p, c, IsWhitespace);
    if IsWhitespace(c) {
      if !prev {
        CountNonEmpty(p);
      }
    } else if prev {
      CountNewWord(Words(p), [c]);
    } else {
      CountNonEmpty(p);
      CountExtend(Words(p), c);
    }
  }

  /** A text ending in a non-whitespace character has a word. */
  lemma CountNonEmpty(p: string)
    requires p != [] && !IsWhitespace(p[|p| - 1])
    ensures Words(p) != []
  {
    FieldsSnoc(p[..|p| - 1], p[|p| - 1], IsWhitespace);
    assert p[..|p| - 1] + [p[|p| - 1]] == p;
  }

  lemma CountNewWord(ws: seq<string>, w: string)
    ensures WordsLength(ws + [w]) == WordsLength(ws) + (if ws != [] then 1 else 0) + |w|
  {
    TotalLengthSnoc(ws, w);
  }

  lemma CountExtend(ws: seq<string>, c: char)
    requires ws != []
    ensures WordsLength(ws[..|ws| - 1] + [ws[|ws| - 1] + [c]]) == WordsLength(ws) + 1
  {
    var k := |ws|;
    TotalLengthSnoc(ws[..k - 1], ws[k - 1]);
    TotalLengthSnoc(ws[..k - 1], ws[k - 1] + [c]);
    assert ws[..k - 1] + [ws[k - 1]] == ws;
  }

  lemma CountEnd(text: string, count: nat, prev: bool)
    requires CountState(text, count, prev)
    ensures (if prev && count > 0 then count - 1 else count) == NormalizedLength(text)
  {
    FieldsWords(text, IsWhitespace);
    JoinLength(Words(text));
  }

  lemma {:induction false} TotalLengthSnoc(ws: seq<string>, w: string)
    ensures TotalLength(ws + [w]) == TotalLength(ws) + |w|
    decreases |ws|
  {
    if ws == [] {
      assert ws + [w] == [w];
    } else {
      assert (ws + [w])[1..] == ws[1..] + [w];
      TotalLengthSnoc(ws[1..], w);
    }
  }

  /** The joined text is as long as its words and the single spaces between them. */
  lemma {:induction false} JoinLength(ws: seq<string>)
    ensures |Join(ws, " ")| == WordsLength(ws)
    decreases |ws|
  {
    if |ws| == 1 {
      assert TotalLength(ws) == |ws[0]| + TotalLength(ws[1..]);
    } else if |ws| > 1 {
      JoinLength(ws[1..]);
      assert TotalLength(ws) == |ws[0]| + TotalLength(ws[1..]);
    }
  }

  /**
   * Splitting `p` and one more character: a separator adds nothing, a
   * character after a separator (or at the start) begins a new field, and
   * any other character extends the last field.
   */
  lemma {:induction false} FieldsSnoc(p: string, c: char, sep: char -> bool)
    ensures sep(c) ==> Fields(p + [c], sep) == Fields(p, sep)
    ensures !sep(c) && (p == [] || sep(p[|p| - 1])) ==> Fields(p + [c], sep) == Fields(p, sep) + [[c]]
    ensures !sep(c) && p != [] && !sep(p[|p| - 1]) ==>
      var f := Fields(p, sep);
      f != [] && Fields(p + [c], sep) == f[..|f| - 1] + [f[|f| - 1] + [c]]
    decreases |p|
  {
    if p == [] {
      assert p + [c] == [c];
      FieldsOne(c, sep);
    } else if sep(p[0]) {
      assert (p + [c])[1..] == p[1..] + [c];
      FieldsSnoc(p[1..], c, sep);
    } else {
      var n := RunLen(p, sep);
      RunLenAppend(p, [c], sep);
      if n < |p| {
        RunLenSpec(p, sep);
        assert (p + [c])[..n] == p[..n];
        assert (p + [c])[n..] == p[n..] + [c];
        FieldsSnoc(p[n..], c, sep);
        FieldsAfterRun(p, c, sep, n);
      } else {
        FieldsWhole(p, c, sep);
      }
    }
  }

  /** The step of `FieldsSnoc` past the first field, once the rest is known. */
  lemma FieldsAfterRun(p: string, c: char, sep: char -> bool, n: nat)
    requires p != [] && !sep(p[0]) && n == RunLen(p, sep) && n < |p| && sep(p[n])
    requires RunLen(p + [c], sep) == n
    requires (p + [c])[..n] == p[..n] && (p + [c])[n..] == p[n..] + [c]
    requires var q := p[n..];
      && (sep(c) ==> Fields(q + [c], sep) == Fields(q, sep))
      && (!sep(c) && (q == [] || sep(q[|q| - 1])) ==> Fields(q + [c], sep) == Fields(q, sep) + [[c]])
      && (!sep(c) && q != [] && !sep(q[|q| - 1]) ==>
        var f := Fields(q, sep);
        f != [] && Fields(q + [c], sep) == f[..|f| - 1] + [f[|f| - 1] + [c]])
    ensures sep(c) ==> Fields(p + [c], sep) == Fields(p, sep)
    ensures !sep(c) && sep(p[|p| - 1]) ==> Fields(p + [c], sep) == Fields(p, sep) + [[c]]
    ensures !sep(c) && !sep(p[|p| - 1]) ==>
      var f := Fields(p, sep);
      f != [] && Fields(p + [c], sep) == f[..|f| - 1] + [f[|f| - 1] + [c]]
  {
    var q := p[n..];
    var w := p[..n];
    assert q[|q| - 1] == p[|p| - 1];
    assert Fields(p, sep) == [w] + Fields(q, sep);
    assert (p + [c])[0] == p[0];
    assert Fields(p + [c], sep) == [w] + Fields(q + [c], sep);
    if !sep(c) && !sep(p[|p| - 1]) {
      var f := Fields(q, sep);
      assert ([w] + f)[..|f|] == [w] + f[..|f| - 1];
    }
  }

  /** One character is one field unless it separates. */
  lemma FieldsOne(c: char, sep: char -> bool)
    ensures Fields([c], sep) == if sep(c) then [] else [[c]]
  {
    assert [c][1..] == [];
    if !sep(c) {
      assert RunLen([c], sep) == 1;
      assert [c][..1] == [c] && [c][1..] == [];
    }
  }

  /** The step of `FieldsSnoc` when `p` is one field. */
  lemma FieldsWhole(p: string, c: char, sep: char -> bool)
    requires p != [] && !sep(p[0]) && RunLen(p, sep) == |p|
    requires RunLen(p + [c], sep) == |p| + RunLen([c], sep)
    ensures sep(c) ==> Fields(p + [c], sep) == Fields(p, sep)
    ensures !sep(p[|p| - 1])
    ensures !sep(c) ==> Fields(p, sep) == [p] && Fields(p + [c], sep) == [p + [c]]
  {
    RunLenSpec(p, sep);
    FieldsAlone(p, sep);
    if sep(c) {
      FieldsRunThenSep(p, c, sep);
    } else {
      assert RunLen([c], sep) == 1;
      FieldsAlone(p + [c], sep);
    }
  }

  /** A non-empty run with no separator is one field. */
  lemma FieldsAlone(p: string, sep: char -> bool)
    requires p != [] && !sep(p[0]) && RunLen(p, sep) == |p|
    ensures Fields(p, sep) == [p]
  {
    assert p[..|p|] == p && p[|p|..] == [];
  }

  lemma FieldsRunThenSep(p: string, c: char, sep: char -> bool)
    requires p != [] && !sep(p[0]) && RunLen(p, sep) == |p| && sep(c)
    requires RunLen(p + [c], sep) == |p|
    ensures Fields(p + [c], sep) == [p]
  {
    var s := p + [c];
    assert s[0] == p[0];
    assert s[..|p|] == p;
    assert s[|p|..] == [c];
    FieldsOne(c, sep);
    assert Fields(s, sep) == [s[..|p|]] + Fields(s[|p|..], sep);
  }
}
