/**
 * The string helpers of the Markdown writer, src/serializing/md/text_utils.rs
 * (and the copies the older src/serializing/md.rs carries):
 * `join_tendril_strings`, `add_linebreaks` and `sanitize_attr_value`.
 * `push_normalized_text`, `push_escaped_chunk` and `trim_right_tendril_space`
 * are shared with the plain-text formatter and live in module `TextNormal`.
 */
module MdText {
  import opened Str
  import opened Seqs
  import opened TextNormal

  /** `str::repeat`: `n` copies of `s`. */
  function Repeated(s: string, n: nat): (r: string)
    ensures |r| == n * |s|
  {
    if n == 0 then "" else Repeated(s, n - 1) + s
  }

  // ----- join_tendril_strings -----

  /** `join_tendril_strings`: the first item, then separator and item for each further one. */
  method JoinTendrilStrings(items: seq<string>, sep: string) returns (result: string)
    ensures result == Join(items, sep)
  {
    result := "";
    if items != [] {
      result := items[0];
      var i := 1;
      while i < |items|
        invariant 1 <= i <= |items|
        invariant result == Join(items[..i], sep)
      {
        assert items[..i + 1] == items[..i] + [items[i]];
        JoinSnoc(items[..i], sep, items[i]);
        result := result + sep + items[i];
        i := i + 1;
      }
      assert items[..i] == items;
    }
  }

  /** The joined text holds every item and one separator between neighbours. */
  lemma {:induction false} JoinedLength(items: seq<string>, sep: string)
    ensures items == [] ==> Join(items, sep) == ""
    ensures items != [] ==> |Join(items, sep)| == TotalLength(items) + (|items| - 1) * |sep|
    decreases |items|
  {
    if |items| > 1 {
      JoinedLength(items[1..], sep);
      assert TotalLength(items) == |items[0]| + TotalLength(items[1..]);
    } else if |items| == 1 {
      assert TotalLength(items) == |items[0]| + TotalLength(items[1..]);
    }
  }

  // ----- add_linebreaks -----

  /** How many copies of `lb` the loop of `add_linebreaks` appends to `t` before it ends in `lb + lb`. */
  function BreaksNeeded(t: string, lb: string): nat
  {
    if EndsWith(t, lb + lb) then 0 else if EndsWith(t, lb) then 1 else 2
  }

  /** What `add_linebreaks(text, lb, lb + lb)` leaves: the text without trailing spaces, then the breaks it lacks. */
  function WithLinebreaks(text: string, lb: string): string
  {
    var t := TrimRightSpaces(text);
    t + Repeated(lb, BreaksNeeded(t, lb))
  }

  /**
   * `add_linebreaks`.  Both callers pass `end == linebreak.repeat(2)`; for
   * another `end` the loop need not stop.
   */
  method AddLinebreaks(text: string, linebreak: string, end: string) returns (r: string)
    requires linebreak != [] && end == linebreak + linebreak
    ensures r == WithLinebreaks(text, linebreak)
  {
    r := TrimRightTendrilSpace(text);
    r := PadBlankLine(r, linebreak);
  }

  /** The loop of `add_linebreaks` and of `write_blockquote`: `lb` until the text ends in `lb + lb`. */
  method PadBlankLine(text: string, lb: string) returns (r: string)
    ensures r == text + Repeated(lb, BreaksNeeded(text, lb))
  {
    r := text;
    ghost var k := 0;
    BreaksLeast(text, lb);
    while !EndsWith(r, lb + lb)
      invariant k <= BreaksNeeded(text, lb)
      invariant r == text + Repeated(lb, k)
      decreases BreaksNeeded(text, lb) - k
    {
      r := r + lb;
      k := k + 1;
    }
  }

  /** A suffix survives appending the same text to both sides, and only then. */
  lemma EndsWithAppend(s: string, a: string, b: string)
    ensures EndsWith(s + b, a + b) <==> EndsWith(s, a)
  {
    if EndsWith(s + b, a + b) {
      assert (s + b)[|s + b| - |a + b|..] == a + b;
      assert s[|s| - |a|..] == (a + b)[..|a|];
    }
    if EndsWith(s, a) {
      assert (s + b)[|s + b| - |a + b|..] == s[|s| - |a|..] + b;
    }
  }

  /**
   * `BreaksNeeded` is the fewest copies of `lb` after which the text ends in
   * a blank line: after fewer it does not, after that many it does.
   */
  lemma BreaksLeast(t: string, lb: string)
    ensures EndsWith(t + Repeated(lb, BreaksNeeded(t, lb)), lb + lb)
    ensures forall j :: 0 <= j < BreaksNeeded(t, lb) ==> !EndsWith(t + Repeated(lb, j), lb + lb)
  {
    RepeatedSmall(lb);
    assert t + "" == t;
    EndsWithAppend(t, lb, lb);
    assert t + (lb + lb) == t + lb + lb;
    EndsWithTwice(t, lb);
    if EndsWith(t, lb + lb) {
      EndsWithLast(t, lb);
    }
  }

  lemma RepeatedSmall(lb: string)
    ensures Repeated(lb, 0) == "" && Repeated(lb, 1) == lb && Repeated(lb, 2) == lb + lb
  {
    assert Repeated(lb, 1) == "" + lb;
  }

  /** Two more copies always end the text in a blank line. */
  lemma EndsWithTwice(t: string, lb: string)
    ensures EndsWith(t + lb + lb, lb + lb)
  {
    assert (t + lb + lb)[|t + lb + lb| - |lb + lb|..] == lb + lb;
  }

  /** Ending in `lb + lb` is ending in `lb`. */
  lemma EndsWithLast(t: string, lb: string)
    requires EndsWith(t, lb + lb)
    ensures EndsWith(t, lb)
  {
    assert t[|t| - |lb|..] == (lb + lb)[|lb|..];
  }

  /**
   * After `add_linebreaks` the text ends in two line breaks, begins with the
   * text without its trailing spaces and is at most two breaks longer than that.
   */
  lemma LinebreaksShape(text: string, lb: string)
    ensures EndsWith(WithLinebreaks(text, lb), lb + lb)
    ensures StartsWith(WithLinebreaks(text, lb), TrimRightSpaces(text))
    ensures |WithLinebreaks(text, lb)| <= |TrimRightSpaces(text)| + 2 * |lb|
  {
    var t := TrimRightSpaces(text);
    BreaksLeast(t, lb);
    assert (t + Repeated(lb, BreaksNeeded(t, lb)))[..|t|] == t;
  }

  /** A second `add_linebreaks` changes nothing, for a line break that does not end in a space. */
  lemma LinebreaksIdempotent(text: string, lb: string)
    requires lb != [] && lb[|lb| - 1] != ' '
    ensures WithLinebreaks(WithLinebreaks(text, lb), lb) == WithLinebreaks(text, lb)
  {
    var once := WithLinebreaks(text, lb);
    LinebreaksShape(text, lb);
    EndsInBreak(once, lb);
    assert TrimRightSpaces(once) == once;
    assert BreaksNeeded(once, lb) == 0;
    AddedNothing(once, lb);
  }

  lemma AddedNothing(s: string, lb: string)
    requires TrimRightSpaces(s) == s && BreaksNeeded(s, lb) == 0
    ensures WithLinebreaks(s, lb) == s
  {
    assert Repeated(lb, 0) == "";
    assert s + "" == s;
  }

  /** A text ending in `lb + lb` ends in the last character of `lb`. */
  lemma EndsInBreak(s: string, lb: string)
    requires lb != [] && EndsWith(s, lb + lb)
    ensures s != [] && s[|s| - 1] == lb[|lb| - 1]
  {
    assert s[|s| - 1] == s[|s| - |lb + lb|..][|lb + lb| - 1];
  }

  // ----- sanitize_attr_value -----

  /** The characters `sanitize_attr_value` keeps: ASCII letters and digits and `-_+.#`. */
  predicate IsSanitary(c: char)
  {
    IsAsciiAlphanumeric(c) || c == '-' || c == '_' || c == '+' || c == '.' || c == '#'
  }

  /** The first ASCII-whitespace-delimited token, or "" when there is none. */
  function FirstToken(raw: string): string
  {
    var ws := AsciiWords(raw);
    if ws == [] then "" else ws[0]
  }

  /** `Iterator::filter` on characters. */
  function Filtered(s: string, keep: char -> bool): (r: string)
    ensures |r| <= |s|
    decreases |s|
  {
    if s == [] then "" else (if keep(s[0]) then [s[0]] else "") + Filtered(s[1..], keep)
  }

  /** `sanitize_attr_value`. */
  function SanitizeAttrValue(raw: string): string
  {
    Filtered(FirstToken(raw), IsSanitary)
  }

  /** Filtering keeps exactly the kept characters, in their order. */
  lemma {:induction false} FilteredSpec(s: string, keep: char -> bool)
    ensures AllChars(Filtered(s, keep), keep)
    ensures IsSubseq(Filtered(s, keep), s)
    ensures AllChars(s, keep) ==> Filtered(s, keep) == s
    decreases |s|
  {
    if s != [] {
      FilteredSpec(s[1..], keep);
      var rest := Filtered(s[1..], keep);
      if keep(s[0]) {
        assert Filtered(s, keep) == [s[0]] + rest;
        assert ([s[0]] + rest)[1..] == rest;
      } else {
        assert Filtered(s, keep) == rest;
        if rest != [] {
          SubseqSkipFront(rest, s);
        }
      }
      if AllChars(s, keep) {
        assert AllChars(s[1..], keep) by {
          forall i | 0 <= i < |s[1..]|
            ensures keep(s[1..][i])
          {
            assert s[1..][i] == s[i + 1];
          }
        }
      }
    }
  }

  /** Dropping the first entry of `b` keeps `a` a subsequence when `a` skipped it. */
  lemma SubseqSkipFront(a: string, b: string)
    requires b != [] && IsSubseq(a, b[1..])
    ensures IsSubseq(a, b)
  {
    SubseqSkip(b[0], a, b[1..]);
    assert [b[0]] + b[1..] == b;
  }

  /**
   * The sanitised value holds only the kept characters, taken in order from
   * the first whitespace-delimited token; a token made only of them comes
   * through unchanged, and what comes out sanitises to itself.
   */
  lemma SanitizeSpec(raw: string)
    ensures AllChars(SanitizeAttrValue(raw), IsSanitary)
    ensures IsSubseq(SanitizeAttrValue(raw), FirstToken(raw))
    ensures AllChars(FirstToken(raw), IsSanitary) ==> SanitizeAttrValue(raw) == FirstToken(raw)
    ensures SanitizeAttrValue(SanitizeAttrValue(raw)) == SanitizeAttrValue(raw)
  {
    var r := SanitizeAttrValue(raw);
    FilteredSpec(FirstToken(raw), IsSanitary);
    if r != [] {
      assert !SomeChar(r, IsAsciiWhitespace) by {
        forall i | 0 <= i < |r|
          ensures !IsAsciiWhitespace(r[i])
        {
          assert IsSanitary(r[i]);
        }
      }
      SeparatorFree(r, IsAsciiWhitespace);
      assert FirstToken(r) == r;
    } else {
      assert AsciiWords(r) == [];
    }
    FilteredSpec(r, IsSanitary);
  }

  /** A language label with trailing words and punctuation is cut to its first token and its safe characters. */
  lemma SanitizeExample()
    ensures SanitizeAttrValue("c++ <x>") == "c++"
  {
    var raw := "c++ <x>";
    assert RunLen(raw[3..], IsAsciiWhitespace) == 0;
    assert RunLen(raw, IsAsciiWhitespace) == 3;
    assert AsciiWords(raw) == [raw[..3]] + AsciiWords(raw[3..]);
    assert raw[..3] == "c++";
    assert Filtered("c++"[2..], IsSanitary) == "+";
    assert Filtered("c++"[1..], IsSanitary) == "++";
  }
}
