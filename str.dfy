/**
 * The pieces of Rust's `char` and `str` API that the library relies on:
 * Unicode and ASCII whitespace classes, `split_whitespace`, `split`,
 * `trim`, `lines`, prefix/suffix/substring tests and ASCII case folding.
 */
module Str {

  /** `char::is_whitespace`: the Unicode White_Space property. */
  predicate IsWhitespace(c: char)
  {
    ('\t' <= c <= '\r') || c == ' ' || c == '\U{0085}' || c == '\U{00A0}' || c == '\U{1680}'
    || ('\U{2000}' <= c <= '\U{200A}') || c == '\U{2028}' || c == '\U{2029}'
    || c == '\U{202F}' || c == '\U{205F}' || c == '\U{3000}'
  }

  /** `char::is_ascii_whitespace`: space, tab, line feed, form feed, carriage return (not U+000B). */
  predicate IsAsciiWhitespace(c: char)
  {
    c == ' ' || c == '\t' || c == '\n' || c == '\U{000C}' || c == '\r'
  }

  predicate IsAsciiAlphanumeric(c: char)
  {
    ('a' <= c <= 'z') || ('A' <= c <= 'Z') || ('0' <= c <= '9')
  }

  function ToAsciiLower(c: char): char
  {
    if 'A' <= c <= 'Z' then (c as int + 32) as char else c
  }

  /** `str::eq_ignore_ascii_case`. */
  predicate EqIgnoreAsciiCase(a: string, b: string)
  {
    |a| == |b| && forall i :: 0 <= i < |a| ==> ToAsciiLower(a[i]) == ToAsciiLower(b[i])
  }

  predicate StartsWith(s: string, p: string)
  {
    |p| <= |s| && s[..|p|] == p
  }

  predicate EndsWith(s: string, p: string)
  {
    |p| <= |s| && s[|s| - |p|..] == p
  }

  /** `str::contains` with a string pattern; the empty pattern is found everywhere. */
  predicate Contains(s: string, sub: string)
    decreases |s|
  {
    StartsWith(s, sub) || (s != [] && Contains(s[1..], sub))
  }

  predicate AllChars(s: string, p: char -> bool)
  {
    forall i :: 0 <= i < |s| ==> p(s[i])
  }

  predicate SomeChar(s: string, p: char -> bool)
  {
    exists i :: 0 <= i < |s| && p(s[i])
  }

  /** Length of the longest prefix of `s` with no character satisfying `sep`. */
  function RunLen(s: string, sep: char -> bool): (n: nat)
    ensures n <= |s|
  {
    if s == [] || sep(s[0]) then 0 else 1 + RunLen(s[1..], sep)
  }

  /** `str::split` with a character predicate: the pieces between separators, empty ones included. */
  function SplitOn(s: string, sep: char -> bool): (pieces: seq<string>)
    ensures |pieces| > 0
    decreases |s|
  {
    var n := RunLen(s, sep);
    if n == |s| then [s] else [s[..n]] + SplitOn(s[n + 1..], sep)
  }

  /** `split_whitespace`-style splitting: the maximal runs of non-separator characters. */
  function Fields(s: string, sep: char -> bool): (words: seq<string>)
    decreases |s|
  {
    if s == [] then []
    else if sep(s[0]) then Fields(s[1..], sep)
    else
      var n := RunLen(s, sep);
      [s[..n]] + Fields(s[n..], sep)
  }

  /** `str::split_whitespace`. */
  function Words(s: string): seq<string>
  {
    Fields(s, IsWhitespace)
  }

  /** A text has no words exactly when it has no character other than whitespace. */
  lemma {:induction false} WordsEmptyIff(s: string)
    ensures Words(s) == [] <==> !NotBlank(s)
    decreases |s|
  {
    if s != [] {
      if IsWhitespace(s[0]) {
        WordsEmptyIff(s[1..]);
        if NotBlank(s[1..]) {
          var i :| 0 <= i < |s[1..]| && !IsWhitespace(s[1..][i]);
          assert !IsWhitespace(s[i + 1]);
        }
        if NotBlank(s) {
          var i :| 0 <= i < |s| && !IsWhitespace(s[i]);
          assert i > 0 && s[1..][i - 1] == s[i];
        }
      } else {
        assert !IsWhitespace(s[0]);
      }
    }
  }

  /** `str::split_ascii_whitespace`. */
  function AsciiWords(s: string): seq<string>
  {
    Fields(s, IsAsciiWhitespace)
  }

  /** The items of `items` separated by `sep` (`[..].join(sep)`). */
  function Join(items: seq<string>, sep: string): string
  {
    if items == [] then []
    else if |items| == 1 then items[0]
    else items[0] + sep + Join(items[1..], sep)
  }

  function TrimStart(s: string): (r: string)
    ensures |r| <= |s| && r == s[|s| - |r|..]
    ensures r != [] ==> !IsWhitespace(r[0])
    decreases |s|
  {
    if s != [] && IsWhitespace(s[0]) then TrimStart(s[1..]) else s
  }

  function TrimEnd(s: string): (r: string)
    ensures |r| <= |s| && r == s[..|r|]
    ensures r != [] ==> !IsWhitespace(r[|r| - 1])
    decreases |s|
  {
    if s != [] && IsWhitespace(s[|s| - 1]) then TrimEnd(s[..|s| - 1]) else s
  }

  /** `str::trim`. */
  function Trim(s: string): string
  {
    TrimEnd(TrimStart(s))
  }

  predicate IsLineFeed(c: char) { c == '\n' }

  /** `str::lines`: split at "\n" or "\r\n"; a final line terminator adds no empty line. */
  function Lines(s: string): seq<string>
    decreases |s|
  {
    if s == [] then []
    else
      var n := RunLen(s, IsLineFeed);
      if n == |s| then [s]
      else
        var line := if n > 0 && s[n - 1] == '\r' then s[..n - 1] else s[..n];
        [line] + Lines(s[n + 1..])
  }

  /** Sum of the lengths of `items`. */
  function TotalLength(items: seq<string>): nat
  {
    if items == [] then 0 else |items[0]| + TotalLength(items[1..])
  }

  /** Trimming a trimmed string changes nothing. */
  lemma TrimIdempotent(p: string)
    ensures Trim(Trim(p)) == Trim(p)
  {
    var u := TrimStart(p);
    var q := TrimEnd(u);
    if q != [] {
      assert q[0] == u[0];
      assert TrimStart(q) == q;
    }
  }

  /** A string with some character that is not whitespace. */
  predicate NotBlank(s: string)
  {
    exists i :: 0 <= i < |s| && !IsWhitespace(s[i])
  }

  /** A string trims to nothing exactly when every character is whitespace. */
  lemma TrimEmptyIff(s: string)
    ensures Trim(s) == [] <==> !NotBlank(s)
  {
    if NotBlank(s) {
      var i :| 0 <= i < |s| && !IsWhitespace(s[i]);
      TrimKeepsNonBlank(s, i);
    } else {
      BlankTrimsEmpty(s);
    }
  }

  lemma TrimKeepsNonBlank(s: string, i: nat)
    requires i < |s| && !IsWhitespace(s[i])
    ensures Trim(s) != []
  {
    var a := TrimStart(s);
    TrimStartKeeps(s, i);
    var j := i - (|s| - |a|);
    assert a[j] == s[i];
    TrimEndKeeps(a, j);
  }

  lemma BlankTrimsEmpty(s: string)
    requires !NotBlank(s)
    ensures Trim(s) == []
  {
    assert TrimStart(s) == [];
  }

  /** `trim_start` keeps every character from the first non-whitespace one on. */
  lemma {:induction false} TrimStartKeeps(s: string, i: nat)
    requires i < |s| && !IsWhitespace(s[i])
    ensures |s| - |TrimStart(s)| <= i
    decreases |s|
  {
    if IsWhitespace(s[0]) {
      assert i > 0;
      assert s[1..][i - 1] == s[i];
      TrimStartKeeps(s[1..], i - 1);
    }
  }

  /** `trim_end` keeps every character up to the last non-whitespace one. */
  lemma {:induction false} TrimEndKeeps(s: string, i: nat)
    requires i < |s| && !IsWhitespace(s[i])
    ensures i < |TrimEnd(s)|
    decreases |s|
  {
    if IsWhitespace(s[|s| - 1]) {
      assert i < |s| - 1;
      assert s[..|s| - 1][i] == s[i];
      TrimEndKeeps(s[..|s| - 1], i);
    }
  }

  /** Trimming keeps only characters of the original. */
  lemma TrimKeepsChars(p: string, c: char)
    requires c in Trim(p)
    ensures c in p
  {
    var u := TrimStart(p);
    var q := TrimEnd(u);
    var i :| 0 <= i < |q| && q[i] == c;
    assert u[i] == c;
    assert p[|p| - |u| + i] == c;
  }

  /** The run before the first separator of `a + t`. */
  lemma {:induction false} RunLenAppend(a: string, t: string, sep: char -> bool)
    ensures RunLen(a + t, sep) == if RunLen(a, sep) < |a| then RunLen(a, sep) else |a| + RunLen(t, sep)
    decreases |a|
  {
    if a == [] {
      assert a + t == t;
    } else if sep(a[0]) {
      assert (a + t)[0] == a[0];
    } else {
      assert (a + t)[0] == a[0];
      assert (a + t)[1..] == a[1..] + t;
      RunLenAppend(a[1..], t, sep);
    }
  }

  /** The run holds no separator and stops at one, or at the end. */
  lemma {:induction false} RunLenSpec(s: string, sep: char -> bool)
    ensures forall i :: 0 <= i < RunLen(s, sep) ==> !sep(s[i])
    ensures RunLen(s, sep) < |s| ==> sep(s[RunLen(s, sep)])
    decreases |s|
  {
    if s != [] && !sep(s[0]) {
      RunLenSpec(s[1..], sep);
      forall i | 0 < i < RunLen(s, sep)
        ensures !sep(s[i])
      {
        assert s[i] == s[1..][i - 1];
      }
    }
  }

  /** Every field is non-empty and holds no separator. */
  lemma {:induction false} FieldsWords(s: string, sep: char -> bool)
    ensures forall k :: 0 <= k < |Fields(s, sep)| ==> Fields(s, sep)[k] != [] && !SomeChar(Fields(s, sep)[k], sep)
    decreases |s|
  {
    if s != [] && sep(s[0]) {
      FieldsWords(s[1..], sep);
    } else if s != [] {
      var n := RunLen(s, sep);
      RunLenSpec(s, sep);
      FieldsWords(s[n..], sep);
      var rest := Fields(s[n..], sep);
      assert Fields(s, sep) == [s[..n]] + rest;
      forall k | 0 <= k < |rest| + 1
        ensures ([s[..n]] + rest)[k] != [] && !SomeChar(([s[..n]] + rest)[k], sep)
      {
        if k > 0 {
          assert ([s[..n]] + rest)[k] == rest[k - 1];
        }
      }
    }
  }

  /** Without a separator the run is the whole string. */
  lemma {:induction false} RunLenFree(t: string, sep: char -> bool)
    requires !SomeChar(t, sep)
    ensures RunLen(t, sep) == |t|
    decreases |t|
  {
    if t != [] {
      assert !sep(t[0]);
      assert !SomeChar(t[1..], sep) by {
        forall i | 0 <= i < |t| - 1
          ensures !sep(t[1..][i])
        {
          assert t[1..][i] == t[i + 1];
        }
      }
      RunLenFree(t[1..], sep);
    }
  }

  /** A string with no separator is one piece and, when non-empty, one field. */
  lemma SeparatorFree(t: string, sep: char -> bool)
    requires !SomeChar(t, sep)
    ensures SplitOn(t, sep) == [t]
    ensures t != [] ==> Fields(t, sep) == [t]
  {
    RunLenFree(t, sep);
    assert t[..|t|] == t;
    if t != [] {
      assert t[|t|..] == [];
    }
  }

  /** Splitting at a separator character splits the pieces on either side of it. */
  lemma {:induction false} SplitOnSplice(a: string, c: char, b: string, sep: char -> bool)
    requires sep(c)
    ensures SplitOn(a + [c] + b, sep) == SplitOn(a, sep) + SplitOn(b, sep)
    decreases |a|
  {
    if RunLen(a, sep) < |a| {
      SplitOnSplice(a[RunLen(a, sep) + 1..], c, b, sep);
      SplitOnSpliceStep(a, c, b, sep);
    } else {
      SplitOnSpliceEnd(a, c, b, sep);
    }
  }

  lemma SplitOnSpliceStep(a: string, c: char, b: string, sep: char -> bool)
    requires sep(c) && RunLen(a, sep) < |a|
    requires var n := RunLen(a, sep);
      SplitOn(a[n + 1..] + [c] + b, sep) == SplitOn(a[n + 1..], sep) + SplitOn(b, sep)
    ensures SplitOn(a + [c] + b, sep) == SplitOn(a, sep) + SplitOn(b, sep)
  {
    var n := RunLen(a, sep);
    SpliceRunLen(a, c, b, sep);
    SpliceParts(a, c, b, n);
    assert SplitOn(a + [c] + b, sep) == [a[..n]] + SplitOn(a[n + 1..] + [c] + b, sep);
    assert SplitOn(a, sep) == [a[..n]] + SplitOn(a[n + 1..], sep);
    SeqAssoc([a[..n]], SplitOn(a[n + 1..], sep), SplitOn(b, sep));
  }

  lemma SplitOnSpliceEnd(a: string, c: char, b: string, sep: char -> bool)
    requires sep(c) && RunLen(a, sep) == |a|
    ensures SplitOn(a + [c] + b, sep) == SplitOn(a, sep) + SplitOn(b, sep)
  {
    SpliceRunLen(a, c, b, sep);
    SpliceEnd(a, c, b);
    assert SplitOn(a + [c] + b, sep) == [a] + SplitOn(b, sep);
    assert a[..|a|] == a;
  }

  /** A separator right after `a` ends the first run at `a`'s own run. */
  lemma SpliceRunLen(a: string, c: char, b: string, sep: char -> bool)
    requires sep(c)
    ensures RunLen(a + [c] + b, sep) == RunLen(a, sep)
  {
    assert a + [c] + b == a + ([c] + b);
    RunLenAppend(a, [c] + b, sep);
    assert ([c] + b)[0] == c;
  }

  lemma SpliceParts(a: string, c: char, b: string, n: nat)
    requires n < |a|
    ensures (a + [c] + b)[n] == a[n]
    ensures (a + [c] + b)[..n] == a[..n] && (a + [c] + b)[n + 1..] == a[n + 1..] + [c] + b
  {
  }

  lemma SpliceFront(a: string, c: char, b: string, n: nat)
    requires n <= |a|
    ensures (a + [c] + b)[..n] == a[..n] && (a + [c] + b)[n..] == a[n..] + [c] + b
  {
  }

  lemma SpliceEnd(a: string, c: char, b: string)
    ensures (a + [c] + b)[|a|] == c
    ensures (a + [c] + b)[..|a|] == a && (a + [c] + b)[|a| + 1..] == b
  {
  }

  lemma FieldsSkip(s: string, sep: char -> bool)
    requires s != [] && sep(s[0])
    ensures Fields(s, sep) == Fields(s[1..], sep)
  {
  }

  lemma FieldsWord(s: string, sep: char -> bool)
    requires s != [] && !sep(s[0])
    ensures Fields(s, sep) == [s[..RunLen(s, sep)]] + Fields(s[RunLen(s, sep)..], sep)
  {
  }

  lemma SeqAssoc<T>(a: seq<T>, b: seq<T>, c: seq<T>)
    ensures (a + b) + c == a + (b + c)
  {
  }

  /** Fields on either side of a separator character are the fields of the whole. */
  lemma {:induction false} FieldsSplice(a: string, c: char, b: string, sep: char -> bool)
    requires sep(c)
    ensures Fields(a + [c] + b, sep) == Fields(a, sep) + Fields(b, sep)
    decreases |a|
  {
    if a == [] {
      SpliceEnd(a, c, b);
      FieldsSkip(a + [c] + b, sep);
      assert [] + Fields(b, sep) == Fields(b, sep);
    } else if sep(a[0]) {
      SpliceParts(a, c, b, 0);
      FieldsSkip(a + [c] + b, sep);
      FieldsSkip(a, sep);
      FieldsSplice(a[1..], c, b, sep);
    } else {
      var n := RunLen(a, sep);
      SpliceRunLen(a, c, b, sep);
      SpliceFront(a, c, b, n);
      FieldsWord(a + [c] + b, sep);
      FieldsWord(a, sep);
      FieldsSplice(a[n..], c, b, sep);
      SeqAssoc([a[..n]], Fields(a[n..], sep), Fields(b, sep));
    }
  }

  /** No piece of `SplitOn` holds a separator. */
  lemma {:induction false} SplitOnPieces(s: string, sep: char -> bool)
    ensures forall k :: 0 <= k < |SplitOn(s, sep)| ==> !SomeChar(SplitOn(s, sep)[k], sep)
    decreases |s|
  {
    var n := RunLen(s, sep);
    RunLenSpec(s, sep);
    if n < |s| {
      SplitOnPieces(s[n + 1..], sep);
      var rest := SplitOn(s[n + 1..], sep);
      assert SplitOn(s, sep) == [s[..n]] + rest;
      forall k | 0 <= k < |rest| + 1
        ensures !SomeChar(([s[..n]] + rest)[k], sep)
      {
        if k > 0 {
          assert ([s[..n]] + rest)[k] == rest[k - 1];
        }
      }
    }
  }

  /** The pieces of single-separator-joined separator-free items are the items. */
  lemma {:induction false} SplitOnJoin(items: seq<string>, c: char, sep: char -> bool)
    requires items != [] && sep(c)
    requires forall k :: 0 <= k < |items| ==> !SomeChar(items[k], sep)
    ensures SplitOn(Join(items, [c]), sep) == items
    decreases |items|
  {
    if |items| > 1 {
      FreeTail(items, sep);
      SplitOnJoin(items[1..], c, sep);
      SplitOnJoinStep(items, c, sep);
    } else {
      SeparatorFree(items[0], sep);
      assert Join(items, [c]) == items[0];
      assert items == [items[0]];
    }
  }

  lemma SplitOnJoinStep(items: seq<string>, c: char, sep: char -> bool)
    requires |items| > 1 && sep(c) && !SomeChar(items[0], sep)
    requires SplitOn(Join(items[1..], [c]), sep) == items[1..]
    ensures SplitOn(Join(items, [c]), sep) == items
  {
    SeparatorFree(items[0], sep);
    JoinCons(items, [c]);
    SplitOnSplice(items[0], c, Join(items[1..], [c]), sep);
    assert [items[0]] + items[1..] == items;
  }

  lemma FreeTail(items: seq<string>, sep: char -> bool)
    requires items != [] && forall k :: 0 <= k < |items| ==> !SomeChar(items[k], sep)
    ensures forall k :: 0 <= k < |items[1..]| ==> !SomeChar(items[1..][k], sep)
  {
    forall k | 0 <= k < |items[1..]|
      ensures !SomeChar(items[1..][k], sep)
    {
      assert items[1..][k] == items[k + 1];
    }
  }

  lemma JoinCons(items: seq<string>, sep: string)
    requires |items| > 1
    ensures Join(items, sep) == items[0] + sep + Join(items[1..], sep)
  {
  }

  /** The fields of each item, in order. */
  /** The non-empty pieces of `split` are the words of `split_whitespace`-style splitting. */
  lemma {:induction false} SplitOnFields(s: string, sep: char -> bool, w: string)
    requires w != []
    ensures w in SplitOn(s, sep) <==> w in Fields(s, sep)
    decreases |s|
  {
    var n := RunLen(s, sep);
    RunLenSpec(s, sep);
    if n == |s| {
      assert !SomeChar(s, sep);
      SeparatorFree(s, sep);
    } else {
      SplitOnFields(s[n + 1..], sep, w);
      assert SplitOn(s, sep) == [s[..n]] + SplitOn(s[n + 1..], sep);
      if n == 0 {
        assert Fields(s, sep) == Fields(s[1..], sep);
      } else {
        assert Fields(s, sep) == [s[..n]] + Fields(s[n..], sep);
        assert Fields(s[n..], sep) == Fields(s[n..][1..], sep);
        assert s[n..][1..] == s[n + 1..];
      }
    }
  }

  /** Splitting depends only on which characters separate. */
  lemma {:induction false} FieldsSameSeparators(s: string, sep1: char -> bool, sep2: char -> bool)
    requires forall c :: sep1(c) <==> sep2(c)
    ensures Fields(s, sep1) == Fields(s, sep2)
    decreases |s|
  {
    if s != [] {
      RunLenSameSeparators(s, sep1, sep2);
      if !sep1(s[0]) {
        FieldsSameSeparators(s[RunLen(s, sep1)..], sep1, sep2);
      } else {
        FieldsSameSeparators(s[1..], sep1, sep2);
      }
    }
  }

  lemma {:induction false} RunLenSameSeparators(s: string, sep1: char -> bool, sep2: char -> bool)
    requires forall c :: sep1(c) <==> sep2(c)
    ensures RunLen(s, sep1) == RunLen(s, sep2)
    decreases |s|
  {
    if s != [] {
      RunLenSameSeparators(s[1..], sep1, sep2);
    }
  }

  function FieldsAll(items: seq<string>, sep: char -> bool): seq<string>
  {
    if items == [] then [] else Fields(items[0], sep) + FieldsAll(items[1..], sep)
  }

  /** Joining at a separator character and splitting into fields is fielding each item. */
  lemma {:induction false} FieldsJoin(items: seq<string>, c: char, sep: char -> bool)
    requires sep(c)
    ensures Fields(Join(items, [c]), sep) == FieldsAll(items, sep)
    decreases |items|
  {
    if |items| == 1 {
      assert Fields(items[0], sep) + [] == Fields(items[0], sep);
    } else if |items| > 1 {
      FieldsJoin(items[1..], c, sep);
      FieldsSplice(items[0], c, Join(items[1..], [c]), sep);
    }
  }

  /** A word of `FieldsAll` is a word of one of the items. */
  lemma {:induction false} FieldsAllMember(items: seq<string>, sep: char -> bool, w: string)
    ensures w in FieldsAll(items, sep) <==> exists k :: 0 <= k < |items| && w in Fields(items[k], sep)
    decreases |items|
  {
    if items != [] {
      FieldsAllMember(items[1..], sep, w);
      if w in FieldsAll(items[1..], sep) {
        var k :| 0 <= k < |items| - 1 && w in Fields(items[1..][k], sep);
        assert items[k + 1] == items[1..][k];
      }
      if exists k :: 0 <= k < |items| && w in Fields(items[k], sep) {
        var k :| 0 <= k < |items| && w in Fields(items[k], sep);
        if k > 0 {
          assert items[1..][k - 1] == items[k];
        }
      }
    }
  }
}
