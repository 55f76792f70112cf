/**
 * The element writers of the Markdown serializer,
 * src/serializing/md/serializer.rs, and of its older copy
 * src/serializing/md.rs: the block and list tables, the emphasis markers,
 * when a table can be written as a Markdown table and how it is laid out,
 * block quotes, images, links, code blocks and the code-language label.
 * What a writer appends is stated as a function of the texts the recursive
 * `write` calls produced for the children.
 */
module MdWriter {
  import opened Wrappers
  import opened Str
  import opened Arena
  import opened Elements
  import opened Chains
  import opened Invariant
  import opened TreeTraversal
  import opened TextNormal
  import opened MdText
  import FormatSteps

  /** `LIST_OFFSET_BASE`: the spaces of indentation per list level. */
  const ListOffsetBase: nat := 4
  /** `DEFAULT_SKIP_TAGS`. */
  const DefaultSkipTags: seq<string> := ["script", "style", "meta", "head"]
  /** `CODE_LANGUAGE_ATTRIBUTES`. */
  const CodeLanguageAttributes: seq<string> := ["data-lang", "data-language"]
  /** `CODE_LANGUAGE_PREFIX`. */
  const CodeLanguagePrefix: string := "language-"

  // ----- element tables -----

  /** `elem_require_linebreak` of md.rs: the elements the older writer sets off by blank lines. */
  predicate LegacyRequireLinebreak(name: QualName)
  {
    name.local in ["article", "blockquote", "section", "div", "p",
                   "h1", "h2", "h3", "h4", "h5", "h6", "ul", "ol", "dl", "table"]
  }

  /** `is_md_block` of serializer.rs. */
  predicate IsMdBlock(name: QualName)
  {
    name.local in ["article", "blockquote", "section", "div", "p",
                   "h1", "h2", "h3", "h4", "h5", "h6", "ul", "ol", "dl", "table", "hr"]
  }

  /** `is_list`. */
  predicate IsList(name: QualName)
  {
    name.local == "ul" || name.local == "ol"
  }

  /**
   * The three block lists differ by one element each: the newer Markdown
   * writer adds `hr` to the older one, the plain-text formatter adds `pre`,
   * and lists are blocks in all of them.
   */
  lemma BlockLists(name: QualName)
    ensures IsMdBlock(name) <==> LegacyRequireLinebreak(name) || name.local == "hr"
    ensures FormatSteps.ElemRequireLinebreak(name) <==> LegacyRequireLinebreak(name) || name.local == "pre"
    ensures IsList(name) ==> IsMdBlock(name) && LegacyRequireLinebreak(name)
  {
  }

  /** The emphasis elements: `strong`, `b`, `em`, `i`. */
  predicate Emphasis(name: QualName)
  {
    name.local in ["strong", "b", "em", "i"]
  }

  /** `md_prefix` of serializer.rs. */
  function MdPrefix(name: QualName): Option<string>
  {
    match name.local
    case "h1" => Some("# ")
    case "h2" => Some("## ")
    case "h3" => Some("### ")
    case "h4" => Some("#### ")
    case "h5" => Some("##### ")
    case "h6" => Some("###### ")
    case "strong" => Some("**")
    case "b" => Some("**")
    case "em" => Some("*")
    case "i" => Some("*")
    case "hr" => Some("---")
    case _ => None
  }

  /** `md_suffix` of serializer.rs. */
  function MdSuffix(name: QualName): Option<string>
  {
    match name.local
    case "strong" => Some("**")
    case "b" => Some("**")
    case "em" => Some("*")
    case "i" => Some("*")
    case _ => None
  }

  /** `md_prefix` of md.rs: the newer table plus a backtick around `code`. */
  function LegacyMdPrefix(name: QualName): Option<string>
  {
    if name.local == "code" then Some("`") else MdPrefix(name)
  }

  /** `md_suffix` of md.rs. */
  function LegacyMdSuffix(name: QualName): Option<string>
  {
    if name.local == "code" then Some("`") else MdSuffix(name)
  }

  /**
   * Only emphasis gets a closing marker, and it is the opening one, so
   * emphasis markers balance; headings and rules open without closing.
   * The older writer treats `code` as one more such element.
   */
  lemma SuffixMatchesPrefix(name: QualName)
    ensures MdSuffix(name).Some? <==> Emphasis(name)
    ensures MdSuffix(name).Some? ==> MdPrefix(name) == MdSuffix(name)
    ensures LegacySuffixOk(name)
  {
  }

  predicate LegacySuffixOk(name: QualName)
  {
    && (LegacyMdSuffix(name).Some? <==> Emphasis(name) || name.local == "code")
    && (LegacyMdSuffix(name).Some? ==> LegacyMdPrefix(name) == LegacyMdSuffix(name))
  }

  /** `linebreak`. */
  function Linebreak(br: bool): (lb: string)
    ensures lb != [] && lb[|lb| - 1] != ' '
  {
    if br then "<br>" else "\n"
  }

  /** The item marker `write_element` hands to `write_list`: `ul` follows the line-break mode, `ol` does not. */
  function ListPrefix(ordered: bool, br: bool): string
  {
    if ordered then "1. " else if br then "+ " else "- "
  }

  /** The indentation of a list at nesting `offset`: `LIST_OFFSET_BASE` spaces per level. */
  function ListIndent(offset: nat): (r: string)
    ensures |r| == offset * ListOffsetBase
    ensures forall i :: 0 <= i < |r| ==> r[i] == ' '
  {
    RepeatedChar(' ', offset * ListOffsetBase);
    Repeated([' '], offset * ListOffsetBase)
  }

  /** Every copy of a one-character text is that character. */
  lemma {:induction false} RepeatedChar(c: char, n: nat)
    ensures forall i :: 0 <= i < |Repeated([c], n)| ==> Repeated([c], n)[i] == c
    decreases n
  {
    if n > 0 {
      RepeatedChar(c, n - 1);
    }
  }

  /** A nested list is indented exactly one level more than the list it sits in. */
  lemma NestedIndent(offset: nat)
    ensures ListIndent(offset + 1) == ListIndent(offset) + Repeated(" ", ListOffsetBase)
  {
    RepeatedAdd(" ", offset * ListOffsetBase, ListOffsetBase);
  }

  lemma {:induction false} RepeatedAdd(s: string, m: nat, n: nat)
    ensures Repeated(s, m + n) == Repeated(s, m) + Repeated(s, n)
    decreases n
  {
    if n > 0 {
      RepeatedAdd(s, m, n - 1);
    }
  }

  /** The tag names `MDSerializer::new` skips: the caller's list, or the default one. */
  function SkipTags(custom: Option<seq<string>>): seq<string>
  {
    match custom
    case Some(tags) => tags
    case None => DefaultSkipTags
  }

  /**
   * By default script, style, meta and head are skipped; a caller's list
   * replaces that default instead of extending it.
   */
  lemma SkipTagsReplace(tags: seq<string>)
    ensures forall t :: t in SkipTags(None) <==> t in ["script", "style", "meta", "head"]
    ensures forall t :: t in SkipTags(Some(tags)) <==> t in tags
  {
  }

  // ----- is_table_node_writable -----

  /** No row before `k` has a `td` cell. */
  predicate LeadingEmpty(counts: seq<nat>, k: nat)
    requires k <= |counts|
  {
    forall i :: 0 <= i < k ==> counts[i] == 0
  }

  /**
   * From row `k` on, every row has the cells row `k` has, which are some,
   * and no row before it has any.
   */
  predicate UniformFrom(counts: seq<nat>, k: nat)
    requires k < |counts|
  {
    counts[k] > 0 && LeadingEmpty(counts, k) && forall i :: k <= i < |counts| ==> counts[i] == counts[k]
  }

  /**
   * The row test of `is_table_node_writable`: rows without cells before the
   * first row that has some are passed over, and from that row on every row
   * has its number of cells, which is positive.
   */
  predicate UniformCells(counts: seq<nat>)
  {
    exists k :: 0 <= k < |counts| && UniformFrom(counts, k)
  }

  /** The number of `td` cells below each `tr` row below the table, as `find(&["tr"])` and `find(&["td"])` give them. */
  function CellCounts(nodes: seq<TreeNode>, table: NodeId): (counts: seq<nat>)
  {
    var rows := DescendantElements(nodes, [table], ["tr"]);
    seq(|rows|, i requires 0 <= i < |rows| => |DescendantElements(nodes, [rows[i]], ["td"])|)
  }

  /**
   * `is_table_node_writable`.  Whether the table holds another table is the
   * outcome of the selector `table:has(table)`, a parameter here.
   */
  method IsTableNodeWritable(nodes: seq<TreeNode>, table: NodeId, hasNestedTable: bool) returns (writable: bool)
    requires WellFormed(nodes)
    ensures writable <==> !hasNestedTable && UniformCells(CellCounts(nodes, table))
  {
    if hasNestedTable {
      return false;
    }
    ghost var counts := CellCounts(nodes, table);
    var rows := FindDescendantElements(nodes, table, ["tr"]);
    assert |counts| == |rows|;
    var commonCellCount: nat := 0;
    ghost var first: nat := 0;
    for i := 0 to |rows|
      invariant commonCellCount == 0 ==> LeadingEmpty(counts, i)
      invariant commonCellCount > 0 ==> (first < i && counts[first] == commonCellCount
        && LeadingEmpty(counts, first) && forall j :: first <= j < i ==> counts[j] == commonCellCount)
    {
      var cells := FindDescendantElements(nodes, rows[i], ["td"]);
      var currCellCount := |cells|;
      assert currCellCount == counts[i];
      if commonCellCount == 0 {
        commonCellCount := currCellCount;
        first := i;
      } else if commonCellCount != currCellCount {
        RowsDiffer(counts, first, i);
        return false;
      }
    }
    if commonCellCount == 0 {
      NoCells(counts);
      return false;
    }
    assert UniformFrom(counts, first);
    return true;
  }

  /** A row whose count differs from the first non-empty row's makes the table unwritable. */
  lemma RowsDiffer(counts: seq<nat>, first: nat, i: nat)
    requires first < i < |counts| && counts[first] > 0 && LeadingEmpty(counts, first)
    requires counts[i] != counts[first]
    ensures !UniformCells(counts)
  {
    forall k | 0 <= k < |counts| && counts[k] > 0 && LeadingEmpty(counts, k)
      ensures k == first
    {
    }
  }

  /** A table without any `td` cell is not written as a table. */
  lemma NoCells(counts: seq<nat>)
    requires LeadingEmpty(counts, |counts|)
    ensures !UniformCells(counts)
  {
  }

  /**
   * The three ways a table falls back to plain text, and the way it does
   * not: rows of one positive width (after any rows without cells) are
   * written as a table.
   */
  lemma UniformCellsCases(counts: seq<nat>, c: nat, zeros: nat)
    ensures (forall i :: 0 <= i < |counts| ==> counts[i] == 0) ==> !UniformCells(counts)
    ensures (c > 0 && zeros < |counts| && LeadingEmpty(counts, zeros)
      && (forall i :: zeros <= i < |counts| ==> counts[i] == c)) ==> UniformCells(counts)
    ensures (exists i, j :: 0 <= i < j < |counts| && counts[i] > 0 && counts[j] > 0 && counts[i] != counts[j])
      ==> !UniformCells(counts)
  {
    if c > 0 && zeros < |counts| && LeadingEmpty(counts, zeros) && (forall i :: zeros <= i < |counts| ==> counts[i] == c) {
      assert UniformFrom(counts, zeros);
    }
    if i, j :| 0 <= i < j < |counts| && counts[i] > 0 && counts[j] > 0 && counts[i] != counts[j] {
      forall k | 0 <= k < |counts| && counts[k] > 0 && LeadingEmpty(counts, k)
        ensures k <= i
      {
      }
    }
  }

  // ----- write_table -----

  /**
   * The headings after the padding loop of `write_table`: the `th` texts,
   * then " " until there are as many as the first row has cells.
   */
  function Padded(headings: seq<string>, width: nat): (r: seq<string>)
    ensures |r| == if |headings| < width then width else |headings|
    ensures r[..|headings|] == headings
    ensures forall i :: |headings| <= i < |r| ==> r[i] == " "
  {
    if |headings| < width then headings + seq(width - |headings|, _ => " ") else headings
  }

  /** The padding loop of `write_table`. */
  method PadHeadings(headings: seq<string>, width: nat) returns (r: seq<string>)
    ensures r == Padded(headings, width)
  {
    r := headings;
    while |r| < width
      invariant |headings| <= |r| && r[..|headings|] == headings
      invariant forall i :: |headings| <= i < |r| ==> r[i] == " "
      invariant |r| <= width || r == headings
      decreases width - |r|
    {
      r := r + [" "];
    }
  }

  /** A run of `-` as long as each heading. */
  function Dashes(headings: seq<string>): (r: seq<string>)
    ensures |r| == |headings|
    ensures forall i :: 0 <= i < |r| ==> r[i] == Repeated("-", |headings[i]|)
  {
    seq(|headings|, i requires 0 <= i < |headings| => Repeated("-", |headings[i]|))
  }

  /** One table line: `| ` cells separated by ` | `, then ` |` and a line break. */
  function TableLine(cells: seq<string>): string
  {
    "| " + Join(cells, " | ") + " |\n"
  }

  function TableLines(rows: seq<seq<string>>): string
  {
    if rows == [] then "" else TableLine(rows[0]) + TableLines(rows[1..])
  }

  /** The rows `write_table` keeps: those with at least one cell. */
  function NonEmptyRows(rows: seq<seq<string>>): (r: seq<seq<string>>)
    ensures forall i :: 0 <= i < |r| ==> r[i] != []
  {
    if rows == [] then [] else (if rows[0] == [] then [] else [rows[0]]) + NonEmptyRows(rows[1..])
  }

  /** A row with cells is kept. */
  lemma {:induction false} NonEmptyRowKept(rows: seq<seq<string>>, k: nat)
    requires k < |rows| && rows[k] != []
    ensures NonEmptyRows(rows) != []
    decreases k
  {
    if rows[0] == [] {
      NonEmptyRowKept(rows[1..], k - 1);
    }
  }

  /**
   * A table `is_table_node_writable` accepts has a row with cells, so the
   * first kept row that `write_table` indexes is there: the cell texts
   * are one per counted cell.
   */
  lemma WritableHasRow(counts: seq<nat>, cells: seq<seq<string>>)
    requires UniformCells(counts)
    requires |cells| == |counts| && forall i :: 0 <= i < |cells| ==> |cells[i]| == counts[i]
    ensures NonEmptyRows(cells) != []
  {
    var k :| 0 <= k < |counts| && UniformFrom(counts, k);
    NonEmptyRowKept(cells, k);
  }

  /** What `write_table` appends for the `th` texts and the `td` texts of each row. */
  function TableBlock(headings: seq<string>, cells: seq<seq<string>>): string
    requires NonEmptyRows(cells) != []
  {
    var rows := NonEmptyRows(cells);
    var hs := Padded(headings, |rows[0]|);
    "\n" + TableLine(hs) + TableLine(Dashes(hs)) + TableLines(rows) + "\n"
  }

  /**
   * The table layout of `write_table`, once `is_table_node_writable` holds.
   * The source indexes the first non-empty row, which a writable table has.
   */
  method WriteTable(text: string, headings: seq<string>, cells: seq<seq<string>>) returns (r: string)
    requires NonEmptyRows(cells) != []
    ensures r == text + TableBlock(headings, cells)
  {
    var rows := CollectRows(cells);
    var hs := PadHeadings(headings, |rows[0]|);
    var heading := JoinTendrilStrings(hs, " | ");
    var dashes := JoinTendrilStrings(Dashes(hs), " | ");
    var front := text + "\n| " + heading + " |\n" + "| " + dashes + " |\n";
    r := WriteRows(front, rows);
    r := r + "\n";
    TableBlockParts(text, heading, dashes, TableLines(rows));
  }

  /** The pieces `write_table` pushes one after another make up the table block. */
  lemma TableBlockParts(text: string, heading: string, dashes: string, body: string)
    ensures text + "\n| " + heading + " |\n" + "| " + dashes + " |\n" + body + "\n"
      == text + ("\n" + ("| " + heading + " |\n") + ("| " + dashes + " |\n") + body + "\n")
  {
  }

  /** The rows of `write_table` that have cells, in order. */
  method CollectRows(cells: seq<seq<string>>) returns (rows: seq<seq<string>>)
    ensures rows == NonEmptyRows(cells)
  {
    rows := [];
    for i := 0 to |cells|
      invariant rows == NonEmptyRows(cells[..i])
    {
      NonEmptyRowsSnoc(cells[..i], cells[i]);
      assert cells[..i + 1] == cells[..i] + [cells[i]];
      if cells[i] != [] {
        rows := rows + [cells[i]];
      }
    }
    assert cells[..|cells|] == cells;
  }

  /** The row loop of `write_table`: one table line per row. */
  method WriteRows(front: string, rows: seq<seq<string>>) returns (r: string)
    ensures r == front + TableLines(rows)
  {
    r := front;
    for j := 0 to |rows|
      invariant r == front + TableLines(rows[..j])
    {
      var row := JoinTendrilStrings(rows[j], " | ");
      TableLinesSnoc(rows[..j], rows[j]);
      assert rows[..j + 1] == rows[..j] + [rows[j]];
      r := r + "| " + row + " |\n";
    }
    assert rows[..|rows|] == rows;
  }

  lemma {:induction false} NonEmptyRowsSnoc(rows: seq<seq<string>>, row: seq<string>)
    ensures NonEmptyRows(rows + [row]) == NonEmptyRows(rows) + (if row == [] then [] else [row])
    decreases |rows|
  {
    if rows == [] {
      assert rows + [row] == [row];
    } else {
      assert (rows + [row])[1..] == rows[1..] + [row];
      NonEmptyRowsSnoc(rows[1..], row);
    }
  }

  lemma {:induction false} TableLinesSnoc(rows: seq<seq<string>>, row: seq<string>)
    ensures TableLines(rows + [row]) == TableLines(rows) + TableLine(row)
    decreases |rows|
  {
    if rows == [] {
      assert rows + [row] == [row];
      assert [row][1..] == [];
    } else {
      assert (rows + [row])[1..] == rows[1..] + [row];
      TableLinesSnoc(rows[1..], row);
    }
  }

  /** The dashes are as long as the headings, one for one. */
  lemma {:induction false} DashesLength(headings: seq<string>)
    ensures TotalLength(Dashes(headings)) == TotalLength(headings)
    decreases |headings|
  {
    if headings != [] {
      DashesLength(headings[1..]);
      assert Dashes(headings)[1..] == Dashes(headings[1..]);
    }
  }

  /**
   * The heading line and the separator line below it are equally long, and
   * the separator line holds only `-` runs, one per heading; there is a
   * heading for every cell of the first row.
   */
  lemma TableAligned(headings: seq<string>, cells: seq<seq<string>>)
    requires NonEmptyRows(cells) != []
    ensures var hs := Padded(headings, |NonEmptyRows(cells)[0]|);
      && |TableLine(Dashes(hs))| == |TableLine(hs)|
      && |hs| >= |NonEmptyRows(cells)[0]| && |hs| >= |headings|
      && forall i :: 0 <= i < |hs| ==> forall k :: 0 <= k < |Dashes(hs)[i]| ==> Dashes(hs)[i][k] == '-'
  {
    var hs := Padded(headings, |NonEmptyRows(cells)[0]|);
    DashesLength(hs);
    JoinedLength(hs, " | ");
    JoinedLength(Dashes(hs), " | ");
    forall i | 0 <= i < |hs|
      ensures forall k :: 0 <= k < |Dashes(hs)[i]| ==> Dashes(hs)[i][k] == '-'
    {
      RepeatedChar('-', |hs[i]|);
    }
  }

  // ----- write_blockquote -----

  /** The quoted lines: `> `, the line and a line break for each. */
  function QuoteLines(lines: seq<string>): string
  {
    if lines == [] then "" else "> " + lines[0] + "\n" + QuoteLines(lines[1..])
  }

  /**
   * What `write_blockquote` leaves: nothing new for an empty quote;
   * otherwise line breaks until the text ends in a blank line, the quoted
   * lines and one more line break.
   */
  function Blockquote(text: string, quote: string): string
  {
    if quote == [] then text
    else text + Repeated("\n", BreaksNeeded(text, "\n")) + QuoteLines(Lines(quote)) + "\n"
  }

  /** `write_blockquote`, given the text `write` produced for the quote's children. */
  method WriteBlockquote(text: string, quote: string) returns (r: string)
    ensures r == Blockquote(text, quote)
  {
    if quote == [] {
      return text;
    }
    r := PadBlankLine(text, "\n");
    r := WriteQuoteLines(r, Lines(quote));
    r := r + "\n";
  }

  /** The line loop of `write_blockquote`. */
  method WriteQuoteLines(front: string, lines: seq<string>) returns (r: string)
    ensures r == front + QuoteLines(lines)
  {
    r := front;
    for i := 0 to |lines|
      invariant r == front + QuoteLines(lines[..i])
    {
      QuoteLinesSnoc(lines[..i], lines[i]);
      assert lines[..i + 1] == lines[..i] + [lines[i]];
      r := r + "> " + lines[i] + "\n";
    }
    assert lines[..|lines|] == lines;
  }

  lemma {:induction false} QuoteLinesSnoc(lines: seq<string>, line: string)
    ensures QuoteLines(lines + [line]) == QuoteLines(lines) + "> " + line + "\n"
    decreases |lines|
  {
    if lines == [] {
      assert lines + [line] == [line];
      assert [line][1..] == [];
    } else {
      assert (lines + [line])[1..] == lines[1..] + [line];
      QuoteLinesSnoc(lines[1..], line);
    }
  }

  /** `write_blockquote` of md.rs: a blank line is added in one go, whatever the text ends with. */
  function LegacyBlockquote(text: string, quote: string): string
  {
    if quote == [] then text
    else text + (if EndsWith(text, "\n\n") then "" else "\n\n") + QuoteLines(Lines(quote)) + "\n"
  }

  /** A line of `lines` holds no line feed. */
  lemma {:induction false} LinesHaveNoLineFeed(s: string)
    ensures forall i :: 0 <= i < |Lines(s)| ==> !SomeChar(Lines(s)[i], IsLineFeed)
    decreases |s|
  {
    if s != [] {
      var n := RunLen(s, IsLineFeed);
      RunLenSpec(s, IsLineFeed);
      if n < |s| {
        LinesHaveNoLineFeed(s[n + 1..]);
        var line := if n > 0 && s[n - 1] == '\r' then s[..n - 1] else s[..n];
        assert Lines(s) == [line] + Lines(s[n + 1..]);
        assert !SomeChar(line, IsLineFeed) by {
          forall j | 0 <= j < |line|
            ensures !IsLineFeed(line[j])
          {
            assert line[j] == s[j];
          }
        }
        forall i | 0 < i < |Lines(s)|
          ensures !SomeChar(Lines(s)[i], IsLineFeed)
        {
          assert Lines(s)[i] == Lines(s[n + 1..])[i - 1];
        }
      } else {
        assert !SomeChar(s, IsLineFeed);
      }
    }
  }

  /** A line and its terminator come back as that line, without a carriage return before the terminator. */
  lemma LinesCons(line: string, rest: string)
    requires !SomeChar(line, IsLineFeed)
    ensures Lines(line + "\n" + rest) == [DropCr(line)] + Lines(rest)
  {
    var s := line + "\n" + rest;
    assert s == line + ("\n" + rest);
    RunLenFree(line, IsLineFeed);
    RunLenAppend(line, "\n" + rest, IsLineFeed);
    assert ("\n" + rest)[0] == '\n';
    assert RunLen(s, IsLineFeed) == |line|;
    assert s[..|line|] == line;
    assert s[|line| + 1..] == rest;
    if |line| > 0 {
      assert s[|line| - 1] == line[|line| - 1];
      assert s[..|line| - 1] == line[..|line| - 1];
    }
  }

  /** A line without the carriage return `lines` strips before a line feed. */
  function DropCr(line: string): string
  {
    if line != [] && line[|line| - 1] == '\r' then line[..|line| - 1] else line
  }

  /**
   * Read back as lines, the quote is one line per quoted line: `> ` and
   * the line itself.
   */
  lemma {:induction false} QuotedLines(lines: seq<string>)
    requires forall i :: 0 <= i < |lines| ==> !SomeChar(lines[i], IsLineFeed)
    ensures |Lines(QuoteLines(lines))| == |lines|
    ensures forall i :: 0 <= i < |lines| ==> Lines(QuoteLines(lines))[i] == DropCr("> " + lines[i])
    decreases |lines|
  {
    if lines != [] {
      var rest := lines[1..];
      QuotedLines(rest);
      var first := "> " + lines[0];
      QuotedLineFree(lines[0]);
      assert QuoteLines(lines) == first + "\n" + QuoteLines(rest);
      LinesCons(first, QuoteLines(rest));
      var ls := Lines(QuoteLines(lines));
      assert ls == [DropCr(first)] + Lines(QuoteLines(rest));
      forall i | 0 < i < |lines|
        ensures ls[i] == DropCr("> " + lines[i])
      {
        assert ls[i] == Lines(QuoteLines(rest))[i - 1];
        assert rest[i - 1] == lines[i];
      }
    }
  }

  /** The `> ` marker adds no line feed. */
  lemma QuotedLineFree(line: string)
    requires !SomeChar(line, IsLineFeed)
    ensures !SomeChar("> " + line, IsLineFeed)
  {
    var first := "> " + line;
    forall j | 0 <= j < |first|
      ensures !IsLineFeed(first[j])
    {
      if j >= 2 {
        assert first[j] == line[j - 2];
      }
    }
  }

  /** Dropping a carriage return keeps the `> ` marker. */
  lemma QuotedLineStart(line: string)
    ensures StartsWith(DropCr("> " + line), "> ")
  {
    var l := "> " + line;
    assert l[..2] == "> ";
    if |l| > 2 {
      assert l[..|l| - 1][..2] == "> ";
    }
  }

  /** Every line of a written block quote starts with `> `, one per line of the quoted text. */
  lemma BlockquoteLines(quote: string)
    ensures |Lines(QuoteLines(Lines(quote)))| == |Lines(quote)|
    ensures forall i :: 0 <= i < |Lines(quote)| ==> StartsWith(Lines(QuoteLines(Lines(quote)))[i], "> ")
  {
    LinesHaveNoLineFeed(quote);
    QuotedLines(Lines(quote));
    forall i | 0 <= i < |Lines(quote)|
      ensures StartsWith(Lines(QuoteLines(Lines(quote)))[i], "> ")
    {
      QuotedLineStart(Lines(quote)[i]);
    }
  }

  /**
   * An empty quote writes nothing; otherwise the quote extends the text,
   * ends in a line break, and the padding before it leaves a blank line.
   */
  lemma BlockquoteFrame(text: string, quote: string)
    ensures quote == [] ==> Blockquote(text, quote) == text && LegacyBlockquote(text, quote) == text
    ensures quote != [] ==> StartsWith(Blockquote(text, quote), text) && EndsWith(Blockquote(text, quote), "\n")
    ensures quote != [] ==> EndsWith(text + Repeated("\n", BreaksNeeded(text, "\n")), "\n\n")
  {
    BreaksLeast(text, "\n");
    assert "\n" + "\n" == "\n\n";
    if quote != [] {
      var pad := text + Repeated("\n", BreaksNeeded(text, "\n"));
      var b := Blockquote(text, quote);
      assert b == pad + (QuoteLines(Lines(quote)) + "\n");
      assert pad[..|text|] == text;
      assert b[..|text|] == text;
      assert b[|b| - 1..] == "\n";
    }
  }

  /**
   * After a text that ends in one line break, the newer writer adds one
   * more before the quote and the older writer two, leaving three.
   */
  lemma BlockquoteAfterBreak(text: string, quote: string)
    requires quote != [] && EndsWith(text, "\n") && !EndsWith(text, "\n\n")
    ensures Blockquote(text, quote) == text + "\n" + QuoteLines(Lines(quote)) + "\n"
    ensures LegacyBlockquote(text, quote) == text + "\n\n" + QuoteLines(Lines(quote)) + "\n"
  {
    assert BreaksNeeded(text, "\n") == 1;
    assert Repeated("\n", 1) == "\n";
  }

  // ----- write_img and write_link -----

  /** `write_img` (the same in both writers): `![alt](src "title")`, nothing without `src`. */
  function ImgMarkdown(e: Element): (r: string)
  {
    match AttrValue(e.attrs, "src")
    case None => ""
    case Some(src) =>
      "![" + (match AttrValue(e.attrs, "alt") case Some(alt) => alt case None => "")
      + "](" + src
      + (match AttrValue(e.attrs, "title") case Some(title) => " \"" + title + "\"" case None => "")
      + ")"
  }

  /**
   * An image is written exactly when it has a `src`; without `alt` and
   * `title` it is `![](src)`.
   */
  lemma ImgCases(e: Element)
    ensures ImgMarkdown(e) == [] <==> !HasAttr(e.attrs, "src")
    ensures HasAttr(e.attrs, "src") && !HasAttr(e.attrs, "alt") && !HasAttr(e.attrs, "title") ==>
      ImgMarkdown(e) == "![](" + AttrValue(e.attrs, "src").value + ")"
  {
  }

  /**
   * What `write_link` leaves for an element with an `href`: nothing new when
   * the link text is empty, otherwise the text normalised and escaped
   * between brackets, then the target and an optional normalised title in
   * parentheses.
   */
  function LinkMarkdown(text: string, href: string, linkText: string, title: Option<string>): string
  {
    if linkText == [] then text
    else
      var esc := EscapingFor(true);
      var t := Normalized(text + "[", linkText, esc) + "](" + href;
      (match title
       case None => t
       case Some(ti) => Normalized(t + " \"", ti, esc) + "\"")
      + ")"
  }

  /** `write_link` of md.rs: escapes the link text with the older list and copies the title verbatim. */
  function LegacyLinkMarkdown(text: string, href: string, linkText: string, title: Option<string>): string
  {
    if linkText == [] then text
    else
      var t := Normalized(text + "[", linkText, Escape(LegacyEscapeChars)) + "](" + href;
      (match title case None => t case Some(ti) => t + " \"" + ti + "\"") + ")"
  }

  /**
   * An empty link text writes nothing; otherwise the link extends the text
   * with `[` and ends with `)`.
   */
  lemma LinkFrame(text: string, href: string, linkText: string, title: Option<string>)
    ensures linkText == [] ==> LinkMarkdown(text, href, linkText, title) == text
    ensures linkText != [] ==> var r := LinkMarkdown(text, href, linkText, title);
      && StartsWith(r, text + "[") && EndsWith(r, ")")
  {
    var esc := EscapingFor(true);
    var front := text + "[";
    if linkText != [] {
      var bracketed := Normalized(front, linkText, esc);
      NormalizedExtends(front, linkText, esc);
      var t := bracketed + "](" + href;
      assert t[..|front|] == bracketed[..|front|];
      var r := LinkMarkdown(text, href, linkText, title);
      match title
      case None =>
        assert r == t + ")";
        assert r[..|front|] == t[..|front|];
      case Some(ti) =>
        NormalizedExtends(t + " \"", ti, esc);
        var u := Normalized(t + " \"", ti, esc);
        assert r == u + "\"" + ")";
        assert r[..|front|] == u[..|front|];
        assert u[..|front|] == (t + " \"")[..|front|];
    }
  }

  /**
   * The words between the brackets are the link text's words escaped,
   * which for a text that was escaped already are the same words again:
   * the second escaping `write_link` applies changes nothing.
   */
  lemma LinkWords(text: string, linkText: string)
    ensures var bracketed := Normalized(text + "[", linkText, EscapingFor(true));
      && |text + "["| <= |bracketed|
      && Words(bracketed[|text + "["|..]) == EscapedWords(Words(linkText), EscapingFor(true))
      && EscapedWords(Words(bracketed[|text + "["|..]), EscapingFor(true)) == Words(bracketed[|text + "["|..])
  {
    var esc := EscapingFor(true);
    NormalizedExtends(text + "[", linkText, esc);
    NormalizedWords(text + "[", linkText, esc);
    EscapedWordsTwice(Words(linkText), esc);
  }

  // ----- write_pre and the code language -----

  /** `write_pre`: a fenced block with the language label after the opening fence, and the raw text inside. */
  function PreBlock(lang: Option<string>, body: string): string
  {
    "\n```" + (match lang case Some(l) => l case None => "") + "\n" + body + "\n```\n"
  }

  /** `write_pre` of md.rs: a fence without a label. */
  function LegacyPreBlock(body: string): string
  {
    "\n```\n" + body + "\n```\n"
  }

  /** The older code block is the newer one without a language label, and the body sits between two fences. */
  lemma PreBlocks(lang: Option<string>, body: string)
    ensures LegacyPreBlock(body) == PreBlock(None, body)
    ensures StartsWith(PreBlock(lang, body), "\n```") && EndsWith(PreBlock(lang, body), "\n```\n")
  {
    var p := PreBlock(lang, body);
    assert p[..4] == "\n```";
    assert p[|p| - 5..] == "\n```\n";
  }

  predicate IsLangAttr(a: Attr)
  {
    a.name.local in CodeLanguageAttributes
  }

  /** The index of the first `data-lang` or `data-language` attribute. */
  function FirstLangAttr(attrs: seq<Attr>): (r: Option<nat>)
    ensures r.None? <==> forall k :: 0 <= k < |attrs| ==> !IsLangAttr(attrs[k])
    ensures r.Some? ==> (r.value < |attrs| && IsLangAttr(attrs[r.value])
      && forall k :: 0 <= k < r.value ==> !IsLangAttr(attrs[k]))
    decreases |attrs|
  {
    if attrs == [] then None
    else if IsLangAttr(attrs[0]) then Some(0)
    else match FirstLangAttr(attrs[1..])
      case None => None
      case Some(k) => Some(k + 1)
  }

  /** `find_code_lang_attribute`: the sanitised value of an element's first language attribute. */
  function FindCodeLangAttribute(n: TreeNode): (r: Option<string>)
    ensures r.Some? <==> n.data.ElementData? && exists k :: 0 <= k < |n.data.element.attrs| && IsLangAttr(n.data.element.attrs[k])
  {
    match n.data
    case ElementData(e) =>
      (match FirstLangAttr(e.attrs)
       case Some(k) => Some(SanitizeAttrValue(e.attrs[k].value))
       case None => None)
    case _ => None
  }

  /** The first id of `ids` whose node carries a language attribute, with that language. */
  function FirstLangOf(nodes: seq<TreeNode>, ids: seq<NodeId>): Option<string>
    decreases |ids|
  {
    if ids == [] then None
    else if ids[0] < |nodes| && FindCodeLangAttribute(nodes[ids[0]]).Some? then FindCodeLangAttribute(nodes[ids[0]])
    else FirstLangOf(nodes, ids[1..])
  }

  /** The element of the first `code` element among `ids`. */
  function FirstCodeElement(nodes: seq<TreeNode>, ids: seq<NodeId>): Option<Element>
    decreases |ids|
  {
    if ids == [] then None
    else if ids[0] < |nodes| && nodes[ids[0]].data.ElementData? && nodes[ids[0]].data.element.name.local == "code"
    then Some(nodes[ids[0]].data.element)
    else FirstCodeElement(nodes, ids[1..])
  }

  /** The first `language-` class of the first `code` element child, without the prefix, sanitised. */
  function FindCodeLanguageCssClass(nodes: seq<TreeNode>, pre: NodeId): Option<string>
  {
    match FirstCodeElement(nodes, Children(nodes, pre))
    case None => None
    case Some(code) =>
      match Class(code)
      case None => None
      case Some(cls) => LanguageOfClasses(AsciiWords(cls))
  }

  /** The first class token that starts with `language-`, with the prefix stripped and the rest sanitised. */
  function LanguageOfClasses(classes: seq<string>): Option<string>
    decreases |classes|
  {
    if classes == [] then None
    else if StartsWith(classes[0], CodeLanguagePrefix) then Some(SanitizeAttrValue(classes[0][|CodeLanguagePrefix|..]))
    else LanguageOfClasses(classes[1..])
  }

  /** The ancestors `ancestor_nodes(.., Some(3))` yields: the parent chain, at most three deep. */
  function NearAncestors(nodes: seq<TreeNode>, id: NodeId): (r: seq<NodeId>)
    ensures |r| <= 3
  {
    var anc := Ancestors(nodes, id);
    if |anc| <= 3 then anc else anc[..3]
  }

  /** `find_code_language`: the node's own attribute, then its three nearest ancestors', then the class of its `code` child. */
  function FindCodeLanguage(nodes: seq<TreeNode>, pre: NodeId): Option<string>
    requires pre < |nodes|
  {
    match FindCodeLangAttribute(nodes[pre])
    case Some(l) => Some(l)
    case None =>
      match FirstLangOf(nodes, NearAncestors(nodes, pre))
      case Some(l) => Some(l)
      case None => FindCodeLanguageCssClass(nodes, pre)
  }

  lemma {:induction false} FirstLangOfSanitary(nodes: seq<TreeNode>, ids: seq<NodeId>)
    ensures FirstLangOf(nodes, ids).Some? ==> AllChars(FirstLangOf(nodes, ids).value, IsSanitary)
    decreases |ids|
  {
    if ids != [] {
      if ids[0] < |nodes| && FindCodeLangAttribute(nodes[ids[0]]).Some? {
        var e := nodes[ids[0]].data.element;
        SanitizeSpec(e.attrs[FirstLangAttr(e.attrs).value].value);
      } else {
        FirstLangOfSanitary(nodes, ids[1..]);
      }
    }
  }

  lemma {:induction false} LanguageOfClassesSanitary(classes: seq<string>)
    ensures LanguageOfClasses(classes).Some? ==> AllChars(LanguageOfClasses(classes).value, IsSanitary)
    decreases |classes|
  {
    if classes != [] {
      if StartsWith(classes[0], CodeLanguagePrefix) {
        SanitizeSpec(classes[0][|CodeLanguagePrefix|..]);
      } else {
        LanguageOfClassesSanitary(classes[1..]);
      }
    }
  }

  /**
   * A language label found anywhere holds only the characters
   * `sanitize_attr_value` keeps, so it cannot break out of the fence line;
   * the node's own attribute wins over its ancestors' and over the class,
   * and the class is consulted only when none of them has an attribute.
   */
  lemma CodeLanguageSpec(nodes: seq<TreeNode>, pre: NodeId)
    requires pre < |nodes|
    ensures FindCodeLanguage(nodes, pre).Some? ==> AllChars(FindCodeLanguage(nodes, pre).value, IsSanitary)
    ensures FindCodeLangAttribute(nodes[pre]).Some? ==> FindCodeLanguage(nodes, pre) == FindCodeLangAttribute(nodes[pre])
    ensures FindCodeLangAttribute(nodes[pre]).None? && FirstLangOf(nodes, NearAncestors(nodes, pre)).None? ==>
      FindCodeLanguage(nodes, pre) == FindCodeLanguageCssClass(nodes, pre)
  {
    match FindCodeLangAttribute(nodes[pre])
    case Some(l) =>
      var e := nodes[pre].data.element;
      SanitizeSpec(e.attrs[FirstLangAttr(e.attrs).value].value);
    case None =>
      FirstLangOfSanitary(nodes, NearAncestors(nodes, pre));
      match FindCodeLanguageCssClass(nodes, pre)
      case None =>
      case Some(_) =>
        var code := FirstCodeElement(nodes, Children(nodes, pre)).value;
        LanguageOfClassesSanitary(AsciiWords(Class(code).value));
  }

  // ----- write_code -----

  /** Some text below the node spans lines once trimmed: `write_code` then writes a fenced block. */
  predicate IsMultilineCode(nodes: seq<TreeNode>, desc: seq<NodeId>)
  {
    exists k :: 0 <= k < |desc| && desc[k] < |nodes| && nodes[desc[k]].data.Text?
      && '\n' in Trim(nodes[desc[k]].data.contents)
  }

  /**
   * What `write_code` appends, given the node's descendants in document
   * order, its code block and the unescaped text `write` gave its children:
   * the block when a text spans lines, the text in backticks otherwise.
   */
  function CodeMarkdown(nodes: seq<TreeNode>, desc: seq<NodeId>, block: string, inline: string): string
  {
    if IsMultilineCode(nodes, desc) then block else "`" + inline + "`"
  }
}
