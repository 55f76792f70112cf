/**
 * `format_text` of src/node/text_formatting.rs and of the older
 * src/node/serializing.rs: an `ops` stack of open and close operations
 * worked off from the top.  Opening a text node appends its normalised
 * contents; opening an element may start a line, pushes the element's
 * close operation and then either appends the raw `text_of` (for `pre`) or
 * pushes the children reversed; every other node adds nothing and is not
 * descended.  The two versions differ only in their steps (module
 * `FormatSteps`), so one loop serves both, chosen by `style`.
 *
 * The loop is proved against `FormatUnder`, the same walk as a recursive
 * fold over the child chains; `fuel` bounds the depth as in `Subtree`.
 */
module FormatText {
  import opened Wrappers
  import opened Str
  import opened Arena
  import opened Chains
  import opened Invariant
  import opened Subtree
  import opened Ops
  import opened TextNormal
  import opened FormatSteps

  /** `SerializeOp`. */
  datatype Op = Open(id: NodeId) | Close(name: QualName)

  predicate IsPre(name: QualName) { name.local == "pre" }

  /** The text after opening `id` with `text` so far, its whole subtree worked off. */
  function FormatUnder(style: Style, nodes: seq<TreeNode>, text: string, id: NodeId, fuel: nat): string
    decreases fuel, 0
  {
    if id >= |nodes| then text
    else match nodes[id].data
      case Text(contents) => TextStep(style, text, contents)
      case ElementData(e) =>
        var started := OpenStep(style, text, e.name);
        var inner :=
          if IsPre(e.name) then started + TextUnder(nodes, id, fuel)
          else if fuel > 0 then FormatForest(style, nodes, started, Children(nodes, id), fuel - 1)
          else started;
        CloseStep(style, inner, e.name)
      case _ => text
  }

  /** The nodes `ids` started one after the other. */
  function FormatForest(style: Style, nodes: seq<TreeNode>, text: string, ids: seq<NodeId>, fuel: nat): string
    decreases fuel, |ids|
  {
    if ids == [] then text
    else FormatForest(style, nodes, FormatUnder(style, nodes, text, ids[0], fuel), ids[1..], fuel)
  }

  /**
   * What `format_text` returns: the root itself worked off when
   * `includeNode`, otherwise its children one after the other with the
   * trailing whitespace trimmed.
   */
  function FormatResult(style: Style, nodes: seq<TreeNode>, id: NodeId, includeNode: bool, fuel: nat): string
  {
    if includeNode then FormatUnder(style, nodes, "", id, fuel)
    else TrimEnd(FormatForest(style, nodes, "", Children(nodes, id), fuel))
  }

  // ----- the ops stack -----

  /** What working off one operation does to the text. */
  function Worked(style: Style, nodes: seq<TreeNode>, text: string, op: Op, fuel: nat): string
  {
    match op
    case Open(id) => FormatUnder(style, nodes, text, id, fuel)
    case Close(name) => CloseStep(style, text, name)
  }

  /** The text once every pending operation has been worked off, the top (last) one first. */
  ghost function StackRun(style: Style, nodes: seq<TreeNode>, text: string, ops: seq<Op>, fuels: seq<nat>): string
    requires |ops| == |fuels|
    decreases |ops|
  {
    if ops == [] then text
    else
      var n := |ops| - 1;
      StackRun(style, nodes, Worked(style, nodes, text, ops[n], fuels[n]), ops[..n], fuels[..n])
  }

  /** An open costs two per node of its subtree (its own open and close), a close one. */
  ghost function OpWeight(nodes: seq<TreeNode>, op: Op, fuel: nat): nat
  {
    match op
    case Open(id) => 2 * Size(nodes, id, fuel)
    case Close(_) => 1
  }

  ghost function StackWeight(nodes: seq<TreeNode>, ops: seq<Op>, fuels: seq<nat>): nat
    requires |ops| == |fuels|
    decreases |ops|
  {
    if ops == [] then 0
    else
      var n := |ops| - 1;
      OpWeight(nodes, ops[n], fuels[n]) + StackWeight(nodes, ops[..n], fuels[..n])
  }

  /** `ids.map(SerializeOp::Open)`. */
  function OpensOf(ids: seq<NodeId>): (r: seq<Op>)
    ensures |r| == |ids|
    ensures forall k :: 0 <= k < |ids| ==> r[k] == Open(ids[k])
  {
    if ids == [] then [] else OpensOf(ids[..|ids| - 1]) + [Open(ids[|ids| - 1])]
  }

  /** The state of the loop: every pending open is finite, and what the stack still does ends in `target`. */
  ghost predicate FormatStack(style: Style, nodes: seq<TreeNode>, ops: seq<Op>, fuels: seq<nat>, text: string, target: string)
  {
    && |fuels| == |ops|
    && OpensFinite(nodes, ops, fuels)
    && StackRun(style, nodes, text, ops, fuels) == target
  }

  ghost predicate OpensFinite(nodes: seq<TreeNode>, ops: seq<Op>, fuels: seq<nat>)
    requires |fuels| == |ops|
  {
    forall k :: 0 <= k < |ops| && ops[k].Open? ==> Finite(nodes, ops[k].id, fuels[k])
  }

  lemma OpensFiniteAppend(nodes: seq<TreeNode>, ops: seq<Op>, fuels: seq<nat>, ops2: seq<Op>, fuels2: seq<nat>)
    requires |fuels| == |ops| && |fuels2| == |ops2|
    requires OpensFinite(nodes, ops, fuels) && OpensFinite(nodes, ops2, fuels2)
    ensures OpensFinite(nodes, ops + ops2, fuels + fuels2)
  {
    var o, f := ops + ops2, fuels + fuels2;
    forall k | 0 <= k < |o| && o[k].Open?
      ensures Finite(nodes, o[k].id, f[k])
    {
      if k < |ops| {
        assert o[k] == ops[k] && f[k] == fuels[k];
      } else {
        assert o[k] == ops2[k - |ops|] && f[k] == fuels2[k - |ops|];
      }
    }
  }

  /** The children pushed reversed are finite at the fuel their parent hands down. */
  lemma OpensOfFinite(nodes: seq<TreeNode>, cs: seq<NodeId>, g: nat)
    requires AllFinite(nodes, cs, g)
    ensures OpensFinite(nodes, OpensOf(Reverse(cs)), Repeat(g, |cs|))
  {
    var o, f := OpensOf(Reverse(cs)), Repeat(g, |cs|);
    forall k | 0 <= k < |o| && o[k].Open?
      ensures Finite(nodes, o[k].id, f[k])
    {
      assert o[k] == Open(cs[|cs| - 1 - k]);
      AllFiniteAt(nodes, cs, g, |cs| - 1 - k);
    }
  }

  lemma StackSnoc(style: Style, nodes: seq<TreeNode>, text: string, ops: seq<Op>, fuels: seq<nat>, op: Op, g: nat)
    requires |ops| == |fuels|
    ensures StackRun(style, nodes, text, ops + [op], fuels + [g]) == StackRun(style, nodes, Worked(style, nodes, text, op, g), ops, fuels)
    ensures StackWeight(nodes, ops + [op], fuels + [g]) == OpWeight(nodes, op, g) + StackWeight(nodes, ops, fuels)
  {
    assert (ops + [op])[..|ops|] == ops;
    assert (fuels + [g])[..|fuels|] == fuels;
  }

  /** Pushing the children reversed puts the first child on top: they are worked off in sibling order. */
  lemma {:induction false} PushOpens(style: Style, nodes: seq<TreeNode>, text: string, ops: seq<Op>, fuels: seq<nat>,
      cs: seq<NodeId>, g: nat)
    requires |ops| == |fuels|
    ensures StackRun(style, nodes, text, ops + OpensOf(Reverse(cs)), fuels + Repeat(g, |cs|))
         == StackRun(style, nodes, FormatForest(style, nodes, text, cs, g), ops, fuels)
    ensures StackWeight(nodes, ops + OpensOf(Reverse(cs)), fuels + Repeat(g, |cs|))
         == 2 * ForestSize(nodes, cs, g) + StackWeight(nodes, ops, fuels)
    decreases |cs|
  {
    if cs == [] {
      assert ops + OpensOf(Reverse(cs)) == ops;
      assert fuels + Repeat(g, |cs|) == fuels;
    } else {
      var rest := cs[1..];
      var rev := Reverse(rest) + [cs[0]];
      assert Reverse(cs) == rev;
      assert rev[..|rev| - 1] == Reverse(rest);
      assert OpensOf(Reverse(cs)) == OpensOf(Reverse(rest)) + [Open(cs[0])];
      var o2 := ops + OpensOf(Reverse(rest));
      var f2 := fuels + Repeat(g, |rest|);
      assert ops + OpensOf(Reverse(cs)) == o2 + [Open(cs[0])];
      assert fuels + Repeat(g, |cs|) == f2 + [g];
      StackSnoc(style, nodes, text, o2, f2, Open(cs[0]), g);
      PushOpens(style, nodes, FormatUnder(style, nodes, text, cs[0], g), ops, fuels, rest, g);
    }
  }

  /** Popping the top operation works it off. */
  lemma FormatPop(style: Style, nodes: seq<TreeNode>, ops: seq<Op>, fuels: seq<nat>, text: string, target: string)
    requires FormatStack(style, nodes, ops, fuels, text, target) && ops != []
    ensures var n := |ops| - 1;
      && (ops[n].Open? ==> Finite(nodes, ops[n].id, fuels[n]))
      && FormatStack(style, nodes, ops[..n], fuels[..n], Worked(style, nodes, text, ops[n], fuels[n]), target)
      && StackWeight(nodes, ops, fuels) == OpWeight(nodes, ops[n], fuels[n]) + StackWeight(nodes, ops[..n], fuels[..n])
  {
    var n := |ops| - 1;
    forall k | 0 <= k < n && ops[..n][k].Open?
      ensures Finite(nodes, ops[..n][k].id, fuels[..n][k])
    {
      assert ops[..n][k] == ops[k] && fuels[..n][k] == fuels[k];
    }
    assert ops[n].Open? ==> Finite(nodes, ops[n].id, fuels[n]);
  }

  /** An element other than `pre` pushes its close and then its children, reversed. */
  lemma ElementPushed(style: Style, nodes: seq<TreeNode>, ops: seq<Op>, fuels: seq<nat>, text: string, target: string,
      cur: NodeId, f: nat, e: Element)
    requires cur < |nodes| && nodes[cur].data == ElementData(e) && !IsPre(e.name)
    requires Finite(nodes, cur, f)
    requires FormatStack(style, nodes, ops, fuels, FormatUnder(style, nodes, text, cur, f), target)
    ensures var cs := Children(nodes, cur);
      var g := if f > 0 then f - 1 else 0;
      var ops' := ops + [Close(e.name)] + OpensOf(Reverse(cs));
      var fuels' := fuels + [0] + Repeat(g, |cs|);
      && FormatStack(style, nodes, ops', fuels', OpenStep(style, text, e.name), target)
      && StackWeight(nodes, ops', fuels') < 2 * Size(nodes, cur, f) + StackWeight(nodes, ops, fuels)
  {
    var cs := Children(nodes, cur);
    var g := if f > 0 then f - 1 else 0;
    var mid := ops + [Close(e.name)];
    var midFuels := fuels + [0];
    var ops' := mid + OpensOf(Reverse(cs));
    var fuels' := midFuels + Repeat(g, |cs|);
    var started := OpenStep(style, text, e.name);
    PushOpens(style, nodes, started, mid, midFuels, cs, g);
    StackSnoc(style, nodes, FormatForest(style, nodes, started, cs, g), ops, fuels, Close(e.name), 0);
    if f == 0 {
      assert cs == [];
    }
    assert OpensFinite(nodes, [Close(e.name)], [0]);
    OpensFiniteAppend(nodes, ops, fuels, [Close(e.name)], [0]);
    OpensOfFinite(nodes, cs, g);
    OpensFiniteAppend(nodes, mid, midFuels, OpensOf(Reverse(cs)), Repeat(g, |cs|));
  }

  /** A `pre` element pushes only its close; its raw text has been appended. */
  lemma PreClosed(style: Style, nodes: seq<TreeNode>, ops: seq<Op>, fuels: seq<nat>, text: string, target: string,
      cur: NodeId, f: nat, e: Element)
    requires cur < |nodes| && nodes[cur].data == ElementData(e) && IsPre(e.name)
    requires FormatStack(style, nodes, ops, fuels, FormatUnder(style, nodes, text, cur, f), target)
    ensures var ops' := ops + [Close(e.name)];
      var fuels' := fuels + [0];
      && FormatStack(style, nodes, ops', fuels', OpenStep(style, text, e.name) + TextUnder(nodes, cur, f), target)
      && StackWeight(nodes, ops', fuels') < 2 * Size(nodes, cur, f) + StackWeight(nodes, ops, fuels)
  {
    StackSnoc(style, nodes, OpenStep(style, text, e.name) + TextUnder(nodes, cur, f), ops, fuels, Close(e.name), 0);
    assert OpensFinite(nodes, [Close(e.name)], [0]);
    OpensFiniteAppend(nodes, ops, fuels, [Close(e.name)], [0]);
  }

  /** With `include_node` the stack starts with the root's open. */
  lemma StartWithRoot(style: Style, nodes: seq<TreeNode>, id: NodeId, fuel: nat)
    requires Finite(nodes, id, fuel)
    ensures FormatStack(style, nodes, [Open(id)], [fuel], "", FormatUnder(style, nodes, "", id, fuel))
  {
    StackSnoc(style, nodes, "", [], [], Open(id), fuel);
    assert [Open(id)] == [] + [Open(id)] && [fuel] == [] + [fuel];
  }

  /** Without it, with the root's children reversed. */
  lemma StartWithChildren(style: Style, nodes: seq<TreeNode>, cs: seq<NodeId>, fuel: nat)
    requires AllFinite(nodes, cs, fuel)
    ensures FormatStack(style, nodes, OpensOf(Reverse(cs)), Repeat(fuel, |cs|), "", FormatForest(style, nodes, "", cs, fuel))
  {
    PushOpens(style, nodes, "", [], [], cs, fuel);
    assert [] + OpensOf(Reverse(cs)) == OpensOf(Reverse(cs));
    assert [] + Repeat(fuel, |cs|) == Repeat(fuel, |cs|);
    OpensOfFinite(nodes, cs, fuel);
  }

  /**
   * `format_text`, either version.  `fuel` is a depth bound under which
   * the descent is finite; without one the source loops for ever on a
   * cyclic child chain.
   */
  method FormatNodeText(nodes: array<TreeNode>, id: NodeId, includeNode: bool, style: Style, ghost fuel: nat)
    returns (text: string)
    requires if includeNode then Finite(nodes[..], id, fuel) else AllFinite(nodes[..], Children(nodes[..], id), fuel)
    ensures text == FormatResult(style, nodes[..], id, includeNode, fuel)
  {
    ghost var target := if includeNode then FormatUnder(style, nodes[..], "", id, fuel)
                        else FormatForest(style, nodes[..], "", Children(nodes[..], id), fuel);
    var ops: seq<Op>;
    ghost var fuels: seq<nat>;
    if includeNode {
      ops, fuels := [Open(id)], [fuel];
      StartWithRoot(style, nodes[..], id, fuel);
    } else {
      var cs := Children(nodes[..], id);
      ops, fuels := OpensOf(Reverse(cs)), Repeat(fuel, |cs|);
      StartWithChildren(style, nodes[..], cs, fuel);
    }
    text := "";
    while ops != []
      invariant FormatStack(style, nodes[..], ops, fuels, text, target)
      decreases StackWeight(nodes[..], ops, fuels)
    {
      ops, fuels, text := WorkOff(nodes, style, ops, fuels, text, target);
    }
    if !includeNode {
      text := TrimTrailingWhitespace(text);
    }
  }

  /** One turn of the loop: pop the top operation and work it off. */
  method WorkOff(nodes: array<TreeNode>, style: Style, ops: seq<Op>, ghost fuels: seq<nat>, text: string, ghost target: string)
    returns (ops': seq<Op>, ghost fuels': seq<nat>, text': string)
    requires FormatStack(style, nodes[..], ops, fuels, text, target) && ops != []
    ensures FormatStack(style, nodes[..], ops', fuels', text', target)
    ensures StackWeight(nodes[..], ops', fuels') < StackWeight(nodes[..], ops, fuels)
  {
    var op := ops[|ops| - 1];
    ghost var f := fuels[|fuels| - 1];
    FormatPop(style, nodes[..], ops, fuels, text, target);
    ops', fuels', text' := ops[..|ops| - 1], fuels[..|fuels| - 1], text;
    match op
    case Open(cur) =>
      if cur < nodes.Length {
        var node := nodes[cur];
        match node.data
        case Text(contents) =>
          if style == Plain {
            var piece := NormalizeText(contents, FollowsNewline(text));
            text' := text + piece;
          } else {
            text' := PushNormalizedText(text, contents, Verbatim);
          }
        case ElementData(e) =>
          ops', fuels', text' := OpenElement(nodes, style, ops', fuels', text, target, cur, f, e);
        case _ =>
      }
    case Close(name) =>
      if style == Plain {
        if !EndsWith(text, "\n\n") {
          if ElemRequireLinebreak(name) {
            text' := text + "\n\n";
          } else if BreaksLine(name) {
            text' := text + "\n";
          }
        }
      } else {
        text' := AdjustElementOffset(text, name);
      }
  }

  /** Opening an element: the line break before a block, the close, then the raw text of `pre` or the children. */
  method OpenElement(nodes: array<TreeNode>, style: Style, ops: seq<Op>, ghost fuels: seq<nat>, text: string, ghost target: string,
      cur: NodeId, ghost f: nat, e: Element)
    returns (ops': seq<Op>, ghost fuels': seq<nat>, text': string)
    requires cur < nodes.Length && nodes[cur].data == ElementData(e) && Finite(nodes[..], cur, f)
    requires FormatStack(style, nodes[..], ops, fuels, FormatUnder(style, nodes[..], text, cur, f), target)
    ensures FormatStack(style, nodes[..], ops', fuels', text', target)
    ensures StackWeight(nodes[..], ops', fuels') < 2 * Size(nodes[..], cur, f) + StackWeight(nodes[..], ops, fuels)
  {
    text' := text;
    if style == Formatted && !(text == [] || EndsWith(text, "\n\n")) && ElemRequireLinebreak(e.name) {
      text' := text + "\n";
    }
    assert text' == OpenStep(style, text, e.name);
    ops', fuels' := ops + [Close(e.name)], fuels + [0];
    if IsPre(e.name) {
      PreClosed(style, nodes[..], ops, fuels, text, target, cur, f, e);
      var raw := TextOf(nodes, cur, f);
      text' := text' + raw;
    } else {
      ElementPushed(style, nodes[..], ops, fuels, text, target, cur, f, e);
      var cs := Children(nodes[..], cur);
      ops', fuels' := ops' + OpensOf(Reverse(cs)), fuels' + Repeat(if f > 0 then f - 1 else 0, |cs|);
    }
  }

  /** `while ends_with(char::is_whitespace) { pop_back(1) }`. */
  method TrimTrailingWhitespace(s: string) returns (r: string)
    ensures r == TrimEnd(s)
  {
    r := s;
    while r != [] && IsWhitespace(r[|r| - 1])
      invariant |r| <= |s| && r == s[..|r|]
      invariant TrimEnd(r) == TrimEnd(s)
    {
      r := r[..|r| - 1];
    }
  }

  /** On a well-formed arena a fuel of `|nodes|` meets the requirement of `FormatNodeText`. */
  lemma WellFormedFormats(nodes: seq<TreeNode>, id: NodeId)
    requires WellFormed(nodes)
    ensures Finite(nodes, id, |nodes|) && AllFinite(nodes, Children(nodes, id), |nodes|)
  {
    WellFormedFinite(nodes, id);
    var cs := Children(nodes, id);
    forall k | 0 <= k < |cs|
      ensures Finite(nodes, cs[k], |nodes|)
    {
      WellFormedFinite(nodes, cs[k]);
    }
    AllFiniteFrom(nodes, cs, |nodes|);
  }

  // ----- what the formatted text promises -----

  /** No `pre` element in the descent from `id`: every text is normalised. */
  predicate PreFree(nodes: seq<TreeNode>, id: NodeId, fuel: nat)
    decreases fuel, 0
  {
    id >= |nodes| || !nodes[id].data.ElementData?
    || (!IsPre(nodes[id].data.element.name) && (fuel == 0 || ForestPreFree(nodes, Children(nodes, id), fuel - 1)))
  }

  predicate ForestPreFree(nodes: seq<TreeNode>, ids: seq<NodeId>, fuel: nat)
    decreases fuel, |ids|
  {
    ids == [] || (PreFree(nodes, ids[0], fuel) && ForestPreFree(nodes, ids[1..], fuel))
  }

  /** Formatting a subtree without `pre` keeps the text tidy. */
  lemma {:induction false} FormatUnderTidy(nodes: seq<TreeNode>, text: string, id: NodeId, fuel: nat)
    requires Tidy(text) && PreFree(nodes, id, fuel)
    ensures Tidy(FormatUnder(Formatted, nodes, text, id, fuel))
    decreases fuel, 0
  {
    if id < |nodes| {
      match nodes[id].data
      case Text(contents) =>
        FormattedStepsTidy(text, contents, QualName(None, "", ""));
      case ElementData(e) =>
        var started := OpenStep(Formatted, text, e.name);
        FormattedStepsTidy(text, "", e.name);
        var inner := if fuel > 0 then FormatForest(Formatted, nodes, started, Children(nodes, id), fuel - 1) else started;
        if fuel > 0 {
          FormatForestTidy(nodes, started, Children(nodes, id), fuel - 1);
        }
        FormattedStepsTidy(inner, "", e.name);
      case _ =>
    }
  }

  lemma {:induction false} FormatForestTidy(nodes: seq<TreeNode>, text: string, ids: seq<NodeId>, fuel: nat)
    requires Tidy(text) && ForestPreFree(nodes, ids, fuel)
    ensures Tidy(FormatForest(Formatted, nodes, text, ids, fuel))
    decreases fuel, |ids|
  {
    if ids != [] {
      FormatUnderTidy(nodes, text, ids[0], fuel);
      FormatForestTidy(nodes, FormatUnder(Formatted, nodes, text, ids[0], fuel), ids[1..], fuel);
    }
  }

  /** A prefix of a tidy text is tidy. */
  lemma PrefixTidy(s: string, n: nat)
    requires Tidy(s) && n <= |s|
    ensures Tidy(s[..n])
  {
    var p := s[..n];
    forall i | 0 < i < |p|
      ensures !(p[i - 1] == ' ' && p[i] == ' ')
    {
      assert p[i - 1] == s[i - 1] && p[i] == s[i];
    }
    if p != [] {
      assert p[0] == s[0];
    }
  }

  /**
   * The promise of `formatted_text` (src/node/node_ref.rs): without `pre`,
   * the newer `format_text` never puts two spaces side by side nor starts
   * with whitespace, and without `include_node` it does not end with any.
   */
  lemma FormattedTextTidy(nodes: seq<TreeNode>, id: NodeId, includeNode: bool, fuel: nat)
    requires if includeNode then PreFree(nodes, id, fuel) else ForestPreFree(nodes, Children(nodes, id), fuel)
    ensures Tidy(FormatResult(Formatted, nodes, id, includeNode, fuel))
    ensures !includeNode ==> !EndsWithSpace(FormatResult(Formatted, nodes, id, includeNode, fuel))
  {
    if includeNode {
      FormatUnderTidy(nodes, "", id, fuel);
    } else {
      var s := FormatForest(Formatted, nodes, "", Children(nodes, id), fuel);
      FormatForestTidy(nodes, "", Children(nodes, id), fuel);
      PrefixTidy(s, |TrimEnd(s)|);
    }
  }

  /**
   * The older `format_text` of serializing.rs on an element whose children
   * are the text nodes "a " and " b" returns "a  b": two spaces between words.
   */
  lemma PlainDoubleSpaced(nodes: seq<TreeNode>, id: NodeId, x: NodeId, y: NodeId, fuel: nat)
    requires x < |nodes| && y < |nodes| && Children(nodes, id) == [x, y]
    requires nodes[x].data == Text("a ") && nodes[y].data == Text(" b")
    ensures FormatResult(Plain, nodes, id, false, fuel) == "a  b"
    ensures !SingleSpaced(FormatResult(Plain, nodes, id, false, fuel))
  {
    PlainDoubleSpace();
    var t := TextStep(Plain, TextStep(Plain, "", "a "), " b");
    ForestOfTwo(Plain, nodes, "", x, y, fuel);
    OpenText(Plain, nodes, "", x, fuel);
    OpenText(Plain, nodes, TextStep(Plain, "", "a "), y, fuel);
    assert TrimEnd(t) == t;
  }

  /** Two nodes are opened one after the other. */
  lemma ForestOfTwo(style: Style, nodes: seq<TreeNode>, text: string, x: NodeId, y: NodeId, fuel: nat)
    ensures FormatForest(style, nodes, text, [x, y], fuel)
         == FormatUnder(style, nodes, FormatUnder(style, nodes, text, x, fuel), y, fuel)
  {
    var t1 := FormatUnder(style, nodes, text, x, fuel);
    var t2 := FormatUnder(style, nodes, t1, y, fuel);
    assert [x, y][1..] == [y] && [y][1..] == [];
    assert FormatForest(style, nodes, text, [x, y], fuel) == FormatForest(style, nodes, t1, [y], fuel);
    assert FormatForest(style, nodes, t1, [y], fuel) == FormatForest(style, nodes, t2, [], fuel);
  }

  /** Opening a text node is the text step. */
  lemma OpenText(style: Style, nodes: seq<TreeNode>, text: string, x: NodeId, fuel: nat)
    requires x < |nodes| && nodes[x].data.Text?
    ensures FormatUnder(style, nodes, text, x, fuel) == TextStep(style, text, nodes[x].data.contents)
  {
  }

  /** The newer `format_text` on the same children returns "a b". */
  lemma FormattedSingleSpaced(nodes: seq<TreeNode>, id: NodeId, x: NodeId, y: NodeId, fuel: nat)
    requires x < |nodes| && y < |nodes| && Children(nodes, id) == [x, y]
    requires nodes[x].data == Text("a ") && nodes[y].data == Text(" b")
    ensures SingleSpaced(FormatResult(Formatted, nodes, id, false, fuel))
  {
    assert [x, y][1..] == [y] && [y][1..] == [];
    assert PreFree(nodes, x, fuel) && PreFree(nodes, y, fuel);
    assert ForestPreFree(nodes, [], fuel);
    assert ForestPreFree(nodes, [y], fuel);
    assert ForestPreFree(nodes, Children(nodes, id), fuel);
    FormattedTextTidy(nodes, id, false, fuel);
  }

  /**
   * In serializing.rs an empty paragraph before the first word leaves the
   * text starting with a paragraph break, although `formatted_text`
   * promises no leading whitespace.
   */
  lemma PlainLeadingBreak(nodes: seq<TreeNode>, id: NodeId, p: NodeId, x: NodeId, fuel: nat)
    requires p < |nodes| && x < |nodes| && Children(nodes, id) == [p, x]
    requires nodes[p].data.ElementData? && nodes[p].data.element.name.local == "p" && Children(nodes, p) == []
    requires nodes[x].data == Text("b")
    ensures FormatResult(Plain, nodes, id, false, fuel) == "\n\nb"
    ensures StartsWithSpace(FormatResult(Plain, nodes, id, false, fuel))
  {
    PlainEmptyParagraph(nodes, p, fuel);
    ForestOfTwo(Plain, nodes, "", p, x, fuel);
    OpenText(Plain, nodes, "\n\n", x, fuel);
    PlainWordAfterBreak();
    assert TrimEnd("\n\nb") == "\n\nb";
  }

  lemma PlainEmptyParagraph(nodes: seq<TreeNode>, p: NodeId, fuel: nat)
    requires p < |nodes| && nodes[p].data.ElementData? && nodes[p].data.element.name.local == "p" && Children(nodes, p) == []
    ensures FormatUnder(Plain, nodes, "", p, fuel) == "\n\n"
  {
    var name := nodes[p].data.element.name;
    assert ElemRequireLinebreak(name);
    assert !EndsWith("", "\n\n");
    assert FormatUnder(Plain, nodes, "", p, fuel) == PlainClose("", name);
  }

  lemma PlainWordAfterBreak()
    ensures TextStep(Plain, "\n\n", "b") == "\n\nb"
  {
    PieceOfWord();
  }

  lemma PieceOfWord()
    ensures NormalizedPiece("b", true) == "b"
  {
    assert !IsWhitespace('b');
    SeparatorFree("b", IsWhitespace);
    VerbatimWords(["b"]);
  }

  /** The newer `format_text` never starts with whitespace, whatever comes first, on a subtree without `pre`. */
  lemma FormattedNoLeadingWhitespace(nodes: seq<TreeNode>, id: NodeId, includeNode: bool, fuel: nat)
    requires if includeNode then PreFree(nodes, id, fuel) else ForestPreFree(nodes, Children(nodes, id), fuel)
    ensures !StartsWithSpace(FormatResult(Formatted, nodes, id, includeNode, fuel))
  {
    FormattedTextTidy(nodes, id, includeNode, fuel);
  }
}
