/**
 * The walk of the Markdown serializer, src/serializing/md/serializer.rs:
 * `write`, an `ops` stack of open and close operations worked off from the
 * top, and the list writers `write_list`, `write_list_item` and
 * `write_list_item_blocks` it calls back into.  Opening a text node
 * appends its normalised, escaped contents; opening an element whose name
 * is in `skip_tags` adds nothing; any other element may start a blank line
 * and get its prefix, and then either goes to its element writer or pushes
 * its close operation and its children reversed.
 *
 * Lists are written here.  What the other element writers (`write_link`,
 * `write_pre`, `write_blockquote`, `write_table` and `write_code`) append
 * is the parameter `writers` of the serializer; images are `ImgMarkdown`.
 *
 * The methods are proved against `WriteResult`, the same walk as a
 * recursive fold over the child chains; `fuel` bounds the depth as in
 * `Subtree`.
 */
module MdSerializer {
  import opened Wrappers
  import opened Str
  import opened Arena
  import opened Chains
  import opened Subtree
  import opened TextNormal
  import opened MdText
  import opened MdWriter
  import Ops
  import FormatText
  import FormatSteps

  type Op = FormatText.Op

  /** `FormatOpts`. */
  datatype Opts = Opts(includeNode: bool, ignoreLinebreak: bool, skipEscape: bool, offset: nat, br: bool)

  /** `FormatOpts::new().include_node()`. */
  const IncludeOnly: Opts := Opts(true, false, false, 0, false)

  /** `opts.include_node()`. */
  function WithInclude(opts: Opts): Opts { opts.(includeNode := true) }

  /**
   * `MDSerializer`: the arena, the tag names to skip, and what the element
   * writers other than the list and image writers append to the text for
   * a node, given the options and the text so far.
   */
  datatype Serializer = Serializer(nodes: seq<TreeNode>, skip: seq<string>, writers: (Opts, NodeId, string) -> string)

  /** `MDSerializer::new`. */
  function New(nodes: seq<TreeNode>, skipTags: Option<seq<string>>, writers: (Opts, NodeId, string) -> string): (s: Serializer)
    ensures s.nodes == nodes && s.writers == writers
    ensures forall t :: t in s.skip <==> t in (if skipTags.Some? then skipTags.value else DefaultSkipTags)
  {
    Serializer(nodes, SkipTags(skipTags), writers)
  }

  /** `ListContext`: the options for the items, the line break, the indentation and the item marker. */
  datatype ListContext = ListContext(opts: Opts, linebreak: string, indent: string, prefix: string)

  /** The context `write_list` builds: items one level deeper, indented by the list's own level. */
  function ListContextFor(opts: Opts, prefix: string): ListContext
  {
    ListContext(opts.(offset := opts.offset + 1), Linebreak(opts.br), ListIndent(opts.offset), prefix)
  }

  /** The elements `write_element` hands to a writer of their own. */
  predicate Dispatched(name: QualName)
  {
    name.local in ["ul", "ol", "a", "img", "pre", "blockquote", "table", "code"]
  }

  /** An element whose name is in `skip_tags`. */
  predicate Skipped(s: Serializer, id: NodeId)
  {
    id < |s.nodes| && s.nodes[id].data.ElementData? && s.nodes[id].data.element.name.local in s.skip
  }

  /** `is_list_item` of `write_list`: an `li` element. */
  predicate IsListItem(nodes: seq<TreeNode>, id: NodeId)
  {
    id < |nodes| && nodes[id].data.ElementData? && nodes[id].data.element.name.local == "li"
  }

  /** `!node_is_list(n) && node_is_md_block(n)`: a block element that is not a list. */
  predicate IsBlockChild(nodes: seq<TreeNode>, id: NodeId)
  {
    id < |nodes| && nodes[id].data.ElementData?
    && !IsList(nodes[id].data.element.name) && IsMdBlock(nodes[id].data.element.name)
  }

  /** `has_blocks`: some child is a block element that is not a list. */
  function AnyBlock(nodes: seq<TreeNode>, cs: seq<NodeId>): (b: bool)
    ensures b <==> exists k :: 0 <= k < |cs| && IsBlockChild(nodes, cs[k])
  {
    if cs == [] then false
    else if IsBlockChild(nodes, cs[0]) then true
    else
      var b := AnyBlock(nodes, cs[1..]);
      assert forall k :: 0 < k < |cs| ==> cs[k] == cs[1..][k - 1];
      b
  }

  function Down(f: nat): nat { if f > 0 then f - 1 else 0 }

  /** The fuel handed to `write` for a node at fuel `f`: its own, or its children's without `include_node`. */
  function OpenFuel(opts: Opts, f: nat): nat { if opts.includeNode then f else Down(f) }

  // ----- the two steps of an element -----

  /** The open step of an element: a blank line before a block, then its prefix. */
  function Opened(opts: Opts, text: string, name: QualName): string
  {
    var lb := Linebreak(opts.br);
    var t := if !opts.ignoreLinebreak && IsMdBlock(name) then WithLinebreaks(text, lb) else text;
    if MdPrefix(name).Some? then t + MdPrefix(name).value else t
  }

  /**
   * The close step: the suffix; then nothing more once the text ends in a
   * blank line, a blank line after a block, and for `br`, `li` and `tr`
   * the trailing spaces replaced by two spaces and a line break.
   */
  function Closed(opts: Opts, text: string, name: QualName): string
  {
    var lb := Linebreak(opts.br);
    var t := if MdSuffix(name).Some? then text + MdSuffix(name).value else text;
    if EndsWith(t, lb + lb) then t
    else if !opts.ignoreLinebreak && IsMdBlock(name) then WithLinebreaks(t, lb)
    else if name.local in ["br", "li", "tr"] then TrimRightSpaces(t) + "  " + lb
    else t
  }

  /** `trim_end` then `trim_start`, as the end of `write` does without `include_node`. */
  function TrimBoth(t: string): string
  {
    TrimStart(TrimEnd(t))
  }

  // ----- the walk as a recursive fold -----

  /** The text after opening `id` with `text` so far, its whole subtree worked off. */
  function MdUnder(s: Serializer, opts: Opts, text: string, id: NodeId, fuel: nat): string
    decreases fuel, 1, 0
  {
    if id >= |s.nodes| then text
    else match s.nodes[id].data
      case Text(contents) => Normalized(text, contents, EscapingFor(!opts.skipEscape))
      case ElementData(e) =>
        if e.name.local in s.skip then text
        else
          var started := Opened(opts, text, e.name);
          if Dispatched(e.name) then ElementOut(s, opts, started, id, e, fuel)
          else
            var inner := if fuel > 0 then MdForest(s, opts, started, Children(s.nodes, id), fuel - 1) else started;
            Closed(opts, inner, e.name)
      case _ => text
  }

  /** The nodes `ids` opened one after the other. */
  function MdForest(s: Serializer, opts: Opts, text: string, ids: seq<NodeId>, fuel: nat): string
    decreases fuel, 2, |ids|
  {
    if ids == [] then text
    else MdForest(s, opts, MdUnder(s, opts, text, ids[0], fuel), ids[1..], fuel)
  }

  /** `write_element` on an element that has a writer: the lists, the image, or `writers`. */
  function ElementOut(s: Serializer, opts: Opts, text: string, id: NodeId, e: Element, fuel: nat): string
    decreases fuel, 0, 0
  {
    if e.name.local == "ul" || e.name.local == "ol" then
      var ctx := ListContextFor(opts, ListPrefix(e.name.local == "ol", opts.br));
      if fuel > 0 then ListItems(s, ctx, text, Children(s.nodes, id), fuel - 1) else text
    else if e.name.local == "img" then text + ImgMarkdown(e)
    else s.writers(opts, id, text)
  }

  /**
   * What `write(text, root, opts)` leaves: the root worked off with
   * `include_node`, otherwise its children one after the other and the
   * whole text trimmed at both ends.  `fuel` is that of what is opened.
   */
  function WriteResult(s: Serializer, opts: Opts, text: string, root: NodeId, fuel: nat): string
    decreases fuel, 3, 0
  {
    if opts.includeNode then MdUnder(s, opts, text, root, fuel)
    else TrimBoth(MdForest(s, opts, text, Children(s.nodes, root), fuel))
  }

  /** The loop of `write_list` over the children `kids` of the list. */
  function ListItems(s: Serializer, ctx: ListContext, text: string, kids: seq<NodeId>, fuel: nat): string
    decreases fuel, 5, |kids|
  {
    if kids == [] then text
    else ListItems(s, ctx, ListItem(s, ctx, text, kids[0], fuel), kids[1..], fuel)
  }

  /**
   * One child of a list: an `li` with block children is written block by
   * block, any other `li` as one line after the indentation and the
   * marker, and anything else on its own with `include_node`.
   */
  function ListItem(s: Serializer, ctx: ListContext, text: string, kid: NodeId, fuel: nat): string
    decreases fuel, 4, 0
  {
    var head := TrimRightSpaces(text) + ctx.indent + ctx.prefix;
    if IsListItem(s.nodes, kid) && AnyBlock(s.nodes, Children(s.nodes, kid)) then
      if fuel > 0 then BlockItems(s, ctx, head, Children(s.nodes, kid), true, fuel - 1) else head
    else if IsListItem(s.nodes, kid) then
      WriteResult(s, ctx.opts, head, kid, OpenFuel(ctx.opts, fuel)) + ctx.linebreak
    else WriteResult(s, IncludeOnly, text, kid, fuel)
  }

  /**
   * The loop of `write_list_item_blocks` over the item's children: a block
   * other than the first is indented by the marker's width and followed by
   * a blank line; any other child is written with `include_node`.
   */
  function BlockItems(s: Serializer, ctx: ListContext, text: string, cs: seq<NodeId>, first: bool, fuel: nat): string
    decreases fuel, 5, |cs|
  {
    if cs == [] then text
    else if IsBlockChild(s.nodes, cs[0]) then
      var t := if first then text else text + Repeated(" ", |ctx.prefix|);
      var w := WriteResult(s, ctx.opts, t, cs[0], OpenFuel(ctx.opts, fuel));
      BlockItems(s, ctx, w + ctx.linebreak + ctx.linebreak, cs[1..], false, fuel)
    else BlockItems(s, ctx, WriteResult(s, WithInclude(ctx.opts), text, cs[0], fuel), cs[1..], first, fuel)
  }

  // ----- the ops stack -----

  /** What working off one operation does to the text. */
  function Worked(s: Serializer, opts: Opts, text: string, op: Op, fuel: nat): string
  {
    match op
    case Open(id) => MdUnder(s, opts, text, id, fuel)
    case Close(name) => Closed(opts, text, name)
  }

  /** The text once every pending operation has been worked off, the top (last) one first. */
  ghost function StackRun(s: Serializer, opts: Opts, text: string, ops: seq<Op>, fuels: seq<nat>): string
    requires |ops| == |fuels|
    decreases |ops|
  {
    if ops == [] then text
    else
      var n := |ops| - 1;
      StackRun(s, opts, Worked(s, opts, text, ops[n], fuels[n]), ops[..n], fuels[..n])
  }

  /** The state of the loop: every pending open is finite within `bound`, and what the stack still does ends in `target`. */
  ghost predicate WriteStack(s: Serializer, opts: Opts, ops: seq<Op>, fuels: seq<nat>, bound: nat, text: string, target: string)
  {
    && |fuels| == |ops|
    && FormatText.OpensFinite(s.nodes, ops, fuels)
    && (forall k :: 0 <= k < |fuels| ==> fuels[k] <= bound)
    && StackRun(s, opts, text, ops, fuels) == target
  }

  lemma StackSnoc(s: Serializer, opts: Opts, text: string, ops: seq<Op>, fuels: seq<nat>, op: Op, g: nat)
    requires |ops| == |fuels|
    ensures StackRun(s, opts, text, ops + [op], fuels + [g]) == StackRun(s, opts, Worked(s, opts, text, op, g), ops, fuels)
  {
    assert (ops + [op])[..|ops|] == ops;
    assert (fuels + [g])[..|fuels|] == fuels;
  }

  /** Pushing the children reversed puts the first child on top: they are worked off in sibling order. */
  lemma {:induction false} PushOpens(s: Serializer, opts: Opts, text: string, ops: seq<Op>, fuels: seq<nat>,
      cs: seq<NodeId>, g: nat)
    requires |ops| == |fuels|
    ensures StackRun(s, opts, text, ops + FormatText.OpensOf(Reverse(cs)), fuels + Ops.Repeat(g, |cs|))
         == StackRun(s, opts, MdForest(s, opts, text, cs, g), ops, fuels)
    decreases |cs|
  {
    if cs == [] {
      assert ops + FormatText.OpensOf(Reverse(cs)) == ops;
      assert fuels + Ops.Repeat(g, |cs|) == fuels;
    } else {
      var rest := cs[1..];
      var rev := Reverse(rest) + [cs[0]];
      assert Reverse(cs) == rev;
      assert rev[..|rev| - 1] == Reverse(rest);
      assert FormatText.OpensOf(Reverse(cs)) == FormatText.OpensOf(Reverse(rest)) + [FormatText.Open(cs[0])];
      var o2 := ops + FormatText.OpensOf(Reverse(rest));
      var f2 := fuels + Ops.Repeat(g, |rest|);
      assert ops + FormatText.OpensOf(Reverse(cs)) == o2 + [FormatText.Open(cs[0])];
      assert fuels + Ops.Repeat(g, |cs|) == f2 + [g];
      StackSnoc(s, opts, text, o2, f2, FormatText.Open(cs[0]), g);
      PushOpens(s, opts, MdUnder(s, opts, text, cs[0], g), ops, fuels, rest, g);
    }
  }

  /** Popping the top operation works it off. */
  lemma WritePop(s: Serializer, opts: Opts, ops: seq<Op>, fuels: seq<nat>, bound: nat, text: string, target: string)
    requires WriteStack(s, opts, ops, fuels, bound, text, target) && ops != []
    ensures var n := |ops| - 1;
      && fuels[n] <= bound
      && (ops[n].Open? ==> Finite(s.nodes, ops[n].id, fuels[n]))
      && WriteStack(s, opts, ops[..n], fuels[..n], bound, Worked(s, opts, text, ops[n], fuels[n]), target)
      && FormatText.StackWeight(s.nodes, ops, fuels)
         == FormatText.OpWeight(s.nodes, ops[n], fuels[n]) + FormatText.StackWeight(s.nodes, ops[..n], fuels[..n])
  {
    var n := |ops| - 1;
    forall k | 0 <= k < n && ops[..n][k].Open?
      ensures Finite(s.nodes, ops[..n][k].id, fuels[..n][k])
    {
      assert ops[..n][k] == ops[k] && fuels[..n][k] == fuels[k];
    }
    assert ops[n].Open? ==> Finite(s.nodes, ops[n].id, fuels[n]);
  }

  /** Opening an element without a writer: the open step, its children one level down, then the close step. */
  lemma ElementUnder(s: Serializer, opts: Opts, text: string, cur: NodeId, f: nat, e: Element)
    requires cur < |s.nodes| && s.nodes[cur].data == ElementData(e) && !(e.name.local in s.skip) && !Dispatched(e.name)
    requires Finite(s.nodes, cur, f)
    ensures MdUnder(s, opts, text, cur, f)
         == Closed(opts, MdForest(s, opts, Opened(opts, text, e.name), Children(s.nodes, cur), Down(f)), e.name)
  {
    if f == 0 {
      assert Children(s.nodes, cur) == [];
    }
  }

  /** The pushed close and children weigh less than the open they replace, and their opens are finite. */
  lemma ElementWeight(nodes: seq<TreeNode>, ops: seq<Op>, fuels: seq<nat>, cur: NodeId, f: nat, name: QualName)
    requires cur < |nodes| && nodes[cur].data.ElementData? && Finite(nodes, cur, f)
    requires |ops| == |fuels| && FormatText.OpensFinite(nodes, ops, fuels)
    ensures var cs := Children(nodes, cur);
      var ops' := ops + [FormatText.Close(name)] + FormatText.OpensOf(Reverse(cs));
      var fuels' := fuels + [0] + Ops.Repeat(Down(f), |cs|);
      && FormatText.OpensFinite(nodes, ops', fuels')
      && FormatText.StackWeight(nodes, ops', fuels') < 2 * Size(nodes, cur, f) + FormatText.StackWeight(nodes, ops, fuels)
  {
    var cs := Children(nodes, cur);
    var g := Down(f);
    var close := FormatText.Close(name);
    var mid := ops + [close];
    var midFuels := fuels + [0];
    FormatText.PushOpens(FormatSteps.Plain, nodes, "", mid, midFuels, cs, g);
    FormatText.StackSnoc(FormatSteps.Plain, nodes, "", ops, fuels, close, 0);
    if f == 0 {
      assert cs == [];
    }
    assert FormatText.OpensFinite(nodes, [close], [0]);
    FormatText.OpensFiniteAppend(nodes, ops, fuels, [close], [0]);
    FormatText.OpensOfFinite(nodes, cs, g);
    FormatText.OpensFiniteAppend(nodes, mid, midFuels, FormatText.OpensOf(Reverse(cs)), Ops.Repeat(g, |cs|));
  }

  /** An element without a writer pushes its close and then its children, reversed. */
  lemma ElementPushed(s: Serializer, opts: Opts, ops: seq<Op>, fuels: seq<nat>, bound: nat, text: string, target: string,
      cur: NodeId, f: nat, e: Element)
    requires cur < |s.nodes| && s.nodes[cur].data == ElementData(e) && !(e.name.local in s.skip) && !Dispatched(e.name)
    requires Finite(s.nodes, cur, f) && f <= bound
    requires WriteStack(s, opts, ops, fuels, bound, MdUnder(s, opts, text, cur, f), target)
    ensures var cs := Children(s.nodes, cur);
      var ops' := ops + [FormatText.Close(e.name)] + FormatText.OpensOf(Reverse(cs));
      var fuels' := fuels + [0] + Ops.Repeat(Down(f), |cs|);
      && WriteStack(s, opts, ops', fuels', bound, Opened(opts, text, e.name), target)
      && FormatText.StackWeight(s.nodes, ops', fuels') < 2 * Size(s.nodes, cur, f) + FormatText.StackWeight(s.nodes, ops, fuels)
  {
    var cs := Children(s.nodes, cur);
    var g := Down(f);
    var close := FormatText.Close(e.name);
    var mid := ops + [close];
    var midFuels := fuels + [0];
    var started := Opened(opts, text, e.name);
    var ops' := mid + FormatText.OpensOf(Reverse(cs));
    var fuels' := midFuels + Ops.Repeat(g, |cs|);
    ElementUnder(s, opts, text, cur, f, e);
    PushOpens(s, opts, started, mid, midFuels, cs, g);
    StackSnoc(s, opts, MdForest(s, opts, started, cs, g), ops, fuels, close, 0);
    assert StackRun(s, opts, started, ops', fuels') == target;
    ElementWeight(s.nodes, ops, fuels, cur, f, e.name);
    assert forall k :: 0 <= k < |fuels'| ==> fuels'[k] <= bound by {
      forall k | 0 <= k < |fuels'|
        ensures fuels'[k] <= bound
      {
        if k < |fuels| {
          assert fuels'[k] == fuels[k];
        } else if k > |fuels| {
          assert fuels'[k] == g;
        }
      }
    }
  }

  /** With `include_node` the stack starts with the root's open. */
  lemma StartWithRoot(s: Serializer, opts: Opts, text: string, id: NodeId, fuel: nat)
    requires Finite(s.nodes, id, fuel)
    ensures WriteStack(s, opts, [FormatText.Open(id)], [fuel], fuel, text, MdUnder(s, opts, text, id, fuel))
  {
    StackSnoc(s, opts, text, [], [], FormatText.Open(id), fuel);
    assert [FormatText.Open(id)] == [] + [FormatText.Open(id)] && [fuel] == [] + [fuel];
  }

  /** Without it, with the root's children reversed. */
  lemma StartWithChildren(s: Serializer, opts: Opts, text: string, cs: seq<NodeId>, fuel: nat)
    requires AllFinite(s.nodes, cs, fuel)
    ensures WriteStack(s, opts, FormatText.OpensOf(Reverse(cs)), Ops.Repeat(fuel, |cs|), fuel, text, MdForest(s, opts, text, cs, fuel))
  {
    PushOpens(s, opts, text, [], [], cs, fuel);
    assert [] + FormatText.OpensOf(Reverse(cs)) == FormatText.OpensOf(Reverse(cs));
    assert [] + Ops.Repeat(fuel, |cs|) == Ops.Repeat(fuel, |cs|);
    FormatText.OpensOfFinite(s.nodes, cs, fuel);
  }

  /** The children of a finite element are finite one level down. */
  lemma ChildrenFinite(nodes: seq<TreeNode>, id: NodeId, f: nat)
    requires id < |nodes| && nodes[id].data.ElementData? && Finite(nodes, id, f)
    ensures Children(nodes, id) != [] ==> f > 0
    ensures AllFinite(nodes, Children(nodes, id), Down(f))
  {
  }

  /** What the nested `write` of a finite node needs. */
  lemma OpenFinite(nodes: seq<TreeNode>, opts: Opts, id: NodeId, f: nat)
    requires id < |nodes| && nodes[id].data.ElementData? && Finite(nodes, id, f)
    ensures if opts.includeNode then Finite(nodes, id, OpenFuel(opts, f))
            else AllFinite(nodes, Children(nodes, id), OpenFuel(opts, f))
  {
    ChildrenFinite(nodes, id, f);
  }

  // ----- the methods -----

  /**
   * `write`.  `fuel` is a depth bound under which the descent is finite;
   * without one the source loops for ever on a cyclic child chain.
   */
  method Write(s: Serializer, opts: Opts, text: string, root: NodeId, ghost fuel: nat) returns (r: string)
    requires if opts.includeNode then Finite(s.nodes, root, fuel) else AllFinite(s.nodes, Children(s.nodes, root), fuel)
    ensures r == WriteResult(s, opts, text, root, fuel)
    decreases fuel, 4
  {
    ghost var target := if opts.includeNode then MdUnder(s, opts, text, root, fuel)
                        else MdForest(s, opts, text, Children(s.nodes, root), fuel);
    var ops: seq<Op>;
    ghost var fuels: seq<nat>;
    if opts.includeNode {
      ops, fuels := [FormatText.Open(root)], [fuel];
      StartWithRoot(s, opts, text, root, fuel);
    } else {
      var cs := Children(s.nodes, root);
      ops, fuels := FormatText.OpensOf(Reverse(cs)), Ops.Repeat(fuel, |cs|);
      StartWithChildren(s, opts, text, cs, fuel);
    }
    r := text;
    while ops != []
      invariant WriteStack(s, opts, ops, fuels, fuel, r, target)
      decreases FormatText.StackWeight(s.nodes, ops, fuels)
    {
      ops, fuels, r := WorkOff(s, opts, ops, fuels, fuel, r, target);
    }
    if !opts.includeNode {
      r := FormatText.TrimTrailingWhitespace(r);
      r := TrimLeadingWhitespace(r);
    }
  }

  /** One turn of the loop of `write`: pop the top operation and work it off. */
  method WorkOff(s: Serializer, opts: Opts, ops: seq<Op>, ghost fuels: seq<nat>, ghost bound: nat, text: string, ghost target: string)
    returns (ops': seq<Op>, ghost fuels': seq<nat>, text': string)
    requires WriteStack(s, opts, ops, fuels, bound, text, target) && ops != []
    ensures WriteStack(s, opts, ops', fuels', bound, text', target)
    ensures FormatText.StackWeight(s.nodes, ops', fuels') < FormatText.StackWeight(s.nodes, ops, fuels)
    decreases bound, 3
  {
    var op := ops[|ops| - 1];
    ghost var f := fuels[|fuels| - 1];
    WritePop(s, opts, ops, fuels, bound, text, target);
    ops', fuels', text' := ops[..|ops| - 1], fuels[..|fuels| - 1], text;
    match op
    case Open(cur) =>
      if cur < |s.nodes| {
        match s.nodes[cur].data
        case Text(contents) =>
          text' := PushNormalizedText(text, contents, EscapingFor(!opts.skipEscape));
        case ElementData(e) =>
          if !(e.name.local in s.skip) {
            ops', fuels', text' := OpenElement(s, opts, ops', fuels', bound, text, target, cur, f, e);
          }
        case _ =>
      }
    case Close(name) =>
      text' := CloseStep(opts, text, name);
  }

  /** Opening an element that is not skipped: the open step, then its writer, or its close and its children. */
  method OpenElement(s: Serializer, opts: Opts, ops: seq<Op>, ghost fuels: seq<nat>, ghost bound: nat, text: string,
      ghost target: string, cur: NodeId, ghost f: nat, e: Element)
    returns (ops': seq<Op>, ghost fuels': seq<nat>, text': string)
    requires cur < |s.nodes| && s.nodes[cur].data == ElementData(e) && !(e.name.local in s.skip)
    requires Finite(s.nodes, cur, f) && f <= bound
    requires WriteStack(s, opts, ops, fuels, bound, MdUnder(s, opts, text, cur, f), target)
    ensures WriteStack(s, opts, ops', fuels', bound, text', target)
    ensures FormatText.StackWeight(s.nodes, ops', fuels') < 2 * Size(s.nodes, cur, f) + FormatText.StackWeight(s.nodes, ops, fuels)
    decreases bound, 2
  {
    var started := OpenStep(opts, text, e.name);
    if Dispatched(e.name) {
      text' := WriteElement(s, opts, started, cur, e, f);
      ops', fuels' := ops, fuels;
    } else {
      ElementPushed(s, opts, ops, fuels, bound, text, target, cur, f, e);
      var cs := Children(s.nodes, cur);
      ops' := ops + [FormatText.Close(e.name)] + FormatText.OpensOf(Reverse(cs));
      fuels' := fuels + [0] + Ops.Repeat(Down(f), |cs|);
      text' := started;
    }
  }

  /** `write_element` on an element that has a writer. */
  method WriteElement(s: Serializer, opts: Opts, text: string, id: NodeId, e: Element, ghost f: nat) returns (r: string)
    requires id < |s.nodes| && s.nodes[id].data == ElementData(e) && Dispatched(e.name) && Finite(s.nodes, id, f)
    ensures r == ElementOut(s, opts, text, id, e, f)
    decreases f, 1
  {
    if e.name.local == "ul" || e.name.local == "ol" {
      r := WriteList(s, opts, text, id, ListPrefix(e.name.local == "ol", opts.br), f);
    } else if e.name.local == "img" {
      r := text + ImgMarkdown(e);
    } else {
      r := s.writers(opts, id, text);
    }
  }

  /** `write_list`: each child of the list in turn. */
  method WriteList(s: Serializer, opts: Opts, text: string, list: NodeId, prefix: string, ghost f: nat) returns (r: string)
    requires list < |s.nodes| && s.nodes[list].data.ElementData? && Finite(s.nodes, list, f)
    ensures r == (if f > 0 then ListItems(s, ListContextFor(opts, prefix), text, Children(s.nodes, list), f - 1) else text)
    decreases f, 0
  {
    var ctx := ListContextFor(opts, prefix);
    var kids := Children(s.nodes, list);
    ChildrenFinite(s.nodes, list, f);
    r := text;
    if kids == [] {
      return;
    }
    ghost var target := ListItems(s, ctx, text, kids, f - 1);
    for i := 0 to |kids|
      invariant ListItems(s, ctx, r, kids[i..], f - 1) == target
    {
      AllFiniteAt(s.nodes, kids, f - 1, i);
      assert kids[i..][1..] == kids[i + 1..];
      r := WriteListItem(s, ctx, r, kids[i], f - 1);
    }
  }

  /** One child of a list, as `write_list` dispatches it. */
  method WriteListItem(s: Serializer, ctx: ListContext, text: string, kid: NodeId, ghost kf: nat) returns (r: string)
    requires kid < |s.nodes| && Finite(s.nodes, kid, kf)
    ensures r == ListItem(s, ctx, text, kid, kf)
    decreases kf, 5
  {
    var isListItem := s.nodes[kid].data.ElementData? && s.nodes[kid].data.element.name.local == "li";
    var hasBlocks := AnyBlock(s.nodes, Children(s.nodes, kid));
    if isListItem && hasBlocks {
      r := WriteListItemBlocks(s, ctx, text, kid, kf);
    } else if isListItem {
      r := TrimRightTendrilSpace(text);
      r := r + ctx.indent + ctx.prefix;
      OpenFinite(s.nodes, ctx.opts, kid, kf);
      r := Write(s, ctx.opts, r, kid, OpenFuel(ctx.opts, kf));
      r := r + ctx.linebreak;
    } else {
      r := Write(s, IncludeOnly, text, kid, kf);
    }
  }

  /** `write_list_item_blocks`: the marker, then each child, blocks set apart. */
  method WriteListItemBlocks(s: Serializer, ctx: ListContext, text: string, kid: NodeId, ghost kf: nat) returns (r: string)
    requires IsListItem(s.nodes, kid) && AnyBlock(s.nodes, Children(s.nodes, kid)) && Finite(s.nodes, kid, kf)
    ensures r == ListItem(s, ctx, text, kid, kf)
    decreases kf, 4
  {
    var blockIndent := Repeated(" ", |ctx.prefix|);
    r := TrimRightTendrilSpace(text);
    r := r + ctx.indent + ctx.prefix;
    var cs := Children(s.nodes, kid);
    ChildrenFinite(s.nodes, kid, kf);
    ghost var target := BlockItems(s, ctx, r, cs, true, kf - 1);
    var isFirstBlock := true;
    for i := 0 to |cs|
      invariant BlockItems(s, ctx, r, cs[i..], isFirstBlock, kf - 1) == target
    {
      AllFiniteAt(s.nodes, cs, kf - 1, i);
      assert cs[i..][1..] == cs[i + 1..];
      r, isFirstBlock := WriteItemChild(s, ctx, r, cs[i..], isFirstBlock, blockIndent, kf - 1);
    }
  }

  /** One child of an item with blocks: a block set apart, or anything else with `include_node`. */
  method WriteItemChild(s: Serializer, ctx: ListContext, text: string, cs: seq<NodeId>, first: bool,
      blockIndent: string, ghost f: nat) returns (r: string, first': bool)
    requires cs != [] && cs[0] < |s.nodes| && Finite(s.nodes, cs[0], f) && blockIndent == Repeated(" ", |ctx.prefix|)
    ensures BlockItems(s, ctx, text, cs, first, f) == BlockItems(s, ctx, r, cs[1..], first', f)
    decreases f, 5
  {
    var c := cs[0];
    first' := first;
    r := text;
    if s.nodes[c].data.ElementData? && !IsList(s.nodes[c].data.element.name) && IsMdBlock(s.nodes[c].data.element.name) {
      assert IsBlockChild(s.nodes, c);
      if !first {
        r := r + blockIndent;
      } else {
        first' := false;
      }
      OpenFinite(s.nodes, ctx.opts, c, f);
      r := Write(s, ctx.opts, r, c, OpenFuel(ctx.opts, f));
      r := r + ctx.linebreak;
      r := r + ctx.linebreak;
    } else {
      r := Write(s, WithInclude(ctx.opts), r, c, f);
    }
  }

  /** The open step of an element in `write`. */
  method OpenStep(opts: Opts, text: string, name: QualName) returns (r: string)
    ensures r == Opened(opts, text, name)
  {
    var lb := Linebreak(opts.br);
    var doubleBr := Repeated(lb, 2);
    RepeatedSmall(lb);
    r := text;
    if !opts.ignoreLinebreak && IsMdBlock(name) {
      r := AddLinebreaks(r, lb, doubleBr);
    }
    var prefix := MdPrefix(name);
    if prefix.Some? {
      r := r + prefix.value;
    }
  }

  /** The close step of an element in `write`. */
  method CloseStep(opts: Opts, text: string, name: QualName) returns (r: string)
    ensures r == Closed(opts, text, name)
  {
    var lb := Linebreak(opts.br);
    r := text;
    var suffix := MdSuffix(name);
    if suffix.Some? {
      r := r + suffix.value;
    }
    var doubleBr := Repeated(lb, 2);
    RepeatedSmall(lb);
    if EndsWith(r, doubleBr) {
      return;
    }
    if !opts.ignoreLinebreak && IsMdBlock(name) {
      r := AddLinebreaks(r, lb, doubleBr);
    } else if name.local in ["br", "li", "tr"] {
      r := TrimRightTendrilSpace(r);
      r := r + "  " + lb;
    }
  }

  /** `while starts_with(char::is_whitespace) { pop_front(1) }`. */
  method TrimLeadingWhitespace(t: string) returns (r: string)
    ensures r == TrimStart(t)
  {
    r := t;
    while r != [] && IsWhitespace(r[0])
      invariant |r| <= |t| && r == t[|t| - |r|..]
      invariant TrimStart(r) == TrimStart(t)
    {
      r := r[1..];
    }
  }

  /** `serialize`: `write` of the root with the given `include_node` and the other options off. */
  method Serialize(s: Serializer, root: NodeId, includeNode: bool, ghost fuel: nat) returns (text: string)
    requires if includeNode then Finite(s.nodes, root, fuel) else AllFinite(s.nodes, Children(s.nodes, root), fuel)
    ensures text == WriteResult(s, Opts(includeNode, false, false, 0, false), "", root, fuel)
  {
    text := Write(s, Opts(includeNode, false, false, 0, false), "", root, fuel);
  }

  // ----- the plain-text walk -----

  /** `write_text` for the subtree of `id`: text nodes normalised, elements walked into, anything else dropped. */
  function TextUnder(s: Serializer, opts: Opts, text: string, id: NodeId, fuel: nat): string
    decreases fuel, 1
  {
    if id >= |s.nodes| then text
    else if s.nodes[id].data.Text? then Normalized(text, s.nodes[id].data.contents, EscapingFor(!opts.skipEscape))
    else if s.nodes[id].data.ElementData? && fuel > 0 then TextForest(s, opts, text, Children(s.nodes, id), fuel - 1)
    else text
  }

  function TextForest(s: Serializer, opts: Opts, text: string, ids: seq<NodeId>, fuel: nat): string
    decreases fuel, 2, |ids|
  {
    if ids == [] then text
    else TextForest(s, opts, TextUnder(s, opts, text, ids[0], fuel), ids[1..], fuel)
  }

  /** What `write_text(text, root, opts)` leaves; unlike `write` it trims nothing. */
  function TextResult(s: Serializer, opts: Opts, text: string, root: NodeId, fuel: nat): string
  {
    if opts.includeNode then TextUnder(s, opts, text, root, fuel)
    else TextForest(s, opts, text, Children(s.nodes, root), fuel)
  }

  /** The text once every id on the stack of `write_text` has been worked off, the top (last) one first. */
  ghost function TextRun(s: Serializer, opts: Opts, text: string, ids: seq<NodeId>, fuels: seq<nat>): string
    requires |ids| == |fuels|
    decreases |ids|
  {
    if ids == [] then text
    else
      var n := |ids| - 1;
      TextRun(s, opts, TextUnder(s, opts, text, ids[n], fuels[n]), ids[..n], fuels[..n])
  }

  /** The number of nodes still to visit. */
  ghost function IdsWeight(nodes: seq<TreeNode>, ids: seq<NodeId>, fuels: seq<nat>): nat
    requires |ids| == |fuels|
    decreases |ids|
  {
    if ids == [] then 0
    else
      var n := |ids| - 1;
      Size(nodes, ids[n], fuels[n]) + IdsWeight(nodes, ids[..n], fuels[..n])
  }

  ghost predicate TextStack(s: Serializer, opts: Opts, ids: seq<NodeId>, fuels: seq<nat>, text: string, target: string)
  {
    && |fuels| == |ids|
    && (forall k :: 0 <= k < |ids| ==> Finite(s.nodes, ids[k], fuels[k]))
    && TextRun(s, opts, text, ids, fuels) == target
  }

  /** Pushing children reversed: they are walked in sibling order, and weigh what their subtrees hold. */
  lemma {:induction false} PushIds(s: Serializer, opts: Opts, text: string, ids: seq<NodeId>, fuels: seq<nat>,
      cs: seq<NodeId>, g: nat)
    requires |ids| == |fuels|
    ensures TextRun(s, opts, text, ids + Reverse(cs), fuels + Ops.Repeat(g, |cs|))
         == TextRun(s, opts, TextForest(s, opts, text, cs, g), ids, fuels)
    ensures IdsWeight(s.nodes, ids + Reverse(cs), fuels + Ops.Repeat(g, |cs|))
         == ForestSize(s.nodes, cs, g) + IdsWeight(s.nodes, ids, fuels)
    decreases |cs|
  {
    if cs == [] {
      assert ids + Reverse(cs) == ids;
      assert fuels + Ops.Repeat(g, |cs|) == fuels;
    } else {
      var rest := cs[1..];
      assert Reverse(cs) == Reverse(rest) + [cs[0]];
      var i2 := ids + Reverse(rest);
      var f2 := fuels + Ops.Repeat(g, |rest|);
      assert ids + Reverse(cs) == i2 + [cs[0]];
      assert fuels + Ops.Repeat(g, |cs|) == f2 + [g];
      assert (i2 + [cs[0]])[..|i2|] == i2;
      assert (f2 + [g])[..|f2|] == f2;
      PushIds(s, opts, TextUnder(s, opts, text, cs[0], g), ids, fuels, rest, g);
    }
  }

  /** The children of a finite node, pushed reversed, are finite one level down. */
  lemma PushedFinite(nodes: seq<TreeNode>, ids: seq<NodeId>, fuels: seq<nat>, cs: seq<NodeId>, g: nat)
    requires |ids| == |fuels| && (forall k :: 0 <= k < |ids| ==> Finite(nodes, ids[k], fuels[k]))
    requires AllFinite(nodes, cs, g)
    ensures var i2, f2 := ids + Reverse(cs), fuels + Ops.Repeat(g, |cs|);
      |i2| == |f2| && forall k :: 0 <= k < |i2| ==> Finite(nodes, i2[k], f2[k])
  {
    var i2, f2 := ids + Reverse(cs), fuels + Ops.Repeat(g, |cs|);
    forall k | 0 <= k < |i2|
      ensures Finite(nodes, i2[k], f2[k])
    {
      if k < |ids| {
        assert i2[k] == ids[k] && f2[k] == fuels[k];
      } else {
        var j := k - |ids|;
        assert i2[k] == cs[|cs| - 1 - j] && f2[k] == g;
        AllFiniteAt(nodes, cs, g, |cs| - 1 - j);
      }
    }
  }

  /** One turn of the loop of `write_text`. */
  lemma TextPop(s: Serializer, opts: Opts, ids: seq<NodeId>, fuels: seq<nat>, text: string, target: string)
    requires TextStack(s, opts, ids, fuels, text, target) && ids != []
    ensures var n := |ids| - 1;
      var id, f := ids[n], fuels[n];
      if id < |s.nodes| && s.nodes[id].data.ElementData? then
        var cs := Children(s.nodes, id);
        var i2, f2 := ids[..n] + Reverse(cs), fuels[..n] + Ops.Repeat(Down(f), |cs|);
        && TextStack(s, opts, i2, f2, text, target)
        && IdsWeight(s.nodes, i2, f2) < IdsWeight(s.nodes, ids, fuels)
      else
        && TextStack(s, opts, ids[..n], fuels[..n], TextUnder(s, opts, text, id, f), target)
        && IdsWeight(s.nodes, ids[..n], fuels[..n]) < IdsWeight(s.nodes, ids, fuels)
  {
    var n := |ids| - 1;
    var id, f := ids[n], fuels[n];
    assert Finite(s.nodes, id, f);
    forall k | 0 <= k < n
      ensures Finite(s.nodes, ids[..n][k], fuels[..n][k])
    {
      assert ids[..n][k] == ids[k] && fuels[..n][k] == fuels[k];
    }
    if id < |s.nodes| && s.nodes[id].data.ElementData? {
      var cs := Children(s.nodes, id);
      ChildrenFinite(s.nodes, id, f);
      PushIds(s, opts, text, ids[..n], fuels[..n], cs, Down(f));
      PushedFinite(s.nodes, ids[..n], fuels[..n], cs, Down(f));
    }
  }

  /** `write_text`: the text of a subtree, the stack worked off one id at a time. */
  method WriteText(s: Serializer, opts: Opts, text: string, root: NodeId, ghost fuel: nat) returns (r: string)
    requires if opts.includeNode then Finite(s.nodes, root, fuel) else AllFinite(s.nodes, Children(s.nodes, root), fuel)
    ensures r == TextResult(s, opts, text, root, fuel)
  {
    var ops: seq<NodeId>;
    ghost var fuels: seq<nat>;
    if opts.includeNode {
      ops, fuels := [root], [fuel];
      assert ([] + [root])[..0] == [];
    } else {
      var cs := Children(s.nodes, root);
      ops, fuels := Reverse(cs), Ops.Repeat(fuel, |cs|);
      PushIds(s, opts, text, [], [], cs, fuel);
      PushedFinite(s.nodes, [], [], cs, fuel);
      assert [] + Reverse(cs) == ops && [] + Ops.Repeat(fuel, |cs|) == fuels;
    }
    ghost var target := TextResult(s, opts, text, root, fuel);
    r := text;
    while ops != []
      invariant TextStack(s, opts, ops, fuels, r, target)
      decreases IdsWeight(s.nodes, ops, fuels)
    {
      ops, fuels, r := TextStep(s, opts, ops, fuels, r, target);
    }
  }

  /** One turn of the loop of `write_text`: a text node is appended, an element replaced by its children. */
  method TextStep(s: Serializer, opts: Opts, ops: seq<NodeId>, ghost fuels: seq<nat>, text: string, ghost target: string)
    returns (ops': seq<NodeId>, ghost fuels': seq<nat>, text': string)
    requires TextStack(s, opts, ops, fuels, text, target) && ops != []
    ensures TextStack(s, opts, ops', fuels', text', target)
    ensures IdsWeight(s.nodes, ops', fuels') < IdsWeight(s.nodes, ops, fuels)
  {
    TextPop(s, opts, ops, fuels, text, target);
    var id := ops[|ops| - 1];
    ghost var f := fuels[|fuels| - 1];
    ops', fuels', text' := ops[..|ops| - 1], fuels[..|fuels| - 1], text;
    if id < |s.nodes| && s.nodes[id].data.Text? {
      text' := PushNormalizedText(text, s.nodes[id].data.contents, EscapingFor(!opts.skipEscape));
    } else if id < |s.nodes| && s.nodes[id].data.ElementData? {
      var cs := Children(s.nodes, id);
      ops', fuels' := ops' + Reverse(cs), fuels' + Ops.Repeat(Down(f), |cs|);
    }
  }

  /** `write_text` only appends: the text before it is a prefix of the text after. */
  lemma {:induction false} TextExtends(s: Serializer, opts: Opts, text: string, id: NodeId, fuel: nat)
    ensures StartsWith(TextUnder(s, opts, text, id, fuel), text)
    decreases fuel, 1
  {
    if id < |s.nodes| && s.nodes[id].data.Text? {
      NormalizedExtends(text, s.nodes[id].data.contents, EscapingFor(!opts.skipEscape));
    } else if id < |s.nodes| && s.nodes[id].data.ElementData? && fuel > 0 {
      ForestTextExtends(s, opts, text, Children(s.nodes, id), fuel - 1);
    }
  }

  lemma {:induction false} ForestTextExtends(s: Serializer, opts: Opts, text: string, ids: seq<NodeId>, fuel: nat)
    ensures StartsWith(TextForest(s, opts, text, ids, fuel), text)
    decreases fuel, 2, |ids|
  {
    if ids != [] {
      var t := TextUnder(s, opts, text, ids[0], fuel);
      TextExtends(s, opts, text, ids[0], fuel);
      ForestTextExtends(s, opts, t, ids[1..], fuel);
      var u := TextForest(s, opts, t, ids[1..], fuel);
      assert u[..|text|] == u[..|t|][..|text|];
    }
  }

  // ----- what the walk promises -----

  /** The children `Unskipped` keeps: those that are not skipped elements. */
  function Unskipped(s: Serializer, ids: seq<NodeId>): (r: seq<NodeId>)
    ensures forall x :: x in r <==> x in ids && !Skipped(s, x)
  {
    if ids == [] then []
    else if Skipped(s, ids[0]) then Unskipped(s, ids[1..])
    else [ids[0]] + Unskipped(s, ids[1..])
  }

  /**
   * Elements named in `skip_tags` contribute nothing: a skipped node
   * leaves the text as it was, and a list of siblings is written as if
   * its skipped members were not there.
   */
  lemma {:induction false} SkippedAddNothing(s: Serializer, opts: Opts, text: string, ids: seq<NodeId>, fuel: nat)
    ensures forall x :: Skipped(s, x) ==> MdUnder(s, opts, text, x, fuel) == text
    ensures MdForest(s, opts, text, ids, fuel) == MdForest(s, opts, text, Unskipped(s, ids), fuel)
    decreases |ids|
  {
    if ids != [] {
      var t := MdUnder(s, opts, text, ids[0], fuel);
      SkippedAddNothing(s, opts, t, ids[1..], fuel);
      if Skipped(s, ids[0]) {
        SkippedAddNothing(s, opts, text, ids[1..], fuel);
      } else {
        assert ([ids[0]] + Unskipped(s, ids[1..]))[1..] == Unskipped(s, ids[1..]);
      }
    }
  }

  /**
   * So `write` without `include_node` gives what it gives for the root's
   * children with the skipped ones left out, and with `include_node` a
   * skipped root leaves the text unchanged.
   */
  lemma SkippedChildrenDropped(s: Serializer, opts: Opts, text: string, root: NodeId, fuel: nat)
    ensures !opts.includeNode ==>
      WriteResult(s, opts, text, root, fuel) == TrimBoth(MdForest(s, opts, text, Unskipped(s, Children(s.nodes, root)), fuel))
    ensures opts.includeNode && Skipped(s, root) ==> WriteResult(s, opts, text, root, fuel) == text
  {
    SkippedAddNothing(s, opts, text, Children(s.nodes, root), fuel);
  }

  /** Trimming both ends leaves no whitespace at either end. */
  lemma TrimBothEnds(t: string)
    ensures !StartsWithSpace(TrimBoth(t)) && !EndsWithSpace(TrimBoth(t))
  {
    var u := TrimEnd(t);
    var v := TrimStart(u);
    if v != [] {
      assert v[|v| - 1] == u[|u| - 1];
    }
  }

  /** With `include_node` false the text `write` leaves neither starts nor ends with whitespace. */
  lemma WriteTrimmed(s: Serializer, opts: Opts, text: string, root: NodeId, fuel: nat)
    requires !opts.includeNode
    ensures !StartsWithSpace(WriteResult(s, opts, text, root, fuel))
    ensures !EndsWithSpace(WriteResult(s, opts, text, root, fuel))
  {
    TrimBothEnds(MdForest(s, opts, text, Children(s.nodes, root), fuel));
  }

  /**
   * After the close step of a block the text ends in a blank line, and
   * after that of `br`, `li` or `tr` in a line break.
   */
  lemma ClosedEnds(opts: Opts, text: string, name: QualName)
    ensures !opts.ignoreLinebreak && IsMdBlock(name) ==> EndsWith(Closed(opts, text, name), Linebreak(opts.br) + Linebreak(opts.br))
    ensures name.local in ["br", "li", "tr"] ==> EndsWith(Closed(opts, text, name), Linebreak(opts.br))
  {
    var lb := Linebreak(opts.br);
    var t := if MdSuffix(name).Some? then text + MdSuffix(name).value else text;
    var r := Closed(opts, text, name);
    if EndsWith(t, lb + lb) {
      assert r == t;
      EndsWithLast(r, lb);
    } else if !opts.ignoreLinebreak && IsMdBlock(name) {
      assert r == WithLinebreaks(t, lb);
      LinebreaksShape(t, lb);
      EndsWithLast(r, lb);
    } else if name.local in ["br", "li", "tr"] {
      assert r == TrimRightSpaces(t) + "  " + lb;
      assert r[|r| - |lb|..] == lb;
    }
  }

  /** On a well-formed arena a fuel of `|nodes|` meets the requirement of `Serialize`, either way. */
  lemma WellFormedSerializes(s: Serializer, root: NodeId)
    requires Invariant.WellFormed(s.nodes)
    ensures Finite(s.nodes, root, |s.nodes|) && AllFinite(s.nodes, Children(s.nodes, root), |s.nodes|)
  {
    FormatText.WellFormedFormats(s.nodes, root);
  }
}
