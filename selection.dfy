/**
 * `Selection` of src/selection.rs: an ordered list of node references into
 * one shared tree.  Filtering, union and the positional accessors are pure
 * list functions; the traversals build a list of ids that skips repeats;
 * selecting walks the matching descendants of the selected nodes.  The
 * matcher is an uninterpreted test on node ids, and a selector string that
 * does not parse is an absent matcher.
 */
module Selections {
  import opened Wrappers
  import opened Arena
  import opened Chains
  import opened Invariant
  import opened Seqs
  import opened NodeRefs
  import opened MatchIters

  /** The identity of the `Tree` a reference borrows; `ensure_same_tree` compares these. */
  type TreeRef = nat

  /** `NodeRef`: a node id and the tree it lives in. */
  datatype NodeRef = NodeRef(id: NodeId, tree: TreeRef)

  datatype Selection = Selection(nodes: seq<NodeRef>)

  /** The one way `add_selection` fails: its two selections borrow different trees. */
  datatype SelectionError = DifferentTrees

  function Ids(rs: seq<NodeRef>): (r: seq<NodeId>)
    ensures |r| == |rs| && forall k :: 0 <= k < |rs| ==> r[k] == rs[k].id
  {
    seq(|rs|, k requires 0 <= k < |rs| => rs[k].id)
  }

  /** The references to `ids` in tree `t`. */
  function Tag(ids: seq<NodeId>, t: TreeRef): (r: seq<NodeRef>)
    ensures |r| == |ids| && forall k :: 0 <= k < |ids| ==> r[k] == NodeRef(ids[k], t)
  {
    seq(|ids|, k requires 0 <= k < |ids| => NodeRef(ids[k], t))
  }

  lemma IdsTag(ids: seq<NodeId>, t: TreeRef)
    ensures Ids(Tag(ids, t)) == ids
  {
  }

  /** The entries of `rs` whose id satisfies `p`, in order. */
  function Keep(rs: seq<NodeRef>, p: NodeId -> bool): (r: seq<NodeRef>)
    ensures IsSubseq(r, rs)
    ensures forall x :: x in r <==> x in rs && p(x.id)
    decreases |rs|
  {
    if rs == [] then []
    else
      var rest := Keep(rs[1..], p);
      assert rs == [rs[0]] + rs[1..];
      if p(rs[0].id) then
        SubseqCons(rs[0], rest, rs[1..]);
        [rs[0]] + rest
      else
        SubseqSkip(rs[0], rest, rs[1..]);
        rest
  }

  /** Keeping from a longer list keeps from the prefix first. */
  lemma {:induction false} KeepSnoc(rs: seq<NodeRef>, x: NodeRef, p: NodeId -> bool)
    ensures Keep(rs + [x], p) == Keep(rs, p) + (if p(x.id) then [x] else [])
    decreases |rs|
  {
    if rs == [] {
      assert [x][1..] == [];
    } else {
      assert (rs + [x])[0] == rs[0] && (rs + [x])[1..] == rs[1..] + [x];
      KeepSnoc(rs[1..], x, p);
    }
  }

  /** An id is among the ids of `rs` exactly when some entry carries it. */
  lemma InIds(rs: seq<NodeRef>, y: NodeId)
    ensures y in Ids(rs) <==> exists x :: x in rs && x.id == y
  {
    if y in Ids(rs) {
      var k :| 0 <= k < |rs| && Ids(rs)[k] == y;
      assert rs[k] in rs;
    }
    if exists x :: x in rs && x.id == y {
      var x :| x in rs && x.id == y;
      var k :| 0 <= k < |rs| && rs[k] == x;
      assert Ids(rs)[k] == y;
    }
  }

  lemma IdsCat(a: seq<NodeRef>, b: seq<NodeRef>)
    ensures Ids(a + b) == Ids(a) + Ids(b)
  {
  }

  /** The ids kept are the ids that satisfy `p`. */
  lemma IdsKeep(rs: seq<NodeRef>, p: NodeId -> bool, y: NodeId)
    ensures y in Ids(Keep(rs, p)) <==> y in Ids(rs) && p(y)
  {
    InIds(rs, y);
    InIds(Keep(rs, p), y);
  }

  /** Dropping entries drops ids. */
  lemma {:induction false} IdsSubseq(a: seq<NodeRef>, b: seq<NodeRef>)
    requires IsSubseq(a, b)
    ensures IsSubseq(Ids(a), Ids(b))
    decreases |b|
  {
    if a != [] {
      assert Ids(a)[1..] == Ids(a[1..]) && Ids(b)[1..] == Ids(b[1..]);
      if a[0] == b[0] {
        IdsSubseq(a[1..], b[1..]);
      } else {
        IdsSubseq(a, b[1..]);
        if Ids(a)[0] == Ids(b)[0] {
          SubseqDropHead(Ids(a), Ids(b[1..]));
        }
      }
    }
  }

  /** Keeping from a list whose ids are distinct gives a list whose ids are distinct. */
  lemma KeepNoDupIds(rs: seq<NodeRef>, p: NodeId -> bool)
    requires NoDups(Ids(rs))
    ensures NoDups(Ids(Keep(rs, p)))
  {
    IdsSubseq(Keep(rs, p), rs);
    SubseqNoDups(Ids(Keep(rs, p)), Ids(rs));
  }

  /** When nothing satisfies `p`, nothing is kept. */
  lemma KeepNone(rs: seq<NodeRef>, p: NodeId -> bool)
    requires forall k :: 0 <= k < |rs| ==> !p(rs[k].id)
    ensures Keep(rs, p) == []
  {
    FirstIn(Keep(rs, p));
  }

  // ----- matching -----

  /** `is_matcher`: the selection is not empty and one of its nodes satisfies the matcher. */
  predicate IsMatcher(s: Selection, m: NodeId -> bool)
  {
    |s.nodes| > 0 && exists k :: 0 <= k < |s.nodes| && m(s.nodes[k].id)
  }

  /** `is`: `None` stands for a selector that does not parse. */
  predicate Is(s: Selection, parsed: Option<NodeId -> bool>)
  {
    parsed.Some? && IsMatcher(s, parsed.value)
  }

  /** `is_selection`: both are non-empty and an id of `s` is an id of `o`. */
  predicate IsSelection(s: Selection, o: Selection)
  {
    s.nodes != [] && o.nodes != [] && exists k :: 0 <= k < |s.nodes| && s.nodes[k].id in Ids(o.nodes)
  }

  /** `filter_matcher`: the nodes that satisfy the matcher, in order; an empty selection is returned as it is. */
  function FilterMatcher(s: Selection, m: NodeId -> bool): (r: Selection)
    ensures IsSubseq(r.nodes, s.nodes)
    ensures forall x :: x in r.nodes <==> x in s.nodes && m(x.id)
  {
    if s.nodes == [] then s else Selection(Keep(s.nodes, m))
  }

  /** `filter_selection`: the nodes whose id is an id of `o`, or `s` itself when either side is empty. */
  function FilterSelection(s: Selection, o: Selection): (r: Selection)
    ensures s.nodes == [] || o.nodes == [] ==> r == s
    ensures IsSubseq(r.nodes, s.nodes)
    ensures o.nodes != [] ==> forall x :: x in r.nodes <==> x in s.nodes && x.id in Ids(o.nodes)
  {
    if s.nodes == [] || o.nodes == [] then
      SubseqRefl(s.nodes);
      s
    else Selection(Keep(s.nodes, id => id in Ids(o.nodes)))
  }

  /** A selection matches exactly when filtering it by the matcher leaves something. */
  lemma IsMatcherFilter(s: Selection, m: NodeId -> bool)
    ensures IsMatcher(s, m) <==> FilterMatcher(s, m).nodes != []
  {
    var r := FilterMatcher(s, m);
    if IsMatcher(s, m) {
      var k :| 0 <= k < |s.nodes| && m(s.nodes[k].id);
      assert s.nodes[k] in r.nodes;
    }
    if r.nodes != [] {
      assert r.nodes[0] in r.nodes;
      var k :| 0 <= k < |s.nodes| && s.nodes[k] == r.nodes[0];
    }
  }

  /** Two non-empty selections share an id exactly when filtering one by the other leaves something. */
  lemma IsSelectionFilter(s: Selection, o: Selection)
    requires s.nodes != [] && o.nodes != []
    ensures IsSelection(s, o) <==> FilterSelection(s, o).nodes != []
  {
    var r := FilterSelection(s, o);
    if IsSelection(s, o) {
      var k :| 0 <= k < |s.nodes| && s.nodes[k].id in Ids(o.nodes);
      assert s.nodes[k] in r.nodes;
    }
    if r.nodes != [] {
      assert r.nodes[0] in r.nodes;
      var k :| 0 <= k < |s.nodes| && s.nodes[k] == r.nodes[0];
    }
  }

  /** Sharing an id does not depend on which selection asks. */
  lemma IsSelectionSymmetric(s: Selection, o: Selection)
    ensures IsSelection(s, o) == IsSelection(o, s)
  {
    if IsSelection(s, o) {
      var k :| 0 <= k < |s.nodes| && s.nodes[k].id in Ids(o.nodes);
      var j :| 0 <= j < |o.nodes| && Ids(o.nodes)[j] == s.nodes[k].id;
      assert Ids(s.nodes)[k] == o.nodes[j].id;
    }
    if IsSelection(o, s) {
      var k :| 0 <= k < |o.nodes| && o.nodes[k].id in Ids(s.nodes);
      var j :| 0 <= j < |s.nodes| && Ids(s.nodes)[j] == o.nodes[k].id;
      assert Ids(o.nodes)[k] == s.nodes[j].id;
    }
  }

  // ----- union -----

  /** `merge_nodes`: the nodes of `s`, then those of `other` whose id is not an id of `s`, in `other`'s order. */
  function MergeNodes(s: Selection, other: seq<NodeRef>): (r: seq<NodeRef>)
    ensures |r| >= |s.nodes| && r[..|s.nodes|] == s.nodes
    ensures IsSubseq(r[|s.nodes|..], other)
    ensures forall x :: x in r[|s.nodes|..] <==> x in other && x.id !in Ids(s.nodes)
  {
    var added := Keep(other, id => id !in Ids(s.nodes));
    assert (s.nodes + added)[|s.nodes|..] == added;
    s.nodes + added
  }

  /** The ids of a union are the ids of either side. */
  lemma MergeIds(s: Selection, other: seq<NodeRef>, y: NodeId)
    ensures y in Ids(MergeNodes(s, other)) <==> y in Ids(s.nodes) || y in Ids(other)
  {
    var p := id => id !in Ids(s.nodes);
    IdsCat(s.nodes, Keep(other, p));
    IdsKeep(other, p, y);
  }

  /** Two lists without repeated ids merge into one without repeated ids. */
  lemma MergeNoDups(s: Selection, other: seq<NodeRef>)
    requires NoDups(Ids(s.nodes)) && NoDups(Ids(other))
    ensures NoDups(Ids(MergeNodes(s, other)))
  {
    var added := Keep(other, id => id !in Ids(s.nodes));
    KeepNoDupIds(other, id => id !in Ids(s.nodes));
    var r := s.nodes + added;
    var n := |s.nodes|;
    forall i, j | 0 <= i < j < |r|
      ensures r[i].id != r[j].id
    {
      if j < n {
        assert Ids(s.nodes)[i] == r[i].id && Ids(s.nodes)[j] == r[j].id;
      } else if i < n {
        assert r[j] == added[j - n] && r[j] in added;
        assert Ids(s.nodes)[i] == r[i].id;
      } else {
        assert Ids(added)[i - n] == r[i].id && Ids(added)[j - n] == r[j].id;
      }
    }
  }

  /** Merging a selection with its own nodes adds nothing. */
  lemma MergeSelf(s: Selection)
    ensures MergeNodes(s, s.nodes) == s.nodes
  {
    KeepNone(s.nodes, id => id !in Ids(s.nodes));
    assert s.nodes + [] == s.nodes;
  }

  /** `ensure_same_tree`: both selections are non-empty and their first nodes borrow the same tree. */
  predicate EnsureSameTree(s: Selection, o: Selection)
  {
    s.nodes != [] && o.nodes != [] && s.nodes[0].tree == o.nodes[0].tree
  }

  /**
   * `add_selection`: `o` when `s` is empty, `s` when `o` is empty, the
   * panic of `ensure_same_tree` when their trees differ, and otherwise the
   * merge of the two.
   */
  function AddSelection(s: Selection, o: Selection): (r: Result<Selection, SelectionError>)
    ensures s.nodes == [] ==> r == Ok(o)
    ensures s.nodes != [] && o.nodes == [] ==> r == Ok(s)
    ensures r.Err? <==> s.nodes != [] && o.nodes != [] && !EnsureSameTree(s, o)
    ensures r.Ok? ==> |r.value.nodes| >= |s.nodes| && r.value.nodes[..|s.nodes|] == s.nodes
    ensures r.Ok? ==> forall y :: y in Ids(r.value.nodes) <==> y in Ids(s.nodes) || y in Ids(o.nodes)
  {
    if s.nodes == [] then Ok(o)
    else if o.nodes == [] then
      assert s.nodes[..|s.nodes|] == s.nodes;
      Ok(s)
    else if !EnsureSameTree(s, o) then Err(DifferentTrees)
    else
      var merged := MergeNodes(s, o.nodes);
      assert forall y :: y in Ids(merged) <==> y in Ids(s.nodes) || y in Ids(o.nodes) by {
        forall y
          ensures y in Ids(merged) <==> y in Ids(s.nodes) || y in Ids(o.nodes)
        {
          MergeIds(s, o.nodes, y);
        }
      }
      Ok(Selection(merged))
  }

  // ----- positions -----

  /** `first`: the first node alone, or nothing. */
  function First(s: Selection): (r: Selection)
    ensures |r.nodes| <= 1 && (r.nodes == [] <==> s.nodes == [])
    ensures r.nodes != [] ==> r.nodes[0] == s.nodes[0]
  {
    if |s.nodes| > 0 then Selection([s.nodes[0]]) else Selection([])
  }

  /** `last`: the last node alone, or nothing. */
  function Last(s: Selection): (r: Selection)
    ensures |r.nodes| <= 1 && (r.nodes == [] <==> s.nodes == [])
    ensures r.nodes != [] ==> r.nodes[0] == s.nodes[|s.nodes| - 1]
  {
    if |s.nodes| > 0 then Selection([s.nodes[|s.nodes| - 1]]) else Selection([])
  }

  /** `get`: the node at `index`, when there is one. */
  function GetNode(s: Selection, index: nat): (r: Option<NodeRef>)
    ensures r.Some? <==> index < |s.nodes|
    ensures r.Some? ==> r.value == s.nodes[index]
  {
    if index < |s.nodes| then Some(s.nodes[index]) else None
  }

  // ----- traversal -----

  /** The `Some` results of `f` over `rs`, in order. */
  function Derived(rs: seq<NodeRef>, f: NodeRef -> Option<NodeId>): seq<NodeId>
    decreases |rs|
  {
    if rs == [] then []
    else
      var before := Derived(rs[..|rs| - 1], f);
      match f(rs[|rs| - 1])
      case Some(x) => before + [x]
      case None => before
  }

  /** An id is derived exactly when `f` gives it for some node. */
  lemma {:induction false} DerivedMembers(rs: seq<NodeRef>, f: NodeRef -> Option<NodeId>, y: NodeId)
    ensures y in Derived(rs, f) <==> exists k :: 0 <= k < |rs| && f(rs[k]) == Some(y)
    decreases |rs|
  {
    if rs != [] {
      var front := rs[..|rs| - 1];
      DerivedMembers(front, f, y);
      if exists k :: 0 <= k < |rs| && f(rs[k]) == Some(y) {
        var k :| 0 <= k < |rs| && f(rs[k]) == Some(y);
        if k < |front| {
          assert front[k] == rs[k];
        }
      }
      if exists k :: 0 <= k < |front| && f(front[k]) == Some(y) {
        var k :| 0 <= k < |front| && f(front[k]) == Some(y);
        assert rs[k] == front[k];
      }
    }
  }

  /**
   * What a derived selection holds: no id twice, exactly the ids `f` gives
   * for some node, in the order of their first derivation.
   */
  lemma DeriveFacts(rs: seq<NodeRef>, f: NodeRef -> Option<NodeId>)
    ensures NoDups(Dedup(Derived(rs, f)))
    ensures IsSubseq(Dedup(Derived(rs, f)), Derived(rs, f))
    ensures forall y :: y in Dedup(Derived(rs, f)) <==> exists k :: 0 <= k < |rs| && f(rs[k]) == Some(y)
  {
    DedupNoDups(Derived(rs, f));
    DedupSubseq(Derived(rs, f));
    DedupMembers(Derived(rs, f));
    forall y
      ensures y in Dedup(Derived(rs, f)) <==> exists k :: 0 <= k < |rs| && f(rs[k]) == Some(y)
    {
      DerivedMembers(rs, f, y);
    }
  }

  /**
   * `derive_selection`: the id `f` gives for each node, skipping ids
   * already collected, all in the tree of the first node.
   */
  method DeriveSelection(s: Selection, f: NodeRef -> Option<NodeId>) returns (r: Selection)
    ensures s.nodes == [] ==> r.nodes == []
    ensures s.nodes != [] ==> r.nodes == Tag(Dedup(Derived(s.nodes, f)), s.nodes[0].tree)
  {
    if s.nodes == [] {
      return Selection([]);
    }
    var collected: seq<NodeId> := [];
    for i := 0 to |s.nodes|
      invariant collected == Dedup(Derived(s.nodes[..i], f))
    {
      assert s.nodes[..i + 1][..i] == s.nodes[..i];
      match f(s.nodes[i]) {
        case Some(d) =>
          DedupStep(Derived(s.nodes[..i], f), d);
          if d !in collected {
            collected := collected + [d];
          }
        case None =>
      }
    }
    assert s.nodes[..|s.nodes|] == s.nodes;
    r := Selection(Tag(collected, s.nodes[0].tree));
  }

  /** The parent of a node in the arena, or `None` for an id outside it. */
  function ParentOf(nodes: seq<TreeNode>, id: NodeId): Option<NodeId>
  {
    if id < |nodes| then nodes[id].parent else None
  }

  /**
   * `next_element_sibling_of`, which is not part of this model, taken as
   * the first element along the next-sibling chain.
   */
  function NextElementSibling(nodes: seq<TreeNode>, id: NodeId): (r: Option<NodeId>)
    ensures r.Some? ==> IsElem(nodes, r.value)
  {
    if id < |nodes| then
      var e := Elems(nodes, Walk(nodes, nodes[id].nextSibling, Next, |nodes|));
      FirstIn(e);
      Head(e)
    else None
  }

  /** `prev_element_sibling_of`, likewise along the previous-sibling chain. */
  function PrevElementSibling(nodes: seq<TreeNode>, id: NodeId): (r: Option<NodeId>)
    ensures r.Some? ==> IsElem(nodes, r.value)
  {
    if id < |nodes| then
      var e := Elems(nodes, Walk(nodes, nodes[id].prevSibling, Prev, |nodes|));
      FirstIn(e);
      Head(e)
    else None
  }

  function ParentStep(nodes: seq<TreeNode>): NodeRef -> Option<NodeId>
  {
    (r: NodeRef) => ParentOf(nodes, r.id)
  }

  function NextStep(nodes: seq<TreeNode>): NodeRef -> Option<NodeId>
  {
    (r: NodeRef) => NextElementSibling(nodes, r.id)
  }

  function PrevStep(nodes: seq<TreeNode>): NodeRef -> Option<NodeId>
  {
    (r: NodeRef) => PrevElementSibling(nodes, r.id)
  }

  /** `parent`: the parents of the nodes, each once, in order of first appearance. */
  method Parents(nodes: seq<TreeNode>, s: Selection) returns (r: Selection)
    ensures s.nodes == [] ==> r.nodes == []
    ensures s.nodes != [] ==> r.nodes == Tag(Dedup(Derived(s.nodes, ParentStep(nodes))), s.nodes[0].tree)
  {
    r := DeriveSelection(s, ParentStep(nodes));
  }

  /** `next_sibling`: the next element siblings of the nodes, each once. */
  method NextSiblings(nodes: seq<TreeNode>, s: Selection) returns (r: Selection)
    ensures s.nodes == [] ==> r.nodes == []
    ensures s.nodes != [] ==> r.nodes == Tag(Dedup(Derived(s.nodes, NextStep(nodes))), s.nodes[0].tree)
  {
    r := DeriveSelection(s, NextStep(nodes));
  }

  /** `prev_sibling`: the previous element siblings of the nodes, each once. */
  method PrevSiblings(nodes: seq<TreeNode>, s: Selection) returns (r: Selection)
    ensures s.nodes == [] ==> r.nodes == []
    ensures s.nodes != [] ==> r.nodes == Tag(Dedup(Derived(s.nodes, PrevStep(nodes))), s.nodes[0].tree)
  {
    r := DeriveSelection(s, PrevStep(nodes));
  }

  /** Only elements are sibling results. */
  lemma SiblingsAreElements(nodes: seq<TreeNode>, rs: seq<NodeRef>, y: NodeId)
    ensures y in Dedup(Derived(rs, NextStep(nodes))) ==> IsElem(nodes, y)
    ensures y in Dedup(Derived(rs, PrevStep(nodes))) ==> IsElem(nodes, y)
  {
    DeriveFacts(rs, NextStep(nodes));
    DeriveFacts(rs, PrevStep(nodes));
  }

  /** The ids `g` lists for each node, node after node. */
  function Gathered(rs: seq<NodeRef>, g: NodeId -> seq<NodeId>): seq<NodeId>
    decreases |rs|
  {
    if rs == [] then [] else Gathered(rs[..|rs| - 1], g) + g(rs[|rs| - 1].id)
  }

  lemma {:induction false} ElemsSnoc(nodes: seq<TreeNode>, xs: seq<NodeId>, x: NodeId)
    ensures Elems(nodes, xs + [x]) == Elems(nodes, xs) + (if IsElem(nodes, x) then [x] else [])
    decreases |xs|
  {
    if xs == [] {
      assert [x][1..] == [];
    } else {
      assert (xs + [x])[0] == xs[0] && (xs + [x])[1..] == xs[1..] + [x];
      ElemsSnoc(nodes, xs[1..], x);
    }
  }

  /** One more gathered id is kept exactly when it is an element not kept yet. */
  lemma GatherStep(nodes: seq<TreeNode>, xs: seq<NodeId>, x: NodeId)
    ensures Dedup(Elems(nodes, xs + [x]))
      == if IsElem(nodes, x) && x !in Dedup(Elems(nodes, xs)) then Dedup(Elems(nodes, xs)) + [x] else Dedup(Elems(nodes, xs))
  {
    ElemsSnoc(nodes, xs, x);
    if IsElem(nodes, x) {
      DedupStep(Elems(nodes, xs), x);
    } else {
      assert Elems(nodes, xs) + [] == Elems(nodes, xs);
    }
  }

  lemma GatheredStep(rs: seq<NodeRef>, i: nat, g: NodeId -> seq<NodeId>)
    requires i < |rs|
    ensures Gathered(rs[..i + 1], g) == Gathered(rs[..i], g) + g(rs[i].id)
  {
    assert rs[..i + 1][..i] == rs[..i];
  }

  /** The inner loop: each id of `cs` that is an element not collected yet is appended. */
  method AddElements(nodes: seq<TreeNode>, collected: seq<NodeId>, ghost before: seq<NodeId>, cs: seq<NodeId>)
    returns (out: seq<NodeId>)
    requires collected == Dedup(Elems(nodes, before))
    ensures out == Dedup(Elems(nodes, before + cs))
  {
    out := collected;
    ghost var seen := before;
    assert cs[..0] == [];
    for j := 0 to |cs|
      invariant seen == before + cs[..j]
      invariant out == Dedup(Elems(nodes, seen))
    {
      var c := cs[j];
      GatherStep(nodes, seen, c);
      PrefixSnoc(before, cs, j);
      if c !in out && c < |nodes| && IsElement(nodes[c]) {
        out := out + [c];
      }
      seen := seen + [c];
    }
    assert cs[..|cs|] == cs;
  }

  lemma PrefixSnoc(a: seq<NodeId>, cs: seq<NodeId>, j: nat)
    requires j < |cs|
    ensures a + cs[..j + 1] == (a + cs[..j]) + [cs[j]]
  {
    assert cs[..j + 1] == cs[..j] + [cs[j]];
  }

  /**
   * The loop `children` and `ancestors` share: for each node the ids `g`
   * lists, keeping elements not collected yet.
   */
  method CollectElements(nodes: seq<TreeNode>, s: Selection, g: NodeId -> seq<NodeId>) returns (r: Selection)
    ensures s.nodes == [] ==> r.nodes == []
    ensures s.nodes != [] ==> r.nodes == Tag(Dedup(Elems(nodes, Gathered(s.nodes, g))), s.nodes[0].tree)
  {
    if s.nodes == [] {
      return Selection([]);
    }
    var collected: seq<NodeId> := [];
    for i := 0 to |s.nodes|
      invariant collected == Dedup(Elems(nodes, Gathered(s.nodes[..i], g)))
    {
      collected := AddElements(nodes, collected, Gathered(s.nodes[..i], g), g(s.nodes[i].id));
      GatheredStep(s.nodes, i, g);
    }
    assert s.nodes[..|s.nodes|] == s.nodes;
    r := Selection(Tag(collected, s.nodes[0].tree));
  }

  /** What a collected selection holds: no id twice, and exactly the elements some node lists. */
  lemma {:induction false} GatheredMembers(rs: seq<NodeRef>, g: NodeId -> seq<NodeId>, y: NodeId)
    ensures y in Gathered(rs, g) <==> exists k :: 0 <= k < |rs| && y in g(rs[k].id)
    decreases |rs|
  {
    if rs != [] {
      var front := rs[..|rs| - 1];
      GatheredMembers(front, g, y);
      if exists k :: 0 <= k < |rs| && y in g(rs[k].id) {
        var k :| 0 <= k < |rs| && y in g(rs[k].id);
        if k < |front| {
          assert front[k] == rs[k];
        }
      }
      if exists k :: 0 <= k < |front| && y in g(front[k].id) {
        var k :| 0 <= k < |front| && y in g(front[k].id);
        assert rs[k] == front[k];
      }
    }
  }

  lemma {:induction false} ElemsMembers(nodes: seq<TreeNode>, xs: seq<NodeId>, y: NodeId)
    ensures y in Elems(nodes, xs) <==> y in xs && IsElem(nodes, y)
    decreases |xs|
  {
    if xs != [] {
      ElemsMembers(nodes, xs[1..], y);
      assert xs == [xs[0]] + xs[1..];
    }
  }

  lemma CollectFacts(nodes: seq<TreeNode>, rs: seq<NodeRef>, g: NodeId -> seq<NodeId>)
    ensures NoDups(Dedup(Elems(nodes, Gathered(rs, g))))
    ensures forall y :: (y in Dedup(Elems(nodes, Gathered(rs, g)))
      <==> IsElem(nodes, y) && exists k :: 0 <= k < |rs| && y in g(rs[k].id))
  {
    var e := Elems(nodes, Gathered(rs, g));
    DedupNoDups(e);
    DedupMembers(e);
    forall y
      ensures y in Dedup(e) <==> IsElem(nodes, y) && exists k :: 0 <= k < |rs| && y in g(rs[k].id)
    {
      ElemsMembers(nodes, Gathered(rs, g), y);
      GatheredMembers(rs, g, y);
    }
  }

  function ChildIds(nodes: seq<TreeNode>): NodeId -> seq<NodeId>
  {
    id => Children(nodes, id)
  }

  /**
   * `ancestor_nodes`, which is not part of this model, taken as the parent
   * chain nearest first, cut to `max_depth` entries when that is positive.
   */
  function AncestorIds(nodes: seq<TreeNode>, id: NodeId, maxDepth: Option<nat>): (r: seq<NodeId>)
    ensures r <= Ancestors(nodes, id)
    ensures maxDepth.Some? && 0 < maxDepth.value <= |Ancestors(nodes, id)| ==> |r| == maxDepth.value
    ensures maxDepth.None? || maxDepth == Some(0) ==> r == Ancestors(nodes, id)
  {
    var anc := Ancestors(nodes, id);
    match maxDepth
    case Some(d) => if 0 < d < |anc| then anc[..d] else anc
    case None => anc
  }

  function AncestorStep(nodes: seq<TreeNode>, maxDepth: Option<nat>): NodeId -> seq<NodeId>
  {
    id => AncestorIds(nodes, id, maxDepth)
  }

  /** `children`: the element children of the nodes, each once, in order of first appearance. */
  method ChildElements(nodes: seq<TreeNode>, s: Selection) returns (r: Selection)
    ensures s.nodes == [] ==> r.nodes == []
    ensures s.nodes != [] ==> r.nodes == Tag(Dedup(Elems(nodes, Gathered(s.nodes, ChildIds(nodes)))), s.nodes[0].tree)
  {
    r := CollectElements(nodes, s, ChildIds(nodes));
  }

  /** `ancestors`: the element ancestors of the nodes, each once, nearest first for the first node. */
  method AncestorElements(nodes: seq<TreeNode>, s: Selection, maxDepth: Option<nat>) returns (r: Selection)
    ensures s.nodes == [] ==> r.nodes == []
    ensures s.nodes != [] ==> r.nodes == Tag(Dedup(Elems(nodes, Gathered(s.nodes, AncestorStep(nodes, maxDepth)))), s.nodes[0].tree)
  {
    r := CollectElements(nodes, s, AncestorStep(nodes, maxDepth));
  }
  // ----- selecting -----

  /**
   * What `select_matcher` enumerates: the matching descendants of a lone
   * node, or else the hits of `Matches` over the roots passed in reverse.
   */
  function Enumeration(nodes: seq<TreeNode>, s: Selection, m: NodeId -> bool): seq<NodeId>
  {
    if |s.nodes| == 0 then []
    else if |s.nodes| == 1 then Hits(nodes, m, Descendants(nodes, s.nodes[0].id))
    else Hits(nodes, m, RootTours(nodes, Reverse(Ids(s.nodes))))
  }

  /** Reversing the roots makes `Matches` visit the selection's nodes in their own order. */
  lemma EnumerationForward(nodes: seq<TreeNode>, s: Selection, m: NodeId -> bool)
    requires |s.nodes| > 1
    ensures Enumeration(nodes, s, m) == Hits(nodes, m, ForwardTours(nodes, Ids(s.nodes)))
  {
    ReversedRootTours(nodes, Ids(s.nodes));
  }

  /** The first enumerated node alone, or nothing. */
  function FirstHit(nodes: seq<TreeNode>, s: Selection, m: NodeId -> bool): (r: Selection)
    ensures |r.nodes| <= 1
    ensures r.nodes == [] <==> s.nodes == [] || Enumeration(nodes, s, m) == []
    ensures r.nodes != [] ==> r.nodes[0] == NodeRef(Enumeration(nodes, s, m)[0], s.nodes[0].tree)
  {
    if s.nodes == [] then Selection([])
    else First(Selection(Tag(Enumeration(nodes, s, m), s.nodes[0].tree)))
  }

  /**
   * What `select_matcher` selects, in the tree of the first node: the
   * enumeration for a lone node, and each enumerated id once, at its first
   * occurrence, for several.
   */
  function Selected(nodes: seq<TreeNode>, s: Selection, m: NodeId -> bool): Selection
  {
    if s.nodes == [] then Selection([])
    else if |s.nodes| == 1 then Selection(Tag(Enumeration(nodes, s, m), s.nodes[0].tree))
    else Selection(Tag(Dedup(Enumeration(nodes, s, m)), s.nodes[0].tree))
  }

  /**
   * `select_matcher`: empty for an empty selection; otherwise matching
   * elements in the tree of the first node, none exactly when nothing is
   * enumerated, starting with the first enumerated one.  A lone node gives
   * its matching descendants; several give each enumerated id once, at its
   * first occurrence, whether or not their tours overlap, and all the hits
   * when they do not.
   */
  method SelectMatcher(nodes: seq<TreeNode>, s: Selection, m: NodeId -> bool) returns (r: Selection)
    requires WellFormed(nodes)
    ensures r == Selected(nodes, s, m)
    ensures s.nodes == [] ==> r.nodes == []
    ensures s.nodes != [] ==> r.nodes == Tag(Ids(r.nodes), s.nodes[0].tree)
    ensures forall y :: y in Ids(r.nodes) ==> Hit(nodes, m, y)
    ensures First(r) == FirstHit(nodes, s, m)
    ensures |s.nodes| == 1 ==> Ids(r.nodes) == Enumeration(nodes, s, m)
    ensures |s.nodes| > 1 ==> NoDups(Ids(r.nodes))
    ensures |s.nodes| > 1 ==> Ids(r.nodes) == Dedup(Enumeration(nodes, s, m))
    ensures |s.nodes| > 1 && NoDups(RootTours(nodes, Reverse(Ids(s.nodes)))) ==> Ids(r.nodes) == Enumeration(nodes, s, m)
  {
    if s.nodes == [] {
      return Selection([]);
    }
    var found: seq<NodeId>;
    if |s.nodes| == 1 {
      found := CollectDescendantMatches(nodes, s.nodes[0].id, m);
    } else {
      found := CollectMatches(nodes, Reverse(Ids(s.nodes)), m);
    }
    r := Selection(Tag(found, s.nodes[0].tree));
    IdsTag(found, s.nodes[0].tree);
  }

  /** `select_single_matcher`: the first node `select_matcher` would give, or nothing. */
  method SelectSingleMatcher(nodes: seq<TreeNode>, s: Selection, m: NodeId -> bool) returns (r: Selection)
    requires WellFormed(nodes)
    ensures r == FirstHit(nodes, s, m)
  {
    if s.nodes == [] {
      return Selection([]);
    }
    var node: Option<NodeId>;
    if |s.nodes| == 1 {
      node := FirstDescendantMatch(nodes, s.nodes[0].id, m);
    } else {
      node := FirstMatch(nodes, Reverse(Ids(s.nodes)), m);
    }
    match node {
      case Some(x) => r := Selection([NodeRef(x, s.nodes[0].tree)]);
      case None => r := Selection([]);
    }
  }

  /** Selecting a single node gives the first node of the full selection. */
  lemma SingleIsFirstOfSelect(nodes: seq<TreeNode>, s: Selection, m: NodeId -> bool, all: Selection, one: Selection)
    requires First(all) == FirstHit(nodes, s, m)
    requires one == FirstHit(nodes, s, m)
    ensures one == First(all) && |one.nodes| <= 1
    ensures one.nodes != [] ==> one.nodes[0] == all.nodes[0]
  {
  }

  /**
   * `try_select`: `None` for a selector that does not parse and for an
   * empty result, otherwise what `select_matcher` gives: matching elements
   * in the tree of the first node, a lone node's matching descendants, or
   * each hit over several roots once.
   */
  method TrySelect(nodes: seq<TreeNode>, s: Selection, parsed: Option<NodeId -> bool>) returns (r: Option<Selection>)
    requires WellFormed(nodes)
    ensures r.None? <==> parsed.None? || s.nodes == [] || Enumeration(nodes, s, parsed.value) == []
    ensures r.Some? ==> r.value.nodes != [] && First(r.value) == FirstHit(nodes, s, parsed.value)
    ensures r.Some? ==> forall y :: y in Ids(r.value.nodes) ==> Hit(nodes, parsed.value, y)
    ensures r.Some? ==> r.value == Selected(nodes, s, parsed.value)
    ensures r.Some? ==> r.value.nodes == Tag(Ids(r.value.nodes), s.nodes[0].tree)
    ensures r.Some? && |s.nodes| == 1 ==> Ids(r.value.nodes) == Enumeration(nodes, s, parsed.value)
    ensures r.Some? && |s.nodes| > 1 ==> Ids(r.value.nodes) == Dedup(Enumeration(nodes, s, parsed.value))
  {
    if parsed.None? {
      return None;
    }
    var selection := SelectMatcher(nodes, s, parsed.value);
    if selection.nodes == [] {
      r := None;
    } else {
      r := Some(selection);
    }
  }

  /**
   * `add_matcher`: nothing for an empty selection; otherwise the selection
   * followed by the matching descendants of the root that it lacks, in
   * document order.
   */
  method AddMatcher(nodes: seq<TreeNode>, s: Selection, m: NodeId -> bool) returns (r: Selection)
    ensures s.nodes == [] ==> r == s
    ensures |r.nodes| >= |s.nodes| && r.nodes[..|s.nodes|] == s.nodes
    ensures s.nodes != [] ==> r.nodes == MergeNodes(s, Tag(Hits(nodes, m, Descendants(nodes, 0)), s.nodes[0].tree))
    ensures s.nodes != [] ==> forall y :: y in Ids(r.nodes) <==> y in Ids(s.nodes) || y in Hits(nodes, m, Descendants(nodes, 0))
  {
    if s.nodes == [] {
      return s;
    }
    var found := CollectDescendantMatches(nodes, 0, m);
    var other := Tag(found, s.nodes[0].tree);
    r := Selection(MergeNodes(s, other));
    IdsTag(found, s.nodes[0].tree);
    forall y
      ensures y in Ids(r.nodes) <==> y in Ids(s.nodes) || y in found
    {
      MergeIds(s, other, y);
    }
  }
}
