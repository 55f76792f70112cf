/**
 * The selection traversals of src/traversal.rs, an older generation of
 * those in src/selection.rs.  Each loop keeps a `result` list of node
 * references and a `set` list of the ids already taken; every result
 * reference keeps the tree of the node it was found from.  The selecting
 * operations go through `Matches::from_one` and `Matches::from_list`,
 * which are not part of this model: what they yield for a matcher is the
 * parameter `enumerate`.
 */
module SelectionTraversal {
  import opened Wrappers
  import opened Arena
  import opened Chains
  import opened MatchIters
  import S = Selections

  // ----- what the loops compute -----

  /** The references `f` gives over `rs`, in order. */
  function DerivedRefs(rs: seq<S.NodeRef>, f: S.NodeRef -> Option<S.NodeRef>): seq<S.NodeRef>
    decreases |rs|
  {
    if rs == [] then []
    else
      var before := DerivedRefs(rs[..|rs| - 1], f);
      match f(rs[|rs| - 1])
      case Some(x) => before + [x]
      case None => before
  }

  /** The references of `xs` whose id has not appeared before them. */
  function UniqueById(xs: seq<S.NodeRef>): seq<S.NodeRef>
    decreases |xs|
  {
    if xs == [] then []
    else
      var before := UniqueById(xs[..|xs| - 1]);
      var x := xs[|xs| - 1];
      if x.id in S.Ids(before) then before else before + [x]
  }

  /** The references `g` lists for each node, node after node. */
  function GatheredRefs(rs: seq<S.NodeRef>, g: S.NodeRef -> seq<S.NodeRef>): seq<S.NodeRef>
    decreases |rs|
  {
    if rs == [] then [] else GatheredRefs(rs[..|rs| - 1], g) + g(rs[|rs| - 1])
  }

  /** The references to element nodes, in order. */
  function ElemRefs(nodes: seq<TreeNode>, xs: seq<S.NodeRef>): seq<S.NodeRef>
    decreases |xs|
  {
    if xs == [] then []
    else
      var before := ElemRefs(nodes, xs[..|xs| - 1]);
      if IsElem(nodes, xs[|xs| - 1].id) then before + [xs[|xs| - 1]] else before
  }

  lemma DerivedStep(rs: seq<S.NodeRef>, i: nat, f: S.NodeRef -> Option<S.NodeRef>)
    requires i < |rs|
    ensures DerivedRefs(rs[..i + 1], f)
      == if f(rs[i]).Some? then DerivedRefs(rs[..i], f) + [f(rs[i]).value] else DerivedRefs(rs[..i], f)
  {
    assert rs[..i + 1][..i] == rs[..i];
  }

  lemma UniqueStep(xs: seq<S.NodeRef>, x: S.NodeRef)
    ensures UniqueById(xs + [x]) == if x.id in S.Ids(UniqueById(xs)) then UniqueById(xs) else UniqueById(xs) + [x]
  {
    assert (xs + [x])[..|xs|] == xs;
  }

  lemma ElemUniqueStep(nodes: seq<TreeNode>, xs: seq<S.NodeRef>, x: S.NodeRef)
    ensures UniqueById(ElemRefs(nodes, xs + [x]))
      == if IsElem(nodes, x.id) && x.id !in S.Ids(UniqueById(ElemRefs(nodes, xs)))
         then UniqueById(ElemRefs(nodes, xs)) + [x] else UniqueById(ElemRefs(nodes, xs))
  {
    assert (xs + [x])[..|xs|] == xs;
    if IsElem(nodes, x.id) {
      UniqueStep(ElemRefs(nodes, xs), x);
    }
  }

  lemma PrefixSnoc(a: seq<S.NodeRef>, cs: seq<S.NodeRef>, j: nat)
    requires j < |cs|
    ensures a + cs[..j + 1] == (a + cs[..j]) + [cs[j]]
  {
    assert cs[..j + 1] == cs[..j] + [cs[j]];
  }

  lemma GatheredRefsStep(rs: seq<S.NodeRef>, i: nat, g: S.NodeRef -> seq<S.NodeRef>)
    requires i < |rs|
    ensures GatheredRefs(rs[..i + 1], g) == GatheredRefs(rs[..i], g) + g(rs[i])
  {
    assert rs[..i + 1][..i] == rs[..i];
  }

  // ----- the loops -----

  /**
   * The loop `parent`, `next_sibling` and `prev_sibling` share: the
   * reference `f` gives for each node, unless its id was taken already.
   */
  method DeriveUnique(s: S.Selection, f: S.NodeRef -> Option<S.NodeRef>) returns (r: S.Selection)
    ensures r.nodes == UniqueById(DerivedRefs(s.nodes, f))
  {
    var result: seq<S.NodeRef> := [];
    var taken: seq<NodeId> := [];
    for i := 0 to |s.nodes|
      invariant result == UniqueById(DerivedRefs(s.nodes[..i], f))
      invariant taken == S.Ids(result)
    {
      DerivedStep(s.nodes, i, f);
      var o := f(s.nodes[i]);
      if o.Some? {
        UniqueStep(DerivedRefs(s.nodes[..i], f), o.value);
        if o.value.id !in taken {
          S.IdsCat(result, [o.value]);
          taken := taken + [o.value.id];
          result := result + [o.value];
        }
      }
    }
    assert s.nodes[..|s.nodes|] == s.nodes;
    r := S.Selection(result);
  }

  /** The inner loop of `children`: each element child whose id was not taken yet. */
  method AddChildren(nodes: seq<TreeNode>, result: seq<S.NodeRef>, taken: seq<NodeId>, ghost before: seq<S.NodeRef>,
      cs: seq<S.NodeRef>) returns (result': seq<S.NodeRef>, taken': seq<NodeId>)
    requires result == UniqueById(ElemRefs(nodes, before)) && taken == S.Ids(result)
    ensures result' == UniqueById(ElemRefs(nodes, before + cs)) && taken' == S.Ids(result')
  {
    result', taken' := result, taken;
    ghost var seen := before;
    assert cs[..0] == [];
    for j := 0 to |cs|
      invariant seen == before + cs[..j]
      invariant result' == UniqueById(ElemRefs(nodes, seen)) && taken' == S.Ids(result')
    {
      var c := cs[j];
      ElemUniqueStep(nodes, seen, c);
      PrefixSnoc(before, cs, j);
      if c.id !in taken' && c.id < |nodes| && IsElement(nodes[c.id]) {
        S.IdsCat(result', [c]);
        taken' := taken' + [c.id];
        result' := result' + [c];
      }
      seen := seen + [c];
    }
    assert cs[..|cs|] == cs;
  }

  /** The outer loop of `children`, over the references `g` lists for each node. */
  method GatherUnique(nodes: seq<TreeNode>, s: S.Selection, g: S.NodeRef -> seq<S.NodeRef>) returns (r: S.Selection)
    ensures r.nodes == UniqueById(ElemRefs(nodes, GatheredRefs(s.nodes, g)))
  {
    var result: seq<S.NodeRef> := [];
    var taken: seq<NodeId> := [];
    for i := 0 to |s.nodes|
      invariant result == UniqueById(ElemRefs(nodes, GatheredRefs(s.nodes[..i], g)))
      invariant taken == S.Ids(result)
    {
      result, taken := AddChildren(nodes, result, taken, GatheredRefs(s.nodes[..i], g), g(s.nodes[i]));
      GatheredRefsStep(s.nodes, i, g);
    }
    assert s.nodes[..|s.nodes|] == s.nodes;
    r := S.Selection(result);
  }

  /** A result reference of `f` stays in the tree of the node it came from. */
  function Within(f: S.NodeRef -> Option<NodeId>): S.NodeRef -> Option<S.NodeRef>
  {
    (r: S.NodeRef) => match f(r) case Some(x) => Some(S.NodeRef(x, r.tree)) case None => None
  }

  /** `node.children()`, each child in the node's tree. */
  function ChildRefs(nodes: seq<TreeNode>): S.NodeRef -> seq<S.NodeRef>
  {
    (r: S.NodeRef) => S.Tag(Children(nodes, r.id), r.tree)
  }

  /** `parent`: the parents of the nodes, each once, in order of first appearance. */
  method Parents(nodes: seq<TreeNode>, s: S.Selection) returns (r: S.Selection)
    ensures r.nodes == UniqueById(DerivedRefs(s.nodes, Within(S.ParentStep(nodes))))
    ensures SameTree(s.nodes) ==> r == S.Selection(S.Tag(Dedup(S.Derived(s.nodes, S.ParentStep(nodes))), s.nodes[0].tree))
  {
    r := DeriveUnique(s, Within(S.ParentStep(nodes)));
    DeriveAgrees(s.nodes, S.ParentStep(nodes));
  }

  /** `next_sibling`: the next element siblings of the nodes, each once. */
  method NextSiblings(nodes: seq<TreeNode>, s: S.Selection) returns (r: S.Selection)
    ensures r.nodes == UniqueById(DerivedRefs(s.nodes, Within(S.NextStep(nodes))))
    ensures SameTree(s.nodes) ==> r == S.Selection(S.Tag(Dedup(S.Derived(s.nodes, S.NextStep(nodes))), s.nodes[0].tree))
  {
    r := DeriveUnique(s, Within(S.NextStep(nodes)));
    DeriveAgrees(s.nodes, S.NextStep(nodes));
  }

  /** `prev_sibling`: the previous element siblings of the nodes, each once. */
  method PrevSiblings(nodes: seq<TreeNode>, s: S.Selection) returns (r: S.Selection)
    ensures r.nodes == UniqueById(DerivedRefs(s.nodes, Within(S.PrevStep(nodes))))
    ensures SameTree(s.nodes) ==> r == S.Selection(S.Tag(Dedup(S.Derived(s.nodes, S.PrevStep(nodes))), s.nodes[0].tree))
  {
    r := DeriveUnique(s, Within(S.PrevStep(nodes)));
    DeriveAgrees(s.nodes, S.PrevStep(nodes));
  }

  /** `children`: the element children of the nodes, each once, in order of first appearance. */
  method ChildElements(nodes: seq<TreeNode>, s: S.Selection) returns (r: S.Selection)
    ensures r.nodes == UniqueById(ElemRefs(nodes, GatheredRefs(s.nodes, ChildRefs(nodes))))
    ensures SameTree(s.nodes) ==>
      r == S.Selection(S.Tag(Dedup(Elems(nodes, S.Gathered(s.nodes, S.ChildIds(nodes)))), s.nodes[0].tree))
  {
    r := GatherUnique(nodes, s, ChildRefs(nodes));
    ChildrenAgree(nodes, s.nodes);
  }

  // ----- agreement with the newer generation -----

  /** A non-empty list of references into one tree. */
  predicate SameTree(rs: seq<S.NodeRef>)
  {
    rs != [] && forall k :: 0 <= k < |rs| ==> rs[k].tree == rs[0].tree
  }

  /** References that all carry tree `t` are the tagged ids. */
  lemma TaggedIds(xs: seq<S.NodeRef>, t: S.TreeRef)
    requires forall k :: 0 <= k < |xs| ==> xs[k].tree == t
    ensures xs == S.Tag(S.Ids(xs), t)
  {
  }

  lemma {:induction false} UniqueIds(xs: seq<S.NodeRef>)
    ensures S.Ids(UniqueById(xs)) == Dedup(S.Ids(xs))
    ensures forall x :: x in UniqueById(xs) ==> x in xs
    decreases |xs|
  {
    if xs != [] {
      var front := xs[..|xs| - 1];
      var x := xs[|xs| - 1];
      UniqueIds(front);
      S.IdsCat(front, [x]);
      assert front + [x] == xs;
      DedupStep(S.Ids(front), x.id);
      S.IdsCat(UniqueById(front), [x]);
    }
  }

  lemma {:induction false} DerivedRefsIds(rs: seq<S.NodeRef>, f: S.NodeRef -> Option<NodeId>, t: S.TreeRef)
    requires forall k :: 0 <= k < |rs| ==> rs[k].tree == t
    ensures S.Ids(DerivedRefs(rs, Within(f))) == S.Derived(rs, f)
    ensures forall x :: x in DerivedRefs(rs, Within(f)) ==> x.tree == t
    decreases |rs|
  {
    if rs != [] {
      var front := rs[..|rs| - 1];
      DerivedRefsIds(front, f, t);
      match f(rs[|rs| - 1]) {
        case Some(y) =>
          S.IdsCat(DerivedRefs(front, Within(f)), [S.NodeRef(y, rs[|rs| - 1].tree)]);
        case None =>
      }
    }
  }

  /** On a selection from one tree the older loop gives what `derive_selection` gives. */
  lemma DeriveAgrees(rs: seq<S.NodeRef>, f: S.NodeRef -> Option<NodeId>)
    ensures SameTree(rs) ==> UniqueById(DerivedRefs(rs, Within(f))) == S.Tag(Dedup(S.Derived(rs, f)), rs[0].tree)
  {
    if SameTree(rs) {
      var t := rs[0].tree;
      var d := DerivedRefs(rs, Within(f));
      DerivedRefsIds(rs, f, t);
      UniqueIds(d);
      forall k | 0 <= k < |UniqueById(d)|
        ensures UniqueById(d)[k].tree == t
      {
        assert UniqueById(d)[k] in UniqueById(d);
      }
      TaggedIds(UniqueById(d), t);
    }
  }

  lemma {:induction false} ElemRefsIds(nodes: seq<TreeNode>, xs: seq<S.NodeRef>)
    ensures S.Ids(ElemRefs(nodes, xs)) == Elems(nodes, S.Ids(xs))
    decreases |xs|
  {
    if xs != [] {
      var front := xs[..|xs| - 1];
      var x := xs[|xs| - 1];
      ElemRefsIds(nodes, front);
      assert xs == front + [x];
      assert S.Ids([x]) == [x.id];
      S.IdsCat(front, [x]);
      S.ElemsSnoc(nodes, S.Ids(front), x.id);
      if IsElem(nodes, x.id) {
        assert ElemRefs(nodes, xs) == ElemRefs(nodes, front) + [x];
        S.IdsCat(ElemRefs(nodes, front), [x]);
      }
    }
  }

  lemma {:induction false} ElemRefsMembers(nodes: seq<TreeNode>, xs: seq<S.NodeRef>)
    ensures forall x :: x in ElemRefs(nodes, xs) ==> x in xs
    decreases |xs|
  {
    if xs != [] {
      ElemRefsMembers(nodes, xs[..|xs| - 1]);
    }
  }

  lemma {:induction false} GatheredRefsIds(nodes: seq<TreeNode>, rs: seq<S.NodeRef>, t: S.TreeRef)
    requires forall k :: 0 <= k < |rs| ==> rs[k].tree == t
    ensures S.Ids(GatheredRefs(rs, ChildRefs(nodes))) == S.Gathered(rs, S.ChildIds(nodes))
    ensures forall x :: x in GatheredRefs(rs, ChildRefs(nodes)) ==> x.tree == t
    decreases |rs|
  {
    if rs != [] {
      var front := rs[..|rs| - 1];
      var last := rs[|rs| - 1];
      GatheredRefsIds(nodes, front, t);
      S.IdsCat(GatheredRefs(front, ChildRefs(nodes)), ChildRefs(nodes)(last));
      S.IdsTag(Children(nodes, last.id), last.tree);
    }
  }

  /** On a selection from one tree the older `children` gives what the newer one gives. */
  lemma ChildrenAgree(nodes: seq<TreeNode>, rs: seq<S.NodeRef>)
    ensures SameTree(rs) ==> (UniqueById(ElemRefs(nodes, GatheredRefs(rs, ChildRefs(nodes))))
      == S.Tag(Dedup(Elems(nodes, S.Gathered(rs, S.ChildIds(nodes)))), rs[0].tree))
  {
    if SameTree(rs) {
      var t := rs[0].tree;
      var g := GatheredRefs(rs, ChildRefs(nodes));
      GatheredRefsIds(nodes, rs, t);
      ElemRefsIds(nodes, g);
      ElemRefsMembers(nodes, g);
      UniqueIds(ElemRefs(nodes, g));
      var u := UniqueById(ElemRefs(nodes, g));
      forall k | 0 <= k < |u|
        ensures u[k].tree == t
      {
        assert u[k] in u;
      }
      TaggedIds(u, t);
    }
  }

  // ----- selecting -----

  /** `select_matcher`: what the iterator yields for the matcher, in the tree `t` of the nodes. */
  function SelectMatcher(enumerate: (NodeId -> bool) -> seq<NodeId>, t: S.TreeRef, m: NodeId -> bool): (r: S.Selection)
    ensures S.Ids(r.nodes) == enumerate(m) && forall x :: x in r.nodes ==> x.tree == t
  {
    S.IdsTag(enumerate(m), t);
    S.Selection(S.Tag(enumerate(m), t))
  }

  /** `select_single_matcher`: the first yielded node alone, or nothing. */
  function SelectSingleMatcher(enumerate: (NodeId -> bool) -> seq<NodeId>, t: S.TreeRef, m: NodeId -> bool): (r: S.Selection)
    ensures r == S.First(SelectMatcher(enumerate, t, m))
    ensures |r.nodes| <= 1 && (r.nodes == [] <==> enumerate(m) == [])
  {
    match Head(enumerate(m))
    case Some(x) => S.Selection([S.NodeRef(x, t)])
    case None => S.Selection([])
  }

  /** `try_select`: `None` for a selector that does not parse or an empty result, else what `select_matcher` gives. */
  function TrySelect(enumerate: (NodeId -> bool) -> seq<NodeId>, t: S.TreeRef, parsed: Option<NodeId -> bool>): (r: Option<S.Selection>)
    ensures r.None? <==> parsed.None? || enumerate(parsed.value) == []
    ensures r.Some? ==> r.value == SelectMatcher(enumerate, t, parsed.value) && r.value.nodes != []
  {
    match parsed
    case None => None
    case Some(m) =>
      var selection := SelectMatcher(enumerate, t, m);
      if selection.nodes != [] then Some(selection) else None
  }
}
