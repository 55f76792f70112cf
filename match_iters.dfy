/**
 * The two iterators of src/matcher.rs that hand out the elements a
 * compiled selector list matches.  The selector list is the predicate
 * `matches` over node ids.
 *
 * `DescendantMatches` walks the descendants of one root in document order.
 * `Matches` serves several roots from one stack: it pops an element, pushes
 * its element children (last child first, so the first child is popped
 * next), and skips an element it already returned.  The model lists the
 * stack top first.  What is still to come
 * from the stack is the ghost sequence `Pending`: the pre-order tour of
 * each stacked element, top of the stack first.  The `seen` set only makes
 * a difference when some element occurs twice in that sequence, which
 * happens when one root lies inside another.
 */
module MatchIters {
  import opened Wrappers
  import opened Arena
  import opened Chains
  import opened Invariant
  import opened Copying
  import opened NodeRefs
  import opened Seqs
  import Str

  /** An element the selector list matches: what both iterators return. */
  predicate Hit(nodes: seq<TreeNode>, matches: NodeId -> bool, x: NodeId)
  {
    x < |nodes| && IsElement(nodes[x]) && matches(x)
  }

  /** The ids of `xs` that are hits, in order. */
  function Hits(nodes: seq<TreeNode>, matches: NodeId -> bool, xs: seq<NodeId>): (r: seq<NodeId>)
    ensures forall y :: y in r ==> y in xs && Hit(nodes, matches, y)
  {
    if xs == [] then []
    else (if Hit(nodes, matches, xs[0]) then [xs[0]] else []) + Hits(nodes, matches, xs[1..])
  }

  lemma {:induction false} HitsAppend(nodes: seq<TreeNode>, matches: NodeId -> bool, a: seq<NodeId>, b: seq<NodeId>)
    ensures Hits(nodes, matches, a + b) == Hits(nodes, matches, a) + Hits(nodes, matches, b)
  {
    if a == [] {
      assert a + b == b;
    } else {
      assert (a + b)[0] == a[0] && (a + b)[1..] == a[1..] + b;
      HitsAppend(nodes, matches, a[1..], b);
    }
  }

  lemma HitsCons(nodes: seq<TreeNode>, matches: NodeId -> bool, x: NodeId, q: seq<NodeId>)
    ensures Hits(nodes, matches, [x] + q) == (if Hit(nodes, matches, x) then [x] else []) + Hits(nodes, matches, q)
  {
    assert ([x] + q)[0] == x && ([x] + q)[1..] == q;
  }

  /** `q` is what is left of `p` once some prefix is taken. */
  predicate Suffix(q: seq<NodeId>, p: seq<NodeId>)
  {
    |q| <= |p| && q == p[|p| - |q|..]
  }

  /** A suffix of a suffix is a suffix. */
  lemma SuffixTrans(p: seq<NodeId>, q: seq<NodeId>, m: nat)
    requires Suffix(q, p) && m <= |q|
    ensures Suffix(q[m..], p)
  {
  }

  /** An iterator's item as the sequence it contributes. */
  function Yielded(r: Option<NodeId>): (ys: seq<NodeId>)
    ensures r.None? ==> ys == []
    ensures r.Some? ==> ys == [r.value]
  {
    if r.Some? then [r.value] else []
  }

  /** A hit of `xs` is kept. */
  lemma {:induction false} HitsKeep(nodes: seq<TreeNode>, matches: NodeId -> bool, xs: seq<NodeId>, y: NodeId)
    requires y in xs && Hit(nodes, matches, y)
    ensures y in Hits(nodes, matches, xs)
  {
    if xs[0] != y {
      HitsKeep(nodes, matches, xs[1..], y);
    }
  }

  function Head(xs: seq<NodeId>): (r: Option<NodeId>)
    ensures r.None? <==> xs == []
    ensures r.Some? ==> r.value == xs[0]
  {
    if xs == [] then None else Some(xs[0])
  }

  // ----- each hit once -----

  /** `ids` with every repeat dropped: each id at its first occurrence. */
  function Dedup(ids: seq<NodeId>): seq<NodeId>
    decreases |ids|
  {
    if ids == [] then []
    else
      var before := Dedup(ids[..|ids| - 1]);
      var x := ids[|ids| - 1];
      if x in before then before else before + [x]
  }

  /** One more id is kept exactly when it is new. */
  lemma DedupStep(ids: seq<NodeId>, x: NodeId)
    ensures Dedup(ids + [x]) == if x in Dedup(ids) then Dedup(ids) else Dedup(ids) + [x]
  {
    assert (ids + [x])[..|ids|] == ids;
  }

  lemma {:induction false} DedupMembers(ids: seq<NodeId>)
    ensures forall y :: y in Dedup(ids) <==> y in ids
    decreases |ids|
  {
    if ids != [] {
      var front := ids[..|ids| - 1];
      DedupMembers(front);
      assert ids == front + [ids[|ids| - 1]];
    }
  }

  lemma {:induction false} DedupNoDups(ids: seq<NodeId>)
    ensures NoDups(Dedup(ids))
    decreases |ids|
  {
    if ids != [] {
      var front := ids[..|ids| - 1];
      DedupNoDups(front);
      var d := Dedup(front);
      var x := ids[|ids| - 1];
      if x !in d {
        forall i, j | 0 <= i < j < |d| + 1
          ensures (d + [x])[i] != (d + [x])[j]
        {
          if j == |d| {
            assert (d + [x])[i] == d[i];
          } else {
            assert (d + [x])[i] == d[i] && (d + [x])[j] == d[j];
          }
        }
      }
    }
  }

  /** What is kept is a subsequence of the input. */
  lemma {:induction false} DedupSubseq(ids: seq<NodeId>)
    ensures IsSubseq(Dedup(ids), ids)
    decreases |ids|
  {
    if ids != [] {
      var front := ids[..|ids| - 1];
      var x := ids[|ids| - 1];
      DedupSubseq(front);
      SubseqSnoc(Dedup(front), front, x);
      assert front + [x] == ids;
    }
  }

  /** Later ids never reorder what earlier ones kept: the kept ids of a prefix are a prefix of the kept ids. */
  lemma {:induction false} DedupPrefix(a: seq<NodeId>, b: seq<NodeId>)
    ensures Dedup(a) <= Dedup(a + b)
    decreases |b|
  {
    if b == [] {
      assert a + b == a;
    } else {
      var front := b[..|b| - 1];
      var x := b[|b| - 1];
      DedupPrefix(a, front);
      assert a + b == (a + front) + [x];
      DedupStep(a + front, x);
    }
  }

  /** Ids without repeats are kept as they are. */
  lemma {:induction false} DedupDistinct(ids: seq<NodeId>)
    requires NoDups(ids)
    ensures Dedup(ids) == ids
    decreases |ids|
  {
    if ids != [] {
      var front := ids[..|ids| - 1];
      var x := ids[|ids| - 1];
      assert NoDups(front) by {
        forall i, j | 0 <= i < j < |front|
          ensures front[i] != front[j]
        {
          assert front[i] == ids[i] && front[j] == ids[j];
        }
      }
      DedupDistinct(front);
      assert x !in front by {
        forall k | 0 <= k < |front|
          ensures front[k] != x
        {
          assert front[k] == ids[k];
        }
      }
      assert front + [x] == ids;
    }
  }

  /** Ids that were all kept already add nothing. */
  lemma {:induction false} DedupAbsorb(a: seq<NodeId>, b: seq<NodeId>)
    requires forall y :: y in b ==> y in a
    ensures Dedup(a + b) == Dedup(a)
    decreases |b|
  {
    if b == [] {
      assert a + b == a;
    } else {
      var front := b[..|b| - 1];
      var x := b[|b| - 1];
      assert forall y :: y in front ==> y in b;
      DedupAbsorb(a, front);
      assert a + b == (a + front) + [x];
      DedupStep(a + front, x);
      DedupMembers(a);
      assert x in Dedup(a + front);
    }
  }

  /** The first id is always kept, and kept first. */
  lemma DedupHead(ids: seq<NodeId>)
    requires ids != []
    ensures Dedup(ids) != [] && Dedup(ids)[0] == ids[0]
  {
    DedupPrefix([ids[0]], ids[1..]);
    assert [ids[0]] + ids[1..] == ids;
    assert Dedup([ids[0]]) == [ids[0]] by {
      assert [ids[0]][..0] == [];
    }
  }

  // ----- one root -----

  /** A strict descendant is at least one level deeper than `x`. */
  lemma {:induction false} BelowDeeper(nodes: seq<TreeNode>, x: NodeId, f: nat)
    requires WellFormed(nodes)
    ensures forall y :: y in Below(nodes, x, f) ==>
      x < |nodes| && y < |nodes| && Rank(nodes, y, Parent) > Rank(nodes, x, Parent)
    decreases f, 0
  {
    if x < |nodes| && f > 0 {
      ChildrenBelow(nodes, x);
      BelowAllDeeper(nodes, Children(nodes, x), f - 1, Rank(nodes, x, Parent));
    }
  }

  lemma {:induction false} BelowAllDeeper(nodes: seq<TreeNode>, cs: seq<NodeId>, f: nat, r: nat)
    requires WellFormed(nodes)
    requires forall c :: c in cs ==> c < |nodes| && Rank(nodes, c, Parent) > r
    ensures forall y :: y in BelowAll(nodes, cs, f) ==> y < |nodes| && Rank(nodes, y, Parent) > r
    decreases f, |cs|
  {
    if cs != [] {
      assert forall c :: c in cs[1..] ==> c in cs;
      BelowDeeper(nodes, cs[0], f);
      BelowAllDeeper(nodes, cs[1..], f, r);
    }
  }

  /** `descendant_ids_of_it` never yields the root itself, so neither does `DescendantMatches`. */
  lemma RootNotDescendant(nodes: seq<TreeNode>, root: NodeId)
    requires WellFormed(nodes)
    ensures root !in Descendants(nodes, root)
  {
    BelowDeeper(nodes, root, |nodes|);
  }

  /** `DescendantMatches`: the descendants of one root still to be looked at. */
  class DescendantMatches {
    const nodes: seq<TreeNode>
    const matches: NodeId -> bool
    var iter: seq<NodeId>

    constructor (nodes: seq<TreeNode>, root: NodeId, matches: NodeId -> bool)
      ensures this.nodes == nodes && this.matches == matches
      ensures iter == Descendants(nodes, root)
    {
      this.nodes := nodes;
      this.matches := matches;
      iter := Descendants(nodes, root);
    }

    /** `next`: skips non-elements and elements that do not match, and returns the first hit. */
    method Next() returns (r: Option<NodeId>)
      modifies this
      ensures r.Some? ==> Hit(nodes, matches, r.value)
      ensures r.None? ==> iter == []
      ensures Hits(nodes, matches, old(iter)) == Yielded(r) + Hits(nodes, matches, iter)
      ensures |iter| <= |old(iter)| && (r.Some? ==> |iter| < |old(iter)|)
    {
      while iter != []
        invariant Hits(nodes, matches, old(iter)) == Hits(nodes, matches, iter)
        invariant |iter| <= |old(iter)|
      {
        var x := iter[0];
        iter := iter[1..];
        if x < |nodes| && IsElement(nodes[x]) && matches(x) {
          return Some(x);
        }
      }
      return None;
    }
  }

  /** `DescendantMatches::new(root).collect()`: the matching descendants in document order. */
  method CollectDescendantMatches(nodes: seq<TreeNode>, root: NodeId, matches: NodeId -> bool) returns (out: seq<NodeId>)
    ensures out == Hits(nodes, matches, Descendants(nodes, root))
  {
    ghost var all := Hits(nodes, matches, Descendants(nodes, root));
    var it := new DescendantMatches(nodes, root, matches);
    out := [];
    var r := it.Next();
    while r.Some?
      invariant it.nodes == nodes && it.matches == matches
      invariant all == out + Yielded(r) + Hits(nodes, matches, it.iter)
      invariant r.None? ==> it.iter == []
      decreases |it.iter| + |Yielded(r)|
    {
      out := out + [r.value];
      r := it.Next();
      Str.SeqAssoc(out, Yielded(r), Hits(nodes, matches, it.iter));
    }
  }

  /** The first element `DescendantMatches` yields: the first matching descendant. */
  method FirstDescendantMatch(nodes: seq<TreeNode>, root: NodeId, matches: NodeId -> bool) returns (r: Option<NodeId>)
    ensures r == Head(Hits(nodes, matches, Descendants(nodes, root)))
  {
    var it := new DescendantMatches(nodes, root, matches);
    r := it.Next();
  }

  // ----- several roots -----

  predicate IsElem(nodes: seq<TreeNode>, x: NodeId)
  {
    x < |nodes| && IsElement(nodes[x])
  }

  /** The `is_element` filter. */
  function Elems(nodes: seq<TreeNode>, xs: seq<NodeId>): (r: seq<NodeId>)
    ensures forall y :: y in r ==> y in xs && IsElem(nodes, y)
  {
    if xs == [] then []
    else (if IsElem(nodes, xs[0]) then [xs[0]] else []) + Elems(nodes, xs[1..])
  }

  /** The element children, first to last. */
  function ElementKids(nodes: seq<TreeNode>, x: NodeId): seq<NodeId>
  {
    Elems(nodes, Children(nodes, x))
  }

  /** How many levels there can still be below `x`: the tour's fuel. */
  function Depth(nodes: seq<TreeNode>, x: NodeId): nat
  {
    if x < |nodes| then |nodes| - Rank(nodes, x, Parent) else 0
  }

  /** The element children and the depth of every node, as functions. */
  function ElementKidsFn(nodes: seq<TreeNode>): NodeId -> seq<NodeId>
  {
    x => ElementKids(nodes, x)
  }

  function DepthFn(nodes: seq<TreeNode>): NodeId -> nat
  {
    x => Depth(nodes, x)
  }

  /** `x`, then the tours of its children under `kids` in order: pre-order, `f` levels deep at most. */
  function Tour(kids: NodeId -> seq<NodeId>, x: NodeId, f: nat): seq<NodeId>
    decreases f, 0
  {
    [x] + (if f == 0 then [] else TourAll(kids, kids(x), f - 1))
  }

  function TourAll(kids: NodeId -> seq<NodeId>, xs: seq<NodeId>, f: nat): seq<NodeId>
    decreases f, |xs|
  {
    if xs == [] then [] else Tour(kids, xs[0], f) + TourAll(kids, xs[1..], f)
  }

  /** The element descendants of `x` reached through elements, in document order. */
  function ElementsBelow(nodes: seq<TreeNode>, x: NodeId): seq<NodeId>
  {
    Tour(ElementKidsFn(nodes), x, Depth(nodes, x))[1..]
  }

  function ElementsBelowFn(nodes: seq<TreeNode>): NodeId -> seq<NodeId>
  {
    x => ElementsBelow(nodes, x)
  }

  /**
   * What a stack, listed top first, yields when nothing on it has been
   * seen: the tour of each stacked element in turn.
   */
  function Pending(kids: NodeId -> seq<NodeId>, depth: NodeId -> nat, stack: seq<NodeId>): seq<NodeId>
  {
    if stack == [] then [] else Tour(kids, stack[0], depth(stack[0])) + Pending(kids, depth, stack[1..])
  }

  /**
   * What `Matches::new` stacks, listed top first: the roots' element
   * children are pushed last to first, root after root, so the last root's
   * first child ends up on top.
   */
  function RootsStack(nodes: seq<TreeNode>, roots: seq<NodeId>): seq<NodeId>
  {
    if roots == [] then [] else RootsStack(nodes, roots[1..]) + ElementKids(nodes, roots[0])
  }

  /** `below` of every root, the last root first. */
  function Backward(below: NodeId -> seq<NodeId>, roots: seq<NodeId>): seq<NodeId>
  {
    if roots == [] then [] else Backward(below, roots[1..]) + below(roots[0])
  }

  /** `below` of every root, the first root first. */
  function Forward(below: NodeId -> seq<NodeId>, roots: seq<NodeId>): seq<NodeId>
  {
    if roots == [] then [] else below(roots[0]) + Forward(below, roots[1..])
  }

  /** The roots' element descendants, last root first: the order `Matches` yields them in. */
  function RootTours(nodes: seq<TreeNode>, roots: seq<NodeId>): seq<NodeId>
  {
    Backward(ElementsBelowFn(nodes), roots)
  }

  /** The roots' element descendants, root by root, in the order the roots are given. */
  function ForwardTours(nodes: seq<TreeNode>, roots: seq<NodeId>): seq<NodeId>
  {
    Forward(ElementsBelowFn(nodes), roots)
  }

  /** Every child of `x` is one level below it. */
  predicate Level(kids: NodeId -> seq<NodeId>, depth: NodeId -> nat, x: NodeId)
  {
    forall k :: k in kids(x) ==> depth(k) + 1 == depth(x)
  }

  /** Every node's element children are one level below it. */
  ghost predicate Levelled(nodes: seq<TreeNode>)
  {
    forall x :: Level(ElementKidsFn(nodes), DepthFn(nodes), x)
  }

  /** Every child `kids` gives is an element. */
  ghost predicate KidsAreElements(nodes: seq<TreeNode>, kids: NodeId -> seq<NodeId>)
  {
    forall x, k :: k in kids(x) ==> IsElem(nodes, k)
  }

  /** In a well-formed arena every element child of `x` is an element one level below it. */
  lemma KidsDepth(nodes: seq<TreeNode>, x: NodeId)
    requires WellFormed(nodes)
    ensures Level(ElementKidsFn(nodes), DepthFn(nodes), x)
  {
    if x < |nodes| {
      ChildrenBelow(nodes, x);
      forall k | k in ElementKidsFn(nodes)(x)
        ensures DepthFn(nodes)(k) + 1 == DepthFn(nodes)(x)
      {
        RankBounds(nodes, k, Parent);
      }
    }
  }

  lemma AllLevelled(nodes: seq<TreeNode>)
    requires WellFormed(nodes)
    ensures Levelled(nodes)
  {
    forall x
      ensures Level(ElementKidsFn(nodes), DepthFn(nodes), x)
    {
      KidsDepth(nodes, x);
    }
  }

  lemma KidsElements(nodes: seq<TreeNode>)
    ensures KidsAreElements(nodes, ElementKidsFn(nodes))
  {
    forall x, k | k in ElementKidsFn(nodes)(x)
      ensures IsElem(nodes, k)
    {
      assert k in ElementKids(nodes, x);
    }
  }

  /** What a stack yields is what its two parts yield, top part first. */
  lemma {:induction false} PendingAppend(kids: NodeId -> seq<NodeId>, depth: NodeId -> nat, a: seq<NodeId>, b: seq<NodeId>)
    ensures Pending(kids, depth, a + b) == Pending(kids, depth, a) + Pending(kids, depth, b)
  {
    if a == [] {
      assert a + b == b;
    } else {
      assert (a + b)[0] == a[0] && (a + b)[1..] == a[1..] + b;
      PendingAppend(kids, depth, a[1..], b);
    }
  }

  /** Children of one level yield their tours in order. */
  lemma {:induction false} PendingKids(kids: NodeId -> seq<NodeId>, depth: NodeId -> nat, ks: seq<NodeId>, d: nat)
    requires forall k :: k in ks ==> depth(k) == d
    ensures Pending(kids, depth, ks) == TourAll(kids, ks, d)
  {
    if ks != [] {
      assert ks[0] in ks;
      assert forall k :: k in ks[1..] ==> k in ks;
      PendingKids(kids, depth, ks[1..], d);
    }
  }

  /** What the top of the stack yields comes first, and starts with the top itself. */
  lemma SkipStep(kids: NodeId -> seq<NodeId>, depth: NodeId -> nat, s: seq<NodeId>, x: NodeId)
    ensures Pending(kids, depth, [x] + s) == Tour(kids, x, depth(x)) + Pending(kids, depth, s)
    ensures Tour(kids, x, depth(x))[0] == x
  {
    assert ([x] + s)[0] == x && ([x] + s)[1..] == s;
  }

  /** An element at depth zero has no children. */
  lemma PopZero(kids: NodeId -> seq<NodeId>, depth: NodeId -> nat, x: NodeId)
    requires Level(kids, depth, x) && depth(x) == 0
    ensures kids(x) == []
  {
    HeadIn(kids(x));
  }

  lemma HeadIn(s: seq<NodeId>)
    ensures s != [] ==> s[0] in s
  {
  }

  lemma TourTop(kids: NodeId -> seq<NodeId>, x: NodeId, f: nat)
    requires f > 0
    ensures Tour(kids, x, f) == [x] + TourAll(kids, kids(x), f - 1)
  {
  }

  /** Popping an element and pushing its children keeps what is pending, minus the element. */
  lemma PopStep(kids: NodeId -> seq<NodeId>, depth: NodeId -> nat, s: seq<NodeId>, x: NodeId)
    requires Level(kids, depth, x)
    ensures Pending(kids, depth, [x] + s) == [x] + Pending(kids, depth, kids(x) + s)
  {
    var ks := kids(x);
    SkipStep(kids, depth, s, x);
    PendingAppend(kids, depth, ks, s);
    var t := Pending(kids, depth, ks);
    if depth(x) == 0 {
      PopZero(kids, depth, x);
      assert Tour(kids, x, depth(x)) == [x] + t;
    } else {
      PendingKids(kids, depth, ks, depth(x) - 1);
      TourTop(kids, x, depth(x));
    }
    Str.SeqAssoc([x], t, Pending(kids, depth, s));
  }

  /** A root's element children yield its element descendants. */
  lemma RootPending(nodes: seq<TreeNode>, x: NodeId)
    requires WellFormed(nodes)
    ensures Pending(ElementKidsFn(nodes), DepthFn(nodes), ElementKids(nodes, x)) == ElementsBelow(nodes, x)
  {
    var K, D := ElementKidsFn(nodes), DepthFn(nodes);
    var ks := ElementKids(nodes, x);
    assert K(x) == ks && D(x) == Depth(nodes, x);
    KidsDepth(nodes, x);
    PopStep(K, D, [], x);
    SkipStep(K, D, [], x);
    var t := Tour(K, x, D(x));
    var rest := Pending(K, D, ks);
    assert ks + [] == ks;
    assert Pending(K, D, []) == [];
    assert t + [] == t;
    assert t == [x] + rest;
    assert t[1..] == rest;
  }

  /**
   * `Matches::new` over roots given in order `roots` yields the element
   * descendants of the last root first.
   */
  lemma {:induction false} InitialPending(nodes: seq<TreeNode>, roots: seq<NodeId>)
    requires WellFormed(nodes)
    ensures Pending(ElementKidsFn(nodes), DepthFn(nodes), RootsStack(nodes, roots)) == RootTours(nodes, roots)
  {
    if roots != [] {
      PendingAppend(ElementKidsFn(nodes), DepthFn(nodes), RootsStack(nodes, roots[1..]), ElementKids(nodes, roots[0]));
      RootPending(nodes, roots[0]);
      InitialPending(nodes, roots[1..]);
      assert ElementsBelowFn(nodes)(roots[0]) == ElementsBelow(nodes, roots[0]);
    }
  }

  lemma {:induction false} BackwardSnoc(below: NodeId -> seq<NodeId>, roots: seq<NodeId>, x: NodeId)
    ensures Backward(below, roots + [x]) == below(x) + Backward(below, roots)
  {
    if roots == [] {
      assert [] + [x] == [x] && [x][1..] == [];
    } else {
      assert (roots + [x])[0] == roots[0] && (roots + [x])[1..] == roots[1..] + [x];
      BackwardSnoc(below, roots[1..], x);
      Str.SeqAssoc(below(x), Backward(below, roots[1..]), below(roots[0]));
    }
  }

  /** Roots taken backwards from a reversed list come in the list's own order. */
  lemma {:induction false} BackwardReversed(below: NodeId -> seq<NodeId>, roots: seq<NodeId>)
    ensures Backward(below, Reverse(roots)) == Forward(below, roots)
  {
    if roots != [] {
      BackwardSnoc(below, Reverse(roots[1..]), roots[0]);
      BackwardReversed(below, roots[1..]);
    }
  }

  /** Callers that pass the roots reversed get their element descendants root by root, in the order they hold the roots. */
  lemma ReversedRootTours(nodes: seq<TreeNode>, roots: seq<NodeId>)
    ensures RootTours(nodes, Reverse(roots)) == ForwardTours(nodes, roots)
  {
    BackwardReversed(ElementsBelowFn(nodes), roots);
  }

  /** Pushing children that are elements keeps a stack of elements. */
  lemma PushKids(nodes: seq<TreeNode>, kids: NodeId -> seq<NodeId>, s: seq<NodeId>, x: NodeId)
    requires KidsAreElements(nodes, kids)
    requires forall k :: 0 <= k < |s| ==> IsElem(nodes, s[k])
    ensures forall k :: 0 <= k < |kids(x) + s| ==> IsElem(nodes, (kids(x) + s)[k])
  {
    var ks := kids(x);
    forall k | 0 <= k < |ks + s|
      ensures IsElem(nodes, (ks + s)[k])
    {
      if k < |ks| {
        assert ks[k] in ks;
      } else {
        assert (ks + s)[k] == s[k - |ks|];
      }
    }
  }

  lemma {:induction false} StackedElements(nodes: seq<TreeNode>, roots: seq<NodeId>)
    ensures forall k :: 0 <= k < |RootsStack(nodes, roots)| ==> IsElem(nodes, RootsStack(nodes, roots)[k])
  {
    if roots != [] {
      var rest := RootsStack(nodes, roots[1..]);
      var kids := ElementKids(nodes, roots[0]);
      StackedElements(nodes, roots[1..]);
      forall k | 0 <= k < |rest + kids|
        ensures IsElem(nodes, (rest + kids)[k])
      {
        if k < |rest| {
          assert (rest + kids)[k] == rest[k];
        } else {
          assert (rest + kids)[k] == kids[k - |rest|];
          assert kids[k - |rest|] in kids;
        }
      }
    }
  }

  /**
   * `Matches`: the stack of elements still to be looked at, held top first,
   * and the ids already returned.  `kids` gives a node's element children
   * first to last, which is what pushing `children_it(true)` filtered to
   * elements leaves on the stack read from the top; `depth` bounds how far
   * below a node its tour can reach.
   */
  class Matches {
    const nodes: seq<TreeNode>
    const matches: NodeId -> bool
    const kids: NodeId -> seq<NodeId>
    ghost const depth: NodeId -> nat
    var stack: seq<NodeId>
    var seen: set<NodeId>
    /** What the stack had pending when it was made. */
    ghost const origin: seq<NodeId>

    ghost predicate Valid()
      reads this
    {
      Stacked(nodes, matches, kids, depth, origin, stack, seen)
    }

    ghost function Remaining(): seq<NodeId>
      reads this
    {
      Pending(kids, depth, stack)
    }

    /** The part of `origin` walked so far. */
    ghost function Walked(): seq<NodeId>
      reads this
    {
      Done(origin, Remaining())
    }

    /** `Matches::new`: the element children of every root, nothing seen yet. */
    constructor (nodes: seq<TreeNode>, roots: seq<NodeId>, matches: NodeId -> bool)
      requires Levelled(nodes)
      ensures Valid() && this.nodes == nodes && this.matches == matches
      ensures kids == ElementKidsFn(nodes) && depth == DepthFn(nodes)
      ensures stack == RootsStack(nodes, roots) && seen == {} && origin == Remaining()
    {
      this.nodes := nodes;
      this.matches := matches;
      kids := ElementKidsFn(nodes);
      depth := DepthFn(nodes);
      stack := RootsStack(nodes, roots);
      seen := {};
      origin := Pending(ElementKidsFn(nodes), DepthFn(nodes), RootsStack(nodes, roots));
      new;
      assert Done(origin, origin) == [];
      StackedElements(nodes, roots);
      KidsElements(nodes);
      TouredPending(ElementKidsFn(nodes), DepthFn(nodes), RootsStack(nodes, roots));
    }

    /**
     * `next`: pops until an unseen element matches, pushing the element
     * children of every unseen element it pops.  What remains is a suffix
     * of what remained, the returned element stands just before it, and
     * each hit of what has been walked, once, is what was yielded before
     * followed by the returned element: so `next` yields every hit of what
     * the roots yield, each once, whether or not the roots' tours overlap.
     * It pops from copies of the stack and seen set and stores them back.
     */
    method Next() returns (r: Option<NodeId>)
      requires Valid()
      modifies this
      ensures Valid()
      ensures r.Some? ==> Hit(nodes, matches, r.value) && r.value !in old(seen) && seen == old(seen) + {r.value}
      ensures r.None? ==> stack == [] && Remaining() == [] && seen == old(seen)
      ensures Suffix(Remaining(), old(Remaining()))
      ensures r.Some? ==> (|Remaining()| < |old(Remaining())|
        && old(Remaining())[|old(Remaining())| - |Remaining()| - 1] == r.value)
      ensures Dedup(Hits(nodes, matches, Walked())) == Dedup(Hits(nodes, matches, old(Walked()))) + Yielded(r)
    {
      var st, sn;
      r, st, sn := Pop(nodes, matches, kids, depth, origin, stack, seen);
      stack, seen := st, sn;
    }
  }

  /**
   * The loop of `next`, on the stack and the seen set it pops from: the
   * state of `Matches` is kept, what is pending after is a suffix of what
   * was pending before, the element returned is an unseen hit that stands
   * just before it and is then seen, and the hits walked so far, once
   * each, grow by just the element returned.
   */
  method Pop(nodes: seq<TreeNode>, matches: NodeId -> bool, kids: NodeId -> seq<NodeId>, ghost depth: NodeId -> nat,
      ghost origin: seq<NodeId>, stack: seq<NodeId>, seen: set<NodeId>)
    returns (r: Option<NodeId>, stack': seq<NodeId>, seen': set<NodeId>)
    requires Stacked(nodes, matches, kids, depth, origin, stack, seen)
    ensures Stacked(nodes, matches, kids, depth, origin, stack', seen')
    ensures r.Some? ==> Hit(nodes, matches, r.value) && r.value !in seen && seen' == seen + {r.value}
    ensures r.None? ==> stack' == [] && seen' == seen
    ensures var p, q := Pending(kids, depth, stack), Pending(kids, depth, stack');
      && Suffix(q, p)
      && (r.Some? ==> |q| < |p| && p[|p| - |q| - 1] == r.value)
      && Dedup(Hits(nodes, matches, Done(origin, q))) == Dedup(Hits(nodes, matches, Done(origin, p))) + Yielded(r)
  {
    ghost var p := Pending(kids, depth, stack);
    ghost var before := Dedup(Hits(nodes, matches, Done(origin, p)));
    stack', seen' := stack, seen;
    while stack' != []
      invariant seen' == seen
      invariant Popping(nodes, matches, kids, depth, origin, p, before, stack', seen)
      decreases |Pending(kids, depth, stack')|
    {
      var x := stack'[0];
      if x in seen {
        PopSeen(nodes, matches, kids, depth, origin, p, before, stack', seen);
        stack' := stack'[1..];
      } else if matches(x) {
        PopHit(nodes, matches, kids, depth, origin, p, before, stack', seen);
        stack', seen' := kids(x) + stack'[1..], seen + {x};
        return Some(x), stack', seen';
      } else {
        PopMiss(nodes, matches, kids, depth, origin, p, before, stack', seen);
        stack' := kids(x) + stack'[1..];
      }
    }
    assert before + [] == before;
    return None, stack', seen';
  }

  /** `Matches::new` over a well-formed arena, with what its stack yields. */
  method NewMatches(nodes: seq<TreeNode>, roots: seq<NodeId>, matches: NodeId -> bool) returns (it: Matches)
    requires WellFormed(nodes)
    ensures fresh(it) && it.Valid() && it.nodes == nodes && it.matches == matches
    ensures it.seen == {} && it.Remaining() == RootTours(nodes, roots) && it.Walked() == []
  {
    AllLevelled(nodes);
    it := new Matches(nodes, roots, matches);
    InitialPending(nodes, roots);
  }

  /** Skipping a seen element drops its whole tour, and the element was pending. */
  lemma SkipSeen(kids: NodeId -> seq<NodeId>, depth: NodeId -> nat, p: seq<NodeId>, s: seq<NodeId>, x: NodeId)
    requires Suffix(Pending(kids, depth, [x] + s), p)
    ensures Suffix(Pending(kids, depth, s), p)
    ensures |Pending(kids, depth, s)| < |Pending(kids, depth, [x] + s)|
    ensures x in p
  {
    var q := Pending(kids, depth, [x] + s);
    SkipStep(kids, depth, s, x);
    var t := Tour(kids, x, depth(x));
    assert q[|t|..] == Pending(kids, depth, s);
    SuffixTrans(p, q, |t|);
    assert p[|p| - |q|] == q[0] == x;
  }

  /** Taking an unseen element drops just that element from what is pending. */
  lemma TakeStep(nodes: seq<TreeNode>, matches: NodeId -> bool, kids: NodeId -> seq<NodeId>, depth: NodeId -> nat,
      p: seq<NodeId>, s: seq<NodeId>, x: NodeId)
    requires Level(kids, depth, x) && Suffix(Pending(kids, depth, [x] + s), p)
    ensures var q, q' := Pending(kids, depth, [x] + s), Pending(kids, depth, kids(x) + s);
      Suffix(q', p) && |q'| + 1 == |q| && p[|p| - |q'| - 1] == x
      && Hits(nodes, matches, q) == (if Hit(nodes, matches, x) then [x] else []) + Hits(nodes, matches, q')
  {
    var q, q' := Pending(kids, depth, [x] + s), Pending(kids, depth, kids(x) + s);
    PopStep(kids, depth, s, x);
    HitsCons(nodes, matches, x, q');
    assert q[1..] == q';
    SuffixTrans(p, q, 1);
    assert p[|p| - |q|] == q[0] == x;
  }

  // ----- each hit once, across roots -----

  /** The part of `origin` already walked when `rest` is what is still to come. */
  function Done(origin: seq<NodeId>, rest: seq<NodeId>): (d: seq<NodeId>)
    ensures Suffix(rest, origin) ==> d + rest == origin
  {
    if |rest| <= |origin| then origin[..|origin| - |rest|] else []
  }

  /** `t` occurs in `p` starting at position `i`. */
  predicate TourAt(p: seq<NodeId>, i: nat, t: seq<NodeId>)
  {
    i + |t| <= |p| && p[i..i + |t|] == t
  }

  /** The id at position `i` of `p`: a term of its own, on which `Toured` is instantiated. */
  function At(p: seq<NodeId>, i: nat): NodeId
    requires i < |p|
  {
    p[i]
  }

  /** Every id in `p` is followed there by the rest of its tour. */
  ghost predicate Toured(kids: NodeId -> seq<NodeId>, depth: NodeId -> nat, p: seq<NodeId>)
  {
    forall i: nat :: i < |p| ==> TourAt(p, i, Tour(kids, At(p, i), depth(At(p, i))))
  }

  /** An occurrence of `t` in `a` or in `b` is one in `a + b`. */
  lemma TourAtAppend(a: seq<NodeId>, b: seq<NodeId>, i: nat, t: seq<NodeId>)
    ensures TourAt(a, i, t) ==> TourAt(a + b, i, t)
    ensures TourAt(b, i, t) ==> TourAt(a + b, |a| + i, t)
  {
    if TourAt(a, i, t) {
      assert (a + b)[i..i + |t|] == a[i..i + |t|];
    }
    if TourAt(b, i, t) {
      assert (a + b)[|a| + i..|a| + i + |t|] == b[i..i + |t|];
    }
  }

  lemma TouredAppend(kids: NodeId -> seq<NodeId>, depth: NodeId -> nat, a: seq<NodeId>, b: seq<NodeId>)
    requires Toured(kids, depth, a) && Toured(kids, depth, b)
    ensures Toured(kids, depth, a + b)
  {
    forall i: nat | i < |a + b|
      ensures TourAt(a + b, i, Tour(kids, At(a + b, i), depth(At(a + b, i))))
    {
      if i < |a| {
        assert At(a + b, i) == At(a, i);
        TourAtAppend(a, b, i, Tour(kids, At(a, i), depth(At(a, i))));
      } else {
        assert At(a + b, i) == At(b, i - |a|);
        TourAtAppend(a, b, i - |a|, Tour(kids, At(b, i - |a|), depth(At(b, i - |a|))));
      }
    }
  }

  /** Within a tour every id is followed by its own tour. */
  lemma {:induction false} TouredTour(kids: NodeId -> seq<NodeId>, depth: NodeId -> nat, x: NodeId)
    requires forall z :: Level(kids, depth, z)
    ensures Toured(kids, depth, Tour(kids, x, depth(x)))
    decreases depth(x), 0, 0
  {
    var t := Tour(kids, x, depth(x));
    var below := if depth(x) == 0 then [] else TourAll(kids, kids(x), depth(x) - 1);
    assert t == [x] + below;
    if depth(x) != 0 {
      assert Level(kids, depth, x);
      TouredAll(kids, depth, kids(x), depth(x) - 1);
    }
    forall i: nat | i < |t|
      ensures TourAt(t, i, Tour(kids, At(t, i), depth(At(t, i))))
    {
      if i == 0 {
        assert At(t, 0) == x;
        assert t[0..|t|] == t;
      } else {
        assert At(t, i) == At(below, i - 1);
        TourAtAppend([x], below, i - 1, Tour(kids, At(below, i - 1), depth(At(below, i - 1))));
      }
    }
  }

  lemma {:induction false} TouredAll(kids: NodeId -> seq<NodeId>, depth: NodeId -> nat, xs: seq<NodeId>, f: nat)
    requires forall z :: Level(kids, depth, z)
    requires forall k :: k in xs ==> depth(k) == f
    ensures Toured(kids, depth, TourAll(kids, xs, f))
    decreases f, 1, |xs|
  {
    if xs != [] {
      assert xs[0] in xs;
      assert forall k :: k in xs[1..] ==> k in xs;
      TouredTour(kids, depth, xs[0]);
      TouredAll(kids, depth, xs[1..], f);
      TouredAppend(kids, depth, Tour(kids, xs[0], f), TourAll(kids, xs[1..], f));
    }
  }

  /** What a stack has pending is followed, at every id, by that id's tour. */
  lemma {:induction false} TouredPending(kids: NodeId -> seq<NodeId>, depth: NodeId -> nat, stack: seq<NodeId>)
    requires forall z :: Level(kids, depth, z)
    ensures Toured(kids, depth, Pending(kids, depth, stack))
  {
    if stack != [] {
      TouredTour(kids, depth, stack[0]);
      TouredPending(kids, depth, stack[1..]);
      TouredAppend(kids, depth, Tour(kids, stack[0], depth(stack[0])), Pending(kids, depth, stack[1..]));
    }
  }

  /**
   * What `Matches` keeps between calls, measured against `origin`, what its
   * stack had pending when it was made: what is pending now is what is left
   * of `origin`, and an element is seen exactly when it is a hit of the
   * part already walked.
   */
  ghost predicate Tracked(nodes: seq<TreeNode>, matches: NodeId -> bool, kids: NodeId -> seq<NodeId>,
      depth: NodeId -> nat, origin: seq<NodeId>, stack: seq<NodeId>, seen: set<NodeId>)
  {
    TrackedRest(nodes, matches, kids, depth, origin, Pending(kids, depth, stack), seen)
  }

  /** `Tracked`, with `rest` what is still pending. */
  ghost predicate TrackedRest(nodes: seq<TreeNode>, matches: NodeId -> bool, kids: NodeId -> seq<NodeId>,
      depth: NodeId -> nat, origin: seq<NodeId>, rest: seq<NodeId>, seen: set<NodeId>)
  {
    && Suffix(rest, origin)
    && SeenHits(seen, Hits(nodes, matches, Done(origin, rest)))
  }

  /**
   * The state of `Matches`: children one level down, elements only, on the
   * stack and below it, every id of `origin` followed there by its tour,
   * and what `Tracked` keeps.
   */
  ghost predicate Stacked(nodes: seq<TreeNode>, matches: NodeId -> bool, kids: NodeId -> seq<NodeId>,
      depth: NodeId -> nat, origin: seq<NodeId>, stack: seq<NodeId>, seen: set<NodeId>)
  {
    && (forall x :: Level(kids, depth, x))
    && KidsAreElements(nodes, kids)
    && (forall k :: 0 <= k < |stack| ==> IsElem(nodes, stack[k]))
    && Toured(kids, depth, origin)
    && Tracked(nodes, matches, kids, depth, origin, stack, seen)
  }

  /** The seen ids are exactly the ids of `h`. */
  ghost predicate SeenHits(seen: set<NodeId>, h: seq<NodeId>)
  {
    forall y :: y in seen <==> y in h
  }

  /**
   * Walking past a tour `t` that occurred earlier: when the earlier
   * occurrence cannot still be under way, since its first id does not occur
   * again in it, the part walked grows by `t`, all of whose ids were walked
   * past already.
   */
  lemma SkipDone(origin: seq<NodeId>, rest: seq<NodeId>, t: seq<NodeId>, rest': seq<NodeId>, i: nat)
    requires Suffix(rest, origin) && rest == t + rest' && t != []
    requires i < |origin| - |rest| && TourAt(origin, i, t)
    requires t[0] !in t[1..]
    ensures Suffix(rest', origin)
    ensures Done(origin, rest') == Done(origin, rest) + t
    ensures forall y :: y in t ==> y in Done(origin, rest)
  {
    var c := |origin| - |rest|;
    var d := Done(origin, rest);
    assert origin[c..] == rest;
    if c < i + |t| {
      TourOverlap(origin, i, t, c);
      assert false;
    }
    assert rest' == rest[|t|..];
    assert Done(origin, rest') == origin[..c + |t|];
    assert origin[c..c + |t|] == rest[..|t|] == t;
    assert origin[..c + |t|] == origin[..c] + origin[c..c + |t|];
    forall y | y in t
      ensures y in d
    {
      var j :| 0 <= j < |t| && t[j] == y;
      assert origin[i..i + |t|][j] == origin[i + j];
      assert d[i + j] == origin[i + j];
    }
  }

  /** A position inside an occurrence of `t` that is not its start holds an id of `t[1..]`. */
  lemma TourOverlap(origin: seq<NodeId>, i: nat, t: seq<NodeId>, c: nat)
    requires TourAt(origin, i, t) && i < c < i + |t|
    ensures origin[c] in t[1..]
  {
    assert origin[c] == origin[i..i + |t|][c - i];
    assert t[1..][c - i - 1] == t[c - i];
  }

  /** Walking past one id `x`: the part walked grows by `x`, and what follows in `rest` starts where `x` stood. */
  lemma PopDone(origin: seq<NodeId>, rest: seq<NodeId>, x: NodeId, rest': seq<NodeId>)
    requires Suffix(rest, origin) && rest == [x] + rest'
    ensures Suffix(rest', origin)
    ensures Done(origin, rest') == Done(origin, rest) + [x]
  {
    var c := |origin| - |rest|;
    assert origin[c..] == rest;
    assert rest' == rest[1..];
    assert Done(origin, rest') == origin[..c + 1];
    assert origin[..c + 1] == origin[..c] + [origin[c]];
  }

  /** Below its first node, a tour only holds nodes of lower depth. */
  lemma {:induction false} TourLevels(kids: NodeId -> seq<NodeId>, depth: NodeId -> nat, x: NodeId, f: nat)
    requires forall z :: Level(kids, depth, z)
    ensures forall y :: y in Tour(kids, x, f) ==> depth(y) <= depth(x)
    ensures forall y :: y in Tour(kids, x, f)[1..] ==> depth(y) < depth(x)
    decreases f, 0
  {
    var t := Tour(kids, x, f);
    if f == 0 {
      assert t == [x];
    } else if depth(x) == 0 {
      PopZero(kids, depth, x);
      assert TourAll(kids, kids(x), f - 1) == [];
      assert t == [x] + [];
    } else {
      var below := TourAll(kids, kids(x), f - 1);
      assert Level(kids, depth, x);
      TourAllLevels(kids, depth, kids(x), f - 1, depth(x) - 1);
      assert t == [x] + below && t[1..] == below;
    }
  }

  lemma {:induction false} TourAllLevels(kids: NodeId -> seq<NodeId>, depth: NodeId -> nat, xs: seq<NodeId>, f: nat, d: nat)
    requires forall z :: Level(kids, depth, z)
    requires forall k :: k in xs ==> depth(k) <= d
    ensures forall y :: y in TourAll(kids, xs, f) ==> depth(y) <= d
    decreases f, |xs|
  {
    if xs != [] {
      assert xs[0] in xs;
      assert forall k :: k in xs[1..] ==> k in xs;
      TourLevels(kids, depth, xs[0], f);
      TourAllLevels(kids, depth, xs[1..], f, d);
    }
  }

  /** The hits of `xs` that are hits of `ys` too. */
  lemma HitsWithin(nodes: seq<TreeNode>, matches: NodeId -> bool, xs: seq<NodeId>, ys: seq<NodeId>)
    requires forall y :: y in xs ==> y in ys
    ensures forall y :: y in Hits(nodes, matches, xs) ==> y in Hits(nodes, matches, ys)
  {
    forall y | y in Hits(nodes, matches, xs)
      ensures y in Hits(nodes, matches, ys)
    {
      HitsKeep(nodes, matches, ys, y);
    }
  }

  /**
   * Skipping a seen element keeps what `Matches` tracks and walks past
   * nothing new: its tour was walked in full already.
   */
  lemma TrackSkip(nodes: seq<TreeNode>, matches: NodeId -> bool, kids: NodeId -> seq<NodeId>, depth: NodeId -> nat,
      origin: seq<NodeId>, s: seq<NodeId>, x: NodeId, seen: set<NodeId>)
    requires forall z :: Level(kids, depth, z)
    requires Toured(kids, depth, origin)
    requires Tracked(nodes, matches, kids, depth, origin, [x] + s, seen) && x in seen
    ensures Tracked(nodes, matches, kids, depth, origin, s, seen)
    ensures Dedup(Hits(nodes, matches, Done(origin, Pending(kids, depth, s))))
      == Dedup(Hits(nodes, matches, Done(origin, Pending(kids, depth, [x] + s))))
  {
    SkipStep(kids, depth, s, x);
    SkipWalked(nodes, matches, kids, depth, origin, Pending(kids, depth, [x] + s), x, Pending(kids, depth, s), seen);
  }

  /** `TrackSkip` on what is pending: `rest` starts with the tour of the seen `x`. */
  lemma SkipWalked(nodes: seq<TreeNode>, matches: NodeId -> bool, kids: NodeId -> seq<NodeId>, depth: NodeId -> nat,
      origin: seq<NodeId>, rest: seq<NodeId>, x: NodeId, rest': seq<NodeId>, seen: set<NodeId>)
    requires forall z :: Level(kids, depth, z)
    requires Toured(kids, depth, origin)
    requires TrackedRest(nodes, matches, kids, depth, origin, rest, seen) && x in seen
    requires rest == Tour(kids, x, depth(x)) + rest'
    ensures TrackedRest(nodes, matches, kids, depth, origin, rest', seen)
    ensures Dedup(Hits(nodes, matches, Done(origin, rest'))) == Dedup(Hits(nodes, matches, Done(origin, rest)))
  {
    var d := Done(origin, rest);
    assert x in Hits(nodes, matches, d);
    HitsSubseq(nodes, matches, d);
    SubseqMembers(Hits(nodes, matches, d), d, x);
    WalkedTour(kids, depth, origin, rest, x, rest');
    SkipTracked(nodes, matches, kids, depth, origin, rest, Tour(kids, x, depth(x)), rest', seen);
  }

  /** `SkipWalked` once the tour `t` skipped is known to lie in the part walked. */
  lemma SkipTracked(nodes: seq<TreeNode>, matches: NodeId -> bool, kids: NodeId -> seq<NodeId>, depth: NodeId -> nat,
      origin: seq<NodeId>, rest: seq<NodeId>, t: seq<NodeId>, rest': seq<NodeId>, seen: set<NodeId>)
    requires TrackedRest(nodes, matches, kids, depth, origin, rest, seen)
    requires Suffix(rest', origin) && |rest'| <= |rest|
    requires Done(origin, rest') == Done(origin, rest) + t
    requires forall y :: y in t ==> y in Done(origin, rest)
    ensures TrackedRest(nodes, matches, kids, depth, origin, rest', seen)
    ensures Dedup(Hits(nodes, matches, Done(origin, rest'))) == Dedup(Hits(nodes, matches, Done(origin, rest)))
  {
    DedupSkip(nodes, matches, seen, Done(origin, rest), t, Done(origin, rest'));
  }

  /**
   * The tour of an id walked past already that is pending again lies wholly
   * in the part walked: it followed that id there, and were it still under
   * way, the node it stands at would be below its own first node, where only
   * lower depths occur.
   */
  lemma WalkedTour(kids: NodeId -> seq<NodeId>, depth: NodeId -> nat, origin: seq<NodeId>,
      rest: seq<NodeId>, x: NodeId, rest': seq<NodeId>)
    requires forall z :: Level(kids, depth, z)
    requires Toured(kids, depth, origin)
    requires Suffix(rest, origin) && rest == Tour(kids, x, depth(x)) + rest'
    requires x in Done(origin, rest)
    ensures Suffix(rest', origin) && |rest'| <= |rest|
    ensures Done(origin, rest') == Done(origin, rest) + Tour(kids, x, depth(x))
    ensures forall y :: y in Tour(kids, x, depth(x)) ==> y in Done(origin, rest)
  {
    var t := Tour(kids, x, depth(x));
    var d := Done(origin, rest);
    var i :| 0 <= i < |d| && d[i] == x;
    assert At(origin, i) == x;
    assert TourAt(origin, i, Tour(kids, At(origin, i), depth(At(origin, i))));
    SkipStep(kids, depth, [], x);
    TourLevels(kids, depth, x, depth(x));
    SkipDone(origin, rest, t, rest', i);
  }

  /**
   * Walking on past hits `t` that were walked before in `d` leaves the
   * seen ones the hits walked, and keeps each hit once.
   */
  lemma DedupSkip(nodes: seq<TreeNode>, matches: NodeId -> bool, seen: set<NodeId>, d: seq<NodeId>, t: seq<NodeId>, d': seq<NodeId>)
    requires forall y :: y in t ==> y in d
    requires SeenHits(seen, Hits(nodes, matches, d)) && d' == d + t
    ensures SeenHits(seen, Hits(nodes, matches, d'))
    ensures Dedup(Hits(nodes, matches, d')) == Dedup(Hits(nodes, matches, d))
  {
    HitsWithin(nodes, matches, t, d);
    HitsAppend(nodes, matches, d, t);
    DedupAbsorb(Hits(nodes, matches, d), Hits(nodes, matches, t));
  }

  /**
   * Popping an unseen element that is no hit walks past just that element
   * and keeps what `Matches` tracks.
   */
  lemma TrackPass(nodes: seq<TreeNode>, matches: NodeId -> bool, kids: NodeId -> seq<NodeId>, depth: NodeId -> nat,
      origin: seq<NodeId>, s: seq<NodeId>, x: NodeId, seen: set<NodeId>)
    requires forall z :: Level(kids, depth, z)
    requires Tracked(nodes, matches, kids, depth, origin, [x] + s, seen) && x !in seen && !Hit(nodes, matches, x)
    ensures Tracked(nodes, matches, kids, depth, origin, kids(x) + s, seen)
    ensures Dedup(Hits(nodes, matches, Done(origin, Pending(kids, depth, kids(x) + s))))
      == Dedup(Hits(nodes, matches, Done(origin, Pending(kids, depth, [x] + s))))
  {
    PopStep(kids, depth, s, x);
    PassWalked(nodes, matches, kids, depth, origin, Pending(kids, depth, [x] + s), x, Pending(kids, depth, kids(x) + s), seen);
  }

  /** `TrackPass` on what is pending: `rest` starts with `x` and its tour. */
  lemma PassWalked(nodes: seq<TreeNode>, matches: NodeId -> bool, kids: NodeId -> seq<NodeId>, depth: NodeId -> nat,
      origin: seq<NodeId>, rest: seq<NodeId>, x: NodeId, rest': seq<NodeId>, seen: set<NodeId>)
    requires TrackedRest(nodes, matches, kids, depth, origin, rest, seen) && x !in seen && !Hit(nodes, matches, x)
    requires rest == [x] + rest'
    ensures TrackedRest(nodes, matches, kids, depth, origin, rest', seen)
    ensures Dedup(Hits(nodes, matches, Done(origin, rest'))) == Dedup(Hits(nodes, matches, Done(origin, rest)))
  {
    PopDone(origin, rest, x, rest');
    var d := Done(origin, rest);
    HitsAppend(nodes, matches, d, [x]);
    HitsCons(nodes, matches, x, []);
    assert [x] + [] == [x];
    assert Hits(nodes, matches, d) + [] == Hits(nodes, matches, d);
  }

  /**
   * Popping an unseen hit walks past just that element: it is then seen,
   * its tour starting where it stood, and kept as new.
   */
  lemma TrackTake(nodes: seq<TreeNode>, matches: NodeId -> bool, kids: NodeId -> seq<NodeId>, depth: NodeId -> nat,
      origin: seq<NodeId>, s: seq<NodeId>, x: NodeId, seen: set<NodeId>)
    requires forall z :: Level(kids, depth, z)
    requires Tracked(nodes, matches, kids, depth, origin, [x] + s, seen) && x !in seen && Hit(nodes, matches, x)
    ensures Tracked(nodes, matches, kids, depth, origin, kids(x) + s, seen + {x})
    ensures Dedup(Hits(nodes, matches, Done(origin, Pending(kids, depth, kids(x) + s))))
      == Dedup(Hits(nodes, matches, Done(origin, Pending(kids, depth, [x] + s)))) + [x]
  {
    PopStep(kids, depth, s, x);
    TakeWalked(nodes, matches, kids, depth, origin, Pending(kids, depth, [x] + s), x, Pending(kids, depth, kids(x) + s), seen);
  }

  /** `TrackTake` on what is pending: `rest` starts with `x` and its tour. */
  lemma TakeWalked(nodes: seq<TreeNode>, matches: NodeId -> bool, kids: NodeId -> seq<NodeId>, depth: NodeId -> nat,
      origin: seq<NodeId>, rest: seq<NodeId>, x: NodeId, rest': seq<NodeId>, seen: set<NodeId>)
    requires TrackedRest(nodes, matches, kids, depth, origin, rest, seen) && x !in seen && Hit(nodes, matches, x)
    requires rest == [x] + rest'
    ensures TrackedRest(nodes, matches, kids, depth, origin, rest', seen + {x})
    ensures Dedup(Hits(nodes, matches, Done(origin, rest'))) == Dedup(Hits(nodes, matches, Done(origin, rest))) + [x]
  {
    PopDone(origin, rest, x, rest');
    var d := Done(origin, rest);
    HitsAppend(nodes, matches, d, [x]);
    HitsCons(nodes, matches, x, []);
    assert [x] + [] == [x];
    var hd := Hits(nodes, matches, d);
    DedupMembers(hd);
    DedupStep(hd, x);
  }

  /** Pushing the children of a popped element keeps a stack of elements. */
  lemma PopElements(nodes: seq<TreeNode>, kids: NodeId -> seq<NodeId>, s: seq<NodeId>, x: NodeId)
    requires KidsAreElements(nodes, kids)
    requires forall k :: 0 <= k < |[x] + s| ==> IsElem(nodes, ([x] + s)[k])
    ensures forall k :: 0 <= k < |kids(x) + s| ==> IsElem(nodes, (kids(x) + s)[k])
  {
    assert forall k :: 0 <= k < |s| ==> s[k] == ([x] + s)[k + 1];
    PushKids(nodes, kids, s, x);
  }

  /**
   * What one call of `next` keeps while it pops: the state of `Matches`,
   * what is pending is what is left of `p`, pending at the start of the
   * call; and the ids kept from the part walked are still `before`.
   */
  ghost predicate Popping(nodes: seq<TreeNode>, matches: NodeId -> bool, kids: NodeId -> seq<NodeId>, depth: NodeId -> nat,
      origin: seq<NodeId>, p: seq<NodeId>, before: seq<NodeId>, stack: seq<NodeId>, seen: set<NodeId>)
  {
    && Stacked(nodes, matches, kids, depth, origin, stack, seen)
    && Suffix(Pending(kids, depth, stack), p)
    && Dedup(Hits(nodes, matches, Done(origin, Pending(kids, depth, stack)))) == before
  }

  /** Skipping a seen element keeps `Popping` and shortens what is pending. */
  lemma PopSeen(nodes: seq<TreeNode>, matches: NodeId -> bool, kids: NodeId -> seq<NodeId>, depth: NodeId -> nat,
      origin: seq<NodeId>, p: seq<NodeId>, before: seq<NodeId>, st: seq<NodeId>, seen: set<NodeId>)
    requires Popping(nodes, matches, kids, depth, origin, p, before, st, seen) && st != [] && st[0] in seen
    ensures Popping(nodes, matches, kids, depth, origin, p, before, st[1..], seen)
    ensures |Pending(kids, depth, st[1..])| < |Pending(kids, depth, st)|
  {
    var x, s := st[0], st[1..];
    assert st == [x] + s;
    SkipSeen(kids, depth, p, s, x);
    TrackSkip(nodes, matches, kids, depth, origin, s, x, seen);
    assert forall k :: 0 <= k < |s| ==> s[k] == st[k + 1];
  }

  /** Popping an unseen element that does not match keeps `Popping` and shortens what is pending. */
  lemma PopMiss(nodes: seq<TreeNode>, matches: NodeId -> bool, kids: NodeId -> seq<NodeId>, depth: NodeId -> nat,
      origin: seq<NodeId>, p: seq<NodeId>, before: seq<NodeId>, st: seq<NodeId>, seen: set<NodeId>)
    requires Popping(nodes, matches, kids, depth, origin, p, before, st, seen)
    requires st != [] && st[0] !in seen && !matches(st[0])
    ensures Popping(nodes, matches, kids, depth, origin, p, before, kids(st[0]) + st[1..], seen)
    ensures |Pending(kids, depth, kids(st[0]) + st[1..])| < |Pending(kids, depth, st)|
  {
    var x, s := st[0], st[1..];
    assert st == [x] + s;
    TakeStep(nodes, matches, kids, depth, p, s, x);
    TrackPass(nodes, matches, kids, depth, origin, s, x, seen);
    PopElements(nodes, kids, s, x);
  }

  /**
   * Popping an unseen element that matches: it is a hit, and then the state
   * of `Matches` with the hit seen, what is pending is what is left of `p`
   * just after the hit, and the hit is kept as new.
   */
  lemma PopHit(nodes: seq<TreeNode>, matches: NodeId -> bool, kids: NodeId -> seq<NodeId>, depth: NodeId -> nat,
      origin: seq<NodeId>, p: seq<NodeId>, before: seq<NodeId>, st: seq<NodeId>, seen: set<NodeId>)
    requires Popping(nodes, matches, kids, depth, origin, p, before, st, seen)
    requires st != [] && st[0] !in seen && matches(st[0])
    ensures var x, q := st[0], Pending(kids, depth, kids(st[0]) + st[1..]);
      && Hit(nodes, matches, x)
      && Stacked(nodes, matches, kids, depth, origin, kids(x) + st[1..], seen + {x})
      && Suffix(q, p) && |q| < |p| && p[|p| - |q| - 1] == x
      && Dedup(Hits(nodes, matches, Done(origin, q))) == before + [x]
  {
    var x, s := st[0], st[1..];
    assert st == [x] + s;
    assert IsElem(nodes, st[0]);
    TakeStep(nodes, matches, kids, depth, p, s, x);
    TrackTake(nodes, matches, kids, depth, origin, s, x, seen);
    PopElements(nodes, kids, s, x);
  }

  /** A subsequence of what was walked: the hits keep their order. */
  lemma {:induction false} HitsSubseq(nodes: seq<TreeNode>, matches: NodeId -> bool, xs: seq<NodeId>)
    ensures IsSubseq(Hits(nodes, matches, xs), xs)
  {
    if xs != [] {
      HitsSubseq(nodes, matches, xs[1..]);
      assert [xs[0]] + xs[1..] == xs;
      if Hit(nodes, matches, xs[0]) {
        assert Hits(nodes, matches, xs) == [xs[0]] + Hits(nodes, matches, xs[1..]);
        SubseqCons(xs[0], Hits(nodes, matches, xs[1..]), xs[1..]);
      } else {
        assert Hits(nodes, matches, xs) == [] + Hits(nodes, matches, xs[1..]) == Hits(nodes, matches, xs[1..]);
        SubseqSkip(xs[0], Hits(nodes, matches, xs[1..]), xs[1..]);
      }
    }
  }

  /**
   * Each hit of `p` once, at its first occurrence: distinct hits, exactly
   * the hits of `p`, none only when `p` has none, its first hit first, and
   * all its hits when no id occurs twice in `p`.
   */
  lemma DedupHits(nodes: seq<TreeNode>, matches: NodeId -> bool, p: seq<NodeId>)
    ensures NoDups(Dedup(Hits(nodes, matches, p)))
    ensures forall y :: y in Dedup(Hits(nodes, matches, p)) <==> y in p && Hit(nodes, matches, y)
    ensures Dedup(Hits(nodes, matches, p)) == [] <==> Hits(nodes, matches, p) == []
    ensures Dedup(Hits(nodes, matches, p)) != [] ==> Dedup(Hits(nodes, matches, p))[0] == Hits(nodes, matches, p)[0]
    ensures NoDups(p) ==> Dedup(Hits(nodes, matches, p)) == Hits(nodes, matches, p)
  {
    var h := Hits(nodes, matches, p);
    DedupNoDups(h);
    DedupMembers(h);
    forall y | y in p && Hit(nodes, matches, y)
      ensures y in h
    {
      HitsKeep(nodes, matches, p, y);
    }
    if h != [] {
      DedupHead(h);
    }
    if NoDups(p) {
      HitsSubseq(nodes, matches, p);
      SubseqNoDups(h, p);
      DedupDistinct(h);
    }
  }

  /**
   * `Matches::new(roots).collect()`: each hit of what the roots' stacks
   * yield once, at its first occurrence; so distinct hits, all of them, none
   * only when there are none, and exactly the hits when no element occurs
   * twice.
   */
  method CollectMatches(nodes: seq<TreeNode>, roots: seq<NodeId>, matches: NodeId -> bool) returns (out: seq<NodeId>)
    requires WellFormed(nodes)
    ensures out == Dedup(Hits(nodes, matches, RootTours(nodes, roots)))
    ensures NoDups(out)
    ensures forall y :: y in out <==> y in RootTours(nodes, roots) && Hit(nodes, matches, y)
    ensures out == [] <==> Hits(nodes, matches, RootTours(nodes, roots)) == []
    ensures out != [] ==> out[0] == Hits(nodes, matches, RootTours(nodes, roots))[0]
    ensures NoDups(RootTours(nodes, roots)) ==> out == Hits(nodes, matches, RootTours(nodes, roots))
  {
    var it := NewMatches(nodes, roots, matches);
    out := Collect(it);
  }

  /** `collect` on a `Matches` that has seen nothing: each hit still pending once, in order. */
  method Collect(it: Matches) returns (out: seq<NodeId>)
    requires it.Valid() && it.seen == {}
    modifies it
    ensures out == Dedup(Hits(it.nodes, it.matches, old(it.Remaining())))
    ensures NoDups(out)
    ensures forall y :: y in out <==> y in old(it.Remaining()) && Hit(it.nodes, it.matches, y)
    ensures out == [] <==> Hits(it.nodes, it.matches, old(it.Remaining())) == []
    ensures out != [] ==> out[0] == Hits(it.nodes, it.matches, old(it.Remaining()))[0]
    ensures NoDups(old(it.Remaining())) ==> out == Hits(it.nodes, it.matches, old(it.Remaining()))
  {
    var nodes, matches := it.nodes, it.matches;
    ghost var p0 := it.Remaining();
    ghost var w0 := it.Walked();
    SeenFirst(it.seen, Hits(nodes, matches, w0));
    assert it.origin == w0 + p0;
    out := [];
    while true
      invariant it.Valid() && it.nodes == nodes && it.matches == matches
      invariant Dedup(Hits(nodes, matches, it.Walked())) == out
      decreases |it.Remaining()|
    {
      var r := it.Next();
      if r.None? {
        assert it.Walked() == it.origin;
        HitsAppend(nodes, matches, w0, p0);
        assert Hits(nodes, matches, it.origin) == Hits(nodes, matches, p0);
        DedupHits(nodes, matches, p0);
        return;
      }
      out := out + [r.value];
    }
  }

  /** The first element `Matches` yields: the first hit of what the roots yield. */
  method FirstMatch(nodes: seq<TreeNode>, roots: seq<NodeId>, matches: NodeId -> bool) returns (r: Option<NodeId>)
    requires WellFormed(nodes)
    ensures r == Head(Hits(nodes, matches, RootTours(nodes, roots)))
  {
    var it := NewMatches(nodes, roots, matches);
    ghost var o := it.origin;
    assert o == RootTours(nodes, roots);
    assert Dedup(Hits(nodes, matches, it.Walked())) == [];
    r := it.Next();
    ghost var w, q := it.Walked(), it.Remaining();
    assert w + q == o;
    HitsAppend(nodes, matches, w, q);
    DedupHits(nodes, matches, w);
  }

  /** When the hits walked are exactly the seen ones, the first of them was seen. */
  lemma SeenFirst(seen: set<NodeId>, h: seq<NodeId>)
    requires SeenHits(seen, h)
    ensures h != [] ==> h[0] in seen
  {
    if h != [] {
      assert h[0] in h;
    }
  }
}
