/**
 * The matching queries of src/query.rs, an older generation of the ones in
 * src/selection.rs: `is_matcher` counts the matching nodes and
 * `is_selection` searches for the first node whose id the other selection
 * holds.  Each is proved to agree with its `Selections` counterpart.
 */
module Query {
  import opened Wrappers
  import opened Arena
  import S = Selections

  /** `is_matcher`: a non-empty selection holding at least one node the matcher accepts, by count. */
  function IsMatcher(s: S.Selection, m: NodeId -> bool): (r: bool)
    ensures r == S.IsMatcher(s, m)
  {
    S.IsMatcherFilter(s, m);
    if |s.nodes| > 0 then |S.Keep(s.nodes, m)| > 0 else false
  }

  /** `is`: false for an empty selection or a selector that does not parse. */
  function Is(s: S.Selection, parsed: Option<NodeId -> bool>): (r: bool)
    ensures r == S.Is(s, parsed)
    ensures s.nodes == [] || parsed.None? ==> !r
  {
    if |s.nodes| > 0 then
      match parsed
      case Some(m) => IsMatcher(s, m)
      case None => false
    else false
  }

  /** `iter().find(..)`: the first node whose id is in `ids`. */
  function FindIn(rs: seq<S.NodeRef>, ids: set<NodeId>): (r: Option<S.NodeRef>)
    ensures r.None? <==> forall k :: 0 <= k < |rs| ==> rs[k].id !in ids
    ensures r.Some? ==> exists k :: (0 <= k < |rs| && rs[k] == r.value && r.value.id in ids
      && forall j :: 0 <= j < k ==> rs[j].id !in ids)
    decreases |rs|
  {
    if rs == [] then None
    else if rs[0].id in ids then Some(rs[0])
    else
      var rest := FindIn(rs[1..], ids);
      assert forall k :: 1 <= k < |rs| ==> rs[k] == rs[1..][k - 1];
      rest
  }

  /** The ids of a selection collected into a set. */
  function IdSet(rs: seq<S.NodeRef>): (r: set<NodeId>)
    ensures forall y :: y in r <==> y in S.Ids(rs)
  {
    set k | 0 <= k < |rs| :: rs[k].id
  }

  /** `is_selection`: both non-empty, and the search for a shared id succeeds. */
  function IsSelection(s: S.Selection, o: S.Selection): (r: bool)
    ensures r == S.IsSelection(s, o)
  {
    if |s.nodes| == 0 || |o.nodes| == 0 then false
    else FindIn(s.nodes, IdSet(o.nodes)).Some?
  }
}
