/**
 * `normalize` and `strip_elements` (src/node/node_ref.rs) on a tree of
 * values: a node is its payload and the ordered list of its children (the
 * child chain of the arena read from first to last child).  Each method is
 * the source's sibling-cursor loop over that list, proved equal to a
 * function of the old subtree; what the source promises is proved about the
 * functions.
 */
module Forest {
  import opened Arena
  import opened Chains

  datatype Node = Node(data: NodeData, kids: seq<Node>)

  /** `may_have_children`: documents, fragments and elements. */
  predicate Container(n: Node)
  {
    n.data.Document? || n.data.Fragment? || n.data.ElementData?
  }

  predicate IsTextNode(n: Node) { n.data.Text? }

  /** `text_of`: a text node's contents; a container's children's texts in order; nothing otherwise. */
  function TextOf(n: Node): string
    decreases n
  {
    if n.data.Text? then n.data.contents
    else if Container(n) then KidsText(n.kids)
    else ""
  }

  function KidsText(cs: seq<Node>): string
    decreases cs
  {
    if cs == [] then "" else TextOf(cs[0]) + KidsText(cs[1..])
  }

  lemma {:induction false} KidsTextConcat(a: seq<Node>, b: seq<Node>)
    ensures KidsText(a + b) == KidsText(a) + KidsText(b)
    decreases |a|
  {
    if a != [] {
      assert (a + b)[0] == a[0] && (a + b)[1..] == a[1..] + b;
      KidsTextConcat(a[1..], b);
      assert KidsText(a + b) == TextOf(a[0]) + (KidsText(a[1..]) + KidsText(b));
    } else {
      assert a + b == b;
    }
  }

  // ----- normalize -----

  /**
   * The loop of `normalize` over the child list `cs`, with `text` the
   * contents gathered from the text nodes just removed.  A text node adds
   * its contents to `text`; it keeps the whole of `text` (through
   * `set_text`) when the next sibling is not a text node and `text` is not
   * empty, and is removed otherwise.  A container is normalized in turn;
   * any other node stays as it is.
   */
  function NormalizeKids(cs: seq<Node>, text: string): seq<Node>
    decreases cs
  {
    if cs == [] then []
    else
      var c := cs[0];
      var rest := cs[1..];
      if c.data.Text? then
        var t := text + c.data.contents;
        if !(rest != [] && rest[0].data.Text?) && t != [] then [Node(Text(t), c.kids)] + NormalizeKids(rest, "")
        else NormalizeKids(rest, t)
      else if Container(c) then [Normalized(c)] + NormalizeKids(rest, text)
      else [c] + NormalizeKids(rest, text)
  }

  /** The node after `normalize`: its child list run through the loop with nothing gathered yet. */
  function Normalized(n: Node): Node
    decreases n
  {
    Node(n.data, NormalizeKids(n.kids, ""))
  }

  /** No empty text node and no two adjacent text nodes in a child list. */
  predicate Tidy(cs: seq<Node>)
  {
    && (forall i :: 0 <= i < |cs| && cs[i].data.Text? ==> cs[i].data.contents != [])
    && (forall i :: 0 <= i < |cs| - 1 ==> !(cs[i].data.Text? && cs[i + 1].data.Text?))
  }

  /** Every child list from `n` down through containers is tidy. */
  predicate NormalForm(n: Node)
    decreases n
  {
    Tidy(n.kids) && forall i :: 0 <= i < |n.kids| ==> Container(n.kids[i]) ==> NormalForm(n.kids[i])
  }

  /** `NodeRef::normalize`: the sibling loop, recursing into children that may have children. */
  method Normalize(n: Node) returns (r: Node)
    ensures r == Normalized(n)
    decreases n
  {
    var kids := n.kids;
    var out: seq<Node> := [];
    var text: string := "";
    var i := 0;
    while i < |kids|
      invariant 0 <= i <= |kids|
      invariant out + NormalizeKids(kids[i..], text) == NormalizeKids(kids, "")
    {
      var node := kids[i];
      var nextIsText := i + 1 < |kids| && kids[i + 1].data.Text?;
      assert kids[i..][0] == node && kids[i..][1..] == kids[i + 1..];
      assert nextIsText == (kids[i + 1..] != [] && kids[i + 1..][0].data.Text?);
      if node.data.Text? {
        text := text + node.data.contents;
        if !nextIsText && text != [] {
          ConcatAssoc(out, [Node(Text(text), node.kids)], NormalizeKids(kids[i + 1..], ""));
          out := out + [Node(Text(text), node.kids)];
          text := "";
        }
      } else if Container(node) {
        var m := Normalize(node);
        ConcatAssoc(out, [m], NormalizeKids(kids[i + 1..], text));
        out := out + [m];
      } else {
        ConcatAssoc(out, [node], NormalizeKids(kids[i + 1..], text));
        out := out + [node];
      }
      i := i + 1;
    }
    assert kids[i..] == [];
    r := Node(n.data, out);
  }

  /**
   * The loop leaves a tidy list whose containers are in normal form, and it
   * starts with a text node only when the input did.
   */
  lemma {:induction false} NormalizeKidsTidy(cs: seq<Node>, text: string)
    ensures var r := NormalizeKids(cs, text);
      && Tidy(r)
      && (forall i :: 0 <= i < |r| ==> Container(r[i]) ==> NormalForm(r[i]))
      && (r != [] && r[0].data.Text? ==> cs != [] && cs[0].data.Text?)
    decreases cs
  {
    if cs != [] {
      var c := cs[0];
      var rest := cs[1..];
      if c.data.Text? {
        var t := text + c.data.contents;
        if !(rest != [] && rest[0].data.Text?) && t != [] {
          NormalizeKidsTidy(rest, "");
        } else {
          NormalizeKidsTidy(rest, t);
        }
      } else if Container(c) {
        NormalizedNormal(c);
        NormalizeKidsTidy(rest, text);
      } else {
        NormalizeKidsTidy(rest, text);
      }
    }
  }

  /**
   * After `normalize` no child list in the subtree holds an empty text node
   * or two adjacent text nodes.
   */
  lemma {:induction false} NormalizedNormal(n: Node)
    ensures NormalForm(Normalized(n))
    decreases n
  {
    NormalizeKidsTidy(n.kids, "");
  }

  /**
   * The loop keeps the text: the gathered `text` followed by the list's
   * text, provided `text` is only carried into a text node.
   */
  lemma {:induction false} NormalizeKidsText(cs: seq<Node>, text: string)
    requires text == [] || (cs != [] && cs[0].data.Text?)
    ensures KidsText(NormalizeKids(cs, text)) == text + KidsText(cs)
    decreases cs
  {
    if cs == [] {
      assert text + "" == text;
    } else {
      var c := cs[0];
      var rest := cs[1..];
      assert KidsText(cs) == TextOf(c) + KidsText(rest);
      if c.data.Text? {
        var t := text + c.data.contents;
        ConcatAssoc(text, c.data.contents, KidsText(rest));
        if !(rest != [] && rest[0].data.Text?) && t != [] {
          NormalizeKidsText(rest, "");
          assert KidsText([Node(Text(t), c.kids)] + NormalizeKids(rest, "")) == t + KidsText(NormalizeKids(rest, ""));
          assert "" + KidsText(rest) == KidsText(rest);
        } else {
          NormalizeKidsText(rest, t);
        }
      } else {
        assert text == [];
        assert text + KidsText(cs) == KidsText(cs);
        if Container(c) {
          NormalizedText(c);
          NormalizeKidsText(rest, text);
          assert KidsText([Normalized(c)] + NormalizeKids(rest, text)) == TextOf(Normalized(c)) + KidsText(NormalizeKids(rest, text));
        } else {
          NormalizeKidsText(rest, text);
          assert KidsText([c] + NormalizeKids(rest, text)) == TextOf(c) + KidsText(NormalizeKids(rest, text));
        }
      }
    }
  }

  /** `normalize` keeps the subtree's text: each run of texts ends up concatenated in its last node. */
  lemma NormalizedText(n: Node)
    ensures TextOf(Normalized(n)) == TextOf(n)
    decreases n, 0
  {
    NormalizeKidsText(n.kids, "");
  }

  /** On a list already tidy with normalized containers the loop changes nothing. */
  lemma {:induction false} NormalizeKidsFixed(cs: seq<Node>)
    requires Tidy(cs) && forall i :: 0 <= i < |cs| ==> Container(cs[i]) ==> NormalForm(cs[i])
    ensures NormalizeKids(cs, "") == cs
    decreases cs
  {
    if cs != [] {
      var c := cs[0];
      var rest := cs[1..];
      assert Tidy(rest) by {
        forall i | 0 <= i < |rest| - 1
          ensures !(rest[i].data.Text? && rest[i + 1].data.Text?)
        {
          assert rest[i] == cs[i + 1] && rest[i + 1] == cs[i + 2];
        }
      }
      assert forall i :: 0 <= i < |rest| ==> rest[i] == cs[i + 1];
      NormalizeKidsFixed(rest);
      if c.data.Text? {
        assert "" + c.data.contents == c.data.contents;
        if rest != [] {
          assert !rest[0].data.Text? by {
            assert rest[0] == cs[1];
          }
        }
        assert Node(Text(c.data.contents), c.kids) == c;
      } else if Container(c) {
        NormalFormFixed(c);
      }
      assert [c] + rest == cs;
    }
  }

  /** A subtree in normal form is left as it is. */
  lemma {:induction false} NormalFormFixed(n: Node)
    requires NormalForm(n)
    ensures Normalized(n) == n
    decreases n
  {
    NormalizeKidsFixed(n.kids);
  }

  /** Normalizing twice is normalizing once. */
  lemma NormalizeIdempotent(n: Node)
    ensures Normalized(Normalized(n)) == Normalized(n)
  {
    NormalizedNormal(n);
    NormalFormFixed(Normalized(n));
  }

  // ----- strip_elements -----

  /** An element whose local name is one of `names`. */
  predicate Listed(n: Node, names: seq<string>)
  {
    n.data.ElementData? && n.data.element.name.local in names
  }

  /**
   * The loop of `strip_elements`: each container is stripped first; a
   * listed element then gives way to its (stripped) children, which
   * `insert_siblings_before` moves in order to its place before the element
   * is detached; everything else stays.
   */
  function StripKids(cs: seq<Node>, names: seq<string>): seq<Node>
    decreases cs
  {
    if cs == [] then []
    else
      var c := cs[0];
      var s := if Container(c) then Stripped(c, names) else c;
      (if Listed(c, names) then s.kids else [s]) + StripKids(cs[1..], names)
  }

  /** The node after `strip_elements(names)`; an empty list returns at once. */
  function Stripped(n: Node, names: seq<string>): Node
    decreases n
  {
    if names == [] then n else Node(n.data, StripKids(n.kids, names))
  }

  /** No listed element anywhere in the child lists from `cs` down through containers. */
  predicate Clean(cs: seq<Node>, names: seq<string>)
    decreases cs
  {
    forall i :: 0 <= i < |cs| ==> !Listed(cs[i], names) && (Container(cs[i]) ==> Clean(cs[i].kids, names))
  }

  /** `NodeRef::strip_elements`: the sibling loop, descendants before their ancestor. */
  method StripElements(n: Node, names: seq<string>) returns (r: Node)
    ensures r == Stripped(n, names)
    ensures names == [] ==> r == n
    decreases n
  {
    if names == [] {
      return n;
    }
    var kids := n.kids;
    var out: seq<Node> := [];
    var i := 0;
    while i < |kids|
      invariant 0 <= i <= |kids|
      invariant out + StripKids(kids[i..], names) == StripKids(kids, names)
    {
      var child := kids[i];
      assert kids[i..][0] == child && kids[i..][1..] == kids[i + 1..];
      var s := child;
      if Container(child) {
        s := StripElements(child, names);
      }
      var moved := if Listed(child, names) then s.kids else [s];
      ConcatAssoc(out, moved, StripKids(kids[i + 1..], names));
      out := out + moved;
      i := i + 1;
    }
    assert kids[i..] == [];
    r := Node(n.data, out);
  }

  lemma CleanConcat(a: seq<Node>, b: seq<Node>, names: seq<string>)
    requires Clean(a, names) && Clean(b, names)
    ensures Clean(a + b, names)
  {
    forall i | 0 <= i < |a + b|
      ensures !Listed((a + b)[i], names) && (Container((a + b)[i]) ==> Clean((a + b)[i].kids, names))
    {
      if i < |a| {
        assert (a + b)[i] == a[i];
      } else {
        assert (a + b)[i] == b[i - |a|];
      }
    }
  }

  /** With a name to strip, no listed element is left below the node. */
  lemma {:induction false} StrippedClean(n: Node, names: seq<string>)
    requires names != []
    ensures Clean(Stripped(n, names).kids, names)
    decreases n
  {
    StripKidsClean(n.kids, names);
  }

  lemma {:induction false} StripKidsClean(cs: seq<Node>, names: seq<string>)
    requires names != []
    ensures Clean(StripKids(cs, names), names)
    decreases cs
  {
    if cs != [] {
      var c := cs[0];
      var s := if Container(c) then Stripped(c, names) else c;
      if Container(c) {
        StrippedClean(c, names);
      }
      StripKidsClean(cs[1..], names);
      var head := if Listed(c, names) then s.kids else [s];
      assert Clean(head, names);
      CleanConcat(head, StripKids(cs[1..], names), names);
    }
  }

  /** `strip_elements` keeps the text: a removed element's text is its children's, now in its place. */
  lemma {:induction false} StrippedText(n: Node, names: seq<string>)
    ensures TextOf(Stripped(n, names)) == TextOf(n)
    decreases n
  {
    if names != [] {
      StripKidsText(n.kids, names);
    }
  }

  lemma {:induction false} StripKidsText(cs: seq<Node>, names: seq<string>)
    requires names != []
    ensures KidsText(StripKids(cs, names)) == KidsText(cs)
    decreases cs
  {
    if cs != [] {
      var c := cs[0];
      var s := if Container(c) then Stripped(c, names) else c;
      if Container(c) {
        StrippedText(c, names);
      }
      StripKidsText(cs[1..], names);
      var head := if Listed(c, names) then s.kids else [s];
      KidsTextConcat(head, StripKids(cs[1..], names));
      if !Listed(c, names) {
        assert KidsText([s]) == TextOf(s);
      }
    }
  }

  /** On a clean list the loop changes nothing. */
  lemma {:induction false} CleanFixed(cs: seq<Node>, names: seq<string>)
    requires names != [] && Clean(cs, names)
    ensures StripKids(cs, names) == cs
    decreases cs
  {
    if cs != [] {
      var c := cs[0];
      assert Clean(cs[1..], names) by {
        assert forall i :: 0 <= i < |cs| - 1 ==> cs[1..][i] == cs[i + 1];
      }
      CleanFixed(cs[1..], names);
      if Container(c) {
        CleanFixed(c.kids, names);
        assert Stripped(c, names) == c;
      }
      assert [c] + cs[1..] == cs;
    }
  }

  /** Stripping twice is stripping once. */
  lemma StripIdempotent(n: Node, names: seq<string>)
    ensures Stripped(Stripped(n, names), names) == Stripped(n, names)
  {
    if names != [] {
      StrippedClean(n, names);
      CleanFixed(Stripped(n, names).kids, names);
    }
  }
}
