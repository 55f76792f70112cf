/**
 * Order-preserving sequence relations shared by the attribute list and the
 * selection layer: subsequences and the absence of repeated entries.
 */
module Seqs {

  /** `a` is `b` with some entries dropped and the rest kept in order. */
  predicate IsSubseq<T(==)>(a: seq<T>, b: seq<T>)
    decreases |b|
  {
    if a == [] then true
    else if b == [] then false
    else if a[0] == b[0] then IsSubseq(a[1..], b[1..])
    else IsSubseq(a, b[1..])
  }

  /** No entry occurs twice. */
  predicate NoDups<T(==)>(s: seq<T>)
  {
    forall i, j :: 0 <= i < j < |s| ==> s[i] != s[j]
  }

  /** Every entry of a subsequence is an entry of the whole. */
  lemma {:induction false} SubseqMembers<T>(a: seq<T>, b: seq<T>, x: T)
    requires IsSubseq(a, b) && x in a
    ensures x in b
    decreases |b|
  {
    if a[0] == b[0] {
      if x != a[0] {
        assert x in a[1..];
        SubseqMembers(a[1..], b[1..], x);
      }
    } else {
      SubseqMembers(a, b[1..], x);
    }
  }

  /** Every sequence is a subsequence of itself. */
  lemma {:induction false} SubseqRefl<T>(b: seq<T>)
    ensures IsSubseq(b, b)
    decreases |b|
  {
    if b != [] {
      SubseqRefl(b[1..]);
    }
  }

  /** Prepending an entry to both sides keeps a subsequence. */
  lemma SubseqCons<T>(x: T, a: seq<T>, b: seq<T>)
    requires IsSubseq(a, b)
    ensures IsSubseq([x] + a, [x] + b)
  {
    assert ([x] + a)[1..] == a && ([x] + b)[1..] == b;
  }

  /** Prepending an entry to the whole keeps a subsequence. */
  lemma {:induction false} SubseqSkip<T>(x: T, a: seq<T>, b: seq<T>)
    requires IsSubseq(a, b)
    ensures IsSubseq(a, [x] + b)
    decreases |b|, 1
  {
    assert ([x] + b)[1..] == b;
    if a != [] && a[0] == x {
      SubseqDropHead(a, b);
    }
  }

  /** Dropping the first entry of a subsequence keeps a subsequence. */
  lemma {:induction false} SubseqDropHead<T>(a: seq<T>, b: seq<T>)
    requires IsSubseq(a, b) && a != []
    ensures IsSubseq(a[1..], b)
    decreases |b|, 0
  {
    if a[0] == b[0] {
      SubseqSkip(b[0], a[1..], b[1..]);
    } else {
      SubseqDropHead(a, b[1..]);
      SubseqSkip(b[0], a[1..], b[1..]);
    }
    assert [b[0]] + b[1..] == b;
  }

  /** A subsequence of a dup-free sequence is dup-free. */
  lemma {:induction false} SubseqNoDups<T>(a: seq<T>, b: seq<T>)
    requires IsSubseq(a, b) && NoDups(b)
    ensures NoDups(a)
    decreases |b|
  {
    if a != [] && b != [] {
      assert NoDups(b[1..]) by {
        forall i, j | 0 <= i < j < |b| - 1
          ensures b[1..][i] != b[1..][j]
        {
          assert b[1..][i] == b[i + 1] && b[1..][j] == b[j + 1];
        }
      }
      if a[0] == b[0] {
        SubseqNoDups(a[1..], b[1..]);
        forall j | 0 < j < |a|
          ensures a[0] != a[j]
        {
          assert a[j] in a[1..] by {
            assert a[1..][j - 1] == a[j];
          }
          SubseqMembers(a[1..], b[1..], a[j]);
          var m :| 0 <= m < |b| - 1 && b[1..][m] == a[j];
          assert b[m + 1] == a[j];
        }
        forall i, j | 0 <= i < j < |a|
          ensures a[i] != a[j]
        {
          if i > 0 {
            assert a[1..][i - 1] == a[i] && a[1..][j - 1] == a[j];
          }
        }
      } else {
        SubseqNoDups(a, b[1..]);
      }
    }
  }

  /** A one-entry sequence is a subsequence of every sequence ending in that entry. */
  lemma {:induction false} SubseqLast<T>(b: seq<T>, x: T)
    ensures IsSubseq([x], b + [x])
    decreases |b|
  {
    if b != [] && b[0] != x {
      assert (b + [x])[1..] == b[1..] + [x];
      SubseqLast(b[1..], x);
    }
  }

  /** Appending an entry to the whole, or to both sides, keeps a subsequence. */
  lemma {:induction false} SubseqSnoc<T>(a: seq<T>, b: seq<T>, x: T)
    requires IsSubseq(a, b)
    ensures IsSubseq(a, b + [x]) && IsSubseq(a + [x], b + [x])
    decreases |b|
  {
    if a == [] {
      SubseqLast(b, x);
      assert a + [x] == [x];
    } else {
      assert (a + [x])[0] == a[0] && (a + [x])[1..] == a[1..] + [x];
      assert (b + [x])[0] == b[0] && (b + [x])[1..] == b[1..] + [x];
      if a[0] == b[0] {
        SubseqSnoc(a[1..], b[1..], x);
      } else {
        SubseqSnoc(a, b[1..], x);
      }
    }
  }

  /** A non-empty sequence holds its first entry. */
  lemma FirstIn<T>(s: seq<T>)
    ensures s != [] ==> s[0] in s
  {
  }
}
