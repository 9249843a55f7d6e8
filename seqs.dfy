/** Sequence combinators shared by the tokenizer, the index and the title-scan query:
    the list comprehensions `[f(x) for x in s]` and `[x for x in s if p(x)]`,
    string concatenation of a list, and "is a subsequence of" (order-preserving deletion). */
module Seqs {

  /** xs is obtained from ys by deleting some elements; the kept ones stay in order. */
  ghost predicate IsSubsequence<T>(xs: seq<T>, ys: seq<T>)
    decreases |ys|
  {
    if xs == [] then true
    else if ys == [] then false
    else (xs[0] == ys[0] && IsSubsequence(xs[1..], ys[1..])) || IsSubsequence(xs, ys[1..])
  }

  /** `[x for x in s if p(x)]`. */
  function Filter<T>(p: T -> bool, s: seq<T>): (r: seq<T>)
    ensures |r| <= |s|
  {
    if s == [] then []
    else if p(s[0]) then [s[0]] + Filter(p, s[1..])
    else Filter(p, s[1..])
  }

  /** The kept elements stay in their order. */
  lemma {:induction false} FilterSubsequence<T>(p: T -> bool, s: seq<T>)
    ensures IsSubsequence(Filter(p, s), s)
    decreases |s|
  {
    if s != [] {
      FilterSubsequence(p, s[1..]);
      if p(s[0]) {
        var rest := Filter(p, s[1..]);
        assert ([s[0]] + rest)[1..] == rest;
      }
    }
  }

  /** An element is kept exactly when it satisfies p. */
  lemma {:induction false} FilterMembers<T>(p: T -> bool, s: seq<T>)
    ensures forall i :: 0 <= i < |Filter(p, s)| ==> Filter(p, s)[i] in s && p(Filter(p, s)[i])
    ensures forall i :: 0 <= i < |s| && p(s[i]) ==> s[i] in Filter(p, s)
    decreases |s|
  {
    if s != [] {
      FilterMembers(p, s[1..]);
      var rest := Filter(p, s[1..]);
      assert forall i :: 1 <= i < |s| ==> s[i] == s[1..][i - 1];
      if p(s[0]) {
        assert Filter(p, s) == [s[0]] + rest;
        assert forall i :: 1 <= i < |Filter(p, s)| ==> Filter(p, s)[i] == rest[i - 1];
      }
    }
  }

  /** `[f(x) for x in s]`. */
  function Map<T, U>(f: T -> U, s: seq<T>): (r: seq<U>)
    ensures |r| == |s|
    ensures forall i :: 0 <= i < |s| ==> r[i] == f(s[i])
  {
    if s == [] then [] else [f(s[0])] + Map(f, s[1..])
  }

  /** `"".join(ws)`. */
  function Flatten<T>(ws: seq<seq<T>>): (r: seq<T>)
    ensures forall i, k :: 0 <= i < |ws| && 0 <= k < |ws[i]| ==> ws[i][k] in r
  {
    if ws == [] then []
    else
      var rest := Flatten(ws[1..]);
      assert forall i :: 1 <= i < |ws| ==> ws[i] == ws[1..][i - 1];
      ws[0] + rest
  }

  lemma {:induction false} FilterConcat<T>(p: T -> bool, a: seq<T>, b: seq<T>)
    ensures Filter(p, a + b) == Filter(p, a) + Filter(p, b)
    decreases |a|
  {
    if a == [] {
      assert a + b == b;
    } else {
      assert (a + b)[0] == a[0];
      assert (a + b)[1..] == a[1..] + b;
      FilterConcat(p, a[1..], b);
    }
  }

  /** Keeping nothing back: when every element passes, the filter is the identity. */
  lemma {:induction false} FilterAll<T>(p: T -> bool, s: seq<T>)
    requires forall i :: 0 <= i < |s| ==> p(s[i])
    ensures Filter(p, s) == s
    decreases |s|
  {
    if s != [] {
      assert p(s[0]);
      FilterAll(p, s[1..]);
      assert [s[0]] + s[1..] == s;
    }
  }

  lemma {:induction false} MapConcat<T, U>(f: T -> U, a: seq<T>, b: seq<T>)
    ensures Map(f, a + b) == Map(f, a) + Map(f, b)
  {
    var l, r := Map(f, a + b), Map(f, a) + Map(f, b);
    assert |l| == |r|;
    forall i | 0 <= i < |l| ensures l[i] == r[i] {
      if i < |a| {
        assert (a + b)[i] == a[i];
      } else {
        assert (a + b)[i] == b[i - |a|];
      }
    }
  }

  lemma {:induction false} FlattenConcat<T>(a: seq<seq<T>>, b: seq<seq<T>>)
    ensures Flatten(a + b) == Flatten(a) + Flatten(b)
    decreases |a|
  {
    if a == [] {
      assert a + b == b;
    } else {
      assert (a + b)[1..] == a[1..] + b;
      FlattenConcat(a[1..], b);
    }
  }

  /** A subsequence of a prefix is a subsequence of the whole. */
  lemma {:induction false} SubsequenceExtend<T>(xs: seq<T>, ys: seq<T>, zs: seq<T>)
    requires IsSubsequence(xs, ys)
    ensures IsSubsequence(xs, ys + zs)
    decreases |ys|
  {
    if xs != [] && ys != [] {
      assert (ys + zs)[0] == ys[0];
      assert (ys + zs)[1..] == ys[1..] + zs;
      if xs[0] == ys[0] && IsSubsequence(xs[1..], ys[1..]) {
        SubsequenceExtend(xs[1..], ys[1..], zs);
      } else {
        SubsequenceExtend(xs, ys[1..], zs);
      }
    }
  }
}
