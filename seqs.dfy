/** `Array.prototype.filter` and the facts about it the rest of the model
    relies on. */
module Seqs {
  /** The elements of `s` that `keep` accepts, in their order. */
  function Filter<T>(s: seq<T>, keep: T -> bool): (r: seq<T>)
    ensures |r| <= |s|
    ensures forall i :: 0 <= i < |r| ==> keep(r[i])
    decreases |s|
  {
    if s == [] then []
    else
      var rest := Filter(s[1..], keep);
      if keep(s[0]) then
        assert forall i :: 1 <= i < 1 + |rest| ==> ([s[0]] + rest)[i] == rest[i - 1];
        [s[0]] + rest
      else rest
  }

  /** `xs` is `ys` with some elements left out, order kept. */
  predicate IsSubsequence<T(==)>(xs: seq<T>, ys: seq<T>)
    decreases |ys|
  {
    if xs == [] then true
    else if ys == [] then false
    else (xs[0] == ys[0] && IsSubsequence(xs[1..], ys[1..])) || IsSubsequence(xs, ys[1..])
  }

  /** Filtering keeps the order of what it keeps. */
  lemma {:induction false} FilterOrder<T>(s: seq<T>, keep: T -> bool)
    ensures IsSubsequence(Filter(s, keep), s)
    decreases |s|
  {
    if s != [] {
      var rest := Filter(s[1..], keep);
      FilterOrder(s[1..], keep);
      if keep(s[0]) {
        assert Filter(s, keep) == [s[0]] + rest;
        assert ([s[0]] + rest)[1..] == rest;
      } else {
        assert Filter(s, keep) == rest;
      }
    }
  }

  /** Filtering keeps every accepted element exactly as often as it occurs
      and nothing else. */
  lemma {:induction false} FilterCount<T>(s: seq<T>, keep: T -> bool)
    ensures forall x :: multiset(Filter(s, keep))[x] == if keep(x) then multiset(s)[x] else 0
    decreases |s|
  {
    if s != [] {
      var head := if keep(s[0]) then [s[0]] else [];
      var rest := Filter(s[1..], keep);
      FilterCount(s[1..], keep);
      assert Filter(s, keep) == head + rest;
      assert multiset(head + rest) == multiset(head) + multiset(rest);
      assert s == [s[0]] + s[1..];
      assert multiset(s) == multiset([s[0]]) + multiset(s[1..]);
    }
  }

  /** Membership after filtering: present before and accepted. */
  lemma {:induction false} FilterMembers<T>(s: seq<T>, keep: T -> bool)
    ensures forall x :: x in Filter(s, keep) <==> x in s && keep(x)
  {
    FilterCount(s, keep);
    forall x ensures x in Filter(s, keep) <==> x in s && keep(x) {
      assert x in Filter(s, keep) <==> multiset(Filter(s, keep))[x] > 0;
      assert x in s <==> multiset(s)[x] > 0;
    }
  }

  /** Filtering what one filter kept with a second test is filtering once
      with both. */
  lemma {:induction false} FilterFilter<T>(s: seq<T>, k1: T -> bool, k2: T -> bool, both: T -> bool)
    requires forall x :: both(x) == (k1(x) && k2(x))
    ensures Filter(Filter(s, k1), k2) == Filter(s, both)
    decreases |s|
  {
    if s != [] {
      FilterFilter(s[1..], k1, k2, both);
      var rest := Filter(s[1..], k1);
      if k1(s[0]) {
        assert Filter(s, k1) == [s[0]] + rest;
        assert ([s[0]] + rest)[1..] == rest;
      }
    }
  }

  /** No element occurs twice. */
  predicate Distinct<T(==)>(s: seq<T>) {
    forall i, j :: 0 <= i < j < |s| ==> s[i] != s[j]
  }

  /** A new element in front of a list without repeats gives a list
      without repeats. */
  lemma {:induction false} DistinctCons<T>(x: T, r: seq<T>, xr: seq<T>)
    requires xr == [x] + r && x !in r && Distinct(r)
    ensures Distinct(xr)
  {
    forall i, j | 0 <= i < j < |xr|
      ensures xr[i] != xr[j]
    {
      assert xr[j] == r[j - 1];
      if i > 0 {
        assert xr[i] == r[i - 1];
      } else {
        assert r[j - 1] in r;
      }
    }
  }

  /** Filtering a list without repeats gives a list without repeats. */
  lemma {:induction false} FilterDistinct<T>(s: seq<T>, keep: T -> bool)
    requires Distinct(s)
    ensures Distinct(Filter(s, keep))
    decreases |s|
  {
    if s != [] {
      var rest := Filter(s[1..], keep);
      assert Distinct(s[1..]) by {
        forall i, j | 0 <= i < j < |s[1..]|
          ensures s[1..][i] != s[1..][j]
        {
          assert s[1..][i] == s[i + 1] && s[1..][j] == s[j + 1];
        }
      }
      FilterDistinct(s[1..], keep);
      if keep(s[0]) {
        FilterMembers(s[1..], keep);
        assert s[0] !in s[1..] by {
          forall k | 0 <= k < |s[1..]|
            ensures s[1..][k] != s[0]
          {
            assert s[1..][k] == s[k + 1];
          }
        }
        DistinctCons(s[0], rest, Filter(s, keep));
      }
    }
  }
}
