/** Sequence helpers behind the list comprehensions and `"".join` calls of the
    word-counting pipeline. */
module Seqs {

  /** `[x for x in s if p(x)]`: the elements of `s` that satisfy `p`, in their order. */
  function Filter<T>(s: seq<T>, p: T -> bool): (r: seq<T>)
    ensures |r| <= |s|
  {
    if |s| == 0 then [] else Filter(s[..|s| - 1], p) + (if p(s[|s| - 1]) then [s[|s| - 1]] else [])
  }

  lemma FilterSnoc<T>(s: seq<T>, x: T, p: T -> bool)
    ensures Filter(s + [x], p) == Filter(s, p) + (if p(x) then [x] else [])
  {
    assert (s + [x])[..|s|] == s;
  }

  lemma {:induction false} FilterAppend<T>(a: seq<T>, b: seq<T>, p: T -> bool)
    ensures Filter(a + b, p) == Filter(a, p) + Filter(b, p)
    decreases |b|
  {
    if |b| > 0 {
      var init, last := b[..|b| - 1], b[|b| - 1];
      assert b == init + [last];
      assert a + b == (a + init) + [last];
      FilterAppend(a, init, p);
      FilterSnoc(a + init, last, p);
      FilterSnoc(init, last, p);
    } else {
      assert a + b == a;
    }
  }

  /** Unfolding `Filter` at the front, for proofs that walk a string left to right. */
  lemma FilterCons<T>(x: T, s: seq<T>, p: T -> bool)
    ensures Filter([x] + s, p) == (if p(x) then [x] else []) + Filter(s, p)
  {
    FilterAppend([x], s, p);
    FilterSnoc([], x, p);
  }

  lemma {:induction false} FilterMember<T>(s: seq<T>, p: T -> bool, x: T)
    ensures x in Filter(s, p) <==> x in s && p(x)
    decreases |s|
  {
    if |s| > 0 {
      var init := s[..|s| - 1];
      assert s == init + [s[|s| - 1]];
      FilterMember(init, p, x);
    }
  }

  lemma {:induction false} FilterMultiplicity<T>(s: seq<T>, p: T -> bool, x: T)
    ensures multiset(Filter(s, p))[x] == if p(x) then multiset(s)[x] else 0
    decreases |s|
  {
    if |s| > 0 {
      var init := s[..|s| - 1];
      assert s == init + [s[|s| - 1]];
      FilterMultiplicity(init, p, x);
    }
  }

  /** A filter leaves a sequence unchanged when every element passes. */
  lemma {:induction false} FilterKeepsAll<T>(s: seq<T>, p: T -> bool)
    requires forall i :: 0 <= i < |s| ==> p(s[i])
    ensures Filter(s, p) == s
    decreases |s|
  {
    if |s| > 0 {
      var init := s[..|s| - 1];
      assert s == init + [s[|s| - 1]];
      FilterKeepsAll(init, p);
    }
  }

  lemma {:induction false} FilterIdempotent<T>(s: seq<T>, p: T -> bool)
    ensures Filter(Filter(s, p), p) == Filter(s, p)
    decreases |s|
  {
    if |s| > 0 {
      var init, last := s[..|s| - 1], s[|s| - 1];
      FilterIdempotent(init, p);
      var tail := if p(last) then [last] else [];
      FilterAppend(Filter(init, p), tail, p);
      FilterSnoc([], last, p);
    }
  }

  /** `rank` strictly increases along `s`. */
  ghost predicate IncreasingBy<T>(s: seq<T>, rank: T -> int)
  {
    forall i, j :: 0 <= i < j < |s| ==> rank(s[i]) < rank(s[j])
  }

  lemma IncreasingBySnoc<T>(s: seq<T>, x: T, rank: T -> int)
    requires IncreasingBy(s, rank)
    requires forall i :: 0 <= i < |s| ==> rank(s[i]) < rank(x)
    ensures IncreasingBy(s + [x], rank)
  {
    var t := s + [x];
    forall i, j | 0 <= i < j < |t| ensures rank(t[i]) < rank(t[j]) {
      assert t[i] == s[i];
    }
  }

  lemma IncreasingByAgree<T>(s: seq<T>, rank0: T -> int, rank: T -> int)
    requires IncreasingBy(s, rank0)
    requires forall i :: 0 <= i < |s| ==> rank(s[i]) == rank0(s[i])
    ensures IncreasingBy(s, rank)
  {
  }

  /** Filtering keeps the relative order of the elements it keeps. */
  lemma {:induction false} FilterKeepsOrder<T>(s: seq<T>, p: T -> bool, rank: T -> int)
    requires IncreasingBy(s, rank)
    ensures IncreasingBy(Filter(s, p), rank)
    decreases |s|
  {
    if |s| > 0 {
      var init, last := s[..|s| - 1], s[|s| - 1];
      FilterKeepsOrder(init, p, rank);
      var f := Filter(s, p);
      forall i, j | 0 <= i < j < |f|
        ensures rank(f[i]) < rank(f[j])
      {
        var fi := Filter(init, p);
        if j < |fi| {
          assert f[i] == fi[i] && f[j] == fi[j];
        } else {
          assert f[i] == fi[i] && fi[i] in fi;
          FilterMember(init, p, fi[i]);
          var k :| 0 <= k < |init| && init[k] == fi[i];
          assert s[k] == f[i] && s[|s| - 1] == f[j];
        }
      }
    }
  }

  /** `set(s)`: the elements of `s`. */
  function ElementsOf<T(==)>(s: seq<T>): set<T>
  {
    set x | x in s
  }

  /** `"".join(ps)`: the pieces concatenated in order. */
  function Join<T>(ps: seq<seq<T>>): seq<T>
  {
    if |ps| == 0 then [] else ps[0] + Join(ps[1..])
  }
}
