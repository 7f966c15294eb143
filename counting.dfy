/** `collections.Counter` over a token list, `dict.fromkeys` de-duplication, and
    the stable sort by count, descending, that both `list.sort(key=..., reverse=True)`
    and `Counter.most_common()` perform. */
module Counting {
  import opened Seqs

  /** A (token, count) pair, as `Counter.items()` yields it. */
  type Entry = (string, nat)

  /** `Counter(ts)[t]`. */
  function Occurrences(ts: seq<string>, t: string): nat
  {
    multiset(ts)[t]
  }

  predicate NoDuplicates(s: seq<string>)
  {
    forall i, j :: 0 <= i < j < |s| ==> s[i] != s[j]
  }

  /** The keys of `Counter(ts)`, equally `list(dict.fromkeys(ts))`: every distinct
      token once, in the order in which it is first met. */
  function Distinct(ts: seq<string>): (d: seq<string>)
    ensures |d| <= |ts|
    ensures forall x :: x in d <==> x in ts
    ensures NoDuplicates(d)
  {
    if |ts| == 0 then []
    else
      var init, last := ts[..|ts| - 1], ts[|ts| - 1];
      assert ts == init + [last];
      var d := Distinct(init);
      if last in d then d else d + [last]
  }

  lemma DistinctSnoc(ts: seq<string>, x: string)
    ensures Distinct(ts + [x]) == if x in ts then Distinct(ts) else Distinct(ts) + [x]
  {
    assert (ts + [x])[..|ts|] == ts;
  }

  /** `len(Counter(ts))` is the number of distinct tokens. */
  lemma {:induction false} DistinctCount(ts: seq<string>)
    ensures |Distinct(ts)| == |ElementsOf(ts)|
    decreases |ts|
  {
    if |ts| > 0 {
      var init, last := ts[..|ts| - 1], ts[|ts| - 1];
      assert ts == init + [last];
      DistinctCount(init);
      DistinctSnoc(init, last);
      assert ElementsOf(ts) == ElementsOf(init) + {last};
    } else {
      assert ElementsOf(ts) == {};
    }
  }

  /** The position of the first occurrence of `x` in `ts`. */
  function FirstIndex(ts: seq<string>, x: string): (k: nat)
    requires x in ts
    ensures k < |ts| && ts[k] == x && x !in ts[..k]
  {
    if ts[0] == x then 0
    else
      var k := 1 + FirstIndex(ts[1..], x);
      assert ts[..k] == [ts[0]] + ts[1..][..k - 1];
      k
  }

  lemma FirstIndexUnique(ts: seq<string>, x: string, k: nat)
    requires k < |ts| && ts[k] == x && x !in ts[..k]
    ensures FirstIndex(ts, x) == k
  {
  }

  lemma FirstIndexSnoc(ts: seq<string>, x: string, y: string)
    requires y in ts + [x]
    ensures FirstIndex(ts + [x], y) == if y in ts then FirstIndex(ts, y) else |ts|
  {
    var t := ts + [x];
    if y in ts {
      var k := FirstIndex(ts, y);
      assert t[..k] == ts[..k];
      FirstIndexUnique(t, y, k);
    } else {
      assert t[..|ts|] == ts;
      FirstIndexUnique(t, y, |ts|);
    }
  }

  /** Where a token is first met in `ts` (-1 for a token that never occurs). */
  function FirstSeen(ts: seq<string>): string -> int
  {
    t => if t in ts then FirstIndex(ts, t) else -1
  }

  /** Where the token of an entry is first met in `ts`. */
  function FirstSeenEntry(ts: seq<string>): Entry -> int
  {
    (e: Entry) => if e.0 in ts then FirstIndex(ts, e.0) else -1
  }

  /** `dict.fromkeys` and `Counter` keep the order in which tokens are first met. */
  lemma {:induction false} DistinctInFirstSeenOrder(ts: seq<string>)
    ensures IncreasingBy(Distinct(ts), FirstSeen(ts))
    decreases |ts|
  {
    if |ts| > 0 {
      var init, last := ts[..|ts| - 1], ts[|ts| - 1];
      assert ts == init + [last];
      DistinctInFirstSeenOrder(init);
      DistinctSnoc(init, last);
      var d0 := Distinct(init);
      forall i | 0 <= i < |d0|
        ensures FirstSeen(ts)(d0[i]) == FirstSeen(init)(d0[i]) < |init|
      {
        assert d0[i] in init;
        FirstIndexSnoc(init, last, d0[i]);
      }
      IncreasingByAgree(d0, FirstSeen(init), FirstSeen(ts));
      if last !in init {
        FirstIndexSnoc(init, last, last);
        IncreasingBySnoc(d0, last, FirstSeen(ts));
      }
    }
  }

  /** The (key, count) pairs of `Counter(ts)` for the given keys. */
  function Tally(keys: seq<string>, ts: seq<string>): seq<Entry>
  {
    seq(|keys|, i requires 0 <= i < |keys| => (keys[i], Occurrences(ts, keys[i])))
  }

  /** `Counter(ts).items()`: each distinct token with its number of occurrences,
      in first-seen order. */
  function Items(ts: seq<string>): (r: seq<Entry>)
    ensures |r| == |ElementsOf(ts)|
    ensures DistinctKeys(r)
    ensures forall i :: 0 <= i < |r| ==> r[i].0 in ts && r[i].1 == Occurrences(ts, r[i].0)
  {
    DistinctCount(ts);
    Tally(Distinct(ts), ts)
  }

  /** `sum(count for _, count in es)`. */
  function SumCounts(es: seq<Entry>): nat
  {
    if |es| == 0 then 0 else SumCounts(es[..|es| - 1]) + es[|es| - 1].1
  }

  lemma SumCountsSnoc(es: seq<Entry>, e: Entry)
    ensures SumCounts(es + [e]) == SumCounts(es) + e.1
  {
    assert (es + [e])[..|es|] == es;
  }

  lemma {:induction false} TallyOneMore(keys: seq<string>, ts: seq<string>, x: string)
    requires NoDuplicates(keys)
    ensures SumCounts(Tally(keys, ts + [x])) == SumCounts(Tally(keys, ts)) + (if x in keys then 1 else 0)
    decreases |keys|
  {
    if |keys| > 0 {
      var init, last := keys[..|keys| - 1], keys[|keys| - 1];
      assert keys == init + [last];
      TallyOneMore(init, ts, x);
      assert Tally(keys, ts + [x]) == Tally(init, ts + [x]) + [(last, Occurrences(ts + [x], last))];
      assert Tally(keys, ts) == Tally(init, ts) + [(last, Occurrences(ts, last))];
      SumCountsSnoc(Tally(init, ts + [x]), (last, Occurrences(ts + [x], last)));
      SumCountsSnoc(Tally(init, ts), (last, Occurrences(ts, last)));
      assert multiset(ts + [x]) == multiset(ts) + multiset{x};
      assert x in keys <==> x in init || x == last;
      assert x == last ==> x !in init;
    }
  }

  /** The counts of `Counter(ts)` add up to the number of tokens. */
  lemma CounterTotal(ts: seq<string>)
    ensures SumCounts(Items(ts)) == |ts|
  {
    TallyTotal(ts);
  }

  lemma {:induction false} TallyTotal(ts: seq<string>)
    ensures SumCounts(Tally(Distinct(ts), ts)) == |ts|
    decreases |ts|
  {
    if |ts| > 0 {
      var init, last := ts[..|ts| - 1], ts[|ts| - 1];
      assert ts == init + [last];
      TallyTotal(init);
      DistinctSnoc(init, last);
      var d := Distinct(init);
      TallyOneMore(d, init, last);
      if last !in init {
        assert Tally(d + [last], ts) == Tally(d, ts) + [(last, Occurrences(ts, last))];
        SumCountsSnoc(Tally(d, ts), (last, Occurrences(ts, last)));
        assert multiset(ts) == multiset(init) + multiset{last};
      }
    }
  }

  /** Every entry of `Counter(ts).items()` is a token of `ts` with its exact count,
      and every token of `ts` has an entry. */
  lemma ItemsExact(ts: seq<string>, e: Entry)
    ensures e in Items(ts) <==> e.0 in ts && e.1 == Occurrences(ts, e.0)
  {
    var d := Distinct(ts);
    if e.0 in ts && e.1 == Occurrences(ts, e.0) {
      var i :| 0 <= i < |d| && d[i] == e.0;
      assert Items(ts)[i] == e;
    }
  }

  predicate DistinctKeys(es: seq<Entry>)
  {
    forall i, j :: 0 <= i < j < |es| ==> es[i].0 != es[j].0
  }

  lemma ItemsInFirstSeenOrder(ts: seq<string>)
    ensures DistinctKeys(Items(ts))
    ensures IncreasingBy(Items(ts), FirstSeenEntry(ts))
  {
    DistinctInFirstSeenOrder(ts);
    var d, es := Distinct(ts), Items(ts);
    forall i, j | 0 <= i < j < |es|
      ensures FirstSeenEntry(ts)(es[i]) < FirstSeenEntry(ts)(es[j])
    {
      assert es[i].0 == d[i] && es[j].0 == d[j];
      assert FirstSeen(ts)(d[i]) < FirstSeen(ts)(d[j]);
    }
  }

  // ---------------------------------------------------------------------------
  // Stable sort by count, descending
  // ---------------------------------------------------------------------------

  /** Inserts `e` after every entry whose count is at least `e`'s, scanning from
      the right: the step of a stable sort by count, descending. */
  function InsertByCount(s: seq<Entry>, e: Entry): seq<Entry>
  {
    if |s| == 0 || s[|s| - 1].1 >= e.1 then s + [e]
    else InsertByCount(s[..|s| - 1], e) + [s[|s| - 1]]
  }

  /** `sorted(s, key=lambda e: e[1], reverse=True)`, by insertion. */
  function SortedByCount(s: seq<Entry>): (r: seq<Entry>)
    ensures multiset(r) == multiset(s)
    ensures NonIncreasing(r)
  {
    if |s| == 0 then []
    else
      var init, last := s[..|s| - 1], s[|s| - 1];
      assert s == init + [last];
      InsertByCountPermutes(SortedByCount(init), last);
      InsertByCountSorted(SortedByCount(init), last);
      InsertByCount(SortedByCount(init), last)
  }

  predicate NonIncreasing(s: seq<Entry>)
  {
    forall i, j :: 0 <= i < j < |s| ==> s[i].1 >= s[j].1
  }

  function HasCount(c: nat): Entry -> bool
  {
    (e: Entry) => e.1 == c
  }

  /** The entries of `s` whose count is `c`, in their order in `s`. */
  function WithCount(s: seq<Entry>, c: nat): seq<Entry>
  {
    Filter(s, HasCount(c))
  }

  lemma {:induction false} InsertByCountPermutes(s: seq<Entry>, e: Entry)
    ensures multiset(InsertByCount(s, e)) == multiset(s) + multiset{e}
    ensures SumCounts(InsertByCount(s, e)) == SumCounts(s) + e.1
    decreases |s|
  {
    if |s| == 0 || s[|s| - 1].1 >= e.1 {
      SumCountsSnoc(s, e);
    } else {
      var init, last := s[..|s| - 1], s[|s| - 1];
      assert s == init + [last];
      InsertByCountPermutes(init, e);
      SumCountsSnoc(InsertByCount(init, e), last);
      SumCountsSnoc(init, last);
    }
  }

  /** Every count in `s` is at least `c`. */
  predicate AllAtLeast(s: seq<Entry>, c: nat)
  {
    forall i :: 0 <= i < |s| ==> s[i].1 >= c
  }

  lemma {:induction false} InsertByCountAtLeast(s: seq<Entry>, e: Entry, c: nat)
    requires AllAtLeast(s, c) && e.1 >= c
    ensures AllAtLeast(InsertByCount(s, e), c)
    decreases |s|
  {
    if |s| > 0 && s[|s| - 1].1 < e.1 {
      InsertByCountAtLeast(s[..|s| - 1], e, c);
    }
  }

  lemma {:induction false} InsertByCountSorted(s: seq<Entry>, e: Entry)
    requires NonIncreasing(s)
    ensures NonIncreasing(InsertByCount(s, e))
    decreases |s|
  {
    if |s| > 0 && s[|s| - 1].1 < e.1 {
      var init, last := s[..|s| - 1], s[|s| - 1];
      InsertByCountSorted(init, e);
      InsertByCountAtLeast(init, e, last.1);
    }
  }

  lemma {:induction false} InsertByCountStable(s: seq<Entry>, e: Entry, c: nat)
    ensures WithCount(InsertByCount(s, e), c) == WithCount(s, c) + (if e.1 == c then [e] else [])
    decreases |s|
  {
    if |s| == 0 || s[|s| - 1].1 >= e.1 {
      FilterSnoc(s, e, HasCount(c));
    } else {
      var init, last := s[..|s| - 1], s[|s| - 1];
      assert s == init + [last];
      InsertByCountStable(init, e, c);
      FilterSnoc(InsertByCount(init, e), last, HasCount(c));
      FilterSnoc(init, last, HasCount(c));
    }
  }

  /** No entry of `s` has the key `k`. */
  predicate KeyAbsent(s: seq<Entry>, k: string)
  {
    forall i :: 0 <= i < |s| ==> s[i].0 != k
  }

  lemma {:induction false} InsertByCountKeyAbsent(s: seq<Entry>, e: Entry, k: string)
    requires KeyAbsent(s, k) && e.0 != k
    ensures KeyAbsent(InsertByCount(s, e), k)
    decreases |s|
  {
    if |s| > 0 && s[|s| - 1].1 < e.1 {
      InsertByCountKeyAbsent(s[..|s| - 1], e, k);
    }
  }

  lemma {:induction false} InsertByCountKeys(s: seq<Entry>, e: Entry)
    requires DistinctKeys(s) && KeyAbsent(s, e.0)
    ensures DistinctKeys(InsertByCount(s, e))
    decreases |s|
  {
    if |s| > 0 && s[|s| - 1].1 < e.1 {
      var init, last := s[..|s| - 1], s[|s| - 1];
      InsertByCountKeys(init, e);
      InsertByCountKeyAbsent(init, e, last.0);
    }
  }

  lemma {:induction false} SortedByCountTotal(s: seq<Entry>)
    ensures SumCounts(SortedByCount(s)) == SumCounts(s)
    decreases |s|
  {
    if |s| > 0 {
      var init, last := s[..|s| - 1], s[|s| - 1];
      assert s == init + [last];
      SortedByCountTotal(init);
      InsertByCountPermutes(SortedByCount(init), last);
      SumCountsSnoc(init, last);
    }
  }

  lemma {:induction false} SortedByCountStable(s: seq<Entry>, c: nat)
    ensures WithCount(SortedByCount(s), c) == WithCount(s, c)
    decreases |s|
  {
    if |s| > 0 {
      var init, last := s[..|s| - 1], s[|s| - 1];
      assert s == init + [last];
      SortedByCountStable(init, c);
      InsertByCountStable(SortedByCount(init), last, c);
      FilterSnoc(init, last, HasCount(c));
    }
  }

  lemma {:induction false} SortedByCountKeyAbsent(s: seq<Entry>, k: string)
    requires KeyAbsent(s, k)
    ensures KeyAbsent(SortedByCount(s), k)
    decreases |s|
  {
    if |s| > 0 {
      SortedByCountKeyAbsent(s[..|s| - 1], k);
      InsertByCountKeyAbsent(SortedByCount(s[..|s| - 1]), s[|s| - 1], k);
    }
  }

  lemma {:induction false} SortedByCountKeys(s: seq<Entry>)
    requires DistinctKeys(s)
    ensures DistinctKeys(SortedByCount(s))
    decreases |s|
  {
    if |s| > 0 {
      var init, last := s[..|s| - 1], s[|s| - 1];
      SortedByCountKeys(init);
      SortedByCountKeyAbsent(init, last.0);
      InsertByCountKeys(SortedByCount(init), last);
    }
  }

  /** The sort orders by count, descending, is a permutation, and keeps the
      relative order of entries with equal counts. */
  lemma SortedByCountCorrect(s: seq<Entry>)
    ensures NonIncreasing(SortedByCount(s))
    ensures multiset(SortedByCount(s)) == multiset(s)
    ensures SumCounts(SortedByCount(s)) == SumCounts(s)
    ensures forall c :: WithCount(SortedByCount(s), c) == WithCount(s, c)
    ensures DistinctKeys(s) ==> DistinctKeys(SortedByCount(s))
  {
    SortedByCountTotal(s);
    forall c ensures WithCount(SortedByCount(s), c) == WithCount(s, c) {
      SortedByCountStable(s, c);
    }
    if DistinctKeys(s) {
      SortedByCountKeys(s);
    }
  }

  /** `Counter(ts).most_common()`: the items sorted by count, descending, ties in
      first-seen order. */
  function MostCommon(ts: seq<string>): (r: seq<Entry>)
    ensures |r| == |ElementsOf(ts)|
    ensures multiset(r) == multiset(Items(ts))
    ensures NonIncreasing(r)
  {
    assert |multiset(SortedByCount(Items(ts)))| == |multiset(Items(ts))|;
    SortedByCount(Items(ts))
  }

  /** `most_common()` lists every distinct token exactly once with its count, with
      non-increasing counts, and tokens of equal count in first-seen order. */
  lemma MostCommonSpec(ts: seq<string>)
    ensures forall e :: e in MostCommon(ts) <==> e.0 in ts && e.1 == Occurrences(ts, e.0)
    ensures DistinctKeys(MostCommon(ts))
    ensures |MostCommon(ts)| == |ElementsOf(ts)|
    ensures NonIncreasing(MostCommon(ts))
    ensures forall c :: IncreasingBy(WithCount(MostCommon(ts), c), FirstSeenEntry(ts))
  {
    var items := Items(ts);
    SortedByCountCorrect(items);
    ItemsInFirstSeenOrder(ts);
    DistinctCount(ts);
    assert |multiset(MostCommon(ts))| == |multiset(items)|;
    forall e ensures e in MostCommon(ts) <==> e.0 in ts && e.1 == Occurrences(ts, e.0) {
      ItemsExact(ts, e);
      assert e in MostCommon(ts) <==> e in multiset(MostCommon(ts));
      assert e in items <==> e in multiset(items);
    }
    forall c ensures IncreasingBy(WithCount(MostCommon(ts), c), FirstSeenEntry(ts)) {
      FilterKeepsOrder(items, HasCount(c), FirstSeenEntry(ts));
    }
  }
}
