/** Ordering the keys of a grouping by their rank in a canonical sequence:
    the host language's stable sort with an integer sort key. */
module Ranking {

  /** A key together with the sort key computed for it. */
  datatype Ranked = Ranked(key: string, rank: int)

  predicate SortedByRank(s: seq<Ranked>) {
    forall i, j :: 0 <= i < j < |s| ==> s[i].rank <= s[j].rank
  }

  /** The keys of `s` whose rank is `k`, in their order in `s`. */
  function WithRank(s: seq<Ranked>, k: int): seq<Ranked> {
    if s == [] then []
    else WithRank(s[..|s| - 1], k) + (if s[|s| - 1].rank == k then [s[|s| - 1]] else [])
  }

  function Keys(s: seq<Ranked>): (r: seq<string>)
    ensures |r| == |s| && forall i :: 0 <= i < |s| ==> r[i] == s[i].key
  {
    seq(|s|, i requires 0 <= i < |s| => s[i].key)
  }

  predicate DistinctKeys(s: seq<Ranked>) {
    forall i, j :: 0 <= i < j < |s| ==> s[i].key != s[j].key
  }

  /** How many leading elements of `t` have rank at most `r`. */
  function Leading(t: seq<Ranked>, r: int): (p: nat)
    ensures p <= |t| && forall i :: 0 <= i < p ==> t[i].rank <= r
    ensures p < |t| ==> t[p].rank > r
  {
    if t == [] || t[0].rank > r then 0 else 1 + Leading(t[1..], r)
  }

  /** Places `x` after the leading elements of `t` whose rank is at most its
      own: for a sorted `t`, after every element of rank at most its own. */
  function Insert(x: Ranked, t: seq<Ranked>): (r: seq<Ranked>)
    ensures |r| == |t| + 1
  {
    var p := Leading(t, x.rank);
    t[..p] + [x] + t[p..]
  }

  lemma InsertPermutes(x: Ranked, t: seq<Ranked>)
    ensures multiset(Insert(x, t)) == multiset(t) + multiset{x}
  {
    var p := Leading(t, x.rank);
    assert t == t[..p] + t[p..];
  }

  lemma InsertSorted(x: Ranked, t: seq<Ranked>)
    requires SortedByRank(t)
    ensures SortedByRank(Insert(x, t))
  {
    var p := Leading(t, x.rank);
    var a, b := t[..p], t[p..];
    forall i | 0 <= i < |b| ensures x.rank <= b[i].rank {
      assert t[p].rank <= t[p + i].rank;
    }
    SortedSplice(a, x, b);
  }

  /** An element placed between a sorted run of ranks at most its own and a
      sorted run of ranks at least its own keeps the whole sorted. */
  lemma SortedSplice(a: seq<Ranked>, x: Ranked, b: seq<Ranked>)
    requires SortedByRank(a) && SortedByRank(b)
    requires forall i :: 0 <= i < |a| ==> a[i].rank <= x.rank
    requires forall i :: 0 <= i < |b| ==> x.rank <= b[i].rank
    ensures SortedByRank(a + [x] + b)
  {
    var r := a + [x] + b;
    forall i, j | 0 <= i < j < |r| ensures r[i].rank <= r[j].rank {
      if j < |a| {
        assert r[i] == a[i] && r[j] == a[j];
      } else if j == |a| {
        assert r[i] == a[i];
      } else if i < |a| {
        assert r[i] == a[i] && r[j] == b[j - |a| - 1];
      } else if i == |a| {
        assert r[j] == b[j - |a| - 1];
      } else {
        assert r[i] == b[i - |a| - 1] && r[j] == b[j - |a| - 1];
      }
    }
  }

  lemma InsertDistinct(x: Ranked, t: seq<Ranked>)
    ensures DistinctKeys(t) && (forall y :: y in t ==> y.key != x.key) ==> DistinctKeys(Insert(x, t))
  {
    var p := Leading(t, x.rank);
    var r := Insert(x, t);
    assert forall i :: 0 <= i < p ==> r[i] == t[i];
    assert r[p] == x;
    assert forall i :: p < i < |r| ==> r[i] == t[i - 1];
  }

  /** `sorted(items, key=rank)`: a stable sort, inserting each element, in
      input order, after all earlier ones of rank at most its own. */
  function SortByRank(s: seq<Ranked>): seq<Ranked> {
    if s == [] then [] else Insert(s[|s| - 1], SortByRank(s[..|s| - 1]))
  }

  /** The sort gives a permutation of its input, sorted by rank, and keeps
      the keys distinct when they were. */
  lemma {:induction false} SortByRankSorts(s: seq<Ranked>)
    ensures multiset(SortByRank(s)) == multiset(s)
    ensures SortedByRank(SortByRank(s))
    ensures DistinctKeys(s) ==> DistinctKeys(SortByRank(s))
    decreases |s|
  {
    if s != [] {
      var init, x := s[..|s| - 1], s[|s| - 1];
      assert s == init + [x];
      SortByRankSorts(init);
      var t := SortByRank(init);
      InsertSorted(x, t);
      InsertDistinct(x, t);
      InsertPermutes(x, t);
      if DistinctKeys(s) {
        forall y | y in t ensures y.key != x.key {
          assert y in multiset(init);
          var i :| 0 <= i < |init| && init[i] == y;
          assert s[i] == y;
        }
      }
    }
  }

  /** Sorting one more element inserts it into the sorted rest. */
  lemma SortSnoc(init: seq<Ranked>, x: Ranked)
    ensures SortByRank(init + [x]) == Insert(x, SortByRank(init))
  {
    assert (init + [x])[..|init|] == init;
  }

  /** An element ranked below every other goes first. */
  lemma InsertFront(x: Ranked, t: seq<Ranked>)
    requires t != [] && x.rank < t[0].rank
    ensures Insert(x, t) == [x] + t
  {
    assert Leading(t, x.rank) == 0;
  }

  /** Three keys in strictly descending rank come out reversed. */
  lemma SortDescending(c: Ranked, a: Ranked, x: Ranked)
    requires x.rank < a.rank < c.rank
    ensures SortByRank([c, a, x]) == [x, a, c]
  {
    SortDescendingTwo(c, a);
    SortSnoc([c, a], x);
    assert [c, a] + [x] == [c, a, x];
    InsertFront(x, [a, c]);
  }

  lemma SortDescendingTwo(c: Ranked, a: Ranked)
    requires a.rank < c.rank
    ensures SortByRank([c, a]) == [a, c]
  {
    SortSnoc([], c);
    assert [] + [c] == [c];
    SortSnoc([c], a);
    assert [c] + [a] == [c, a];
    InsertFront(a, [c]);
  }

  lemma {:induction false} WithRankConcat(a: seq<Ranked>, b: seq<Ranked>, k: int)
    ensures WithRank(a + b, k) == WithRank(a, k) + WithRank(b, k)
    decreases |b|
  {
    if b == [] {
      assert a + b == a;
    } else {
      assert (a + b)[..|a + b| - 1] == a + b[..|b| - 1];
      WithRankConcat(a, b[..|b| - 1], k);
    }
  }

  /** A sorted sequence whose first rank exceeds `k` has no element of rank `k`. */
  lemma {:induction false} WithRankAbove(t: seq<Ranked>, k: int)
    requires SortedByRank(t) && t != [] && k < t[0].rank
    ensures WithRank(t, k) == []
    decreases |t|
  {
    if |t| > 1 {
      WithRankAbove(t[..|t| - 1], k);
    }
  }

  /** Inserting `x` into a sorted sequence appends it to its own rank class
      and leaves every other class as it was. */
  lemma WithRankInsert(x: Ranked, t: seq<Ranked>, k: int)
    requires SortedByRank(t)
    ensures WithRank(Insert(x, t), k) == WithRank(t, k) + (if x.rank == k then [x] else [])
  {
    var p := Leading(t, x.rank);
    InsertByParts(x, t, k, p);
    var a, b := WithRank(t[..p], k), WithRank(t[p..], k);
    if x.rank == k {
      AboveLeading(x, t, k, p);
      assert b == [];
      assert WithRank(Insert(x, t), k) == a + [x] + [];
      assert WithRank(t, k) == a + [];
    } else {
      assert WithRank(Insert(x, t), k) == a + [] + b;
    }
  }

  /** Nothing after the insertion point has the inserted element's rank. */
  lemma AboveLeading(x: Ranked, t: seq<Ranked>, k: int, p: nat)
    requires SortedByRank(t) && p == Leading(t, x.rank) && x.rank == k
    ensures WithRank(t[p..], k) == []
  {
    if p < |t| {
      SortedSuffix(t, p);
      WithRankAbove(t[p..], k);
    }
  }

  /** The rank class `k` of an insertion, read off the two halves around it. */
  lemma InsertByParts(x: Ranked, t: seq<Ranked>, k: int, p: nat)
    requires p == Leading(t, x.rank)
    ensures WithRank(Insert(x, t), k) == WithRank(t[..p], k) + (if x.rank == k then [x] else []) + WithRank(t[p..], k)
    ensures WithRank(t, k) == WithRank(t[..p], k) + WithRank(t[p..], k)
  {
    assert t == t[..p] + t[p..];
    WithRankSplit(t[..p], x, t[p..], k);
    WithRankConcat(t[..p], t[p..], k);
  }

  lemma WithRankSplit(a: seq<Ranked>, x: Ranked, b: seq<Ranked>, k: int)
    ensures WithRank(a + [x] + b, k) == WithRank(a, k) + (if x.rank == k then [x] else []) + WithRank(b, k)
  {
    WithRankConcat(a + [x], b, k);
    WithRankConcat(a, [x], k);
    assert WithRank([x], k) == WithRank([], k) + (if x.rank == k then [x] else []);
  }

  lemma SortedSuffix(t: seq<Ranked>, p: nat)
    requires SortedByRank(t) && p <= |t|
    ensures SortedByRank(t[p..])
  {
  }

  /** Stability: within each rank the sorted order is the input order. */
  lemma {:induction false} SortIsStable(s: seq<Ranked>, k: int)
    ensures WithRank(SortByRank(s), k) == WithRank(s, k)
    decreases |s|
  {
    if s != [] {
      SortIsStable(s[..|s| - 1], k);
      SortByRankSorts(s[..|s| - 1]);
      WithRankInsert(s[|s| - 1], SortByRank(s[..|s| - 1]), k);
    }
  }

}
