/** The two-level grouping the reports build: an insertion-ordered map from a
    grouping key (a date label or a verse reference) to a map from witness
    siglum to the list of rubric elements filed there. Missing levels are
    created on first use, as the host language's `defaultdict` does. */
module Grouping {
  import opened Tei
  import opened Ranking

  /** `keys` is the iteration order of the outer map; `cells` its contents. */
  datatype Grouping = Grouping(keys: seq<string>, cells: map<string, map<string, seq<Node>>>)

  /** One filing: the rubric `rubric` under key `key` and siglum `siglum`. */
  datatype Entry = Entry(key: string, siglum: string, rubric: Node)

  const Empty: Grouping := Grouping([], map[])

  predicate Distinct(s: seq<string>) {
    forall i, j :: 0 <= i < j < |s| ==> s[i] != s[j]
  }

  /** The order lists each key of the map exactly once. */
  predicate Valid(g: Grouping) {
    && Distinct(g.keys)
    && (forall k :: k in g.keys ==> k in g.cells)
    && (forall k :: k in g.cells ==> k in g.keys)
  }

  /** `siglum in data[key]`. */
  predicate HasCell(g: Grouping, key: string, siglum: string) {
    key in g.cells && siglum in g.cells[key]
  }

  /** The list filed under `key` and `siglum`, empty when there is none. */
  function Lookup(g: Grouping, key: string, siglum: string): seq<Node> {
    if HasCell(g, key, siglum) then g.cells[key][siglum] else []
  }

  /** A dictionary's key order after assigning to `key`: a new key goes last,
      an existing one keeps its place. */
  function WithKey(keys: seq<string>, key: string): (r: seq<string>)
    ensures Distinct(keys) ==> Distinct(r)
    ensures keys <= r && key in r
    ensures forall k :: k in r <==> k in keys || k == key
  {
    if key in keys then keys else keys + [key]
  }

  /** `data[key][siglum].append(rubric)` on a map of `defaultdict(list)`s. */
  function Append(g: Grouping, key: string, siglum: string, rubric: Node): (r: Grouping)
    ensures Valid(g) ==> Valid(r)
    ensures r.keys == WithKey(g.keys, key)
    ensures forall k, s :: Lookup(r, k, s) == (if k == key && s == siglum then Lookup(g, k, s) + [rubric] else Lookup(g, k, s))
    ensures forall k, s :: HasCell(r, k, s) <==> HasCell(g, k, s) || (k == key && s == siglum)
  {
    var inner := if key in g.cells then g.cells[key] else map[];
    var list := if siglum in inner then inner[siglum] else [];
    Grouping(WithKey(g.keys, key), g.cells[key := inner[siglum := list + [rubric]]])
  }

  /** `data[key][siglum] = [rubric]` on a map of `dict`s. */
  function Put(g: Grouping, key: string, siglum: string, rubric: Node): (r: Grouping)
    ensures Valid(g) ==> Valid(r)
    ensures r.keys == WithKey(g.keys, key)
    ensures forall k, s :: Lookup(r, k, s) == (if k == key && s == siglum then [rubric] else Lookup(g, k, s))
    ensures forall k, s :: HasCell(r, k, s) <==> HasCell(g, k, s) || (k == key && s == siglum)
  {
    var inner := if key in g.cells then g.cells[key] else map[];
    Grouping(WithKey(g.keys, key), g.cells[key := inner[siglum := [rubric]]])
  }

  // ---------------------------------------------------------------------------
  // A whole run of filings

  /** Appending every entry in turn. */
  function AppendAll(g: Grouping, es: seq<Entry>): (r: Grouping)
    ensures Valid(g) ==> Valid(r)
  {
    if es == [] then g
    else
      var e := es[|es| - 1];
      Append(AppendAll(g, es[..|es| - 1]), e.key, e.siglum, e.rubric)
  }

  /** Assigning every entry in turn. */
  function PutAll(g: Grouping, es: seq<Entry>): (r: Grouping)
    ensures Valid(g) ==> Valid(r)
  {
    if es == [] then g
    else
      var e := es[|es| - 1];
      Put(PutAll(g, es[..|es| - 1]), e.key, e.siglum, e.rubric)
  }

  /** The rubrics of the entries filed under `key` and `siglum`, in order. */
  function Select(es: seq<Entry>, key: string, siglum: string): seq<Node> {
    if es == [] then []
    else
      var e := es[|es| - 1];
      Select(es[..|es| - 1], key, siglum) + (if e.key == key && e.siglum == siglum then [e.rubric] else [])
  }

  /** Appending a run adds each entry's rubric to its own list, in run order,
      and touches no other list. */
  lemma {:induction false} AppendAllLookup(g: Grouping, es: seq<Entry>, key: string, siglum: string)
    ensures Lookup(AppendAll(g, es), key, siglum) == Lookup(g, key, siglum) + Select(es, key, siglum)
  {
    if es != [] {
      var init, e := es[..|es| - 1], es[|es| - 1];
      AppendAllLookup(g, init, key, siglum);
      var before := AppendAll(g, init);
      var added := if e.key == key && e.siglum == siglum then [e.rubric] else [];
      assert Lookup(Append(before, e.key, e.siglum, e.rubric), key, siglum) == Lookup(before, key, siglum) + added;
      assert Select(es, key, siglum) == Select(init, key, siglum) + added;
    }
  }

  /** After a run of appends a list exists exactly where the map had one or
      some entry was filed. */
  lemma {:induction false} AppendAllHasCell(g: Grouping, es: seq<Entry>, key: string, siglum: string)
    ensures HasCell(AppendAll(g, es), key, siglum) <==> HasCell(g, key, siglum) || Select(es, key, siglum) != []
  {
    if es != [] {
      AppendAllHasCell(g, es[..|es| - 1], key, siglum);
    }
  }

  /** With assignment only the last filing under a key and siglum survives. */
  lemma {:induction false} PutAllLookup(g: Grouping, es: seq<Entry>, key: string, siglum: string)
    ensures var sel := Select(es, key, siglum);
            Lookup(PutAll(g, es), key, siglum) == if sel == [] then Lookup(g, key, siglum) else [sel[|sel| - 1]]
  {
    if es != [] {
      PutAllLookup(g, es[..|es| - 1], key, siglum);
    }
  }

  lemma {:induction false} PutAllHasCell(g: Grouping, es: seq<Entry>, key: string, siglum: string)
    ensures HasCell(PutAll(g, es), key, siglum) <==> HasCell(g, key, siglum) || Select(es, key, siglum) != []
  {
    if es != [] {
      PutAllHasCell(g, es[..|es| - 1], key, siglum);
    }
  }

  /** Filing two runs one after the other is filing their concatenation. */
  lemma {:induction false} AppendAllConcat(g: Grouping, a: seq<Entry>, b: seq<Entry>)
    ensures AppendAll(g, a + b) == AppendAll(AppendAll(g, a), b)
    decreases |b|
  {
    if b == [] {
      assert a + b == a;
    } else {
      assert (a + b)[..|a + b| - 1] == a + b[..|b| - 1];
      AppendAllConcat(g, a, b[..|b| - 1]);
    }
  }

  lemma {:induction false} PutAllConcat(g: Grouping, a: seq<Entry>, b: seq<Entry>)
    ensures PutAll(g, a + b) == PutAll(PutAll(g, a), b)
    decreases |b|
  {
    if b == [] {
      assert a + b == a;
    } else {
      assert (a + b)[..|a + b| - 1] == a + b[..|b| - 1];
      PutAllConcat(g, a, b[..|b| - 1]);
    }
  }

  /** The keys after a run of filings, for appends and assignments alike:
      the old keys, then each new key at its first filing. */
  function KeysAfter(keys: seq<string>, es: seq<Entry>): (r: seq<string>)
    ensures keys <= r
    ensures forall k :: k in r <==> k in keys || exists e :: e in es && e.key == k
  {
    if es == [] then keys
    else
      var r := WithKey(KeysAfter(keys, es[..|es| - 1]), es[|es| - 1].key);
      assert forall e :: e in es <==> e in es[..|es| - 1] || e == es[|es| - 1] by {
        assert es == es[..|es| - 1] + [es[|es| - 1]];
      }
      r
  }

  lemma {:induction false} AppendAllKeys(g: Grouping, es: seq<Entry>)
    ensures AppendAll(g, es).keys == KeysAfter(g.keys, es)
  {
    if es != [] {
      AppendAllKeys(g, es[..|es| - 1]);
    }
  }

  lemma {:induction false} PutAllKeys(g: Grouping, es: seq<Entry>)
    ensures PutAll(g, es).keys == KeysAfter(g.keys, es)
  {
    if es != [] {
      PutAllKeys(g, es[..|es| - 1]);
    }
  }

  /** Keys are never reordered: the keys present after a prefix of the run
      lead the keys present after the whole run, so keys come in the order
      of their first filing. */
  lemma {:induction false} KeysAfterPrefix(keys: seq<string>, es: seq<Entry>, i: nat)
    requires i <= |es|
    ensures KeysAfter(keys, es[..i]) <= KeysAfter(keys, es)
    decreases |es|
  {
    if i < |es| {
      assert es[..|es| - 1][..i] == es[..i];
      KeysAfterPrefix(keys, es[..|es| - 1], i);
    } else {
      assert es[..i] == es;
    }
  }

  // ---------------------------------------------------------------------------
  // Ordering the keys

  function RankAll(keys: seq<string>, rank: string -> int): (r: seq<Ranked>)
    ensures Keys(r) == keys
    ensures forall i :: 0 <= i < |r| ==> r[i].rank == rank(r[i].key)
  {
    seq(|keys|, i requires 0 <= i < |keys| => Ranked(keys[i], rank(keys[i])))
  }

  /** `dict(sorted(data.items(), key=rank))`: the same map, its keys stably
      sorted by rank. */
  function Reorder(g: Grouping, rank: string -> int): (r: Grouping)
    ensures r.cells == g.cells
    ensures multiset(r.keys) == multiset(g.keys)
  {
    var ranked := RankAll(g.keys, rank);
    var sorted := SortByRank(ranked);
    SortByRankSorts(ranked);
    KeysPermute(sorted, ranked);
    Grouping(Keys(sorted), g.cells)
  }

  /** Reordering keeps each key listed exactly once. */
  lemma ReorderValid(g: Grouping, rank: string -> int)
    requires Valid(g)
    ensures Valid(Reorder(g, rank))
  {
    var ranked := RankAll(g.keys, rank);
    assert DistinctKeys(ranked);
    var r := Reorder(g, rank);
    SortByRankSorts(ranked);
    SameMembers(r.keys, g.keys);
  }

  /** The reordered keys are in ascending order of rank. */
  lemma ReorderSorted(g: Grouping, rank: string -> int)
    ensures var r := Reorder(g, rank);
            forall i, j :: 0 <= i < j < |r.keys| ==> rank(r.keys[i]) <= rank(r.keys[j])
  {
    var ranked := RankAll(g.keys, rank);
    SortByRankSorts(ranked);
    RanksFollow(ranked, SortByRank(ranked), rank);
  }

  /** A permutation of correctly ranked keys is correctly ranked. */
  lemma RanksFollow(ranked: seq<Ranked>, sorted: seq<Ranked>, rank: string -> int)
    requires multiset(sorted) == multiset(ranked)
    requires forall i :: 0 <= i < |ranked| ==> ranked[i].rank == rank(ranked[i].key)
    ensures forall i :: 0 <= i < |sorted| ==> sorted[i].rank == rank(sorted[i].key)
  {
    forall i | 0 <= i < |sorted| ensures sorted[i].rank == rank(sorted[i].key) {
      assert sorted[i] in multiset(ranked);
    }
  }

  lemma SameMembers(a: seq<string>, b: seq<string>)
    requires multiset(a) == multiset(b)
    ensures forall k :: k in a <==> k in b
  {
    forall k ensures k in a <==> k in b {
      assert k in a <==> k in multiset(a);
      assert k in b <==> k in multiset(b);
    }
  }

  /** Sequences with the same elements have the same keys. */
  lemma {:induction false} KeysPermute(a: seq<Ranked>, b: seq<Ranked>)
    requires multiset(a) == multiset(b)
    ensures multiset(Keys(a)) == multiset(Keys(b))
    decreases |a|
  {
    if a != [] {
      var i := IndexOf(b, a[0]);
      RemoveAt(a, 0);
      RemoveAt(b, i);
      KeysPermute(a[..0] + a[1..], b[..i] + b[i + 1..]);
      KeysPermuteStep(a, b, i);
    }
  }

  lemma IndexOf(b: seq<Ranked>, x: Ranked) returns (i: nat)
    requires x in multiset(b)
    ensures i < |b| && b[i] == x
  {
    i :| 0 <= i < |b| && b[i] == x;
  }

  lemma KeysPermuteStep(a: seq<Ranked>, b: seq<Ranked>, i: nat)
    requires a != [] && i < |b| && b[i] == a[0]
    requires multiset(Keys(a[..0] + a[1..])) == multiset(Keys(b[..i] + b[i + 1..]))
    ensures multiset(Keys(a)) == multiset(Keys(b))
  {
    KeysSplit(a, 0);
    KeysSplit(b, i);
  }

  /** The keys of a sequence with one element singled out. */
  lemma KeysSplit(s: seq<Ranked>, i: nat)
    requires i < |s|
    ensures multiset(Keys(s)) == multiset(Keys(s[..i] + s[i + 1..])) + multiset{s[i].key}
  {
    var ks := Keys(s);
    assert ks == ks[..i] + [ks[i]] + ks[i + 1..];
    assert Keys(s[..i] + s[i + 1..]) == ks[..i] + ks[i + 1..];
  }

  lemma RemoveAt(b: seq<Ranked>, i: nat)
    requires i < |b|
    ensures multiset(b[..i] + b[i + 1..]) == multiset(b) - multiset{b[i]}
  {
    assert b == b[..i] + [b[i]] + b[i + 1..];
  }

  /** A key of rank -1 never follows a key of higher rank: with ranks of at
      least -1, the unranked keys come first. */
  lemma UnrankedFirst(g: Grouping, rank: string -> int, i: nat, j: nat)
    requires forall k :: rank(k) >= -1
    requires i < j < |Reorder(g, rank).keys| && rank(Reorder(g, rank).keys[j]) == -1
    ensures rank(Reorder(g, rank).keys[i]) == -1
  {
    ReorderSorted(g, rank);
  }

  /** Keys of equal rank keep the order they had in the map. */
  lemma ReorderIsStable(g: Grouping, rank: string -> int, k: int)
    ensures Keys(WithRank(RankAll(Reorder(g, rank).keys, rank), k)) == Keys(WithRank(RankAll(g.keys, rank), k))
  {
    var ranked := RankAll(g.keys, rank);
    var sorted := SortByRank(ranked);
    SortIsStable(ranked, k);
    SortByRankSorts(ranked);
    RanksFollow(ranked, sorted, rank);
    assert RankAll(Keys(sorted), rank) == sorted;
  }

  lemma RankThree(k1: string, k2: string, k3: string, rank: string -> int)
    ensures RankAll([k1, k2, k3], rank) == [Ranked(k1, rank(k1)), Ranked(k2, rank(k2)), Ranked(k3, rank(k3))]
  {
  }

  /** A grouping whose three keys rank in descending order is reversed. */
  lemma ReorderDescending(g: Grouping, rank: string -> int)
    requires |g.keys| == 3 && rank(g.keys[2]) < rank(g.keys[1]) < rank(g.keys[0])
    ensures Reorder(g, rank).keys == [g.keys[2], g.keys[1], g.keys[0]]
  {
    var k := g.keys;
    assert k == [k[0], k[1], k[2]];
    RankThree(k[0], k[1], k[2], rank);
    var c, a, x := Ranked(k[0], rank(k[0])), Ranked(k[1], rank(k[1])), Ranked(k[2], rank(k[2]));
    SortDescending(c, a, x);
    assert Keys([x, a, c]) == [k[2], k[1], k[0]];
  }
}
