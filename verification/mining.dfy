/**
  Pair mining and ranking over the co-purchase graph: `frequent_pairs`, `top_product_bundles`,
  `recommend_items` and `strongest_associations`. Each undirected edge is reported once, from
  the endpoint that is smaller in Python's string order, in the order the adjacency dictionary
  is iterated.
 */
module Mining {
  import opened Seqs
  import opened Dicts
  import opened Strings
  import opened Ranking
  import opened CoPurchaseGraph

  /** `((item, neighbour), weight)`. */
  type Bundle = ((string, string), int)

  /** An edge reported once, from its smaller endpoint, with its count. */
  ghost predicate IsGraphPair(g: Graph, e: Bundle) {
    Lt(e.0.0, e.0.1) && HasEdge(g, e.0.0, e.0.1) && e.1 == EdgeWeight(g, e.0.0, e.0.1)
  }

  // ---------------------------------------------------------------------------
  // Extracting the pairs
  // ---------------------------------------------------------------------------

  /** The inner loop `for neighbour, weight in graph[item].items(): if item < neighbour`. */
  function RowPairs(item: string, nbrs: Neighbours): seq<Bundle> {
    if |nbrs| == 0 then []
    else
      var rest := RowPairs(item, nbrs[1..]);
      if Lt(item, nbrs[0].0) then [((item, nbrs[0].0), nbrs[0].1)] + rest else rest
  }

  /** The pair list the three pair queries build: every `(item, neighbour)` with
      `item < neighbour`, row by row in iteration order. */
  function AllPairs(g: Graph): seq<Bundle> {
    if |g| == 0 then [] else RowPairs(g[0].0, g[0].1) + AllPairs(g[1..])
  }

  lemma {:induction false} RowPairsFacts(item: string, nbrs: Neighbours)
    ensures forall e :: e in RowPairs(item, nbrs) <==>
      e.0.0 == item && Lt(item, e.0.1) && (e.0.1, e.1) in nbrs
    ensures DistinctKeys(RowPairs(item, nbrs))
  {
    if |nbrs| > 0 {
      var t: Neighbours := nbrs[1..];
      RowPairsFacts(item, t);
      assert nbrs == [nbrs[0]] + t;
      forall e | e in RowPairs(item, t)
        ensures e.0.1 != nbrs[0].0
      {
        var k :| 0 <= k < |t| && t[k] == (e.0.1, e.1);
        assert nbrs[k + 1] == t[k];
      }
    }
  }

  /** The pair list holds exactly the edges between an item and a larger one, each once, with
      its count. */
  lemma {:induction false} AllPairsFacts(g: Graph)
    ensures forall e :: e in AllPairs(g) <==> IsGraphPair(g, e)
    ensures DistinctKeys(AllPairs(g))
  {
    if |g| > 0 {
      var t: Graph := g[1..];
      var a := g[0].0;
      AllPairsFacts(t);
      RowPairsFacts(a, g[0].1);
      assert NeighboursOf(g, a) == g[0].1;
      NeighbourEntries(g, a);
      forall e
        ensures e in AllPairs(g) <==> IsGraphPair(g, e)
      {
        if e.0.0 != a {
          GraphTail(g, e.0.0);
        } else {
          assert !HasItem(t, a);
        }
      }
      var row := RowPairs(a, g[0].1);
      var rest := AllPairs(t);
      forall i, j | 0 <= i < |row| && 0 <= j < |rest|
        ensures row[i].0 != rest[j].0
      {
        assert row[i] in row && rest[j] in rest;
        assert !HasItem(t, a);
      }
    }
  }

  // ---------------------------------------------------------------------------
  // frequent_pairs
  // ---------------------------------------------------------------------------

  /** `if weight >= min_support`, applied along the pair list. */
  function AtLeast(ps: seq<Bundle>, minSupport: int): seq<Bundle> {
    if |ps| == 0 then []
    else if ps[0].1 >= minSupport then [ps[0]] + AtLeast(ps[1..], minSupport)
    else AtLeast(ps[1..], minSupport)
  }

  lemma {:induction false} AtLeastFacts(ps: seq<Bundle>, minSupport: int)
    ensures forall e :: e in AtLeast(ps, minSupport) <==> e in ps && e.1 >= minSupport
    ensures DistinctKeys(ps) ==> DistinctKeys(AtLeast(ps, minSupport))
  {
    if |ps| > 0 {
      AtLeastFacts(ps[1..], minSupport);
      assert ps == [ps[0]] + ps[1..];
      if DistinctKeys(ps) {
        forall e | e in ps[1..]
          ensures e.0 != ps[0].0
        {
          var k :| 0 <= k < |ps[1..]| && ps[1..][k] == e;
          assert ps[k + 1] == e;
        }
      }
    }
  }

  /** `frequent_pairs(graph, min_support)`: every edge whose count is at least `min_support`,
      once, as `((a, b), count)` with `a < b`; nothing else. The order is the adjacency
      iteration order, not sorted. */
  function FrequentPairs(g: Graph, minSupport: int): (r: seq<Bundle>)
    ensures forall e :: e in r <==> IsGraphPair(g, e) && e.1 >= minSupport
    ensures DistinctKeys(r)
    ensures (forall a, b :: HasEdge(g, a, b) ==> EdgeWeight(g, a, b) < minSupport) ==> r == []
  {
    AllPairsFacts(g);
    var r := AtLeast(AllPairs(g), minSupport);
    AtLeastFacts(AllPairs(g), minSupport);
    assert |r| > 0 ==> r[0] in r;
    r
  }

  /** Raising the threshold only drops pairs. */
  lemma FrequentPairsAntitone(g: Graph, m1: int, m2: int)
    requires m1 <= m2
    ensures forall e :: e in FrequentPairs(g, m2) ==> e in FrequentPairs(g, m1)
  {
  }

  // ---------------------------------------------------------------------------
  // top_product_bundles
  // ---------------------------------------------------------------------------

  /** `top_product_bundles(graph, k)` for `k >= 0`: the pair list sorted by `quick_sort_items`,
      cut to the first `k`. The result is the `min(k, #pairs)` heaviest pairs in non-increasing
      order, and no pair left out is heavier than one kept. */
  function TopProductBundles(g: Graph, k: nat): (r: seq<Bundle>)
    ensures |r| == if k < |AllPairs(g)| then k else |AllPairs(g)|
    ensures SortedDesc(r)
    ensures DistinctKeys(r)
    ensures forall e :: e in r ==> IsGraphPair(g, e)
    ensures forall e, f :: IsGraphPair(g, e) && e !in r && f in r ==> e.1 <= f.1
  {
    var ps := AllPairs(g);
    AllPairsFacts(g);
    var sorted := QuickSort(ps);
    TakeOfSorted(ps, sorted, k);
    Take(sorted, k)
  }

  /** The first `k` of a sorted pair list are sorted, come from the list, repeat no pair, and
      are at least as heavy as every pair left out. */
  lemma TakeOfSorted(ps: seq<Bundle>, sorted: seq<Bundle>, k: nat)
    requires IsStableSortDesc(ps, sorted) && DistinctKeys(ps)
    ensures |Take(sorted, k)| == if k < |ps| then k else |ps|
    ensures SortedDesc(Take(sorted, k))
    ensures DistinctKeys(Take(sorted, k))
    ensures forall e :: e in Take(sorted, k) ==> e in ps
    ensures forall e, f :: e in ps && e !in Take(sorted, k) && f in Take(sorted, k) ==> e.1 <= f.1
  {
    TakeOfStableSort(ps, sorted, k);
    SubMultisetDistinctKeys(ps, Take(sorted, k));
  }

  /** Asking for one more bundle only extends the answer. */
  lemma TopProductBundlesPrefix(g: Graph, k: nat)
    ensures TopProductBundles(g, k) <= TopProductBundles(g, k + 1)
  {
    TakeIsMonotone(QuickSort(AllPairs(g)), k);
  }

  /** The first bundle is a heaviest pair of the whole graph. */
  lemma TopBundleIsHeaviest(g: Graph, k: nat)
    requires |TopProductBundles(g, k)| > 0
    ensures forall e :: IsGraphPair(g, e) ==> e.1 <= TopProductBundles(g, k)[0].1
  {
    var ps := AllPairs(g);
    AllPairsFacts(g);
    HeadIsHeaviest(ps, QuickSort(ps));
  }

  /** The item pairs of a pair list. */
  ghost function PairKeys(ps: seq<Bundle>): set<(string, string)> {
    set e | e in ps :: e.0
  }

  /** A list that repeats no pair has as many pairs as entries. */
  lemma DistinctPairsCount(ps: seq<Bundle>)
    requires DistinctKeys(ps)
    ensures |PairKeys(ps)| == |ps|
  {
    var keys := Keys(ps);
    NoDupCard(keys);
    forall x | x in PairKeys(ps)
      ensures x in keys
    {
      var k :| 0 <= k < |ps| && ps[k].0 == x;
      assert keys[k] == x;
    }
    assert PairKeys(ps) == set x | x in keys;
  }

  /** The pairs of the pair list are the unordered edges. */
  lemma PairKeysAreUndirectedEdges(g: Graph)
    ensures PairKeys(AllPairs(g)) == UndirectedEdges(g)
  {
    AllPairsFacts(g);
    UndirectedEdgesMembers(g);
    forall x | x in UndirectedEdges(g)
      ensures x in PairKeys(AllPairs(g))
    {
      assert IsGraphPair(g, (x, EdgeWeight(g, x.0, x.1)));
    }
  }

  /** Under the invariant there are exactly `num_edges()` pairs to rank. */
  lemma PairCountIsNumEdges(g: Graph)
    requires Invariant(g)
    ensures |AllPairs(g)| == NumEdges(g)
  {
    AllPairsFacts(g);
    DistinctPairsCount(AllPairs(g));
    PairKeysAreUndirectedEdges(g);
    NumEdgesCountsUnorderedPairs(g);
  }

  // ---------------------------------------------------------------------------
  // recommend_items
  // ---------------------------------------------------------------------------

  /** `recommend_items(graph, item, top_n)` for `top_n >= 0`: `[]` for an unknown item,
      otherwise the item's `(neighbour, count)` entries sorted by `quick_sort_items` and cut to
      the first `top_n`. It answers the same as `top_neighbours(item, top_n)`, which uses
      Python's sort instead. */
  function RecommendItems(g: Graph, item: string, topN: nat): (r: seq<(string, int)>)
    ensures r == TopNeighbours(g, item, topN)
  {
    if !HasItem(g, item) then []
    else
      QuickSortIsStableSort(NeighboursOf(g, item));
      Take(QuickSort(NeighboursOf(g, item)), topN)
  }

  /** What a recommendation contains: at most `top_n` different neighbours with their counts,
      all of them when there are no more than `top_n`, in non-increasing order, and none left
      out beats one kept. */
  lemma RecommendItemsAreTopNeighbours(g: Graph, item: string, topN: nat)
    ensures var r := RecommendItems(g, item, topN);
      && (!HasItem(g, item) ==> r == [])
      && |r| == (if topN < |NeighboursOf(g, item)| then topN else |NeighboursOf(g, item)|)
      && SortedDesc(r)
      && (forall e :: e in r ==> HasEdge(g, item, e.0) && e.1 == EdgeWeight(g, item, e.0))
      && DistinctKeys(r) && multiset(r) <= multiset(NeighboursOf(g, item))
      && (topN >= |NeighboursOf(g, item)| ==> multiset(r) == multiset(NeighboursOf(g, item)))
      && (forall e, f :: e in NeighboursOf(g, item) && e !in r && f in r ==> e.1 <= f.1)
  {
  }

  // ---------------------------------------------------------------------------
  // strongest_associations
  // ---------------------------------------------------------------------------

  /** `(item, neighbour, weight)`. */
  type Association = (string, string, int)

  /** Flatten `((a, b), w)` into `(a, b, w)`. */
  function Flatten(ps: seq<Bundle>): (r: seq<Association>)
    ensures |r| == |ps|
    ensures forall i :: 0 <= i < |ps| ==> r[i] == (ps[i].0.0, ps[i].0.1, ps[i].1)
  {
    seq(|ps|, i requires 0 <= i < |ps| => (ps[i].0.0, ps[i].0.1, ps[i].1))
  }

  /** `strongest_associations(graph, top_n)` for `top_n >= 0`: the edge triples collected in
      iteration order, sorted by count with Python's stable `list.sort(reverse=True)`, cut to
      the first `top_n`. Sorting the triples by their count is sorting the `((a, b), w)` pairs
      by `w`. */
  function StrongestAssociations(g: Graph, topN: nat): (r: seq<Association>)
    ensures |r| == if topN < |AllPairs(g)| then topN else |AllPairs(g)|
    ensures forall i :: 0 <= i < |r| ==>
      Lt(r[i].0, r[i].1) && HasEdge(g, r[i].0, r[i].1) && r[i].2 == EdgeWeight(g, r[i].0, r[i].1)
    ensures forall i, j :: 0 <= i < j < |r| ==> r[i].2 >= r[j].2
  {
    var ps := AllPairs(g);
    AllPairsFacts(g);
    var sorted := StableSortDesc(ps);
    TakeOfSorted(ps, sorted, topN);
    var t := Take(sorted, topN);
    var r := Flatten(t);
    forall i | 0 <= i < |r|
      ensures Lt(r[i].0, r[i].1) && HasEdge(g, r[i].0, r[i].1)
      ensures r[i].2 == EdgeWeight(g, r[i].0, r[i].1)
    {
      assert t[i] in t;
      assert IsGraphPair(g, t[i]);
    }
    r
  }

  /** `strongest_associations` and `top_product_bundles` pick the same edges in the same
      order, although one uses Python's sort and the other `quick_sort_items`. */
  lemma StrongestAreTopBundles(g: Graph, n: nat)
    ensures StrongestAssociations(g, n) == Flatten(TopProductBundles(g, n))
  {
    QuickSortIsStableSort(AllPairs(g));
  }
}
