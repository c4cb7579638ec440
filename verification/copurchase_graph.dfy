/**
  The co-purchase graph: an undirected, weighted adjacency map `item -> (neighbour -> count)`,
  where the count of an edge is the number of baskets in which both items were bought. The
  class `CoPurchaseGraph` wraps one mutable dictionary; here the dictionary is a value, and each
  mutator returns the updated dictionary.
 */
module CoPurchaseGraph {
  import opened Wrappers
  import opened Seqs
  import opened Dicts
  import opened Strings
  import opened Ranking

  /** The neighbour map of one item: neighbour -> co-purchase count. */
  type Neighbours = Dict<string, int>

  /** The adjacency dictionary `item -> (neighbour -> count)`; the algorithms take the same
      dictionary (`GraphAdj`). */
  type Graph = Dict<string, Neighbours>

  /** `CoPurchaseGraph()`: a graph with no items. */
  const EmptyGraph: Graph := []

  // ---------------------------------------------------------------------------
  // Queries
  // ---------------------------------------------------------------------------

  /** `has_item(item)`. */
  predicate HasItem(g: Graph, item: string) {
    HasKey(g, item)
  }

  /** `neighbours(item)`: the neighbour map of `item`, empty for an unknown item. */
  function NeighboursOf(g: Graph, item: string): (r: Neighbours)
    ensures !HasItem(g, item) ==> r == []
    ensures forall i :: 0 <= i < |g| && g[i].0 == item ==> r == g[i].1
  {
    Get<string, Neighbours>(g, item).GetOr([])
  }

  /** `has_edge(item1, item2)`. */
  predicate HasEdge(g: Graph, item1: string, item2: string) {
    if !HasItem(g, item1) then false
    else HasKey(NeighboursOf(g, item1), item2)
  }

  /** `edge_weight(item1, item2)`: the count stored for the edge, 0 when there is none. */
  function EdgeWeight(g: Graph, item1: string, item2: string): (r: int)
    ensures !HasEdge(g, item1, item2) ==> r == 0
    ensures HasEdge(g, item1, item2) ==> (item2, r) in NeighboursOf(g, item1)
  {
    if !HasItem(g, item1) then 0
    else GetOr(NeighboursOf(g, item1), item2, 0)
  }

  /** `items()`: every item, each once, in increasing string order. */
  function Items(g: Graph): (r: seq<string>)
    ensures StrictlyAscending(r)
    ensures forall x :: x in r <==> HasItem(g, x)
    ensures |r| == NumItems(g)
  {
    var ks := Keys(g);
    SortDistinctIsStrict(ks);
    var r := SortStrings(ks);
    assert forall x :: x in r <==> x in multiset(ks);
    r
  }

  /** `num_items()`: the number of distinct items. */
  function NumItems(g: Graph): (r: nat)
    ensures r == |KeySet(g)|
  {
    NoDupCard(Keys(g));
    assert KeySet(g) == set x | x in Keys(g);
    |g|
  }

  /** The total size of all neighbour maps: every undirected edge is stored twice. */
  function SumDegrees(g: Graph): nat {
    if |g| == 0 then 0 else |g[0].1| + SumDegrees(g[1..])
  }

  /** `num_edges()`: half the total size of the neighbour maps (floor division). */
  function NumEdges(g: Graph): nat {
    SumDegrees(g) / 2
  }

  /** `top_neighbours(item, k)` for `k >= 0`: the neighbour entries sorted by count, descending
      (Python's stable sort), cut to the first `k`. */
  function TopNeighbours(g: Graph, item: string, k: nat): (r: seq<(string, int)>)
    ensures !HasItem(g, item) ==> r == []
    ensures |r| == if k < |NeighboursOf(g, item)| then k else |NeighboursOf(g, item)|
    ensures SortedDesc(r)
    ensures forall e :: e in r ==> HasEdge(g, item, e.0) && e.1 == EdgeWeight(g, item, e.0)
    ensures DistinctKeys(r) && multiset(r) <= multiset(NeighboursOf(g, item))
    ensures k >= |NeighboursOf(g, item)| ==> multiset(r) == multiset(NeighboursOf(g, item))
    ensures forall e, f :: e in NeighboursOf(g, item) && e !in r && f in r ==> e.1 <= f.1
  {
    var nbrs := NeighboursOf(g, item);
    var sorted := StableSortDesc(nbrs);
    TakeOfStableSort(nbrs, sorted, k);
    SubMultisetDistinctKeys(nbrs, Take(sorted, k));
    NeighbourEntries(g, item);
    Take(sorted, k)
  }

  // ---------------------------------------------------------------------------
  // The graph invariant
  // ---------------------------------------------------------------------------

  /** No item is its own neighbour. */
  ghost predicate NoSelfLoops(g: Graph) {
    forall a, b :: HasEdge(g, a, b) ==> a != b
  }

  /** Every neighbour is itself an item. */
  ghost predicate NeighbourClosed(g: Graph) {
    forall a, b :: HasEdge(g, a, b) ==> HasItem(g, b)
  }

  /** Edges are undirected: stored in both directions with the same count. */
  ghost predicate Symmetric(g: Graph) {
    forall a, b :: HasEdge(g, a, b) ==>
      HasEdge(g, b, a) && EdgeWeight(g, a, b) == EdgeWeight(g, b, a)
  }

  /** An edge exists only once it has been counted at least once. */
  ghost predicate PositiveWeights(g: Graph) {
    forall a, b :: HasEdge(g, a, b) ==> EdgeWeight(g, a, b) >= 1
  }

  /** The invariant the two mutators keep. */
  ghost predicate Invariant(g: Graph) {
    NoSelfLoops(g) && NeighbourClosed(g) && Symmetric(g) && PositiveWeights(g)
  }

  // ---------------------------------------------------------------------------
  // Mutators
  // ---------------------------------------------------------------------------

  /** `add_item(item)`: make `item` a node with no neighbours unless it is one already. A new
      item is appended to the iteration order; nothing else changes. */
  function AddItem(g: Graph, item: string): (r: Graph)
    ensures HasItem(g, item) ==> r == g
    ensures forall x :: HasItem(r, x) <==> HasItem(g, x) || x == item
    ensures forall x :: NeighboursOf(r, x) == NeighboursOf(g, x)
    ensures !HasItem(g, item) ==> Keys(r) == Keys(g) + [item]
  {
    if HasItem(g, item) then g else Set(g, item, [])
  }

  /** One direction of a co-purchase: `_adjacency[a][b] = _adjacency[a].get(b, 0) + 1`, for an
      item `a` already in the graph. Only the entry of `b` in the neighbour map of `a` changes. */
  function CountOneDirection(g: Graph, a: string, b: string): (r: Graph)
    requires HasItem(g, a)
    ensures forall x :: HasItem(r, x) <==> HasItem(g, x)
    ensures forall x :: x != a ==> NeighboursOf(r, x) == NeighboursOf(g, x)
    ensures HasEdge(r, a, b) && EdgeWeight(r, a, b) == EdgeWeight(g, a, b) + 1
    ensures forall y :: y != b ==>
      HasEdge(r, a, y) == HasEdge(g, a, y) && EdgeWeight(r, a, y) == EdgeWeight(g, a, y)
  {
    var n := NeighboursOf(g, a);
    var r := Set(g, a, Set(n, b, GetOr(n, b, 0) + 1));
    assert NeighboursOf(r, a) == Set(n, b, GetOr(n, b, 0) + 1);
    r
  }

  /** `add_co_purchase(item1, item2)`: ignore a self-pair; otherwise make both items nodes and
      count one more co-purchase in both directions. No other edge changes. */
  function AddCoPurchase(g: Graph, item1: string, item2: string): (r: Graph)
    ensures item1 == item2 ==> r == g
    ensures item1 != item2 ==>
      forall x :: HasItem(r, x) <==> HasItem(g, x) || x == item1 || x == item2
    ensures item1 != item2 ==> HasEdge(r, item1, item2) && HasEdge(r, item2, item1)
    ensures item1 != item2 ==> EdgeWeight(r, item1, item2) == EdgeWeight(g, item1, item2) + 1
    ensures item1 != item2 ==> EdgeWeight(r, item2, item1) == EdgeWeight(g, item2, item1) + 1
    ensures item1 != item2 ==> forall x, y ::
      !(x == item1 && y == item2) && !(x == item2 && y == item1) ==>
        HasEdge(r, x, y) == HasEdge(g, x, y) && EdgeWeight(r, x, y) == EdgeWeight(g, x, y)
  {
    if item1 == item2 then g
    else
      var g1 := AddItem(AddItem(g, item1), item2);
      CountBothDirections(g, g1, item1, item2);
      CountOneDirection(CountOneDirection(g1, item1, item2), item2, item1)
  }

  /** Counting `a -> b` and then `b -> a` in `g1`, which holds the edges of `g` and both items,
      changes exactly the two entries of the pair. */
  lemma CountBothDirections(g: Graph, g1: Graph, a: string, b: string)
    requires a != b && HasItem(g1, a) && HasItem(g1, b)
    requires forall x :: HasItem(g1, x) <==> HasItem(g, x) || x == a || x == b
    requires forall x :: NeighboursOf(g1, x) == NeighboursOf(g, x)
    ensures var r := CountOneDirection(CountOneDirection(g1, a, b), b, a);
      && (forall x :: HasItem(r, x) <==> HasItem(g, x) || x == a || x == b)
      && HasEdge(r, a, b) && HasEdge(r, b, a)
      && EdgeWeight(r, a, b) == EdgeWeight(g, a, b) + 1
      && EdgeWeight(r, b, a) == EdgeWeight(g, b, a) + 1
      && forall x, y :: !(x == a && y == b) && !(x == b && y == a) ==>
        HasEdge(r, x, y) == HasEdge(g, x, y) && EdgeWeight(r, x, y) == EdgeWeight(g, x, y)
  {
    var g2 := CountOneDirection(g1, a, b);
    var r := CountOneDirection(g2, b, a);
    assert EdgeWeight(g1, a, b) == EdgeWeight(g, a, b);
    assert EdgeWeight(g1, b, a) == EdgeWeight(g, b, a);
    forall x, y | !(x == a && y == b) && !(x == b && y == a)
      ensures HasEdge(r, x, y) == HasEdge(g, x, y) && EdgeWeight(r, x, y) == EdgeWeight(g, x, y)
    {
      if x == a {
        assert HasEdge(g2, a, y) == HasEdge(g1, a, y);
        assert EdgeWeight(g2, a, y) == EdgeWeight(g1, a, y);
      } else if x == b {
        assert HasEdge(g2, b, y) == HasEdge(g1, b, y);
        assert EdgeWeight(g2, b, y) == EdgeWeight(g1, b, y);
      } else {
        assert NeighboursOf(r, x) == NeighboursOf(g, x);
      }
    }
  }

  /** The effect of one co-purchase on one count: `+1` on the pair itself, in either
      direction, and nothing elsewhere. */
  lemma AddCoPurchaseWeight(g: Graph, a: string, b: string, x: string, y: string)
    ensures EdgeWeight(AddCoPurchase(g, a, b), x, y) ==
      EdgeWeight(g, x, y) + (if a != b && ((x == a && y == b) || (x == b && y == a)) then 1 else 0)
  {
  }

  // ---------------------------------------------------------------------------
  // Properties of the mutators and queries
  // ---------------------------------------------------------------------------

  /** Adding an item twice is adding it once. */
  lemma AddItemIdempotent(g: Graph, item: string)
    ensures AddItem(AddItem(g, item), item) == AddItem(g, item)
  {
  }

  /** `add_item` keeps the invariant. */
  lemma AddItemPreservesInvariant(g: Graph, item: string)
    requires Invariant(g)
    ensures Invariant(AddItem(g, item))
  {
    var r := AddItem(g, item);
    assert forall a, b :: HasEdge(r, a, b) == HasEdge(g, a, b);
    assert forall a, b :: EdgeWeight(r, a, b) == EdgeWeight(g, a, b);
  }

  /** `add_co_purchase` keeps the invariant. */
  lemma AddCoPurchasePreservesInvariant(g: Graph, a: string, b: string)
    requires Invariant(g)
    ensures Invariant(AddCoPurchase(g, a, b))
  {
    if a != b {
      var r := AddCoPurchase(g, a, b);
      assert EdgeWeight(g, a, b) == EdgeWeight(g, b, a) by {
        if HasEdge(g, a, b) {
        } else if HasEdge(g, b, a) {
        }
      }
      assert EdgeWeight(g, a, b) >= 0 by {
        if HasEdge(g, a, b) {
        }
      }
      forall x, y | HasEdge(r, x, y)
        ensures x != y && HasItem(r, y) && HasEdge(r, y, x)
        ensures EdgeWeight(r, x, y) == EdgeWeight(r, y, x) && EdgeWeight(r, x, y) >= 1
      {
        if (x == a && y == b) || (x == b && y == a) {
        } else {
          assert HasEdge(g, x, y);
        }
      }
    }
  }

  /** Under the invariant an edge exists exactly when its count is positive. */
  lemma HasEdgeIffPositiveWeight(g: Graph, a: string, b: string)
    requires Invariant(g)
    ensures HasEdge(g, a, b) <==> EdgeWeight(g, a, b) > 0
  {
  }

  /** Under the invariant the count is the same in both directions, edge or not. */
  lemma EdgeWeightSymmetric(g: Graph, a: string, b: string)
    requires Invariant(g)
    ensures EdgeWeight(g, a, b) == EdgeWeight(g, b, a)
  {
  }

  /** The entries of a neighbour map are exactly the item's edges with their counts. */
  lemma NeighbourEntries(g: Graph, item: string)
    ensures forall e :: e in NeighboursOf(g, item) <==>
      HasEdge(g, item, e.0) && e.1 == EdgeWeight(g, item, e.0)
  {
    var n := NeighboursOf(g, item);
    forall e
      ensures e in n <==> HasEdge(g, item, e.0) && e.1 == EdgeWeight(g, item, e.0)
    {
      if e in n {
        var i :| 0 <= i < |n| && n[i] == e;
        assert Keys(n)[i] == e.0;
      }
    }
  }

  // ---------------------------------------------------------------------------
  // num_edges counts unordered pairs
  // ---------------------------------------------------------------------------

  /** The ordered pairs `(a, b)` for the keys `b` of one neighbour map. */
  ghost function RowEdges(a: string, ks: seq<string>): set<(string, string)> {
    if |ks| == 0 then {} else {(a, ks[0])} + RowEdges(a, ks[1..])
  }

  /** Every stored direction of every edge, as an ordered pair. */
  ghost function DirectedEdges(g: Graph): set<(string, string)> {
    if |g| == 0 then {} else RowEdges(g[0].0, Keys(g[0].1)) + DirectedEdges(g[1..])
  }

  /** Each undirected edge once, as the ordered pair whose first item is the smaller. */
  ghost function UndirectedEdges(g: Graph): set<(string, string)> {
    AscendingPairs(DirectedEdges(g))
  }

  lemma {:induction false} RowEdgesFacts(a: string, ks: seq<string>)
    requires NoDup(ks)
    ensures forall p :: p in RowEdges(a, ks) <==> p.0 == a && p.1 in ks
    ensures |RowEdges(a, ks)| == |ks|
  {
    if |ks| > 0 {
      RowEdgesFacts(a, ks[1..]);
      assert ks == [ks[0]] + ks[1..];
      assert ks[0] !in ks[1..];
    }
  }

  /** Looking past the first entry of a dictionary of neighbour maps. */
  lemma GraphTail(g: Graph, a: string)
    requires |g| > 0 && g[0].0 != a
    ensures HasItem(g, a) == HasItem(g[1..], a)
    ensures NeighboursOf(g, a) == NeighboursOf(g[1..], a)
  {
    var t: Graph := g[1..];
    assert forall i :: 0 <= i < |t| ==> t[i] == g[i + 1];
    if HasItem(t, a) {
      var i :| 0 <= i < |t| && t[i].0 == a;
      assert g[i + 1].0 == a;
    }
  }

  lemma {:induction false} DirectedEdgesAreEdges(g: Graph)
    ensures forall p :: p in DirectedEdges(g) <==> HasEdge(g, p.0, p.1)
  {
    if |g| > 0 {
      DirectedEdgesAreEdges(g[1..]);
      RowEdgesFacts(g[0].0, Keys(g[0].1));
      forall p
        ensures p in DirectedEdges(g) <==> HasEdge(g, p.0, p.1)
      {
        if p.0 == g[0].0 {
          assert NeighboursOf(g, p.0) == g[0].1;
        } else {
          GraphTail(g, p.0);
        }
      }
    }
  }

  lemma {:induction false} DirectedEdgesCount(g: Graph)
    ensures |DirectedEdges(g)| == SumDegrees(g)
  {
    if |g| > 0 {
      DirectedEdgesCount(g[1..]);
      DirectedEdgesAreEdges(g[1..]);
      RowEdgesFacts(g[0].0, Keys(g[0].1));
      var row := RowEdges(g[0].0, Keys(g[0].1));
      var rest := DirectedEdges(g[1..]);
      assert row * rest == {};
    }
  }

  /** Swapping the components of every pair keeps the number of pairs. */
  lemma {:induction false} SwapCard(s: set<(string, string)>)
    ensures |set p | p in s :: (p.1, p.0)| == |s|
    decreases |s|
  {
    if s != {} {
      var x :| x in s;
      var s' := s - {x};
      SwapCard(s');
      var sw := set p | p in s :: (p.1, p.0);
      var sw' := set p | p in s' :: (p.1, p.0);
      assert sw == sw' + {(x.1, x.0)};
      assert (x.1, x.0) !in sw';
    }
  }

  /** The pairs of `d` whose first item is the smaller. */
  ghost function AscendingPairs(d: set<(string, string)>): set<(string, string)> {
    set p | p in d && Lt(p.0, p.1)
  }

  /** The pairs of `d` whose first item is the larger. */
  ghost function DescendingPairs(d: set<(string, string)>): set<(string, string)> {
    set p | p in d && Lt(p.1, p.0)
  }

  /** A set of ordered pairs without loops splits into its ascending and descending pairs. */
  lemma SplitByOrder(d: set<(string, string)>)
    requires forall p :: p in d ==> p.0 != p.1
    ensures d == AscendingPairs(d) + DescendingPairs(d)
    ensures |d| == |AscendingPairs(d)| + |DescendingPairs(d)|
  {
    forall p | p in d
      ensures p in AscendingPairs(d) || p in DescendingPairs(d)
    {
      LtTotal(p.0, p.1);
    }
    forall p | p in AscendingPairs(d) && p in DescendingPairs(d)
      ensures false
    {
      LtAsymmetric(p.0, p.1);
    }
    assert AscendingPairs(d) * DescendingPairs(d) == {};
  }

  /** In a set closed under swapping, the descending pairs are the swapped ascending ones. */
  lemma DescendingIsSwapped(d: set<(string, string)>)
    requires forall p :: p in d ==> (p.1, p.0) in d
    ensures |DescendingPairs(d)| == |AscendingPairs(d)|
  {
    var sw := set p | p in AscendingPairs(d) :: (p.1, p.0);
    forall p
      ensures p in DescendingPairs(d) <==> p in sw
    {
      if p in DescendingPairs(d) {
        assert (p.1, p.0) in AscendingPairs(d);
      }
    }
    assert DescendingPairs(d) == sw;
    SwapCard(AscendingPairs(d));
  }

  /** Under the invariant the stored directions have no loops and come in mirrored pairs. */
  lemma DirectedEdgesMirrored(g: Graph)
    requires Invariant(g)
    ensures forall p :: p in DirectedEdges(g) ==> p.0 != p.1 && (p.1, p.0) in DirectedEdges(g)
  {
    DirectedEdgesAreEdges(g);
  }

  /** The unordered pairs are the edges from a smaller to a larger item. */
  lemma UndirectedEdgesMembers(g: Graph)
    ensures forall a, b :: (a, b) in UndirectedEdges(g) <==> HasEdge(g, a, b) && Lt(a, b)
  {
    DirectedEdgesAreEdges(g);
  }

  /** `num_edges()` is the number of unordered pairs `{a, b}` joined by an edge: the invariant
      makes every edge appear exactly twice in the neighbour maps. */
  lemma NumEdgesCountsUnorderedPairs(g: Graph)
    requires Invariant(g)
    ensures forall a, b :: (a, b) in UndirectedEdges(g) <==> HasEdge(g, a, b) && Lt(a, b)
    ensures NumEdges(g) == |UndirectedEdges(g)|
  {
    var d := DirectedEdges(g);
    UndirectedEdgesMembers(g);
    DirectedEdgesCount(g);
    DirectedEdgesMirrored(g);
    SplitByOrder(d);
    DescendingIsSwapped(d);
    assert UndirectedEdges(g) == AscendingPairs(d);
  }
}
