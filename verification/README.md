# Co-purchase graph: a Dafny model

This project models the core of a small market-basket analysis tool written in Python.
Supermarket transactions are grouped into baskets by (member number, date). The baskets become
an undirected, weighted co-purchase graph: items are nodes, and the weight of an edge is the
number of baskets that hold both of its items. Graph algorithms then answer questions about
the graph: which items are related (breadth-first and depth-first search), which pairs are
frequent (threshold filtering), which bundles are strongest (a three-way quicksort and top-k
slicing), and what to recommend alongside a given item.

Modules, one per concern:

- `Wrappers`, `Seqs`, `Dicts` (`wrappers.dfy`, `seqs.dfy`, `dicts.dfy`): `Option`/`Result`,
  duplicate-free sequences, Python's slice `s[:k]`, and Python's insertion-ordered `dict`. A
  dict is modelled as an association list with distinct keys (`Dict<K, V>`), so iteration
  order is exactly Python's insertion order.
- `Strings` (`strings.dfy`): Python's lexicographic code-point order on `str` (`Lt`), sorting
  strings for `items()`, and `str.strip()` with Python's own whitespace set (`str.isspace`).
- `CoPurchaseGraph` (`copurchase_graph.dfy`): the class `CoPurchaseGraph`, its mutators as
  pure update functions, its queries, and its invariant.
- `Ranking` (`ranking.dfy`): `quick_sort_items` as written, Python's stable
  `sorted(..., reverse=True)`, and the proof that both give the same list.
- `Traversal` (`traversal.dfy`): `bfs_related_items` as a loop and `dfs_related_items` as
  recursion. Both are proved to find exactly the items reachable from the start.
- `Mining` (`mining.dfy`): `frequent_pairs`, `top_product_bundles`, `recommend_items`,
  `strongest_associations`.
- `TransactionLoader` (`transaction_loader.dfy`): the column check and row grouping of
  `load_transactions`, and the basket loop of `build_graph_from_file`.

Both traversals add an item to `visited` only when it is first seen as a neighbour. The start
item is never added up front. The comment at graph_algorithms.py:36 says the result excludes
the start item, but the code does not do that. The model follows the code. On a graph built by
the mutators, the start item is in the result exactly when it has at least one neighbour
(`Traversal.DfsIncludesStartIffNeighbour`).

## Model

| member | source | states |
|---|---|---|
| CoPurchaseGraph.HasItem | copurchase_graph.py:84-88 | `item in adj`: the item is a key of the graph's dict (a bare lookup, no contract of its own) |
| CoPurchaseGraph.HasEdge | copurchase_graph.py:90-96 | false for an unknown first item, otherwise whether `item2` is a key of the first item's map; its meaning is stated by `CoPurchaseGraph.NeighbourEntries` and `CoPurchaseGraph.HasEdgeIffPositiveWeight` |
| CoPurchaseGraph.NeighboursOf | copurchase_graph.py:66-73 | an unknown item has an empty neighbour map; a known item has exactly the map stored under it |
| CoPurchaseGraph.EdgeWeight | copurchase_graph.py:75-82 | the count is 0 when there is no edge (unknown first item or no entry); otherwise it is the count stored for `item2` in the map of `item1` |
| CoPurchaseGraph.HasEdgeIffPositiveWeight | copurchase_graph.py:75-96 | under the invariant, `has_edge(a, b)` holds if and only if `edge_weight(a, b) > 0` |
| CoPurchaseGraph.EdgeWeightSymmetric | copurchase_graph.py:53-55 | under the invariant, `edge_weight(a, b) == edge_weight(b, a)` |
| CoPurchaseGraph.NeighbourEntries | copurchase_graph.py:66-96 | an entry `(n, w)` is in the neighbour map of an item if and only if the edge to `n` exists and `w` is its weight |
| CoPurchaseGraph.Items | copurchase_graph.py:60-64 | the item list is strictly increasing in Python's string order, holds exactly the nodes, and has `num_items()` entries |
| CoPurchaseGraph.NumItems | copurchase_graph.py:101-103 | the count is the number of distinct nodes |
| CoPurchaseGraph.NumEdges | copurchase_graph.py:105-114 | the summed sizes of the neighbour maps, floor-divided by 2; what this counts is stated by `CoPurchaseGraph.NumEdgesCountsUnorderedPairs` |
| CoPurchaseGraph.DirectedEdgesCount | copurchase_graph.py:111-113 | the total size of the neighbour maps is the number of stored edge directions |
| CoPurchaseGraph.NumEdgesCountsUnorderedPairs | copurchase_graph.py:105-114 | under the invariant, half the total size of the neighbour maps equals the number of unordered pairs `{a, b}` with an edge |
| CoPurchaseGraph.TopNeighbours | copurchase_graph.py:116-130 | an unknown item gives `[]`; otherwise the result has `min(k, degree)` entries of different neighbours, taken from the neighbour map without repetition (all of them when `k >= degree`), in non-increasing weight order, each with its weight, and every neighbour left out weighs no more than any kept |
| CoPurchaseGraph.AddItem | copurchase_graph.py:29-35 | an existing item leaves the graph unchanged; a new item becomes the last node with no neighbours; no neighbour map changes |
| CoPurchaseGraph.AddItemIdempotent | copurchase_graph.py:34-35 | adding the same item twice is the same as adding it once |
| CoPurchaseGraph.CountOneDirection | copurchase_graph.py:54 | `adj[a][b] = adj[a].get(b, 0) + 1` creates the entry if needed and adds one to it; all other entries are unchanged |
| CoPurchaseGraph.CountBothDirections | copurchase_graph.py:53-55 | counting both directions raises exactly the two entries of the pair by one |
| CoPurchaseGraph.AddCoPurchase | copurchase_graph.py:37-55 | a self-pair leaves the graph unchanged; otherwise both items become nodes, both directions gain exactly one, and every other edge and weight is unchanged |
| CoPurchaseGraph.AddCoPurchaseWeight | copurchase_graph.py:44-55 | the effect on any single count is `+1` for the pair itself in either direction, and `0` for a self-pair or any other pair |
| CoPurchaseGraph.AddItemPreservesInvariant | copurchase_graph.py:29-35 | `add_item` keeps the graph symmetric, loop-free, neighbour-closed and with weights of at least 1 |
| CoPurchaseGraph.AddCoPurchasePreservesInvariant | copurchase_graph.py:37-55 | `add_co_purchase` keeps the same four invariants |
| Strings.Lt | graph_algorithms.py:97 | Python's `a < b` on `str`, computed by comparing the first code points and recursing on the rest; `Strings.LtMeaning` proves it is the lexicographic order |
| Strings.LtMeaning | graph_algorithms.py:97 | `a < b` holds exactly when `a` is below `b` at their first difference, or `a` is a proper prefix of `b` |
| Strings.LtIrreflexive | graph_algorithms.py:97 | no string is below itself in Python's order |
| Strings.LtAsymmetric | graph_algorithms.py:97 | `a < b` and `b < a` never both hold |
| Strings.LtTransitive | graph_algorithms.py:97 | Python's string order is transitive |
| Strings.LtTotal | graph_algorithms.py:97 | two different strings are always ordered one way or the other, so `item < neighbour` picks exactly one direction of each edge |
| Strings.SortStrings | copurchase_graph.py:64 | `sorted` yields an ascending permutation of its input |
| Strings.SortDistinctIsStrict | copurchase_graph.py:64 | sorting distinct strings yields a strictly increasing, duplicate-free list |
| Strings.Strip | transaction_loader.py:47-49 | `s.strip()` as left trim then right trim over Python's whitespace set; its meaning is stated by `Strings.StripSpec` |
| Strings.StripSpec | transaction_loader.py:47-49 | `strip()` keeps the middle of the string; everything removed from either end is whitespace; the result neither starts nor ends with whitespace; and it is empty exactly when the cell is all whitespace |
| Strings.StripIdempotent | transaction_loader.py:47-49 | stripping twice is the same as stripping once |
| Seqs.Take | graph_algorithms.py:143 | `s[:k]` for `k >= 0` is the prefix of length `min(k, len(s))` |
| Ranking.HeavierCount | graph_algorithms.py:114 | `[p for p in pairs if p[1] > pivot]` keeps every copy of each heavier element and no copy of any other |
| Ranking.WithWeightCount | graph_algorithms.py:115 | `[p for p in pairs if p[1] == pivot]` keeps every copy of each element of the pivot's weight and nothing else |
| Ranking.LighterCount | graph_algorithms.py:116 | `[p for p in pairs if p[1] < pivot]` keeps every copy of each lighter element and no copy of any other |
| Ranking.PartitionMultiset | graph_algorithms.py:114-116 | the left, middle and right lists together are a permutation of the input |
| Ranking.PartitionSizes | graph_algorithms.py:114-116 | the three partition sizes add up to the input length, so the recursion shrinks |
| Ranking.CombinePartition | graph_algorithms.py:118 | joining a stable sort of the heavier part, the middle, and a stable sort of the lighter part gives a stable descending sort of the whole list |
| Ranking.QuickSort | graph_algorithms.py:108-118 | `quick_sort_items` returns a permutation in non-increasing weight order, and the elements of each weight keep their input order |
| Ranking.StableSortDesc | copurchase_graph.py:125-129 | Python's `sorted(key=weight, reverse=True)` returns a permutation in non-increasing weight order, and equal weights keep their input order |
| Ranking.StableSortUnique | graph_algorithms.py:108-118 | two descending lists that agree on the ordered run of every weight are equal |
| Ranking.QuickSortIsStableSort | graph_algorithms.py:108-118 | `quick_sort_items` returns exactly what Python's stable descending `sorted` returns |
| Ranking.HeadIsHeaviest | graph_algorithms.py:141-143 | the first element of a descending sort is at least as heavy as every input element |
| Ranking.TakeOfStableSort | graph_algorithms.py:141-143 | the first `k` of a descending sort number `min(k, len)`, are sorted, hold no element more often than the input does (the whole input when `k >= len`), and are at least as heavy as everything left out |
| Traversal.ReachStep | graph_algorithms.py:41-45 | an edge out of the start, or out of a node reachable from it, leads to a reachable node |
| Traversal.ClosedContainsReachable | graph_algorithms.py:38-45 | a set that holds the neighbours of the start and of each of its own members holds every reachable node |
| Traversal.SelfReachableIffNeighbour | graph_algorithms.py:34-45 | under the invariant, the start is reachable from itself if and only if it has a neighbour |
| Traversal.VisitNeighbours | graph_algorithms.py:41-45 | after the inner loop, every neighbour of `current` is visited; only neighbours are newly visited; `related` lists the visited set once each; and the queue grows by exactly the newly related items, in order |
| Traversal.BfsStep | graph_algorithms.py:38-45 | one round of the outer loop keeps the search invariant, and a round that visits nothing shortens the queue |
| Traversal.BfsRelatedItems | graph_algorithms.py:21-47 | an absent start gives `[]`; otherwise the result has no duplicates, holds exactly the nodes reachable by one or more edges, begins with the start's neighbours in stored order, and has the same elements as the depth-first result |
| Traversal.DfsNode | graph_algorithms.py:63-68 | one call of `_dfs` extends the visited set and the related list together, keeping them consistent |
| Traversal.DfsList | graph_algorithms.py:64-68 | the loop of `_dfs` extends the visited set and the related list together, keeping them consistent |
| Traversal.DfsRelatedItems | graph_algorithms.py:50-73 | an absent start gives `[]`; the result has no duplicates |
| Traversal.DfsNodeSound | graph_algorithms.py:63-68 | everything a search from a reachable node visits is reachable from the start |
| Traversal.DfsListSound | graph_algorithms.py:64-68 | everything the neighbour loop visits is reachable from the start |
| Traversal.DfsNodeCloses | graph_algorithms.py:63-68 | when `_dfs(node)` returns, every neighbour of `node` is visited, and no visited node outside the recursion stack has an unvisited neighbour |
| Traversal.DfsListCloses | graph_algorithms.py:64-68 | when the neighbour loop ends, every listed neighbour is visited, and the closure property holds outside the stack |
| Traversal.DfsFindsExactlyReachable | graph_algorithms.py:50-73 | for a start in the graph, an item is in the result if and only if it is reachable by one or more edges |
| Traversal.DfsIncludesStartIffNeighbour | graph_algorithms.py:60-71 | under the invariant, the start item appears in the result if and only if it has a neighbour |
| Mining.AllPairs | graph_algorithms.py:133-138 | the nested loops over items and their neighbour entries, keeping `((item, n), w)` when `item < n`, row by row in insertion order; its contents are stated by `Mining.AllPairsFacts` |
| Mining.RowPairsFacts | graph_algorithms.py:96-99 | the inner loop emits `((item, n), w)` exactly for the entries `(n, w)` with `item < n`, and never repeats a pair |
| Mining.AllPairsFacts | graph_algorithms.py:133-138 | the pair list holds each edge exactly once, from its smaller endpoint, with its weight, and nothing else |
| Mining.AtLeastFacts | graph_algorithms.py:98-99 | the support filter keeps exactly the pairs of weight at least `min_support`, and keeps them distinct |
| Mining.FrequentPairs | graph_algorithms.py:80-101 | the result holds each edge with `a < b` and weight at least `min_support` exactly once, as `((a, b), weight)`, and nothing else; it is empty when every weight is below `min_support` |
| Mining.FrequentPairsAntitone | graph_algorithms.py:98 | raising `min_support` can only remove pairs |
| Mining.TopProductBundles | graph_algorithms.py:122-143 | the result has `min(k, #pairs)` distinct edges, each with its weight, in non-increasing order, and every pair left out weighs no more than any kept |
| Mining.TakeOfSorted | graph_algorithms.py:141-143 | the first `k` of the sorted pair list keep the pairs distinct, sorted, from the list, and at least as heavy as those left out |
| Mining.TopProductBundlesPrefix | graph_algorithms.py:143 | `top_product_bundles(k)` is a prefix of `top_product_bundles(k + 1)` |
| Mining.TopBundleIsHeaviest | graph_algorithms.py:141-143 | the first bundle has maximal weight among all edges |
| Mining.PairCountIsNumEdges | graph_algorithms.py:133-138 | under the invariant, the number of extracted pairs equals `num_edges()` |
| Mining.RecommendItems | graph_algorithms.py:151-170 | the quicksort-based recommendation equals `top_neighbours(item, top_n)` of the graph class |
| Mining.RecommendItemsAreTopNeighbours | graph_algorithms.py:164-170 | an unknown item gives `[]`; otherwise the result has `min(top_n, degree)` entries of different neighbours, taken from the item's map without repetition (all of them when `top_n >= degree`), each with its weight, in non-increasing order, and no neighbour left out outweighs one kept |
| Mining.StrongestAssociations | graph_algorithms.py:177-192 | the result has `min(top_n, #pairs)` triples `(a, b, w)` with `a < b`, an edge between them and `w` its weight, in non-increasing `w` order |
| Mining.StrongestAreTopBundles | graph_algorithms.py:184-192 | the strongest associations are the top product bundles written as triples |
| TransactionLoader.AddRow | transaction_loader.py:47-52 | a row with a blank item changes nothing; otherwise its stripped item is appended to the basket of its stripped (member, date) key, and no other basket changes |
| TransactionLoader.GroupRows | transaction_loader.py:46-52 | the row loop, applying one `AddRow` per row in file order from an empty `defaultdict`; its result is stated by `TransactionLoader.GroupRowsBaskets` |
| TransactionLoader.LoadTransactions | transaction_loader.py:15-54 | the result is an error, reporting the header found, exactly when a required column is missing; otherwise each key's basket is the stripped non-blank items of its rows in row order, and a key is present exactly when its basket is non-empty |
| TransactionLoader.GroupRowsBaskets | transaction_loader.py:46-52 | grouping puts every non-blank item into the basket of its key, in row order |
| TransactionLoader.BasketItemsComeFromRows | transaction_loader.py:46-52 | an item is in a basket if and only if it is the stripped non-blank item of a row with that key |
| TransactionLoader.BasketItemsAreStripped | transaction_loader.py:49-52 | basket items are non-empty and already stripped |
| TransactionLoader.GroupRowsKeepsEveryItem | transaction_loader.py:46-52 | the basket lengths sum to the number of non-blank rows, so duplicates within a basket are kept |
| TransactionLoader.AddItems | transaction_loader.py:74-75 | the loop adds exactly the basket's items as nodes and changes no neighbour map |
| TransactionLoader.AddPairsWithEffect | transaction_loader.py:77-78 | pairing `a` with the later items raises the count of each pair `{a, b}` by one and changes no other count |
| TransactionLoader.AddCombinationsEffect | transaction_loader.py:77-78 | `combinations(unique_items, 2)` raises every count between two distinct basket items by exactly one and adds no node |
| TransactionLoader.AddBasketEffect | transaction_loader.py:72-78 | one basket makes its items nodes and adds one to every pair of distinct items in it |
| TransactionLoader.AddBasketsEffect | transaction_loader.py:71-78 | after all baskets, the nodes are the basket items, and each count between distinct items has grown by the number of baskets holding both |
| TransactionLoader.AddBasketsPreservesInvariant | transaction_loader.py:71-78 | building keeps the graph symmetric, loop-free, neighbour-closed and with positive weights |
| TransactionLoader.CountBothEnumerated | transaction_loader.py:72 | counting over the de-duplicated baskets gives the same number as over the raw baskets |
| TransactionLoader.BuildGraph | transaction_loader.py:69-80 | the graph satisfies the invariant; its nodes are exactly the basket items, including single-item baskets; the weight of two distinct items is the number of baskets holding both, with a repeated item counted once; and no item has a self-count |
| TransactionLoader.GraphNodesAreRowItems | transaction_loader.py:46-52 | an item is in some basket if and only if it is the stripped non-blank item of some row |
| TransactionLoader.BuildGraphFromFile | transaction_loader.py:57-80 | the schema error propagates unchanged; otherwise the graph satisfies the invariant, its nodes are exactly the stripped non-blank item cells, and each weight is the number of baskets holding both items |

## Left out

- File and CSV reading (`open`, `csv.DictReader`, transaction_loader.py:28-29) are left out. `load_transactions` takes the header and the rows as (member, date, item) string triples. A short row whose `DictReader` cell is `None` is not modelled.
- The `ValueError` message is modelled as `MissingColumns(found)`, which carries only the header found. The text of the message is not modelled.
- The iteration order of `set(basket)` (transaction_loader.py:72) is unspecified in Python. `BuildGraph` takes it as a parameter `orders`: one duplicate-free listing of each basket's items. The properties stated for `BuildGraph` and `BuildGraphFromFile` (invariant, node set, weights) hold for every listing. The listing does decide the order in which nodes and neighbour entries are inserted, and so the output order of BFS, DFS and `frequent_pairs`, and the order among equal weights in `top_product_bundles`, `strongest_associations` and `top_neighbours`. None of that order is fixed by this model.
- Negative `k` or `top_n` (Python's negative slices) is not modelled. These parameters are `nat`.
- Default arguments are not modelled; every call passes all its arguments. The Python defaults are `k=5` for `top_neighbours` (copurchase_graph.py:116) and `top_product_bundles` (graph_algorithms.py:122), `top_n=5` for `recommend_items` (graph_algorithms.py:151), `top_n=10` for `strongest_associations` (graph_algorithms.py:177), and `min_support=2` for `frequent_pairs` (graph_algorithms.py:80).
- An empty CSV file makes `reader.fieldnames` `None`, so the column check at transaction_loader.py:37 raises `TypeError`, not `ValueError`. The model takes the header as a list, and an empty header gives `MissingColumns([])`.
- Python raises `KeyError` only when a traversal from a start that is in the graph reaches a neighbour that is not a node (graph_algorithms.py:41, 64). On other inputs, such as `{"a": {"z": 1}, "b": {}}` from `"b"`, it returns normally. Both traversals require `NeighbourClosed` for every input, which is stronger than Python needs. Every graph built by the mutators satisfies it (`CoPurchaseGraph.AddCoPurchasePreservesInvariant`), and graphs built this way are what the interface passes in.
- Python's recursion-depth limit on `_dfs` is not modelled. The recursion is unbounded and terminates on the number of unvisited nodes.
- Aliasing is not modelled: `neighbours()` and `as_adjacency_dict()` return the internal dicts by reference, and here they are plain values. `as_adjacency_dict`, `__repr__` and `__init__` need no model beyond `EmptyGraph` and the graph value itself.
- Python integers are unbounded, and so are Dafny's. Weights therefore need no wrap-around.
- `str.strip()` and string order work on Unicode code points. Dafny's `char` has no lone surrogates, which a Python `str` may contain.
- `app.py` (the Streamlit interface) is not part of this model. Neither is `graph_plotting.py` (matplotlib drawing).
- Traversal.DfsRelatedItems: its own contract says only that the result has no duplicates and is `[]` for an absent start. The set-level promise (exactly the reachable items) is `Traversal.DfsFindsExactlyReachable`.
