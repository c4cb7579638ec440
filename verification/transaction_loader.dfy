/**
  Loading transactions and building the graph (`load_transactions`, `build_graph_from_file`).
  Rows are grouped into baskets keyed by the stripped (member, date); blank items are dropped.
  Each basket then contributes its distinct items as nodes and one co-purchase for every
  unordered pair of its distinct items, so an edge's count is the number of baskets holding
  both of its items.
 */
module TransactionLoader {
  import opened Wrappers
  import opened Seqs
  import opened Dicts
  import opened Strings
  import opened CoPurchaseGraph

  // ---------------------------------------------------------------------------
  // load_transactions
  // ---------------------------------------------------------------------------

  const MemberColumn: string := "Member_number"
  const DateColumn: string := "Date"
  const ItemColumn: string := "itemDescription"

  /** One CSV row: the raw member, date and item cells. */
  datatype Row = Row(member: string, date: string, item: string)

  /** A basket key: stripped member number and stripped date. */
  type Key = (string, string)

  /** The grouped transactions: key -> items in row order, duplicates kept. */
  type Baskets = Dict<Key, seq<string>>

  /** The `ValueError` raised when a required column is missing; it reports the header found. */
  datatype SchemaError = MissingColumns(found: seq<string>)

  /** The basket key of a row. */
  function RowKey(row: Row): Key {
    (Strip(row.member), Strip(row.date))
  }

  /** Whether the row's stripped item is non-empty (`if item:`). */
  predicate HasItemCell(row: Row) {
    Strip(row.item) != ""
  }

  /** One iteration of the row loop: append the stripped item to its basket, unless blank. */
  function AddRow(t: Baskets, row: Row): (r: Baskets)
    ensures !HasItemCell(row) ==> r == t
    ensures HasItemCell(row) ==>
      GetOr(r, RowKey(row), []) == GetOr(t, RowKey(row), []) + [Strip(row.item)]
    ensures forall k :: k != RowKey(row) ==> Get(r, k) == Get(t, k)
  {
    if !HasItemCell(row) then t
    else Set(t, RowKey(row), GetOr(t, RowKey(row), []) + [Strip(row.item)])
  }

  /** The row loop of `load_transactions`, over the rows in file order. */
  function GroupRows(rows: seq<Row>): Baskets {
    if |rows| == 0 then [] else AddRow(GroupRows(rows[..|rows| - 1]), rows[|rows| - 1])
  }

  /** `load_transactions` on a file with header `header` and rows `rows`: a `SchemaError`
      exactly when one of the three columns is missing, otherwise the grouped baskets. */
  function LoadTransactions(header: seq<string>, rows: seq<Row>): (r: Result<Baskets, SchemaError>)
    ensures r.Failure? <==>
      MemberColumn !in header || DateColumn !in header || ItemColumn !in header
    ensures r.Failure? ==> r.error.found == header
    ensures r.Success? ==> forall k :: GetOr(r.value, k, []) == Basket(rows, k)
    ensures r.Success? ==> forall k :: HasKey(r.value, k) <==> Basket(rows, k) != []
  {
    if MemberColumn !in header || DateColumn !in header || ItemColumn !in header then
      Failure(MissingColumns(header))
    else
      GroupRowsBaskets(rows);
      Success(GroupRows(rows))
  }

  /** Reference definition of one basket: the stripped non-blank items of the rows with key
      `k`, in row order. */
  function Basket(rows: seq<Row>, k: Key): seq<string> {
    if |rows| == 0 then []
    else
      var last := rows[|rows| - 1];
      Basket(rows[..|rows| - 1], k)
        + (if RowKey(last) == k && HasItemCell(last) then [Strip(last.item)] else [])
  }

  /** Grouping puts every non-blank item into the basket of its key, in row order; a key is
      present exactly when its basket is non-empty. */
  lemma {:induction false} GroupRowsBaskets(rows: seq<Row>)
    ensures forall k :: GetOr(GroupRows(rows), k, []) == Basket(rows, k)
    ensures forall k :: HasKey(GroupRows(rows), k) <==> Basket(rows, k) != []
  {
    if |rows| > 0 {
      var init := rows[..|rows| - 1];
      GroupRowsBaskets(init);
      var t := GroupRows(init);
      var row := rows[|rows| - 1];
      forall k
        ensures GetOr(GroupRows(rows), k, []) == Basket(rows, k)
        ensures HasKey(GroupRows(rows), k) <==> Basket(rows, k) != []
      {
        if k == RowKey(row) && HasItemCell(row) {
          assert Get(GroupRows(rows), k).Some?;
        }
      }
    }
  }

  /** `x` is the stripped, non-blank item cell of some row with key `k`. */
  ghost predicate IsRowItemWithKey(rows: seq<Row>, k: Key, x: string) {
    exists i :: 0 <= i < |rows| && RowKey(rows[i]) == k && HasItemCell(rows[i])
                && Strip(rows[i].item) == x
  }

  /** `x` is the stripped, non-blank item cell of some row. */
  ghost predicate IsRowItem(rows: seq<Row>, x: string) {
    exists i :: 0 <= i < |rows| && HasItemCell(rows[i]) && Strip(rows[i].item) == x
  }

  /** A basket holds exactly the stripped non-blank items of the rows with its key. */
  lemma {:induction false} BasketItemsComeFromRows(rows: seq<Row>, k: Key)
    ensures forall x :: x in Basket(rows, k) <==> IsRowItemWithKey(rows, k, x)
  {
    if |rows| > 0 {
      var init := rows[..|rows| - 1];
      BasketItemsComeFromRows(init, k);
      var last := rows[|rows| - 1];
      forall x
        ensures x in Basket(rows, k) <==> IsRowItemWithKey(rows, k, x)
      {
        if x in Basket(init, k) {
          var i :| 0 <= i < |init| && RowKey(init[i]) == k && HasItemCell(init[i])
                   && Strip(init[i].item) == x;
          assert rows[i] == init[i];
        }
        if IsRowItemWithKey(rows, k, x) {
          var i :| 0 <= i < |rows| && RowKey(rows[i]) == k && HasItemCell(rows[i])
                   && Strip(rows[i].item) == x;
          if i < |init| {
            assert init[i] == rows[i];
            assert IsRowItemWithKey(init, k, x);
          }
        }
      }
    }
  }

  /** Every basket item is non-blank and already stripped. */
  lemma BasketItemsAreStripped(rows: seq<Row>, k: Key)
    ensures forall x :: x in Basket(rows, k) ==> x != "" && Strip(x) == x
  {
    BasketItemsComeFromRows(rows, k);
    forall x | x in Basket(rows, k)
      ensures x != "" && Strip(x) == x
    {
      var i :| 0 <= i < |rows| && RowKey(rows[i]) == k && HasItemCell(rows[i])
               && Strip(rows[i].item) == x;
      StripIdempotent(rows[i].item);
    }
  }

  // ---------------------------------------------------------------------------
  // Counting the items of all baskets
  // ---------------------------------------------------------------------------

  /** The number of items over all baskets, duplicates included. */
  function TotalItems(t: seq<(Key, seq<string>)>): nat {
    if |t| == 0 then 0 else |t[0].1| + TotalItems(t[1..])
  }

  /** The number of rows with a non-blank item. */
  function NonBlankRows(rows: seq<Row>): nat {
    if |rows| == 0 then 0
    else NonBlankRows(rows[..|rows| - 1]) + (if HasItemCell(rows[|rows| - 1]) then 1 else 0)
  }

  lemma {:induction false} TotalItemsAppend(t: seq<(Key, seq<string>)>, e: (Key, seq<string>))
    ensures TotalItems(t + [e]) == TotalItems(t) + |e.1|
  {
    if |t| > 0 {
      TotalItemsAppend(t[1..], e);
      assert (t + [e])[1..] == t[1..] + [e];
    }
  }

  lemma {:induction false} TotalItemsUpdate(t: seq<(Key, seq<string>)>, i: nat,
                                            e: (Key, seq<string>))
    requires i < |t|
    ensures TotalItems(t[i := e]) == TotalItems(t) - |t[i].1| + |e.1|
  {
    if i > 0 {
      TotalItemsUpdate(t[1..], i - 1, e);
      assert t[i := e][1..] == t[1..][i - 1 := e];
    }
  }

  /** No row's item is lost or invented: the baskets hold as many items as there are rows
      with a non-blank item. */
  lemma {:induction false} GroupRowsKeepsEveryItem(rows: seq<Row>)
    ensures TotalItems(GroupRows(rows)) == NonBlankRows(rows)
  {
    if |rows| > 0 {
      var init := rows[..|rows| - 1];
      GroupRowsKeepsEveryItem(init);
      var t := GroupRows(init);
      var row := rows[|rows| - 1];
      if HasItemCell(row) {
        var k := RowKey(row);
        var v := GetOr(t, k, []) + [Strip(row.item)];
        if HasKey(t, k) {
          var i := IndexOf(t, k);
          assert Set(t, k, v) == t[i := (k, v)];
          TotalItemsUpdate(t, i, (k, v));
        } else {
          assert Set(t, k, v) == t + [(k, v)];
          TotalItemsAppend(t, (k, v));
        }
      }
    }
  }

  // ---------------------------------------------------------------------------
  // build_graph_from_file
  // ---------------------------------------------------------------------------

  /** `for item in unique_items: graph.add_item(item)`. */
  function AddItems(g: Graph, items: seq<string>): (r: Graph)
    ensures forall x :: HasItem(r, x) <==> HasItem(g, x) || x in items
    ensures forall x :: NeighboursOf(r, x) == NeighboursOf(g, x)
    decreases |items|
  {
    if |items| == 0 then g else AddItems(AddItem(g, items[0]), items[1..])
  }

  /** The pairs `(a, b)` for `b` in `rest`: the `combinations` pairs whose first item is `a`. */
  function AddPairsWith(g: Graph, a: string, rest: seq<string>): Graph
    decreases |rest|
  {
    if |rest| == 0 then g else AddPairsWith(AddCoPurchase(g, a, rest[0]), a, rest[1..])
  }

  /** `for itemA, itemB in combinations(unique_items, 2): graph.add_co_purchase(itemA, itemB)`:
      `combinations` yields `(u[i], u[j])` for `i < j` in lexicographic order of `(i, j)`. */
  function AddCombinations(g: Graph, u: seq<string>): Graph
    decreases |u|
  {
    if |u| == 0 then g else AddCombinations(AddPairsWith(g, u[0], u[1..]), u[1..])
  }

  /** One basket, given the iteration order `u` of `set(basket)`. */
  function AddBasket(g: Graph, u: seq<string>): Graph {
    AddCombinations(AddItems(g, u), u)
  }

  /** The basket loop, one iteration order per basket. */
  function AddBaskets(g: Graph, orders: seq<seq<string>>): Graph
    decreases |orders|
  {
    if |orders| == 0 then g else AddBaskets(AddBasket(g, orders[0]), orders[1..])
  }

  /** `orders[i]` lists the distinct items of the `i`-th basket, each once: it is one possible
      iteration order of `set(basket)`, which Python leaves to string hashing. */
  ghost predicate Enumerates(orders: seq<seq<string>>, baskets: seq<seq<string>>) {
    && |orders| == |baskets|
    && forall i :: 0 <= i < |orders| ==>
         NoDup(orders[i]) && forall x :: x in orders[i] <==> x in baskets[i]
  }

  /** The number of baskets that hold both `a` and `b`. */
  function CountBoth(baskets: seq<seq<string>>, a: string, b: string): nat {
    if |baskets| == 0 then 0
    else (if a in baskets[0] && b in baskets[0] then 1 else 0) + CountBoth(baskets[1..], a, b)
  }

  /** Pairing `a` with each of `rest` counts one co-purchase for each `{a, b}` with `b` in
      `rest`, and changes nothing else. */
  lemma AddPairsWithEffect(g: Graph, a: string, rest: seq<string>)
    requires NoDup(rest) && a !in rest
    ensures forall x, y :: x != y ==>
      EdgeWeight(AddPairsWith(g, a, rest), x, y) ==
        EdgeWeight(g, x, y) + (if (x == a && y in rest) || (y == a && x in rest) then 1 else 0)
  {
    forall x, y | x != y
      ensures EdgeWeight(AddPairsWith(g, a, rest), x, y) ==
        EdgeWeight(g, x, y) + (if (x == a && y in rest) || (y == a && x in rest) then 1 else 0)
    {
      AddPairsWithWeight(g, a, rest, x, y);
    }
  }

  /** `AddPairsWithEffect` for one pair `(x, y)`. */
  lemma {:induction false} AddPairsWithWeight(g: Graph, a: string, rest: seq<string>,
                                              x: string, y: string)
    requires NoDup(rest) && a !in rest && x != y
    ensures EdgeWeight(AddPairsWith(g, a, rest), x, y) ==
      EdgeWeight(g, x, y) + (if (x == a && y in rest) || (y == a && x in rest) then 1 else 0)
    decreases |rest|
  {
    if |rest| > 0 {
      var b, tail := rest[0], rest[1..];
      assert rest == [b] + tail;
      assert a != b && b !in tail && NoDup(tail) && a !in tail;
      AddPairsWithWeight(AddCoPurchase(g, a, b), a, tail, x, y);
      AddCoPurchaseWeight(g, a, b, x, y);
    }
  }

  /** Pairing items already in the graph adds no node. */
  lemma {:induction false} AddPairsWithKeepsItems(g: Graph, a: string, rest: seq<string>)
    requires HasItem(g, a) && forall b :: b in rest ==> HasItem(g, b)
    ensures forall x :: HasItem(AddPairsWith(g, a, rest), x) <==> HasItem(g, x)
    decreases |rest|
  {
    if |rest| > 0 {
      AddPairsWithKeepsItems(AddCoPurchase(g, a, rest[0]), a, rest[1..]);
    }
  }

  /** Every unordered pair of distinct items of `u` gains exactly one co-purchase. */
  lemma {:induction false} AddCombinationsEffect(g: Graph, u: seq<string>)
    requires NoDup(u)
    requires forall b :: b in u ==> HasItem(g, b)
    ensures forall x :: HasItem(AddCombinations(g, u), x) <==> HasItem(g, x)
    ensures forall x, y :: x != y ==>
      EdgeWeight(AddCombinations(g, u), x, y)
        == EdgeWeight(g, x, y) + (if x in u && y in u then 1 else 0)
    decreases |u|
  {
    if |u| > 0 {
      assert u == [u[0]] + u[1..];
      AddPairsWithEffect(g, u[0], u[1..]);
      AddPairsWithKeepsItems(g, u[0], u[1..]);
      var g1 := AddPairsWith(g, u[0], u[1..]);
      AddCombinationsEffect(g1, u[1..]);
    }
  }

  /** Adding items leaves every count as it was. */
  lemma AddItemsKeepsWeights(g: Graph, items: seq<string>)
    ensures forall x, y :: EdgeWeight(AddItems(g, items), x, y) == EdgeWeight(g, x, y)
  {
    var r := AddItems(g, items);
    forall x, y
      ensures EdgeWeight(r, x, y) == EdgeWeight(g, x, y)
    {
      assert NeighboursOf(r, x) == NeighboursOf(g, x);
    }
  }

  /** One basket adds its items as nodes and one co-purchase for each pair of its items. */
  lemma AddBasketEffect(g: Graph, u: seq<string>)
    requires NoDup(u)
    ensures forall x :: HasItem(AddBasket(g, u), x) <==> HasItem(g, x) || x in u
    ensures forall x, y :: x != y ==>
      EdgeWeight(AddBasket(g, u), x, y) == EdgeWeight(g, x, y) + (if x in u && y in u then 1 else 0)
  {
    AddItemsKeepsWeights(g, u);
    AddCombinationsEffect(AddItems(g, u), u);
  }

  /** The basket loop makes a node of every basket item and counts, for each pair of distinct
      items, the baskets holding both. */
  lemma {:induction false} AddBasketsEffect(g: Graph, orders: seq<seq<string>>)
    requires forall i :: 0 <= i < |orders| ==> NoDup(orders[i])
    ensures forall x :: HasItem(AddBaskets(g, orders), x) <==>
      HasItem(g, x) || exists i :: 0 <= i < |orders| && x in orders[i]
    ensures forall x, y :: x != y ==>
      EdgeWeight(AddBaskets(g, orders), x, y) == EdgeWeight(g, x, y) + CountBoth(orders, x, y)
    decreases |orders|
  {
    if |orders| > 0 {
      var g1 := AddBasket(g, orders[0]);
      AddBasketEffect(g, orders[0]);
      AddBasketsEffect(g1, orders[1..]);
      forall x
        ensures HasItem(AddBaskets(g, orders), x) <==>
          HasItem(g, x) || exists i :: 0 <= i < |orders| && x in orders[i]
      {
        if exists i :: 0 <= i < |orders| && x in orders[i] {
          var i :| 0 <= i < |orders| && x in orders[i];
          if i > 0 {
            assert x in orders[1..][i - 1];
          }
        }
        if exists i :: 0 <= i < |orders[1..]| && x in orders[1..][i] {
          var i :| 0 <= i < |orders[1..]| && x in orders[1..][i];
          assert x in orders[i + 1];
        }
      }
    }
  }

  /** Each basket operation keeps the graph invariant. */
  lemma {:induction false} AddPairsWithPreservesInvariant(g: Graph, a: string, rest: seq<string>)
    requires Invariant(g)
    ensures Invariant(AddPairsWith(g, a, rest))
    decreases |rest|
  {
    if |rest| > 0 {
      AddCoPurchasePreservesInvariant(g, a, rest[0]);
      AddPairsWithPreservesInvariant(AddCoPurchase(g, a, rest[0]), a, rest[1..]);
    }
  }

  lemma {:induction false} AddCombinationsPreservesInvariant(g: Graph, u: seq<string>)
    requires Invariant(g)
    ensures Invariant(AddCombinations(g, u))
    decreases |u|
  {
    if |u| > 0 {
      AddPairsWithPreservesInvariant(g, u[0], u[1..]);
      AddCombinationsPreservesInvariant(AddPairsWith(g, u[0], u[1..]), u[1..]);
    }
  }

  lemma {:induction false} AddItemsPreservesInvariant(g: Graph, items: seq<string>)
    requires Invariant(g)
    ensures Invariant(AddItems(g, items))
    decreases |items|
  {
    if |items| > 0 {
      AddItemPreservesInvariant(g, items[0]);
      AddItemsPreservesInvariant(AddItem(g, items[0]), items[1..]);
    }
  }

  lemma {:induction false} AddBasketsPreservesInvariant(g: Graph, orders: seq<seq<string>>)
    requires Invariant(g)
    ensures Invariant(AddBaskets(g, orders))
    decreases |orders|
  {
    if |orders| > 0 {
      AddItemsPreservesInvariant(g, orders[0]);
      AddCombinationsPreservesInvariant(AddItems(g, orders[0]), orders[0]);
      AddBasketsPreservesInvariant(AddBasket(g, orders[0]), orders[1..]);
    }
  }

  /** Counting over the distinct items of each basket is counting over the baskets. */
  lemma {:induction false} CountBothEnumerated(orders: seq<seq<string>>, baskets: seq<seq<string>>,
                                               a: string, b: string)
    requires Enumerates(orders, baskets)
    ensures CountBoth(orders, a, b) == CountBoth(baskets, a, b)
  {
    if |orders| > 0 {
      CountBothEnumerated(orders[1..], baskets[1..], a, b);
    }
  }

  /** The graph loop of `build_graph_from_file` from an empty graph, over the baskets of `t`
      in dictionary order. The result satisfies the graph invariant; its nodes are exactly
      the basket items, even those of single-item baskets; and the count of every pair of
      distinct items is the number of baskets holding both. A basket that lists an item
      twice counts once. */
  function BuildGraph(t: Baskets, orders: seq<seq<string>>): (r: Graph)
    requires Enumerates(orders, Values(t))
    ensures Invariant(r)
    ensures forall x :: HasItem(r, x) <==> InSomeBasket(t, x)
    ensures forall a, b :: a != b ==> EdgeWeight(r, a, b) == CountBoth(Values(t), a, b)
    ensures forall a :: EdgeWeight(r, a, a) == 0
  {
    var r := AddBaskets(EmptyGraph, orders);
    AddBasketsEffect(EmptyGraph, orders);
    AddBasketsPreservesInvariant(EmptyGraph, orders);
    forall a, b | a != b
      ensures EdgeWeight(r, a, b) == CountBoth(Values(t), a, b)
    {
      CountBothEnumerated(orders, Values(t), a, b);
    }
    forall x
      ensures HasItem(r, x) <==> InSomeBasket(t, x)
    {
      if InSomeBasket(t, x) {
        var i :| 0 <= i < |t| && x in t[i].1;
        assert x in Values(t)[i];
        assert x in orders[i];
      }
    }
    r
  }

  /** `build_graph_from_file` on a file with header `header` and rows `rows`: the schema error
      of `load_transactions`, or the graph built from its baskets. */
  function BuildGraphFromFile(header: seq<string>, rows: seq<Row>, orders: seq<seq<string>>)
    : (r: Result<Graph, SchemaError>)
    requires LoadTransactions(header, rows).Success? ==>
      Enumerates(orders, Values(LoadTransactions(header, rows).value))
    ensures r.Failure? <==> LoadTransactions(header, rows).Failure?
    ensures r.Failure? ==> r.error == LoadTransactions(header, rows).error
    ensures r.Success? ==> Invariant(r.value)
    ensures r.Success? ==> forall x :: HasItem(r.value, x) <==> IsRowItem(rows, x)
    ensures r.Success? ==> forall a, b :: a != b ==>
      EdgeWeight(r.value, a, b) == CountBoth(Values(LoadTransactions(header, rows).value), a, b)
  {
    match LoadTransactions(header, rows)
    case Failure(e) => Failure(e)
    case Success(t) =>
      var g := BuildGraph(t, orders);
      GraphNodesAreRowItems(rows, t);
      Success(g)
  }

  /** `x` is an item of some basket of `t`. */
  ghost predicate InSomeBasket(t: Baskets, x: string) {
    exists i :: 0 <= i < |t| && x in t[i].1
  }

  /** The items of the grouped baskets are exactly the stripped non-blank item cells. */
  lemma GraphNodesAreRowItems(rows: seq<Row>, t: Baskets)
    requires forall k :: GetOr(t, k, []) == Basket(rows, k)
    ensures forall x :: InSomeBasket(t, x) <==> IsRowItem(rows, x)
  {
    forall x
      ensures InSomeBasket(t, x) <==> IsRowItem(rows, x)
    {
      if InSomeBasket(t, x) {
        var i :| 0 <= i < |t| && x in t[i].1;
        assert GetOr(t, t[i].0, []) == t[i].1;
        BasketItemsComeFromRows(rows, t[i].0);
      }
      if IsRowItem(rows, x) {
        var i :| 0 <= i < |rows| && HasItemCell(rows[i]) && Strip(rows[i].item) == x;
        var k := RowKey(rows[i]);
        BasketItemsComeFromRows(rows, k);
        assert IsRowItemWithKey(rows, k, x);
        assert HasKey(t, k);
        var j := IndexOf(t, k);
        assert GetOr(t, k, []) == t[j].1;
      }
    }
  }
}
