/**
  Related-item discovery by breadth-first and depth-first search over the co-purchase graph
  (`bfs_related_items`, `dfs_related_items`). Neither search marks the start item as visited
  before it begins, so the start item is reported as related to itself as soon as it has a
  neighbour: on an undirected graph it is rediscovered through that neighbour.
 */
module Traversal {
  import opened Seqs
  import opened Dicts
  import opened CoPurchaseGraph

  // ---------------------------------------------------------------------------
  // Reachability
  // ---------------------------------------------------------------------------

  /** A walk of at least one edge. */
  ghost predicate IsPath(g: Graph, p: seq<string>) {
    |p| >= 2 && forall i :: 0 <= i < |p| - 1 ==> HasEdge(g, p[i], p[i + 1])
  }

  /** `t` can be reached from `s` by following one or more edges. */
  ghost predicate Reachable(g: Graph, s: string, t: string) {
    exists p :: IsPath(g, p) && p[0] == s && p[|p| - 1] == t
  }

  /** A set that holds every neighbour of `s` and every neighbour of its own members. */
  ghost predicate ClosedFrom(g: Graph, s: string, v: set<string>) {
    && (forall n :: HasEdge(g, s, n) ==> n in v)
    && (forall x, n :: x in v && HasEdge(g, x, n) ==> n in v)
  }

  /** One more edge from `s` itself or from a node reachable from it reaches its far end. */
  lemma ReachStep(g: Graph, s: string, c: string, n: string)
    requires c == s || Reachable(g, s, c)
    requires HasEdge(g, c, n)
    ensures Reachable(g, s, n)
  {
    if c == s {
      assert IsPath(g, [s, n]);
    } else {
      var p :| IsPath(g, p) && p[0] == s && p[|p| - 1] == c;
      var q := p + [n];
      assert forall i :: 0 <= i < |p| ==> q[i] == p[i];
      assert IsPath(g, q);
    }
  }

  /** Every node of a path after the first lies in a set closed from the first node. */
  lemma {:induction false} PathStaysInside(g: Graph, p: seq<string>, v: set<string>, i: nat)
    requires IsPath(g, p) && ClosedFrom(g, p[0], v)
    requires 1 <= i < |p|
    ensures p[i] in v
    decreases i
  {
    if i > 1 {
      PathStaysInside(g, p, v, i - 1);
      assert HasEdge(g, p[i - 1], p[i]);
    } else {
      assert HasEdge(g, p[0], p[1]);
    }
  }

  /** A set closed from `s` contains everything reachable from `s`. */
  lemma ClosedContainsReachable(g: Graph, s: string, v: set<string>)
    requires ClosedFrom(g, s, v)
    ensures forall t :: Reachable(g, s, t) ==> t in v
  {
    forall t | Reachable(g, s, t)
      ensures t in v
    {
      var p :| IsPath(g, p) && p[0] == s && p[|p| - 1] == t;
      PathStaysInside(g, p, v, |p| - 1);
    }
  }

  /** On an undirected graph an item is reachable from itself exactly when it has a
      neighbour: out along that edge and back again. */
  lemma SelfReachableIffNeighbour(g: Graph, s: string)
    requires Invariant(g)
    ensures Reachable(g, s, s) <==> |NeighboursOf(g, s)| > 0
  {
    if |NeighboursOf(g, s)| > 0 {
      var n := NeighboursOf(g, s)[0].0;
      assert Keys(NeighboursOf(g, s))[0] == n;
      assert HasEdge(g, s, n);
      assert IsPath(g, [s, n, s]);
    }
    if Reachable(g, s, s) {
      var p :| IsPath(g, p) && p[0] == s && p[|p| - 1] == s;
      assert HasEdge(g, p[0], p[1]);
    }
  }

  // ---------------------------------------------------------------------------
  // bfs_related_items
  // ---------------------------------------------------------------------------

  /** The inner loop of `bfs_related_items`, `for neighbour in graph[current]`: every neighbour
      not yet visited is marked, appended to the result and appended to the queue, in stored
      order. Afterwards all neighbours of `current` are visited, and the queue has grown by
      exactly the newly related items. */
  method VisitNeighbours(g: Graph, current: string, visited: set<string>, related: seq<string>,
                         queue: seq<string>)
    returns (visited': set<string>, related': seq<string>, queue': seq<string>)
    requires NeighbourClosed(g) && HasItem(g, current)
    requires visited <= KeySet(g)
    requires NoDup(related) && forall x :: x in related <==> x in visited
    ensures visited <= visited' <= KeySet(g)
    ensures forall n :: HasEdge(g, current, n) ==> n in visited'
    ensures forall v :: v in visited' && v !in visited ==> HasEdge(g, current, v)
    ensures NoDup(related') && forall x :: x in related' <==> x in visited'
    ensures related <= related'
    ensures queue' == queue + related'[|related|..]
    ensures visited == {} ==> related' == Keys(NeighboursOf(g, current))
  {
    var nbrs := Keys(NeighboursOf(g, current));
    visited', related', queue' := visited, related, queue;
    var i := 0;
    assert |related| > 0 ==> related[0] in visited;
    while i < |nbrs|
      invariant 0 <= i <= |nbrs|
      invariant visited <= visited' <= KeySet(g)
      invariant forall j :: 0 <= j < i ==> nbrs[j] in visited'
      invariant forall v :: v in visited' && v !in visited ==> v in nbrs
      invariant NoDup(related') && forall x :: x in related' <==> x in visited'
      invariant related <= related'
      invariant queue' == queue + related'[|related|..]
      invariant visited == {} ==> related' == nbrs[..i]
    {
      var neighbour := nbrs[i];
      assert HasEdge(g, current, neighbour);
      if neighbour !in visited' {
        AppendNew(related, related', visited', neighbour);
        visited' := visited' + {neighbour};
        related' := related' + [neighbour];
        queue' := queue' + [neighbour];
      }
      i := i + 1;
    }
  }

  /** Marking a new item and appending it keeps the list a duplicate-free listing of the set,
      and extends the part after `related0` by that item. */
  lemma AppendNew(related0: seq<string>, related: seq<string>, visited: set<string>, n: string)
    requires NoDup(related) && (forall x :: x in related <==> x in visited) && n !in visited
    requires related0 <= related
    ensures NoDup(related + [n])
    ensures forall x :: x in related + [n] <==> x in visited + {n}
    ensures related0 <= related + [n]
    ensures (related + [n])[|related0|..] == related[|related0|..] + [n]
  {
  }

  /** The state the breadth-first loop keeps between iterations: every visited item is a node
      reachable from the start and listed once in `related`; the queue holds nodes that are
      the start or visited; and every visited item (or the start) that has left the queue has
      all its neighbours visited. */
  ghost predicate BfsInvariant(g: Graph, start: string, visited: set<string>, related: seq<string>,
                               queue: seq<string>) {
    && visited <= KeySet(g)
    && (forall x :: x in queue ==> HasItem(g, x))
    && NoDup(related) && (forall x :: x in related <==> x in visited)
    && (forall x :: x in queue ==> x == start || x in visited)
    && (forall v :: v in visited ==> Reachable(g, start, v))
    && (forall x, n :: (x in visited || x == start) && x !in queue && HasEdge(g, x, n) ==>
          n in visited)
  }

  /** The items a step appends are exactly those it newly visits. */
  lemma FoundAreNew(visited0: set<string>, related0: seq<string>,
                    visited: set<string>, related: seq<string>)
    requires forall x :: x in related0 <==> x in visited0
    requires NoDup(related) && forall x :: x in related <==> x in visited
    requires related0 <= related
    ensures forall x :: x in related[|related0|..] <==> x in visited && x !in visited0
    ensures visited == visited0 ==> related[|related0|..] == []
  {
    var found := related[|related0|..];
    assert related == related0 + found;
    forall x | x in found
      ensures x !in visited0
    {
      var k :| 0 <= k < |found| && found[k] == x;
      assert related[|related0| + k] == x;
    }
    assert |found| > 0 ==> found[0] in visited - visited0;
  }

  /** The frontier part of the breadth-first invariant survives one step. */
  lemma FrontierStep(g: Graph, start: string, visited0: set<string>, queue0: seq<string>,
                     visited: set<string>, found: seq<string>)
    requires |queue0| > 0
    requires forall x, n :: (x in visited0 || x == start) && x !in queue0 && HasEdge(g, x, n) ==>
      n in visited0
    requires visited0 <= visited
    requires forall n :: HasEdge(g, queue0[0], n) ==> n in visited
    requires forall x :: x in found <==> x in visited && x !in visited0
    ensures forall x, n ::
      (x in visited || x == start) && x !in queue0[1..] + found && HasEdge(g, x, n) ==> n in visited
  {
    forall x, n | (x in visited || x == start) && x !in queue0[1..] + found && HasEdge(g, x, n)
      ensures n in visited
    {
      if x != queue0[0] {
        assert x !in queue0[1..];
        assert x !in queue0;
      }
    }
  }

  /** One iteration of the breadth-first loop keeps its invariant. */
  lemma BfsStep(g: Graph, start: string,
                visited0: set<string>, related0: seq<string>, queue0: seq<string>,
                visited: set<string>, related: seq<string>, queue: seq<string>)
    requires BfsInvariant(g, start, visited0, related0, queue0) && |queue0| > 0
    requires visited0 <= visited <= KeySet(g)
    requires forall n :: HasEdge(g, queue0[0], n) ==> n in visited
    requires forall v :: v in visited && v !in visited0 ==> HasEdge(g, queue0[0], v)
    requires NoDup(related) && forall x :: x in related <==> x in visited
    requires related0 <= related
    requires queue == queue0[1..] + related[|related0|..]
    ensures BfsInvariant(g, start, visited, related, queue)
    ensures visited == visited0 ==> |queue| < |queue0|
  {
    var current := queue0[0];
    var found := related[|related0|..];
    FoundAreNew(visited0, related0, visited, related);
    FrontierStep(g, start, visited0, queue0, visited, found);
    forall v | v in visited
      ensures Reachable(g, start, v)
    {
      if v !in visited0 {
        ReachStep(g, start, current, v);
      }
    }
    forall x | x in queue
      ensures HasItem(g, x) && (x == start || x in visited)
    {
      if x !in queue0[1..] {
        assert x in found;
      }
    }
  }

  /** `bfs_related_items(graph, start_item)`: pop the queue front and visit its neighbours
      until the queue is empty. Every neighbour of a node is itself a node (the Python code
      raises `KeyError` when it reaches a neighbour that is not). The result lists each item
      reachable from the start exactly once, begins with the start's own neighbours in their
      stored order, and has the same items as the depth-first search. */
  method BfsRelatedItems(g: Graph, start: string) returns (related: seq<string>)
    requires NeighbourClosed(g)
    ensures !HasItem(g, start) ==> related == []
    ensures NoDup(related)
    ensures HasItem(g, start) ==> forall t :: t in related <==> Reachable(g, start, t)
    ensures HasItem(g, start) ==> Keys(NeighboursOf(g, start)) <= related
    ensures multiset(related) == multiset(DfsRelatedItems(g, start))
  {
    if !HasItem(g, start) {
      return [];
    }
    var visited: set<string> := {};
    var queue: seq<string> := [start];
    related := [];
    ghost var first := Keys(NeighboursOf(g, start));
    ghost var started := false;
    while |queue| > 0
      invariant BfsInvariant(g, start, visited, related, queue)
      invariant !started ==> queue == [start] && visited == {} && related == []
      invariant started ==> first <= related
      decreases KeySet(g) - visited, |queue|
    {
      ghost var visited0, related0, queue0 := visited, related, queue;
      var current := queue[0];
      queue := queue[1..];
      visited, related, queue := VisitNeighbours(g, current, visited, related, queue);
      BfsStep(g, start, visited0, related0, queue0, visited, related, queue);
      started := true;
    }
    ClosedContainsReachable(g, start, visited);
    var dfs := DfsRelatedItems(g, start);
    DfsFindsExactlyReachable(g, start);
    SameElementsSameMultiset(related, dfs);
  }

  // ---------------------------------------------------------------------------
  // dfs_related_items
  // ---------------------------------------------------------------------------

  /** The state the recursive search threads through its calls. */
  datatype Search = Search(visited: set<string>, related: seq<string>)

  /** `related` lists the visited items, each once, and all of them are nodes. */
  ghost predicate Consistent(g: Graph, s: Search) {
    && s.visited <= KeySet(g)
    && NoDup(s.related)
    && forall x :: x in s.related <==> x in s.visited
  }

  /** The nested `_dfs(node)`: walk the neighbours of `node` in stored order. */
  function DfsNode(g: Graph, node: string, s: Search): (r: Search)
    requires NeighbourClosed(g) && HasItem(g, node) && Consistent(g, s)
    ensures Consistent(g, r)
    ensures s.visited <= r.visited && s.related <= r.related
    decreases KeySet(g) - s.visited, 1, 0
  {
    NeighboursAreItems(g, node);
    DfsList(g, Keys(NeighboursOf(g, node)), s)
  }

  /** The loop of `_dfs` over the remaining neighbours `nbrs`: an unvisited neighbour is
      marked, appended, and searched from before the loop moves on. */
  function DfsList(g: Graph, nbrs: seq<string>, s: Search): (r: Search)
    requires NeighbourClosed(g) && Consistent(g, s)
    requires forall n :: n in nbrs ==> HasItem(g, n)
    ensures Consistent(g, r)
    ensures s.visited <= r.visited && s.related <= r.related
    decreases KeySet(g) - s.visited, 0, |nbrs|
  {
    if |nbrs| == 0 then s
    else if nbrs[0] in s.visited then DfsList(g, nbrs[1..], s)
    else
      var n := nbrs[0];
      var s1 := DfsNode(g, n, Search(s.visited + {n}, s.related + [n]));
      DfsList(g, nbrs[1..], s1)
  }

  /** The neighbours of a node are nodes. */
  lemma NeighboursAreItems(g: Graph, node: string)
    requires NeighbourClosed(g)
    ensures forall n :: n in Keys(NeighboursOf(g, node)) ==> HasEdge(g, node, n) && HasItem(g, n)
  {
    if !HasItem(g, node) {
      assert Keys(NeighboursOf(g, node)) == [];
    }
  }

  /** `dfs_related_items(graph, start_item)`: `[]` for an unknown start, otherwise the items
      collected by `_dfs(start_item)` from an empty visited set. */
  function DfsRelatedItems(g: Graph, start: string): (r: seq<string>)
    requires NeighbourClosed(g)
    ensures !HasItem(g, start) ==> r == []
    ensures NoDup(r)
  {
    if HasItem(g, start) then DfsNode(g, start, Search({}, [])).related else []
  }

  /** Everything the search from `node` marks is reachable from `start`, given that `node`
      is `start` or reachable from it and that all earlier marks are. */
  lemma {:induction false} DfsNodeSound(g: Graph, start: string, node: string, s: Search)
    requires NeighbourClosed(g) && HasItem(g, node) && Consistent(g, s)
    requires node == start || Reachable(g, start, node)
    requires forall v :: v in s.visited ==> Reachable(g, start, v)
    ensures forall v :: v in DfsNode(g, node, s).visited ==> Reachable(g, start, v)
    decreases KeySet(g) - s.visited, 1, 0
  {
    NeighboursAreItems(g, node);
    DfsListSound(g, start, node, Keys(NeighboursOf(g, node)), s);
  }

  lemma {:induction false} DfsListSound(g: Graph, start: string, node: string, nbrs: seq<string>,
                                        s: Search)
    requires NeighbourClosed(g) && Consistent(g, s)
    requires forall n :: n in nbrs ==> HasItem(g, n) && HasEdge(g, node, n)
    requires node == start || Reachable(g, start, node)
    requires forall v :: v in s.visited ==> Reachable(g, start, v)
    ensures forall v :: v in DfsList(g, nbrs, s).visited ==> Reachable(g, start, v)
    decreases KeySet(g) - s.visited, 0, |nbrs|
  {
    if |nbrs| == 0 {
    } else if nbrs[0] in s.visited {
      DfsListSound(g, start, node, nbrs[1..], s);
    } else {
      var n := nbrs[0];
      ReachStep(g, start, node, n);
      var s0 := Search(s.visited + {n}, s.related + [n]);
      DfsNodeSound(g, start, n, s0);
      DfsListSound(g, start, node, nbrs[1..], DfsNode(g, n, s0));
    }
  }

  /** Every visited node outside `active` (the nodes whose `_dfs` call is still running) has
      all its neighbours visited. */
  ghost predicate Finished(g: Graph, visited: set<string>, active: set<string>) {
    forall x, n :: x in visited && x !in active && HasEdge(g, x, n) ==> n in visited
  }

  /** `_dfs(node)` returns with every neighbour of `node` visited, so `node` is finished. */
  lemma {:induction false} DfsNodeCloses(g: Graph, node: string, s: Search, active: set<string>)
    requires NeighbourClosed(g) && HasItem(g, node) && Consistent(g, s)
    requires Finished(g, s.visited, active + {node})
    ensures var r := DfsNode(g, node, s);
      Finished(g, r.visited, active) && forall n :: HasEdge(g, node, n) ==> n in r.visited
    decreases KeySet(g) - s.visited, 1, 0
  {
    NeighboursAreItems(g, node);
    var nbrs := Keys(NeighboursOf(g, node));
    DfsListCloses(g, node, nbrs, s, active);
  }

  lemma {:induction false} DfsListCloses(g: Graph, node: string, nbrs: seq<string>, s: Search,
                                         active: set<string>)
    requires NeighbourClosed(g) && Consistent(g, s)
    requires forall n :: n in nbrs ==> HasItem(g, n)
    requires Finished(g, s.visited, active + {node})
    ensures var r := DfsList(g, nbrs, s);
      Finished(g, r.visited, active + {node}) && forall n :: n in nbrs ==> n in r.visited
    decreases KeySet(g) - s.visited, 0, |nbrs|
  {
    if |nbrs| == 0 {
    } else if nbrs[0] in s.visited {
      DfsListCloses(g, node, nbrs[1..], s, active);
    } else {
      var n := nbrs[0];
      var s0 := Search(s.visited + {n}, s.related + [n]);
      assert HasItem(g, n);
      assert n in KeySet(g) - s.visited;
      DfsNodeCloses(g, n, s0, active + {node});
      DfsListCloses(g, node, nbrs[1..], DfsNode(g, n, s0), active);
    }
  }

  /** The depth-first search from a node returns exactly the items reachable from it by one or
      more edges; for an unknown start it returns nothing. */
  lemma DfsFindsExactlyReachable(g: Graph, start: string)
    requires NeighbourClosed(g)
    ensures HasItem(g, start) ==>
      forall t :: t in DfsRelatedItems(g, start) <==> Reachable(g, start, t)
  {
    if HasItem(g, start) {
      var s0 := Search({}, []);
      DfsNodeSound(g, start, start, s0);
      DfsNodeCloses(g, start, s0, {});
      ClosedContainsReachable(g, start, DfsNode(g, start, s0).visited);
    }
  }

  /** The start item is among its own related items exactly when it has a neighbour. */
  lemma DfsIncludesStartIffNeighbour(g: Graph, start: string)
    requires Invariant(g)
    ensures start in DfsRelatedItems(g, start) <==> |NeighboursOf(g, start)| > 0
  {
    DfsFindsExactlyReachable(g, start);
    SelfReachableIffNeighbour(g, start);
  }
}
