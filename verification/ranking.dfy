/**
  Ranking by weight, descending. Ranked elements are pairs `(x, w)` whose second component is the
  weight, as in the Python lists of `(item, count)` and `((a, b), count)` tuples. Two sorts appear
  in the Python code: the hand-written three-way quicksort `quick_sort_items`, and Python's built-in
  stable sort called with `reverse=True`. Both are modelled here and proved to be the same function.
 */
module Ranking {
  import opened Seqs

  /** Non-increasing by weight. */
  ghost predicate SortedDesc<T(!new)>(xs: seq<(T, int)>) {
    forall i, j :: 0 <= i < j < |xs| ==> xs[i].1 >= xs[j].1
  }

  /** The elements of weight `w`, in their original order. */
  function WithWeight<T(!new)>(xs: seq<(T, int)>, w: int): (r: seq<(T, int)>)
    ensures |r| <= |xs|
    ensures forall e :: e in r ==> e in xs && e.1 == w
  {
    if |xs| == 0 then []
    else (if xs[0].1 == w then [xs[0]] else []) + WithWeight(xs[1..], w)
  }

  /** `[p for p in xs if p[1] > pivot]`. */
  function Heavier<T(!new)>(xs: seq<(T, int)>, pivot: int): (r: seq<(T, int)>)
  {
    if |xs| == 0 then []
    else (if xs[0].1 > pivot then [xs[0]] else []) + Heavier(xs[1..], pivot)
  }

  /** `[p for p in xs if p[1] < pivot]`. */
  function Lighter<T(!new)>(xs: seq<(T, int)>, pivot: int): (r: seq<(T, int)>)
  {
    if |xs| == 0 then []
    else (if xs[0].1 < pivot then [xs[0]] else []) + Lighter(xs[1..], pivot)
  }

  /** `r` is `xs` sorted by weight, descending, with equal weights in their original order: for
      every weight, the elements of that weight appear in `r` exactly as in `xs`. */
  ghost predicate IsStableSortDesc<T(!new)>(xs: seq<(T, int)>, r: seq<(T, int)>) {
    && SortedDesc(r)
    && multiset(r) == multiset(xs)
    && forall w :: WithWeight(r, w) == WithWeight(xs, w)
  }

  // ---------------------------------------------------------------------------
  // Filters
  // ---------------------------------------------------------------------------

  /** The run of weight `w` holds exactly the elements of `xs` of that weight. */
  lemma {:induction false} WithWeightMembers<T(!new)>(xs: seq<(T, int)>, w: int)
    ensures forall e :: e in WithWeight(xs, w) <==> e in xs && e.1 == w
  {
    if |xs| > 0 {
      WithWeightMembers(xs[1..], w);
      assert xs == [xs[0]] + xs[1..];
    }
  }

  /** The left part of the partition holds exactly the elements heavier than the pivot. */
  lemma {:induction false} HeavierMembers<T(!new)>(xs: seq<(T, int)>, p: int)
    ensures forall e :: e in Heavier(xs, p) <==> e in xs && e.1 > p
  {
    if |xs| > 0 {
      HeavierMembers(xs[1..], p);
      assert xs == [xs[0]] + xs[1..];
    }
  }

  /** The right part of the partition holds exactly the elements lighter than the pivot. */
  lemma {:induction false} LighterMembers<T(!new)>(xs: seq<(T, int)>, p: int)
    ensures forall e :: e in Lighter(xs, p) <==> e in xs && e.1 < p
  {
    if |xs| > 0 {
      LighterMembers(xs[1..], p);
      assert xs == [xs[0]] + xs[1..];
    }
  }

  lemma {:induction false} WithWeightConcat<T(!new)>(a: seq<(T, int)>, b: seq<(T, int)>, w: int)
    ensures WithWeight(a + b, w) == WithWeight(a, w) + WithWeight(b, w)
  {
    if |a| > 0 {
      assert (a + b)[1..] == a[1..] + b;
      WithWeightConcat(a[1..], b, w);
    } else {
      assert a + b == b;
    }
  }

  /** Filtering a one-element or empty prefix by weight. */
  lemma WithWeightSingle<T(!new)>(x: (T, int), w: int)
    ensures WithWeight([x], w) == if x.1 == w then [x] else []
  {
    assert [x][1..] == [];
  }

  /** Filtering by weight after keeping the elements heavier than `p`. */
  lemma {:induction false} HeavierWithWeight<T(!new)>(xs: seq<(T, int)>, p: int, w: int)
    ensures WithWeight(Heavier(xs, p), w) == if w > p then WithWeight(xs, w) else []
  {
    if |xs| > 0 {
      var h := if xs[0].1 > p then [xs[0]] else [];
      HeavierWithWeight(xs[1..], p, w);
      WithWeightConcat(h, Heavier(xs[1..], p), w);
      WithWeightSingle(xs[0], w);
    }
  }

  /** Filtering by weight after keeping the elements lighter than `p`. */
  lemma {:induction false} LighterWithWeight<T(!new)>(xs: seq<(T, int)>, p: int, w: int)
    ensures WithWeight(Lighter(xs, p), w) == if w < p then WithWeight(xs, w) else []
  {
    if |xs| > 0 {
      var l := if xs[0].1 < p then [xs[0]] else [];
      LighterWithWeight(xs[1..], p, w);
      WithWeightConcat(l, Lighter(xs[1..], p), w);
      WithWeightSingle(xs[0], w);
    }
  }

  /** Filtering by weight twice. */
  lemma {:induction false} WithWeightTwice<T(!new)>(xs: seq<(T, int)>, p: int, w: int)
    ensures WithWeight(WithWeight(xs, p), w) == if w == p then WithWeight(xs, w) else []
  {
    if |xs| > 0 {
      var m := if xs[0].1 == p then [xs[0]] else [];
      WithWeightTwice(xs[1..], p, w);
      WithWeightConcat(m, WithWeight(xs[1..], p), w);
      WithWeightSingle(xs[0], w);
    }
  }

  /** The three parts of the partition hold, together, exactly the elements of `xs`. */
  lemma PartitionMultiset<T(!new)>(xs: seq<(T, int)>, p: int)
    ensures multiset(Heavier(xs, p)) + multiset(WithWeight(xs, p)) + multiset(Lighter(xs, p))
         == multiset(xs)
  {
    forall e
      ensures (multiset(Heavier(xs, p)) + multiset(WithWeight(xs, p)) + multiset(Lighter(xs, p)))[e]
           == multiset(xs)[e]
    {
      HeavierCount(xs, p, e);
      WithWeightCount(xs, p, e);
      LighterCount(xs, p, e);
    }
  }

  /** `Heavier` keeps every copy of a heavier element and no copy of any other. */
  lemma {:induction false} HeavierCount<T(!new)>(xs: seq<(T, int)>, p: int, e: (T, int))
    ensures multiset(Heavier(xs, p))[e] == if e.1 > p then multiset(xs)[e] else 0
  {
    if |xs| > 0 {
      var h := if xs[0].1 > p then [xs[0]] else [];
      HeavierCount(xs[1..], p, e);
      assert xs == [xs[0]] + xs[1..];
      assert multiset(Heavier(xs, p)) == multiset(h) + multiset(Heavier(xs[1..], p));
      assert multiset(xs) == multiset([xs[0]]) + multiset(xs[1..]);
    }
  }

  /** `WithWeight` keeps every copy of an element of that weight and no copy of any other. */
  lemma {:induction false} WithWeightCount<T(!new)>(xs: seq<(T, int)>, p: int, e: (T, int))
    ensures multiset(WithWeight(xs, p))[e] == if e.1 == p then multiset(xs)[e] else 0
  {
    if |xs| > 0 {
      var h := if xs[0].1 == p then [xs[0]] else [];
      WithWeightCount(xs[1..], p, e);
      assert xs == [xs[0]] + xs[1..];
      assert multiset(WithWeight(xs, p)) == multiset(h) + multiset(WithWeight(xs[1..], p));
      assert multiset(xs) == multiset([xs[0]]) + multiset(xs[1..]);
    }
  }

  /** `Lighter` keeps every copy of a lighter element and no copy of any other. */
  lemma {:induction false} LighterCount<T(!new)>(xs: seq<(T, int)>, p: int, e: (T, int))
    ensures multiset(Lighter(xs, p))[e] == if e.1 < p then multiset(xs)[e] else 0
  {
    if |xs| > 0 {
      var h := if xs[0].1 < p then [xs[0]] else [];
      LighterCount(xs[1..], p, e);
      assert xs == [xs[0]] + xs[1..];
      assert multiset(Lighter(xs, p)) == multiset(h) + multiset(Lighter(xs[1..], p));
      assert multiset(xs) == multiset([xs[0]]) + multiset(xs[1..]);
    }
  }

  /** Three descending runs separated by the pivot's weight form one descending run. */
  lemma JoinSorted<T(!new)>(a: seq<(T, int)>, m: seq<(T, int)>, b: seq<(T, int)>, p: int)
    requires SortedDesc(a) && SortedDesc(b)
    requires forall e :: e in a ==> e.1 > p
    requires forall e :: e in m ==> e.1 == p
    requires forall e :: e in b ==> e.1 < p
    ensures SortedDesc(a + m + b)
  {
    var r := a + m + b;
    forall i, j | 0 <= i < j < |r|
      ensures r[i].1 >= r[j].1
    {
      if i < |a| {
        assert r[i] == a[i];
        if j >= |a| {
          if j < |a| + |m| {
            assert r[j] == m[j - |a|];
          } else {
            assert r[j] == b[j - |a| - |m|];
          }
        }
      } else if i < |a| + |m| {
        assert r[i] == m[i - |a|];
        if j < |a| + |m| {
          assert r[j] == m[j - |a|];
        } else {
          assert r[j] == b[j - |a| - |m|];
        }
      } else {
        assert r[i] == b[i - |a| - |m|] && r[j] == b[j - |a| - |m|];
      }
    }
  }

  // ---------------------------------------------------------------------------
  // quick_sort_items
  // ---------------------------------------------------------------------------

  /** The sizes of the three parts of the partition add up to the size of `xs`. */
  lemma {:induction false} PartitionSizes<T(!new)>(xs: seq<(T, int)>, p: int)
    ensures |Heavier(xs, p)| + |WithWeight(xs, p)| + |Lighter(xs, p)| == |xs|
  {
    if |xs| > 0 {
      PartitionSizes(xs[1..], p);
    }
  }

  /** Every element of a stable sort of `ys` is an element of `ys`. */
  lemma SortedElements<T(!new)>(ys: seq<(T, int)>, r: seq<(T, int)>, e: (T, int))
    requires multiset(r) == multiset(ys)
    requires e in r
    ensures e in ys
  {
    assert e in multiset(r);
  }

  /** One step of the quicksort: if the heavier and lighter parts are stably sorted, then the
      heavier part, the pivot's run, and the lighter part form a stable sort of `xs`. */
  lemma CombinePartition<T(!new)>(xs: seq<(T, int)>, p: int, sl: seq<(T, int)>, sr: seq<(T, int)>)
    requires IsStableSortDesc(Heavier(xs, p), sl)
    requires IsStableSortDesc(Lighter(xs, p), sr)
    ensures IsStableSortDesc(xs, sl + WithWeight(xs, p) + sr)
  {
    var m := WithWeight(xs, p);
    var r := sl + m + sr;
    PartitionMultiset(xs, p);
    HeavierMembers(xs, p);
    LighterMembers(xs, p);
    WithWeightMembers(xs, p);
    assert multiset(r) == multiset(xs);
    forall e | e in sl
      ensures e.1 > p
    {
      SortedElements(Heavier(xs, p), sl, e);
    }
    forall e | e in sr
      ensures e.1 < p
    {
      SortedElements(Lighter(xs, p), sr, e);
    }
    JoinSorted(sl, m, sr, p);
    forall w
      ensures WithWeight(r, w) == WithWeight(xs, w)
    {
      CombineRuns(xs, p, sl, sr, w);
    }
  }

  /** Filtering a concatenation of three parts filters each part. */
  lemma WithWeightConcat3<T(!new)>(a: seq<(T, int)>, b: seq<(T, int)>, c: seq<(T, int)>, w: int)
    ensures WithWeight(a + b + c, w) == WithWeight(a, w) + WithWeight(b, w) + WithWeight(c, w)
  {
    WithWeightConcat(a + b, c, w);
    WithWeightConcat(a, b, w);
  }

  /** The run of one weight in the quicksort's result is the run of that weight in `xs`. */
  lemma CombineRuns<T(!new)>(xs: seq<(T, int)>, p: int, sl: seq<(T, int)>, sr: seq<(T, int)>,
                             w: int)
    requires WithWeight(sl, w) == WithWeight(Heavier(xs, p), w)
    requires WithWeight(sr, w) == WithWeight(Lighter(xs, p), w)
    ensures WithWeight(sl + WithWeight(xs, p) + sr, w) == WithWeight(xs, w)
  {
    var m := WithWeight(xs, p);
    WithWeightConcat3(sl, m, sr, w);
    HeavierWithWeight(xs, p, w);
    LighterWithWeight(xs, p, w);
    WithWeightTwice(xs, p, w);
    var a, b, c := WithWeight(sl, w), WithWeight(m, w), WithWeight(sr, w);
    if w > p {
      assert a + b + c == a + [] + [];
    } else if w == p {
      assert a + b + c == [] + b + [];
    } else {
      assert a + b + c == [] + [] + c;
    }
  }

  /** `quick_sort_items`: a three-way-partition quicksort, descending by weight, pivoting on the
      weight of the middle element. Its result is the stable descending sort of its input. */
  function QuickSort<T(!new)>(xs: seq<(T, int)>): (r: seq<(T, int)>)
    ensures IsStableSortDesc(xs, r)
    decreases |xs|
  {
    if |xs| <= 1 then xs
    else
      var pivot := xs[|xs| / 2].1;
      PartitionSizes(xs, pivot);
      WithWeightMembers(xs, pivot);
      assert xs[|xs| / 2] in WithWeight(xs, pivot);
      var sl := QuickSort(Heavier(xs, pivot));
      var sr := QuickSort(Lighter(xs, pivot));
      CombinePartition(xs, pivot, sl, sr);
      sl + WithWeight(xs, pivot) + sr
  }

  // ---------------------------------------------------------------------------
  // sorted(..., key=weight, reverse=True) and list.sort(key=weight, reverse=True)
  // ---------------------------------------------------------------------------

  /** A head at least as heavy as every element of a descending tail starts a descending run. */
  lemma ConsSorted<T(!new)>(h: (T, int), t: seq<(T, int)>)
    requires SortedDesc(t)
    requires forall e :: e in t ==> e.1 <= h.1
    ensures SortedDesc([h] + t)
  {
    var r := [h] + t;
    forall i, j | 0 <= i < j < |r|
      ensures r[i].1 >= r[j].1
    {
      assert r[j] == t[j - 1];
      if i > 0 {
        assert r[i] == t[i - 1];
      } else {
        assert t[j - 1] in t;
      }
    }
  }

  /** The head of a descending run is its heaviest element. */
  lemma HeadBounds<T(!new)>(r: seq<(T, int)>)
    requires SortedDesc(r) && |r| > 0
    ensures forall e :: e in r ==> e.1 <= r[0].1
  {
  }

  /** Insert `x` in front of the first element that is not heavier than it. */
  function InsertDesc<T(!new)>(x: (T, int), s: seq<(T, int)>): (r: seq<(T, int)>)
    ensures multiset(r) == multiset(s) + multiset{x}
    ensures SortedDesc(s) ==> SortedDesc(r)
  {
    if |s| == 0 || x.1 >= s[0].1 then
      InsertDescFront(x, s);
      [x] + s
    else
      var rest := InsertDesc(x, s[1..]);
      InsertDescBehind(x, s, rest);
      [s[0]] + rest
  }

  /** `x` may go in front of a sorted list whose head is not heavier. */
  lemma InsertDescFront<T(!new)>(x: (T, int), s: seq<(T, int)>)
    requires |s| == 0 || x.1 >= s[0].1
    ensures SortedDesc(s) ==> SortedDesc([x] + s)
  {
    if SortedDesc(s) && |s| > 0 {
      HeadBounds(s);
      ConsSorted(x, s);
    }
  }

  /** The head of `s` may stay in front when the lighter `x` goes into the rest. */
  lemma InsertDescBehind<T(!new)>(x: (T, int), s: seq<(T, int)>, rest: seq<(T, int)>)
    requires |s| > 0 && x.1 < s[0].1
    requires multiset(rest) == multiset(s[1..]) + multiset{x}
    requires SortedDesc(s[1..]) ==> SortedDesc(rest)
    ensures multiset([s[0]] + rest) == multiset(s) + multiset{x}
    ensures SortedDesc(s) ==> SortedDesc([s[0]] + rest)
  {
    assert s == [s[0]] + s[1..];
    if SortedDesc(s) {
      HeadBounds(s);
      forall e | e in rest
        ensures e.1 <= s[0].1
      {
        assert e in multiset(rest);
        assert e == x || e in s[1..];
      }
      ConsSorted(s[0], rest);
    }
  }

  /** Inserting `x` puts it in front of the other elements of its weight and leaves the runs of
      other weights alone. */
  lemma {:induction false} InsertDescRuns<T(!new)>(x: (T, int), s: seq<(T, int)>, w: int)
    ensures WithWeight(InsertDesc(x, s), w) == WithWeight([x], w) + WithWeight(s, w)
  {
    if |s| == 0 || x.1 >= s[0].1 {
      WithWeightConcat([x], s, w);
    } else {
      var rest := InsertDesc(x, s[1..]);
      InsertDescRuns(x, s[1..], w);
      InsertDescRunsStep(x, s, rest, w);
    }
  }

  /** The inductive step of `InsertDescRuns`: `x` and the lighter head never share a run. */
  lemma InsertDescRunsStep<T(!new)>(x: (T, int), s: seq<(T, int)>, rest: seq<(T, int)>, w: int)
    requires |s| > 0 && x.1 < s[0].1
    requires WithWeight(rest, w) == WithWeight([x], w) + WithWeight(s[1..], w)
    ensures WithWeight([s[0]] + rest, w) == WithWeight([x], w) + WithWeight(s, w)
  {
    var h := WithWeight([s[0]], w);
    var t := WithWeight(s[1..], w);
    assert WithWeight([s[0]] + rest, w) == h + WithWeight(rest, w) by {
      WithWeightConcat([s[0]], rest, w);
    }
    assert WithWeight(s, w) == h + t by {
      assert s == [s[0]] + s[1..];
      WithWeightConcat([s[0]], s[1..], w);
    }
    if x.1 == w {
      // `s[0]` is heavier than `x`, so it is not of weight `w`.
      assert h == [] by { WithWeightSingle(s[0], w); }
      assert WithWeight(s, w) == t;
      assert WithWeight([s[0]] + rest, w) == WithWeight(rest, w);
    } else {
      assert WithWeight([x], w) == [] by { WithWeightSingle(x, w); }
      assert WithWeight(rest, w) == t;
      assert WithWeight([s[0]] + rest, w) == WithWeight(s, w);
    }
  }

  /** Python's built-in stable sort by weight with `reverse=True` (an insertion sort here). */
  function StableSortDesc<T(!new)>(xs: seq<(T, int)>): (r: seq<(T, int)>)
    ensures IsStableSortDesc(xs, r)
  {
    if |xs| == 0 then []
    else
      var rest := StableSortDesc(xs[1..]);
      var r := InsertDesc(xs[0], rest);
      assert xs == [xs[0]] + xs[1..];
      assert forall w :: WithWeight(r, w) == WithWeight(xs, w) by {
        forall w
          ensures WithWeight(r, w) == WithWeight(xs, w)
        {
          InsertDescRuns(xs[0], rest, w);
          WithWeightConcat([xs[0]], xs[1..], w);
        }
      }
      r
  }

  // ---------------------------------------------------------------------------
  // The stable descending sort is unique
  // ---------------------------------------------------------------------------

  /** The head of a non-empty sequence belongs to the run of its own weight. */
  lemma RunOfHead<T(!new)>(r: seq<(T, int)>)
    requires |r| > 0
    ensures WithWeight(r, r[0].1) != []
  {
  }

  /** Two descending sequences that agree on the run of every weight are equal. */
  lemma {:induction false} StableSortUnique<T(!new)>(r1: seq<(T, int)>, r2: seq<(T, int)>)
    requires SortedDesc(r1) && SortedDesc(r2)
    requires forall w :: WithWeight(r1, w) == WithWeight(r2, w)
    ensures r1 == r2
    decreases |r1|
  {
    if |r1| == 0 || |r2| == 0 {
      if |r1| > 0 {
        RunOfHead(r1);
      } else if |r2| > 0 {
        RunOfHead(r2);
      }
    } else {
      HeadsAgree(r1, r2);
      TailsAgree(r1, r2);
      StableSortUnique(r1[1..], r2[1..]);
      assert r1 == [r1[0]] + r1[1..] && r2 == [r2[0]] + r2[1..];
    }
  }

  /** Two non-empty descending sequences with the same runs start with the same element: both
      heads are of the heaviest weight present, and each opens its run. */
  lemma HeadsAgree<T(!new)>(r1: seq<(T, int)>, r2: seq<(T, int)>)
    requires |r1| > 0 && |r2| > 0
    requires SortedDesc(r1) && SortedDesc(r2)
    requires forall w :: WithWeight(r1, w) == WithWeight(r2, w)
    ensures r1[0] == r2[0]
  {
    var w1, w2 := r1[0].1, r2[0].1;
    var run1, run2 := WithWeight(r1, w1), WithWeight(r2, w2);
    assert run1 == [r1[0]] + WithWeight(r1[1..], w1);
    assert run2 == [r2[0]] + WithWeight(r2[1..], w2);
    assert w1 <= w2 by {
      WithWeightMembers(r2, w1);
      assert run1[0] in WithWeight(r2, w1);
      HeadBounds(r2);
    }
    assert w2 <= w1 by {
      WithWeightMembers(r1, w2);
      assert run2[0] in WithWeight(r1, w2);
      HeadBounds(r1);
    }
  }

  /** Removing equal heads from two sequences with the same runs leaves the same runs. */
  lemma TailsAgree<T(!new)>(r1: seq<(T, int)>, r2: seq<(T, int)>)
    requires |r1| > 0 && |r2| > 0 && r1[0] == r2[0]
    requires forall w :: WithWeight(r1, w) == WithWeight(r2, w)
    ensures forall w :: WithWeight(r1[1..], w) == WithWeight(r2[1..], w)
  {
    assert r1 == [r1[0]] + r1[1..] && r2 == [r2[0]] + r2[1..];
    forall w
      ensures WithWeight(r1[1..], w) == WithWeight(r2[1..], w)
    {
      if w == r1[0].1 {
        assert WithWeight(r1, w) == [r1[0]] + WithWeight(r1[1..], w);
        assert WithWeight(r2, w) == [r2[0]] + WithWeight(r2[1..], w);
        assert WithWeight(r1[1..], w) == WithWeight(r1, w)[1..];
        assert WithWeight(r2[1..], w) == WithWeight(r2, w)[1..];
      } else {
        assert WithWeight(r1, w) == WithWeight(r1[1..], w);
        assert WithWeight(r2, w) == WithWeight(r2[1..], w);
      }
    }
  }

  /** `quick_sort_items` returns exactly what Python's stable `sorted(..., reverse=True)` returns,
      so the two ranking paths of the Python code are interchangeable. */
  lemma QuickSortIsStableSort<T(!new)>(xs: seq<(T, int)>)
    ensures QuickSort(xs) == StableSortDesc(xs)
  {
    StableSortUnique(QuickSort(xs), StableSortDesc(xs));
  }

  /** The head of a descending sort of `xs` is at least as heavy as every element of `xs`. */
  lemma HeadIsHeaviest<T(!new)>(xs: seq<(T, int)>, r: seq<(T, int)>)
    requires IsStableSortDesc(xs, r) && |r| > 0
    ensures forall e :: e in xs ==> e.1 <= r[0].1
  {
    forall e | e in xs
      ensures e.1 <= r[0].1
    {
      assert e in multiset(r);
      var i :| 0 <= i < |r| && r[i] == e;
    }
  }

  /** Cutting a descending sort after `k` elements keeps the heaviest: every element of `xs` left
      out is no heavier than any element kept. */
  lemma TakeDominates<T(!new)>(xs: seq<(T, int)>, s: seq<(T, int)>, k: nat)
    requires IsStableSortDesc(xs, s)
    ensures forall e, f :: e in xs && e !in Take(s, k) && f in Take(s, k) ==> e.1 <= f.1
  {
    var t := Take(s, k);
    forall e, f | e in xs && e !in t && f in t
      ensures e.1 <= f.1
    {
      assert e in multiset(s);
      var j :| 0 <= j < |s| && s[j] == e;
      var i :| 0 <= i < |t| && t[i] == f;
    }
  }

  /** The first `k` of a descending sort: as many as asked for or available, still sorted, all
      taken from `xs`, and at least as heavy as every element left out. */
  lemma TakeOfStableSort<T(!new)>(xs: seq<(T, int)>, s: seq<(T, int)>, k: nat)
    requires IsStableSortDesc(xs, s)
    ensures |Take(s, k)| == if k < |xs| then k else |xs|
    ensures SortedDesc(Take(s, k))
    ensures forall e :: e in Take(s, k) ==> e in xs
    ensures multiset(Take(s, k)) <= multiset(xs)
    ensures k >= |xs| ==> multiset(Take(s, k)) == multiset(xs)
    ensures forall e, f :: e in xs && e !in Take(s, k) && f in Take(s, k) ==> e.1 <= f.1
  {
    assert |s| == |xs| by {
      assert |multiset(s)| == |multiset(xs)|;
    }
    TakeDominates(xs, s, k);
    TakeMultiset(s, k);
    assert forall e :: e in Take(s, k) ==> e in multiset(s);
  }
}
