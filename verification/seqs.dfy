/** Small facts about sequences shared by the rest of the model. */
module Seqs {

  /** No element occurs twice. */
  predicate NoDup<T(==)>(s: seq<T>) {
    forall i, j :: 0 <= i < j < |s| ==> s[i] != s[j]
  }

  /** Python's slice `s[:k]` for a non-negative `k`: the first `min(k, |s|)` elements. */
  function Take<T>(s: seq<T>, k: nat): (r: seq<T>)
    ensures |r| == if k < |s| then k else |s|
    ensures r <= s
  {
    if k < |s| then s[..k] else s
  }

  /** Taking one more element only extends the slice. */
  lemma TakeIsMonotone<T>(s: seq<T>, k: nat)
    ensures Take(s, k) <= Take(s, k + 1)
  {
  }

  /** A duplicate-free sequence has as many distinct elements as it has positions. */
  lemma {:induction false} NoDupCard<T>(s: seq<T>)
    requires NoDup(s)
    ensures |set x | x in s| == |s|
  {
    if |s| > 0 {
      NoDupCard(s[1..]);
      assert (set x | x in s) == (set x | x in s[1..]) + {s[0]};
      assert s[0] !in s[1..];
    }
  }

  /** In a duplicate-free sequence every element occurs exactly once. */
  lemma {:induction false} NoDupMultiplicity<T>(s: seq<T>, x: T)
    requires NoDup(s)
    ensures multiset(s)[x] == if x in s then 1 else 0
  {
    if |s| > 0 {
      assert s == [s[0]] + s[1..];
      assert NoDup(s[1..]);
      NoDupMultiplicity(s[1..], x);
      assert s[0] !in s[1..];
    }
  }

  /** Two duplicate-free sequences with the same elements are permutations of each other. */
  lemma SameElementsSameMultiset<T>(s: seq<T>, t: seq<T>)
    requires NoDup(s) && NoDup(t)
    requires forall x :: x in s <==> x in t
    ensures multiset(s) == multiset(t)
  {
    forall x
      ensures multiset(s)[x] == multiset(t)[x]
    {
      NoDupMultiplicity(s, x);
      NoDupMultiplicity(t, x);
    }
  }

  /** A value at two positions occurs at least twice. */
  lemma TwoOccurrences<T>(t: seq<T>, i: nat, j: nat)
    requires i < j < |t|
    ensures t[i] == t[j] ==> multiset(t)[t[i]] >= 2
  {
    assert t == t[..j] + t[j..];
    assert t[i] in t[..j];
    assert t[j..][0] == t[j];
  }

  /** A prefix holds no element more often than the whole sequence. */
  lemma TakeMultiset<T>(s: seq<T>, k: nat)
    ensures multiset(Take(s, k)) <= multiset(s)
  {
    var t := Take(s, k);
    assert s == t + s[|t|..];
  }
}
