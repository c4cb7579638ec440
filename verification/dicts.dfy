/**
  Python's `dict`: a finite map that remembers insertion order. A dictionary is the sequence of
  its entries in insertion order; no key occurs twice. Assigning to a present key replaces its
  value in place, assigning to an absent key appends a new entry, and iteration visits entries
  in order.
 */
module Dicts {
  import opened Wrappers
  import opened Seqs

  /** No key occurs in two entries. */
  predicate DistinctKeys<K(==,!new), V>(entries: seq<(K, V)>) {
    forall i, j :: 0 <= i < j < |entries| ==> entries[i].0 != entries[j].0
  }

  /** An insertion-ordered dictionary. */
  type Dict<K(==,!new), V> = d: seq<(K, V)> | DistinctKeys(d) witness []

  /** The keys in iteration order (`list(d)` / `d.keys()`). */
  function Keys<K(==,!new), V>(d: Dict<K, V>): (ks: seq<K>)
    ensures |ks| == |d|
    ensures forall i :: 0 <= i < |d| ==> ks[i] == d[i].0
    ensures NoDup(ks)
  {
    seq(|d|, i requires 0 <= i < |d| => d[i].0)
  }

  /** The values in iteration order (`d.values()`). */
  function Values<K(==,!new), V>(d: Dict<K, V>): (vs: seq<V>)
    ensures |vs| == |d|
    ensures forall i :: 0 <= i < |d| ==> vs[i] == d[i].1
  {
    seq(|d|, i requires 0 <= i < |d| => d[i].1)
  }

  /** `k in d`. */
  predicate HasKey<K(==,!new), V>(d: Dict<K, V>, k: K) {
    k in Keys(d)
  }

  /** The set of keys. */
  function KeySet<K(==,!new), V>(d: Dict<K, V>): (s: set<K>)
    ensures forall k :: k in s <==> HasKey(d, k)
  {
    set i | 0 <= i < |d| :: d[i].0
  }

  /** `d[k]`, or `None` when `k` is absent. */
  function Get<K(==,!new), V>(d: Dict<K, V>, k: K): (r: Option<V>)
    ensures r.Some? <==> HasKey(d, k)
    ensures forall i :: 0 <= i < |d| && d[i].0 == k ==> r == Some(d[i].1)
  {
    if |d| == 0 then None
    else if d[0].0 == k then Some(d[0].1)
    else
      var r := Get(d[1..], k);
      assert forall i :: 1 <= i < |d| ==> d[1..][i - 1] == d[i];
      r
  }

  /** `d.get(k, default)`. */
  function GetOr<K(==,!new), V>(d: Dict<K, V>, k: K, default: V): V {
    Get(d, k).GetOr(default)
  }

  /** The position of a present key. */
  function IndexOf<K(==,!new), V>(d: Dict<K, V>, k: K): (i: nat)
    requires HasKey(d, k)
    ensures i < |d| && d[i].0 == k
  {
    var ks := Keys(d);
    var i :| 0 <= i < |ks| && ks[i] == k;
    i
  }

  /** `d[k] = v`: replace in place when `k` is present, append otherwise. */
  function Set<K(==,!new), V>(d: Dict<K, V>, k: K, v: V): (r: Dict<K, V>)
    ensures Get(r, k) == Some(v)
    ensures forall k' :: k' != k ==> Get(r, k') == Get(d, k')
    ensures HasKey(d, k) ==> Keys(r) == Keys(d)
    ensures !HasKey(d, k) ==> Keys(r) == Keys(d) + [k]
  {
    if HasKey(d, k) then
      var i := IndexOf(d, k);
      var r := d[i := (k, v)];
      assert DistinctKeys(r);
      assert Keys(r) == Keys(d);
      r
    else
      var r := d + [(k, v)];
      assert DistinctKeys(r);
      assert Keys(r) == Keys(d) + [k];
      r
  }

  /** Two entries of a dictionary with the same key are the same entry. */
  lemma KeyDeterminesEntry<K(!new), V>(d: Dict<K, V>, x: (K, V), y: (K, V))
    ensures x in d && y in d && x.0 == y.0 ==> x == y
  {
    if x in d && y in d && x.0 == y.0 {
      var i :| 0 <= i < |d| && d[i] == x;
      var j :| 0 <= j < |d| && d[j] == y;
    }
  }

  /** Entries taken from a dictionary, none more often than it holds them, repeat no key. */
  lemma SubMultisetDistinctKeys<K(!new), V>(d: Dict<K, V>, r: seq<(K, V)>)
    requires multiset(r) <= multiset(d)
    ensures DistinctKeys(r)
  {
    assert NoDup(d);
    forall i, j | 0 <= i < j < |r|
      ensures r[i].0 != r[j].0
    {
      assert r[i] in multiset(r) && r[j] in multiset(r);
      KeyDeterminesEntry(d, r[i], r[j]);
      TwoOccurrences(r, i, j);
      NoDupMultiplicity(d, r[i]);
    }
  }
}
