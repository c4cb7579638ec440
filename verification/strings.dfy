/**
  Python's string operations used by the core: the `<` order on `str` (lexicographic by code
  point), `sorted` on a list of strings, and `str.strip()`.
 */
module Strings {
  import opened Seqs

  // ---------------------------------------------------------------------------
  // Lexicographic order
  // ---------------------------------------------------------------------------

  /** Python's `a < b` on `str`: the first differing code point decides, and a proper prefix
      is smaller. */
  predicate Lt(a: string, b: string)
    decreases |a|
  {
    if |a| == 0 then |b| > 0
    else if |b| == 0 then false
    else if a[0] != b[0] then a[0] < b[0]
    else Lt(a[1..], b[1..])
  }

  /** Python's `a <= b` on `str`. */
  predicate Le(a: string, b: string) {
    !Lt(b, a)
  }

  lemma {:induction false} LtIrreflexive(a: string)
    ensures !Lt(a, a)
    decreases |a|
  {
    if |a| > 0 {
      LtIrreflexive(a[1..]);
    }
  }

  lemma {:induction false} LtAsymmetric(a: string, b: string)
    ensures Lt(a, b) ==> !Lt(b, a)
    decreases |a|
  {
    if |a| > 0 && |b| > 0 && a[0] == b[0] {
      LtAsymmetric(a[1..], b[1..]);
    }
  }

  lemma {:induction false} LtTransitive(a: string, b: string, c: string)
    ensures Lt(a, b) && Lt(b, c) ==> Lt(a, c)
    decreases |a|
  {
    if |a| > 0 && |b| > 0 && |c| > 0 && a[0] == b[0] && b[0] == c[0] {
      LtTransitive(a[1..], b[1..], c[1..]);
    }
  }

  /** Any two distinct strings are ordered one way or the other. */
  lemma {:induction false} LtTotal(a: string, b: string)
    ensures a != b ==> Lt(a, b) || Lt(b, a)
    decreases |a|
  {
    if |a| > 0 && |b| > 0 && a[0] == b[0] {
      LtTotal(a[1..], b[1..]);
      if a[1..] == b[1..] {
        assert a == [a[0]] + a[1..] && b == [b[0]] + b[1..];
      }
    }
  }

  /** `a` and `b` agree before position `i`, where `a` has the smaller code point. */
  ghost predicate DiffersBelowAt(a: string, b: string, i: nat) {
    i < |a| && i < |b| && a[..i] == b[..i] && a[i] < b[i]
  }

  /** The textbook lexicographic order: a first difference in favour of `a`, or `a` a proper
      prefix of `b`. */
  ghost predicate LexBelow(a: string, b: string) {
    (exists i: nat :: DiffersBelowAt(a, b, i)) || (|a| < |b| && a == b[..|a|])
  }

  /** `Lt` is the textbook lexicographic order on code points. */
  lemma {:induction false} LtMeaning(a: string, b: string)
    ensures Lt(a, b) <==> LexBelow(a, b)
    decreases |a|
  {
    if |a| == 0 {
      if |b| > 0 {
        assert a == b[..|a|];
      }
    } else if |b| == 0 {
    } else if a[0] != b[0] {
      if a[0] < b[0] {
        assert DiffersBelowAt(a, b, 0);
      }
    } else {
      var a', b' := a[1..], b[1..];
      LtMeaning(a', b');
      if LexBelow(a', b') {
        if i: nat :| DiffersBelowAt(a', b', i) {
          assert a[..i + 1] == [a[0]] + a'[..i] && b[..i + 1] == [b[0]] + b'[..i];
          assert DiffersBelowAt(a, b, i + 1);
        } else {
          assert a == [a[0]] + a' && b[..|a|] == [b[0]] + b'[..|a'|];
        }
      }
      if LexBelow(a, b) {
        if i: nat :| DiffersBelowAt(a, b, i) {
          assert i > 0;
          assert a'[..i - 1] == a[..i][1..] && b'[..i - 1] == b[..i][1..];
          assert DiffersBelowAt(a', b', i - 1);
        } else {
          assert a' == b'[..|a'|] by {
            assert a' == a[1..] && b'[..|a'|] == b[..|a|][1..];
          }
        }
      }
    }
  }

  lemma LeTransitive(a: string, b: string, c: string)
    ensures Le(a, b) && Le(b, c) ==> Le(a, c)
  {
    LtTotal(a, b);
    LtTotal(b, c);
    LtTransitive(c, b, a);
    LtTransitive(c, a, b);
    LtTransitive(b, c, a);
    LtAsymmetric(a, b);
  }

  // ---------------------------------------------------------------------------
  // sorted(list_of_strings)
  // ---------------------------------------------------------------------------

  /** Non-decreasing under Python's string order. */
  ghost predicate Ascending(s: seq<string>) {
    forall i, j :: 0 <= i < j < |s| ==> Le(s[i], s[j])
  }

  /** Strictly increasing under Python's string order. */
  ghost predicate StrictlyAscending(s: seq<string>) {
    forall i, j :: 0 <= i < j < |s| ==> Lt(s[i], s[j])
  }

  /** Insert `x` before the first element not smaller than it. */
  function InsertString(x: string, s: seq<string>): (r: seq<string>)
    requires Ascending(s)
    ensures Ascending(r)
    ensures multiset(r) == multiset(s) + multiset{x}
  {
    if |s| == 0 then [x]
    else if Le(x, s[0]) then
      InsertFront(x, s);
      [x] + s
    else
      var rest := InsertString(x, s[1..]);
      InsertBehind(x, s, rest);
      [s[0]] + rest
  }

  /** `x` may go in front of an ascending list whose head it does not exceed. */
  lemma InsertFront(x: string, s: seq<string>)
    requires Ascending(s) && |s| > 0 && Le(x, s[0])
    ensures Ascending([x] + s)
  {
    forall j | 0 <= j < |s|
      ensures Le(x, s[j])
    {
      LeTransitive(x, s[0], s[j]);
    }
  }

  /** The head of `s` may stay in front when `x`, larger than it, goes into the rest. */
  lemma InsertBehind(x: string, s: seq<string>, rest: seq<string>)
    requires Ascending(s) && |s| > 0 && !Le(x, s[0])
    requires Ascending(rest) && multiset(rest) == multiset(s[1..]) + multiset{x}
    ensures Ascending([s[0]] + rest)
    ensures multiset([s[0]] + rest) == multiset(s) + multiset{x}
  {
    LtAsymmetric(s[0], x);
    forall j | 0 <= j < |rest|
      ensures Le(s[0], rest[j])
    {
      assert rest[j] in multiset(rest);
      if rest[j] != x {
        assert rest[j] in multiset(s[1..]);
        var k :| 0 <= k < |s[1..]| && s[1..][k] == rest[j];
        assert s[k + 1] == rest[j];
      }
    }
    assert s == [s[0]] + s[1..];
  }

  /** Python's `sorted(xs)` on strings (insertion sort; equal strings are indistinguishable, so
      stability plays no part). */
  function SortStrings(xs: seq<string>): (r: seq<string>)
    ensures Ascending(r)
    ensures multiset(r) == multiset(xs)
  {
    if |xs| == 0 then []
    else
      assert xs == [xs[0]] + xs[1..];
      InsertString(xs[0], SortStrings(xs[1..]))
  }

  /** Sorting distinct strings yields a strictly increasing list of the same strings. */
  lemma SortDistinctIsStrict(xs: seq<string>)
    requires NoDup(xs)
    ensures StrictlyAscending(SortStrings(xs))
    ensures NoDup(SortStrings(xs))
  {
    var r := SortStrings(xs);
    forall i, j | 0 <= i < j < |r|
      ensures r[i] != r[j]
    {
      if r[i] == r[j] {
        TwoOccurrences(r, i, j);
        NoDupMultiplicity(xs, r[i]);
      }
    }
    forall i, j | 0 <= i < j < |r|
      ensures Lt(r[i], r[j])
    {
      LtTotal(r[i], r[j]);
    }
  }

  // ---------------------------------------------------------------------------
  // str.strip()
  // ---------------------------------------------------------------------------

  /** Python's `str.isspace()` for one character: the Unicode whitespace that `str.strip()` with
      no argument removes. */
  predicate IsSpace(c: char) {
    || '\t' <= c <= '\r'
    || '\U{1C}' <= c <= '\U{1F}'
    || c == ' '
    || c == '\U{85}'
    || c == '\U{A0}'
    || c == '\U{1680}'
    || '\U{2000}' <= c <= '\U{200A}'
    || c == '\U{2028}'
    || c == '\U{2029}'
    || c == '\U{202F}'
    || c == '\U{205F}'
    || c == '\U{3000}'
  }

  /** Drop leading whitespace. */
  function LStrip(s: string): string {
    if |s| > 0 && IsSpace(s[0]) then LStrip(s[1..]) else s
  }

  /** Drop trailing whitespace. */
  function RStrip(s: string): string {
    if |s| > 0 && IsSpace(s[|s| - 1]) then RStrip(s[..|s| - 1]) else s
  }

  /** `LStrip` keeps the longest suffix whose dropped prefix is all whitespace. */
  lemma {:induction false} LStripSpec(s: string)
    ensures |LStrip(s)| <= |s| && LStrip(s) == s[|s| - |LStrip(s)|..]
    ensures forall k :: 0 <= k < |s| - |LStrip(s)| ==> IsSpace(s[k])
    ensures |LStrip(s)| == 0 || !IsSpace(LStrip(s)[0])
  {
    if |s| > 0 && IsSpace(s[0]) {
      LStripSpec(s[1..]);
    }
  }

  /** `RStrip` keeps the longest prefix whose dropped suffix is all whitespace. */
  lemma {:induction false} RStripSpec(s: string)
    ensures |RStrip(s)| <= |s| && RStrip(s) == s[..|RStrip(s)|]
    ensures forall k :: |RStrip(s)| <= k < |s| ==> IsSpace(s[k])
    ensures |RStrip(s)| == 0 || !IsSpace(RStrip(s)[|RStrip(s)| - 1])
  {
    if |s| > 0 && IsSpace(s[|s| - 1]) {
      RStripSpec(s[..|s| - 1]);
    }
  }

  /** Python's `s.strip()`. */
  function Strip(s: string): string {
    RStrip(LStrip(s))
  }

  /** `s.strip()` is the middle of `s` left when the whitespace at both ends is removed. It
      neither starts nor ends with whitespace, and it is empty exactly when `s` is all
      whitespace (a blank CSV cell). */
  lemma StripSpec(s: string)
    ensures |Strip(s)| <= |LStrip(s)| <= |s|
    ensures Strip(s) == s[|s| - |LStrip(s)|..|s| - |LStrip(s)| + |Strip(s)|]
    ensures forall k :: 0 <= k < |s| - |LStrip(s)| ==> IsSpace(s[k])
    ensures forall k :: |s| - |LStrip(s)| + |Strip(s)| <= k < |s| ==> IsSpace(s[k])
    ensures |Strip(s)| == 0 || (!IsSpace(Strip(s)[0]) && !IsSpace(Strip(s)[|Strip(s)| - 1]))
    ensures Strip(s) == "" <==> forall k :: 0 <= k < |s| ==> IsSpace(s[k])
  {
    var l := LStrip(s);
    LStripSpec(s);
    RStripSpec(l);
    var r := RStrip(l);
    var i := |s| - |l|;
    assert l == s[i..];
    forall k | i + |r| <= k < |s|
      ensures IsSpace(s[k])
    {
      assert s[k] == l[k - i];
    }
    assert r == s[i..i + |r|];
    if r == "" {
      forall k | 0 <= k < |s|
        ensures IsSpace(s[k])
      {
      }
    } else {
      assert s[i] == r[0];
    }
  }

  /** Stripping twice is stripping once. */
  lemma StripIdempotent(s: string)
    ensures Strip(Strip(s)) == Strip(s)
  {
    var r := Strip(s);
    StripSpec(s);
    if |r| > 0 {
      assert LStrip(r) == r;
      assert RStrip(r) == r;
    }
  }
}
