/** The stable sort that the analyzer applies with a numeric comparator: the
    ascending sort of a column's numbers for the median, and the descending
    sorts by count of the missing-value records and of the frequency tables.
    A comparator `(a, b) => rank(a) - rank(b)` is modelled by `rank`; a stable
    sort's result is determined by the comparator, so the model fixes it as an
    insertion sort. */
module Sorting {

  /** Inserts `x` into `s` behind every element whose rank is not greater
      than that of `x`. */
  function InsertLast<T>(s: seq<T>, x: T, rank: T -> real): (r: seq<T>)
    ensures |r| == |s| + 1
  {
    if s == [] || rank(s[|s| - 1]) <= rank(x) then s + [x]
    else InsertLast(s[..|s| - 1], x, rank) + [s[|s| - 1]]
  }

  /** Stable sort by ascending rank: each element in turn is inserted into the
      already sorted prefix, behind its equals. */
  function SortBy<T>(xs: seq<T>, rank: T -> real): (r: seq<T>)
    ensures |r| == |xs|
  {
    if xs == [] then []
    else InsertLast(SortBy(xs[..|xs| - 1], rank), xs[|xs| - 1], rank)
  }

  ghost predicate SortedBy<T>(s: seq<T>, rank: T -> real) {
    forall i, j :: 0 <= i < j < |s| ==> rank(s[i]) <= rank(s[j])
  }

  /** The elements of `s` whose rank is `v`, in their order in `s`. */
  function WithRank<T>(s: seq<T>, rank: T -> real, v: real): seq<T> {
    if s == [] then []
    else WithRank(s[..|s| - 1], rank, v) + (if rank(s[|s| - 1]) == v then [s[|s| - 1]] else [])
  }

  lemma {:induction false} InsertLastPermutes<T>(s: seq<T>, x: T, rank: T -> real)
    ensures multiset(InsertLast(s, x, rank)) == multiset(s) + multiset{x}
  {
    if s != [] && rank(s[|s| - 1]) > rank(x) {
      assert s == s[..|s| - 1] + [s[|s| - 1]];
      InsertLastPermutes(s[..|s| - 1], x, rank);
    }
  }

  /** The result of `SortBy` is a permutation of its input. */
  lemma {:induction false} SortByPermutes<T>(xs: seq<T>, rank: T -> real)
    ensures multiset(SortBy(xs, rank)) == multiset(xs)
  {
    if xs != [] {
      assert xs == xs[..|xs| - 1] + [xs[|xs| - 1]];
      SortByPermutes(xs[..|xs| - 1], rank);
      InsertLastPermutes(SortBy(xs[..|xs| - 1], rank), xs[|xs| - 1], rank);
    }
  }

  /** Sorting neither adds nor drops an element. */
  lemma SortByMembers<T>(xs: seq<T>, rank: T -> real)
    ensures forall x :: x in SortBy(xs, rank) <==> x in xs
  {
    SortByPermutes(xs, rank);
    forall x ensures x in SortBy(xs, rank) <==> x in xs {
      assert x in SortBy(xs, rank) <==> x in multiset(SortBy(xs, rank));
      assert x in xs <==> x in multiset(xs);
    }
  }

  lemma {:induction false} InsertLastSorted<T>(s: seq<T>, x: T, rank: T -> real)
    requires SortedBy(s, rank)
    ensures SortedBy(InsertLast(s, x, rank), rank)
  {
    if s != [] && rank(s[|s| - 1]) > rank(x) {
      var init, last := s[..|s| - 1], s[|s| - 1];
      InsertLastSorted(init, x, rank);
      var r := InsertLast(init, x, rank);
      InsertLastPermutes(init, x, rank);
      forall i | 0 <= i < |r| ensures rank(r[i]) <= rank(last) {
        assert r[i] in multiset(r);
        if r[i] != x {
          assert r[i] in multiset(init);
          var k :| 0 <= k < |init| && init[k] == r[i];
          assert s[k] == r[i];
        }
      }
    }
  }

  /** The result of `SortBy` is in ascending rank order. */
  lemma {:induction false} SortBySorted<T>(xs: seq<T>, rank: T -> real)
    ensures SortedBy(SortBy(xs, rank), rank)
  {
    if xs != [] {
      SortBySorted(xs[..|xs| - 1], rank);
      InsertLastSorted(SortBy(xs[..|xs| - 1], rank), xs[|xs| - 1], rank);
    }
  }

  lemma {:induction false} WithRankAppend<T>(a: seq<T>, b: seq<T>, rank: T -> real, v: real)
    ensures WithRank(a + b, rank, v) == WithRank(a, rank, v) + WithRank(b, rank, v)
  {
    if b != [] {
      assert (a + b)[..|a + b| - 1] == a + b[..|b| - 1];
      WithRankAppend(a, b[..|b| - 1], rank, v);
    } else {
      assert a + b == a;
    }
  }

  lemma WithRankSingle<T>(x: T, rank: T -> real, v: real)
    ensures WithRank([x], rank, v) == if rank(x) == v then [x] else []
  {
    assert [x][..0] == [];
  }

  lemma {:induction false} InsertLastStable<T>(s: seq<T>, x: T, rank: T -> real, v: real)
    ensures WithRank(InsertLast(s, x, rank), rank, v) == WithRank(s, rank, v) + WithRank([x], rank, v)
  {
    if s == [] || rank(s[|s| - 1]) <= rank(x) {
      WithRankAppend(s, [x], rank, v);
    } else {
      var init, last := s[..|s| - 1], s[|s| - 1];
      var r := InsertLast(init, x, rank);
      assert InsertLast(s, x, rank) == r + [last];
      InsertLastStable(init, x, rank, v);
      WithRankAppend(r, [last], rank, v);
      assert init + [last] == s;
      WithRankAppend(init, [last], rank, v);
      WithRankSingle(x, rank, v);
      WithRankSingle(last, rank, v);
      var lx, ll := WithRank([x], rank, v), WithRank([last], rank, v);
      assert lx == [] || ll == [];
      assert WithRank(r + [last], rank, v) == WithRank(init, rank, v) + lx + ll;
      assert WithRank(s, rank, v) + lx == WithRank(init, rank, v) + ll + lx;
    }
  }

  /** Stability: for every rank, the elements of that rank keep their relative
      order. */
  lemma {:induction false} SortByStable<T>(xs: seq<T>, rank: T -> real, v: real)
    ensures WithRank(SortBy(xs, rank), rank, v) == WithRank(xs, rank, v)
  {
    if xs != [] {
      var init, last := xs[..|xs| - 1], xs[|xs| - 1];
      SortByStable(init, rank, v);
      InsertLastStable(SortBy(init, rank), last, rank, v);
      WithRankAppend(init, [last], rank, v);
      assert init + [last] == xs;
    }
  }

  /** Sorting input that is already in order changes nothing. */
  lemma {:induction false} SortByOfSorted<T>(xs: seq<T>, rank: T -> real)
    requires SortedBy(xs, rank)
    ensures SortBy(xs, rank) == xs
  {
    if xs != [] {
      var init := xs[..|xs| - 1];
      SortByOfSorted(init, rank);
      assert xs == init + [xs[|xs| - 1]];
    }
  }

  /** Where `InsertLast` puts `x`: after the prefix `s[..j]` whose last element
      ranks no higher than `x`, before the suffix whose elements all rank higher. */
  lemma {:induction false} InsertLastAt<T>(s: seq<T>, j: int, x: T, rank: T -> real)
    requires 0 <= j <= |s|
    requires j == 0 || rank(s[j - 1]) <= rank(x)
    requires forall k :: j <= k < |s| ==> rank(s[k]) > rank(x)
    ensures InsertLast(s, x, rank) == s[..j] + [x] + s[j..]
    decreases |s|
  {
    if j < |s| {
      var init := s[..|s| - 1];
      assert init[..j] == s[..j];
      InsertLastAt(init, j, x, rank);
      assert s[j..] == init[j..] + [s[|s| - 1]];
    }
  }

  /** The comparator sort applied in place to an array: insertion sort. */
  method SortInPlace<T>(a: array<T>, rank: T -> real)
    modifies a
    ensures a[..] == SortBy(old(a[..]), rank)
  {
    ghost var orig := a[..];
    var i := 0;
    while i < a.Length
      invariant 0 <= i <= a.Length
      invariant a[..i] == SortBy(orig[..i], rank)
      invariant a[i..] == orig[i..]
    {
      InsertInPlace(a, i, rank);
      assert orig[..i + 1] == orig[..i] + [orig[i]];
      i := i + 1;
    }
    assert a[..] == a[..a.Length];
    assert orig == orig[..a.Length];
  }

  /** Moves `a[i]` left past the greater elements of the sorted prefix
      `a[..i]`, shifting them one place right. */
  method InsertInPlace<T>(a: array<T>, i: int, rank: T -> real)
    requires 0 <= i < a.Length
    modifies a
    ensures a[..i + 1] == InsertLast(old(a[..i]), old(a[i]), rank)
    ensures a[i + 1..] == old(a[i + 1..])
  {
    var x := a[i];
    ghost var sorted := a[..i];
    var j := i;
    while j > 0 && rank(a[j - 1]) > rank(x)
      invariant 0 <= j <= i
      invariant forall k :: 0 <= k < j ==> a[k] == sorted[k]
      invariant forall k :: j < k <= i ==> a[k] == sorted[k - 1]
      invariant forall k :: i < k < a.Length ==> a[k] == old(a[k])
      invariant forall k :: j <= k < i ==> rank(sorted[k]) > rank(x)
    {
      a[j] := a[j - 1];
      j := j - 1;
    }
    a[j] := x;
    InsertLastAt(sorted, j, x, rank);
    assert a[..i + 1] == sorted[..j] + [x] + sorted[j..];
  }
}
