/** Occurrence counting: the insertion-ordered count dictionary that the analyzer
    builds for type classes and for text values, and the facts about counts that
    the other modules use. */
module Counting {

  /** Number of occurrences of `x` in `xs`. */
  function Count<T(==)>(xs: seq<T>, x: T): (n: nat)
    ensures n <= |xs|
    ensures n > 0 <==> x in xs
  {
    if xs == [] then 0
    else Count(xs[..|xs| - 1], x) + (if xs[|xs| - 1] == x then 1 else 0)
  }

  lemma CountAppend<T>(xs: seq<T>, y: T, x: T)
    ensures Count(xs + [y], x) == Count(xs, x) + (if y == x then 1 else 0)
  {
    assert (xs + [y])[..|xs|] == xs;
  }

  /** `CountAppend` for every value at once. */
  lemma CountSnoc<T>(xs: seq<T>, y: T)
    ensures forall x :: Count(xs + [y], x) == Count(xs, x) + (if y == x then 1 else 0)
  {
    forall x ensures Count(xs + [y], x) == Count(xs, x) + (if y == x then 1 else 0) {
      CountAppend(xs, y, x);
    }
  }

  /** Position of the first occurrence of `x` in `xs`. */
  function FirstIndex<T(==)>(xs: seq<T>, x: T): (i: nat)
    requires x in xs
    ensures i < |xs| && xs[i] == x && x !in xs[..i]
  {
    if xs[0] == x then 0 else 1 + FirstIndex(xs[1..], x)
  }

  lemma {:induction false} FirstIndexOfPrefix<T>(xs: seq<T>, ys: seq<T>, x: T)
    requires x in xs
    ensures x in xs + ys && FirstIndex(xs + ys, x) == FirstIndex(xs, x)
  {
    if xs[0] != x {
      assert (xs + ys)[1..] == xs[1..] + ys;
      FirstIndexOfPrefix(xs[1..], ys, x);
    }
  }

  /** `keys` lists the distinct values of `xs` in the order in which `xs` first
      shows them: the key order of a dictionary filled by a scan of `xs`. */
  ghost predicate FirstSeenOrder<T(!new)>(xs: seq<T>, keys: seq<T>) {
    (forall k :: k in keys <==> k in xs) &&
    (forall i, j :: 0 <= i < j < |keys| ==>
       keys[i] in xs && keys[j] in xs && FirstIndex(xs, keys[i]) < FirstIndex(xs, keys[j]))
  }

  lemma FirstSeenDistinct<T(!new)>(xs: seq<T>, keys: seq<T>, i: int, j: int)
    requires FirstSeenOrder(xs, keys)
    requires 0 <= i < |keys| && 0 <= j < |keys| && keys[i] == keys[j]
    ensures i == j
  {
  }

  /** Scanning one more element keeps the key order: a value seen before
      keeps its place, a new one goes to the end. */
  lemma FirstSeenExtend<T(!new)>(xs: seq<T>, keys: seq<T>, x: T)
    requires FirstSeenOrder(xs, keys)
    ensures FirstSeenOrder(xs + [x], if x in xs then keys else keys + [x])
  {
    forall k | k in xs
      ensures k in xs + [x] && FirstIndex(xs + [x], k) == FirstIndex(xs, k)
    {
      FirstIndexOfPrefix(xs, [x], k);
    }
    if x !in xs {
      FirstSeenNew(xs, keys, x);
    }
  }

  lemma FirstSeenNew<T(!new)>(xs: seq<T>, keys: seq<T>, x: T)
    requires FirstSeenOrder(xs, keys) && x !in xs
    requires forall k | k in xs :: k in xs + [x] && FirstIndex(xs + [x], k) == FirstIndex(xs, k)
    ensures FirstSeenOrder(xs + [x], keys + [x])
  {
    var keys' := keys + [x];
    assert (xs + [x])[..|xs|] == xs;
    assert FirstIndex(xs + [x], x) == |xs|;
    forall i, j | 0 <= i < j < |keys'|
      ensures keys'[i] in xs + [x] && keys'[j] in xs + [x]
      ensures FirstIndex(xs + [x], keys'[i]) < FirstIndex(xs + [x], keys'[j])
    {
      assert keys'[i] == keys[i];
      if j < |keys| {
        assert keys'[j] == keys[j];
      } else {
        assert keys'[j] == x == (xs + [x])[|xs|];
      }
    }
  }

  /** The dictionary after a scan of `seen`: its keys in insertion order and
      one counter per value seen. */
  ghost predicate Tallied<T(!new)>(seen: seq<T>, keys: seq<T>, counts: map<T, nat>) {
    && keys == Distinct(seen)
    && (forall y :: y in counts <==> y in seen)
    && (forall y :: y in counts ==> counts[y] == Count(seen, y))
  }

  /** A value seen before: its counter goes up by one, the keys stay. */
  lemma TallySeen<T(!new)>(seen: seq<T>, keys: seq<T>, counts: map<T, nat>, x: T)
    requires Tallied(seen, keys, counts) && x in counts
    ensures Tallied(seen + [x], keys, counts[x := counts[x] + 1])
  {
    DistinctAppend(seen, x);
    forall y | y in counts
      ensures Count(seen + [x], y) == Count(seen, y) + (if x == y then 1 else 0)
    {
      CountAppend(seen, x, y);
    }
  }

  /** A new value: it gets a counter of one and goes to the end of the keys. */
  lemma TallyNew<T(!new)>(seen: seq<T>, keys: seq<T>, counts: map<T, nat>, x: T)
    requires Tallied(seen, keys, counts) && x !in counts
    ensures Tallied(seen + [x], keys + [x], counts[x := 1])
  {
    DistinctAppend(seen, x);
    forall y | y in counts || y == x
      ensures Count(seen + [x], y) == Count(seen, y) + (if x == y then 1 else 0)
    {
      CountAppend(seen, x, y);
    }
  }

  /** The distinct values of `xs` in the order of their first occurrence. */
  function Distinct<T(==)>(xs: seq<T>): (d: seq<T>)
    ensures |d| <= |xs|
    ensures d == [] <==> xs == []
  {
    if xs == [] then []
    else
      var init, last := xs[..|xs| - 1], xs[|xs| - 1];
      if last in init then Distinct(init) else Distinct(init) + [last]
  }

  /** `Distinct` lists each value of `xs` once, in first-seen order. */
  lemma {:induction false} DistinctFirstSeen<T(!new)>(xs: seq<T>)
    ensures FirstSeenOrder(xs, Distinct(xs))
  {
    if xs != [] {
      var init, last := xs[..|xs| - 1], xs[|xs| - 1];
      assert xs == init + [last];
      DistinctFirstSeen(init);
      FirstSeenExtend(init, Distinct(init), last);
    } else {
      assert forall k :: k !in Distinct(xs);
    }
  }

  lemma DistinctAppend<T>(xs: seq<T>, x: T)
    ensures Distinct(xs + [x]) == if x in xs then Distinct(xs) else Distinct(xs) + [x]
  {
    assert (xs + [x])[..|xs|] == xs;
  }

  /** One pass over `xs` that increments a per-value counter, creating it at
      its first sighting. Returns the dictionary's keys in their insertion
      order along with the dictionary. */
  method CountByValue<T(==,!new)>(xs: seq<T>) returns (keys: seq<T>, counts: map<T, nat>)
    ensures keys == Distinct(xs)
    ensures forall x :: x in counts <==> x in xs
    ensures forall x :: x in counts ==> counts[x] == Count(xs, x)
  {
    keys, counts := [], map[];
    var i := 0;
    while i < |xs|
      invariant 0 <= i <= |xs|
      invariant Tallied(xs[..i], keys, counts)
    {
      var x := xs[i];
      assert xs[..i + 1] == xs[..i] + [x];
      if x in counts {
        TallySeen(xs[..i], keys, counts, x);
        counts := counts[x := counts[x] + 1];
      } else {
        TallyNew(xs[..i], keys, counts, x);
        keys := keys + [x];
        counts := counts[x := 1];
      }
      i := i + 1;
    }
    assert xs[..i] == xs;
  }

  /** Sum of a sequence of counts. */
  function Sum(s: seq<nat>): nat {
    if s == [] then 0 else Sum(s[..|s| - 1]) + s[|s| - 1]
  }

  lemma {:induction false} SumZeros(s: seq<nat>)
    requires forall i :: 0 <= i < |s| ==> s[i] == 0
    ensures Sum(s) == 0
  {
    if s != [] {
      SumZeros(s[..|s| - 1]);
    }
  }

  lemma {:induction false} SumIncrement(s: seq<nat>, j: nat)
    requires j < |s|
    ensures Sum(s[j := s[j] + 1]) == Sum(s) + 1
  {
    var t := s[j := s[j] + 1];
    if j < |s| - 1 {
      assert t[..|t| - 1] == s[..|s| - 1][j := s[j] + 1];
      SumIncrement(s[..|s| - 1], j);
    } else {
      assert t[..|t| - 1] == s[..|s| - 1];
    }
  }

  /** The count vector of `xs` over the values 0 .. k-1. */
  function CountVector(xs: seq<nat>, k: nat): (v: seq<nat>)
    ensures |v| == k
    ensures forall b :: 0 <= b < k ==> v[b] == Count(xs, b)
  {
    seq(k, b requires 0 <= b < k => Count(xs, b))
  }

  /** When every element of `xs` is below `k`, the per-value counts over
      0 .. k-1 add up to the length of `xs`: each element is counted once. */
  lemma {:induction false} CountVectorSum(xs: seq<nat>, k: nat)
    requires forall i :: 0 <= i < |xs| ==> xs[i] < k
    ensures Sum(CountVector(xs, k)) == |xs|
  {
    if xs == [] {
      SumZeros(CountVector(xs, k));
    } else {
      var init, last := xs[..|xs| - 1], xs[|xs| - 1];
      assert xs == init + [last];
      CountVectorSum(init, k);
      var before := CountVector(init, k);
      CountVectorSnoc(init, last, k);
      SumIncrement(before, last);
    }
  }

  /** One more value below `k` raises its own counter by one and no other. */
  lemma CountVectorSnoc(xs: seq<nat>, x: nat, k: nat)
    requires x < k
    ensures CountVector(xs + [x], k) == CountVector(xs, k)[x := CountVector(xs, k)[x] + 1]
  {
    var before := CountVector(xs, k);
    forall b | 0 <= b < k
      ensures CountVector(xs + [x], k)[b] == before[x := before[x] + 1][b]
    {
      CountAppend(xs, x, b);
    }
  }
}
