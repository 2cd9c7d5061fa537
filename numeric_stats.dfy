/** Descriptive statistics of a numeric column: minimum, maximum, sum, mean,
    median of an ascending sorted copy, and population variance. The host's
    doubles are idealised as reals; the standard deviation, the square root of
    the variance, is left to the host. */
module NumericStats {
  import opened Cells
  import opened Sorting
  import Counting

  /** The numbers of a column in row order: the values whose JavaScript type
      is number. */
  function NumericValues(column: seq<Cell>): (xs: seq<real>)
    ensures |xs| <= |column|
    ensures forall x :: x in xs <==> Num(x) in column
    ensures forall x :: Counting.Count(xs, x) == Counting.Count(column, Num(x))
  {
    if column == [] then []
    else
      var init, last := column[..|column| - 1], column[|column| - 1];
      assert column == init + [last];
      var rest := NumericValues(init);
      Counting.CountSnoc(init, last);
      if last.Num? then
        Counting.CountSnoc(rest, last.x);
        rest + [last.x]
      else
        rest
  }

  /** The numbers of two stretches of a column are those of the first
      followed by those of the second: row order is kept. */
  lemma {:induction false} NumericValuesAppend(a: seq<Cell>, b: seq<Cell>)
    ensures NumericValues(a + b) == NumericValues(a) + NumericValues(b)
  {
    if b == [] {
      assert a + b == a;
    } else {
      var init, last := b[..|b| - 1], b[|b| - 1];
      assert b == init + [last];
      assert (a + b)[..|a + b| - 1] == a + init;
      NumericValuesAppend(a, init);
    }
  }

  /** A single cell contributes its number, and nothing when it is not a number. */
  lemma NumericValuesSingle(c: Cell)
    ensures NumericValues([c]) == if c.Num? then [c.x] else []
  {
    assert [c][..0] == [];
  }

  function Min(xs: seq<real>): (m: real)
    requires xs != []
    ensures m in xs
    ensures forall i :: 0 <= i < |xs| ==> m <= xs[i]
  {
    if |xs| == 1 then xs[0]
    else
      var rest := Min(xs[..|xs| - 1]);
      if xs[|xs| - 1] < rest then xs[|xs| - 1] else rest
  }

  function Max(xs: seq<real>): (m: real)
    requires xs != []
    ensures m in xs
    ensures forall i :: 0 <= i < |xs| ==> xs[i] <= m
  {
    if |xs| == 1 then xs[0]
    else
      var rest := Max(xs[..|xs| - 1]);
      if xs[|xs| - 1] > rest then xs[|xs| - 1] else rest
  }

  /** Left fold with addition, starting from 0. */
  function SumOf(xs: seq<real>): real {
    if xs == [] then 0.0 else SumOf(xs[..|xs| - 1]) + xs[|xs| - 1]
  }

  function Mean(xs: seq<real>): real
    requires xs != []
  {
    SumOf(xs) / |xs| as real
  }

  /** Values between `lo` and `hi` sum to between `n * lo` and `n * hi`. */
  lemma {:induction false} SumBounds(xs: seq<real>, lo: real, hi: real)
    requires forall i :: 0 <= i < |xs| ==> lo <= xs[i] <= hi
    ensures |xs| as real * lo <= SumOf(xs) <= |xs| as real * hi
  {
    if xs != [] {
      SumBounds(xs[..|xs| - 1], lo, hi);
    }
  }

  /** The mean lies between the minimum and the maximum. */
  lemma MeanBounds(xs: seq<real>)
    requires xs != []
    ensures Min(xs) <= Mean(xs) <= Max(xs)
  {
    SumBounds(xs, Min(xs), Max(xs));
    DivBounds(SumOf(xs), |xs| as real, Min(xs), Max(xs));
  }

  lemma DivBounds(s: real, n: real, lo: real, hi: real)
    requires n > 0.0 && n * lo <= s <= n * hi
    ensures lo <= s / n <= hi
  {
    assert s / n - lo == (s - n * lo) / n;
    assert hi - s / n == (n * hi - s) / n;
  }

  /** The mean of a constant sequence is that constant. */
  lemma MeanOfConstant(xs: seq<real>, c: real)
    requires xs != []
    requires forall i :: 0 <= i < |xs| ==> xs[i] == c
    ensures Mean(xs) == c
  {
    SumBounds(xs, c, c);
    DivBounds(SumOf(xs), |xs| as real, c, c);
  }

  function Identity(x: real): real { x }

  /** Ascending numeric comparator sort of a copy of the values. */
  function Ascending(xs: seq<real>): (s: seq<real>)
    ensures |s| == |xs|
  {
    SortBy(xs, Identity)
  }

  /** The middle element of the ascending copy for an odd count, the mean of
      the two middle elements for an even count. */
  function Median(xs: seq<real>): real
    requires xs != []
  {
    var sorted := Ascending(xs);
    var mid := |sorted| / 2;
    if |sorted| % 2 == 0 then (sorted[mid - 1] + sorted[mid]) / 2.0 else sorted[mid]
  }

  lemma AscendingBetween(xs: seq<real>, i: int)
    requires xs != [] && 0 <= i < |xs|
    ensures Min(xs) <= Ascending(xs)[i] <= Max(xs)
  {
    SortByPermutes(xs, Identity);
    var v := Ascending(xs)[i];
    assert v in multiset(Ascending(xs));
    assert v in xs;
  }

  /** The median lies between the minimum and the maximum. */
  lemma MedianBounds(xs: seq<real>)
    requires xs != []
    ensures Min(xs) <= Median(xs) <= Max(xs)
  {
    var mid := |xs| / 2;
    AscendingBetween(xs, mid);
    if |xs| % 2 == 0 {
      AscendingBetween(xs, mid - 1);
    }
  }

  /** Two ascending sequences with the same elements are equal. */
  lemma {:induction false} SortedUnique(a: seq<real>, b: seq<real>)
    requires SortedBy(a, Identity) && SortedBy(b, Identity)
    requires multiset(a) == multiset(b)
    ensures a == b
    decreases |a|
  {
    assert |a| == |multiset(a)| == |b|;
    if a != [] {
      var n := |a|;
      SameLast(a, b);
      SamePrefix(a, b);
      SortedUnique(a[..n - 1], b[..n - 1]);
      JoinLast(a, b);
    }
  }

  /** Ascending sequences with the same elements end in the same value. */
  lemma SameLast(a: seq<real>, b: seq<real>)
    requires SortedBy(a, Identity) && SortedBy(b, Identity)
    requires multiset(a) == multiset(b) && a != [] && |a| == |b|
    ensures a[|a| - 1] == b[|b| - 1]
  {
    var n := |a|;
    assert a[n - 1] in multiset(b) && b[n - 1] in multiset(a) by {
      assert a[n - 1] in a && b[n - 1] in b;
    }
    LastIsGreatest(a, b[n - 1]);
    LastIsGreatest(b, a[n - 1]);
  }

  /** Dropping the common last value leaves two ascending sequences with the
      same elements. */
  lemma SamePrefix(a: seq<real>, b: seq<real>)
    requires SortedBy(a, Identity) && SortedBy(b, Identity)
    requires multiset(a) == multiset(b) && a != [] && |a| == |b|
    requires a[|a| - 1] == b[|b| - 1]
    ensures multiset(a[..|a| - 1]) == multiset(b[..|b| - 1])
    ensures SortedBy(a[..|a| - 1], Identity) && SortedBy(b[..|b| - 1], Identity)
  {
    DropLast(a);
    DropLast(b);
    SortedPrefix(a, |a| - 1);
    SortedPrefix(b, |b| - 1);
  }

  lemma JoinLast(a: seq<real>, b: seq<real>)
    requires a != [] && |a| == |b|
    requires a[..|a| - 1] == b[..|b| - 1] && a[|a| - 1] == b[|b| - 1]
    ensures a == b
  {
    assert a == a[..|a| - 1] + [a[|a| - 1]];
    assert b == b[..|b| - 1] + [b[|b| - 1]];
  }

  lemma DropLast(s: seq<real>)
    requires s != []
    ensures multiset(s[..|s| - 1]) == multiset(s) - multiset{s[|s| - 1]}
  {
    assert s == s[..|s| - 1] + [s[|s| - 1]];
  }

  lemma SortedPrefix(a: seq<real>, k: int)
    requires SortedBy(a, Identity) && 0 <= k <= |a|
    ensures SortedBy(a[..k], Identity)
  {
    forall i, j | 0 <= i < j < k ensures Identity(a[..k][i]) <= Identity(a[..k][j]) {
      assert a[..k][i] == a[i] && a[..k][j] == a[j];
    }
  }

  lemma LastIsGreatest(a: seq<real>, v: real)
    requires SortedBy(a, Identity) && v in multiset(a)
    ensures v <= a[|a| - 1]
  {
    var k :| 0 <= k < |a| && a[k] == v;
    if k < |a| - 1 {
      assert Identity(a[k]) <= Identity(a[|a| - 1]);
    }
  }

  /** The median depends on the values only, not on their order in the column. */
  lemma MedianOfPermutation(xs: seq<real>, ys: seq<real>)
    requires xs != []
    requires multiset(xs) == multiset(ys)
    ensures ys != [] && Median(xs) == Median(ys)
  {
    assert |xs| == |multiset(xs)| == |ys|;
    assert Ascending(xs) == Ascending(ys) by {
      SortByPermutes(xs, Identity);
      SortByPermutes(ys, Identity);
      SortBySorted(xs, Identity);
      SortBySorted(ys, Identity);
      SortedUnique(SortBy(xs, Identity), SortBy(ys, Identity));
    }
  }

  /** For values already in ascending order the median is their middle. */
  lemma MedianOfSorted(xs: seq<real>)
    requires xs != [] && SortedBy(xs, Identity)
    ensures var mid := |xs| / 2;
            Median(xs) == if |xs| % 2 == 0 then (xs[mid - 1] + xs[mid]) / 2.0 else xs[mid]
  {
    SortByOfSorted(xs, Identity);
  }

  /** Multiplying by a positive number keeps strict order, both ways. */
  lemma MulStrict(a: real, b: real, n: real)
    requires n > 0.0
    ensures a < b <==> a * n < b * n
  {
    assert b * n - a * n == (b - a) * n;
  }

  /** The host's power with exponent 2. */
  function Square(d: real): real {
    d * d
  }

  lemma SquareNonNegative(d: real)
    ensures Square(d) >= 0.0
  {
    if d > 0.0 {
      PositiveProduct(d);
    } else if d < 0.0 {
      NegativeProduct(d);
    }
  }

  lemma PositiveProduct(d: real)
    requires d > 0.0
    ensures d * d > 0.0
  {
  }

  lemma NegativeProduct(d: real)
    requires d < 0.0
    ensures d * d > 0.0
  {
  }

  /** Left fold of the squared deviations from `m`. */
  function SquaredDeviations(xs: seq<real>, m: real): (r: real)
    ensures r >= 0.0
  {
    if xs == [] then 0.0
    else
      SquareNonNegative(xs[|xs| - 1] - m);
      SquaredDeviations(xs[..|xs| - 1], m) + Square(xs[|xs| - 1] - m)
  }

  /** Population variance: squared deviations from the mean, divided by the count. */
  function Variance(xs: seq<real>): (v: real)
    requires xs != []
    ensures v >= 0.0
  {
    SquaredDeviations(xs, Mean(xs)) / |xs| as real
  }

  /** Values that all equal `m` deviate from it by nothing. */
  lemma {:induction false} SquaredDeviationsOfConstant(xs: seq<real>, m: real)
    requires forall i :: 0 <= i < |xs| ==> xs[i] == m
    ensures SquaredDeviations(xs, m) == 0.0
  {
    if xs != [] {
      SquaredDeviationsOfConstant(xs[..|xs| - 1], m);
      assert Square(xs[|xs| - 1] - m) == Square(0.0) == 0.0;
    }
  }

  /** The variance of equal values is zero. */
  lemma VarianceOfConstant(xs: seq<real>)
    requires xs != []
    requires forall i :: 0 <= i < |xs| ==> xs[i] == xs[0]
    ensures Variance(xs) == 0.0
  {
    MeanOfConstant(xs, xs[0]);
    SquaredDeviationsOfConstant(xs, xs[0]);
  }

  /** The per-column numeric analysis. */
  datatype NumericSummary = NumericSummary(
    count: nat, min: real, max: real, sum: real, mean: real, median: real, variance: real)

  /** The numeric analysis of a column; none when the column holds no number. */
  function Summarize(column: seq<Cell>): (r: Option<NumericSummary>)
    ensures r.None? <==> forall i :: 0 <= i < |column| ==> !column[i].Num?
    ensures r.Some? ==> var s, xs := r.value, NumericValues(column);
      && s.count == |xs|
      && s.min == Min(xs) && s.max == Max(xs) && s.sum == SumOf(xs)
      && s.mean == Mean(xs) && s.median == Median(xs) && s.variance == Variance(xs)
      && Num(s.min) in column && Num(s.max) in column
      && s.min <= s.mean <= s.max
      && s.min <= s.median <= s.max
      && s.variance >= 0.0
  {
    var xs := NumericValues(column);
    if xs == [] then
      None
    else
      MeanBounds(xs);
      MedianBounds(xs);
      Some(NumericSummary(|xs|, Min(xs), Max(xs), SumOf(xs), Mean(xs), Median(xs), Variance(xs)))
  }

  lemma MedianEvenExample()
    ensures Median([1.0, 2.0, 3.0, 4.0]) == 2.5
  {
    assert SortedBy([1.0, 2.0, 3.0, 4.0], Identity);
    MedianOfSorted([1.0, 2.0, 3.0, 4.0]);
  }

  lemma MedianOddExample()
    ensures Median([3.0, 1.0, 2.0]) == 2.0
  {
    assert [3.0, 1.0, 2.0][..2] == [3.0, 1.0];
    assert [3.0, 1.0][..1] == [3.0] && [3.0][..0] == [];
    assert [1.0, 3.0][..1] == [1.0] && [1.0][..0] == [];
    assert Ascending([3.0, 1.0]) == [1.0, 3.0];
    assert Ascending([3.0, 1.0, 2.0]) == [1.0, 2.0, 3.0];
  }

  lemma VarianceExample()
    ensures Mean([1.0, 3.0]) == 2.0
    ensures Variance([1.0, 3.0]) == 1.0
  {
    var xs := [1.0, 3.0];
    assert xs[..1] == [1.0] && [1.0][..0] == [];
  }
}
