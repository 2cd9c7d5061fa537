/** Equal-width histograms: the distribution chart of a numeric column (at most
    twenty bins) and the mini histogram of the column analysis (at most
    fifteen). The bin count is the ceiling of the square root of the number of
    values, capped; the maximum goes to the last bin and every other value to
    the floor of its offset from the minimum divided by the bin width. */
module Histogram {
  import opened Cells
  import opened Counting
  import opened ColumnTypes
  import NumericStats
  import TextStats

  const DistributionCap := 20
  const MiniCap := 15

  lemma SquareMonotone(a: nat, b: nat)
    ensures a <= b ==> a * a <= b * b
  {
  }

  lemma SquareAtLeast(n: nat)
    ensures n <= n * n
  {
  }

  function CeilSqrtFrom(n: nat, c: nat): (r: nat)
    requires c == 0 || (c - 1) * (c - 1) < n
    ensures r * r >= n
    ensures r == 0 || (r - 1) * (r - 1) < n
    decreases n - c
  {
    if c * c >= n then c
    else
      assert c < n by {
        SquareMonotone(n, c);
        SquareAtLeast(n);
      }
      CeilSqrtFrom(n, c + 1)
  }

  /** The ceiling of the square root of `n`: the least `c` with `c * c >= n`. */
  function CeilSqrt(n: nat): (c: nat)
    ensures c * c >= n
    ensures c == 0 || (c - 1) * (c - 1) < n
  {
    CeilSqrtFrom(n, 0)
  }

  /** No smaller number squares to at least `n`. */
  lemma CeilSqrtLeast(n: nat, c: nat)
    requires c * c >= n
    ensures CeilSqrt(n) <= c
  {
    var r := CeilSqrt(n);
    if r > 0 {
      SquareMonotone(c, r - 1);
    }
  }

  /** The number of bins for `n` values: the ceiling of the square root of
      `n`, but no more than `cap`. */
  function BinCount(n: nat, cap: nat): (k: nat)
    ensures k <= cap && k <= CeilSqrt(n)
    ensures k == cap || k * k >= n
    ensures n >= 1 && cap >= 1 ==> k >= 1
    ensures n == 0 ==> k == 0
  {
    if cap < CeilSqrt(n) then cap else CeilSqrt(n)
  }

  lemma MulMono(a: real, b: real, w: real)
    requires w > 0.0
    ensures a >= b ==> a * w >= b * w
  {
    assert a * w - b * w == (a - b) * w;
  }

  lemma QuotientBelow(d: real, w: real, k: nat)
    requires w > 0.0 && 0.0 <= d < k as real * w
    ensures 0.0 <= d / w < k as real
  {
    var q := d / w;
    assert q * w == d;
    MulMono(q, k as real, w);
    NumericStats.MulStrict(q, 0.0, w);
  }

  /** The bin of value `v` among `k` equal-width bins spanning `lo` .. `hi`. */
  function BinOf(v: real, lo: real, hi: real, k: nat): (b: int)
    requires k >= 1 && lo <= v <= hi
    ensures 0 <= b < k
    ensures v == hi ==> b == k - 1
  {
    if v == hi then k - 1
    else
      var w := (hi - lo) / k as real;
      assert v - lo < k as real * w;
      QuotientBelow(v - lo, w, k);
      ((v - lo) / w).Floor
  }

  /** A value below the maximum lies in its bin's half-open interval, the
      interval the chart labels show. */
  lemma BinOfInterval(v: real, lo: real, hi: real, k: nat)
    requires k >= 1 && lo <= v < hi
    ensures var w, b := (hi - lo) / k as real, BinOf(v, lo, hi, k);
            lo + b as real * w <= v < lo + (b + 1) as real * w
  {
    var w, b := (hi - lo) / k as real, BinOf(v, lo, hi, k);
    var q := (v - lo) / w;
    assert q * w == v - lo;
    assert b == q.Floor;
    assert b as real * w <= v - lo by {
      assert b as real <= q;
      MulMono(q, b as real, w);
    }
    assert v - lo < (b + 1) as real * w by {
      assert q < (b + 1) as real;
      NumericStats.MulStrict(q, (b + 1) as real, w);
    }
  }

  /** A greater value never falls in an earlier bin. */
  lemma BinOfMonotone(v1: real, v2: real, lo: real, hi: real, k: nat)
    requires k >= 1 && lo <= v1 <= v2 <= hi
    ensures BinOf(v1, lo, hi, k) <= BinOf(v2, lo, hi, k)
  {
    if v2 < hi {
      var w := (hi - lo) / k as real;
      var q1, q2 := (v1 - lo) / w, (v2 - lo) / w;
      assert q1 * w == v1 - lo && q2 * w == v2 - lo;
      NumericStats.MulStrict(q2, q1, w);
      assert q1 <= q2;
    }
  }

  function BinIndexes(xs: seq<real>, lo: real, hi: real, k: nat): (ids: seq<nat>)
    requires k >= 1 && forall i :: 0 <= i < |xs| ==> lo <= xs[i] <= hi
    ensures |ids| == |xs|
    ensures forall i :: 0 <= i < |xs| ==> ids[i] == BinOf(xs[i], lo, hi, k) < k
  {
    seq(|xs|, i requires 0 <= i < |xs| => BinOf(xs[i], lo, hi, k))
  }

  /** The histogram of `xs`: for each of the bins between the minimum and the
      maximum, how many values fall in it; no bins for no values. */
  function Bins(xs: seq<real>, cap: nat): seq<nat>
    requires cap >= 1
  {
    if xs == [] then []
    else
      var k := BinCount(|xs|, cap);
      CountVector(BinIndexes(xs, NumericStats.Min(xs), NumericStats.Max(xs), k), k)
  }

  /** The histogram of `xs` between its minimum and maximum, with no bins for
      no values. */
  method Histogram(xs: seq<real>, cap: nat) returns (bins: seq<nat>)
    requires cap >= 1
    ensures bins == Bins(xs, cap)
  {
    if xs == [] {
      return [];
    }
    var lo, hi := NumericStats.Min(xs), NumericStats.Max(xs);
    var k := BinCount(|xs|, cap);
    bins := FillBins(xs, lo, hi, k);
  }

  /** Fills a zeroed array of `k` bins and increments the bin of each value. */
  method FillBins(xs: seq<real>, lo: real, hi: real, k: nat) returns (bins: seq<nat>)
    requires k >= 1 && forall i :: 0 <= i < |xs| ==> lo <= xs[i] <= hi
    ensures bins == CountVector(BinIndexes(xs, lo, hi, k), k)
  {
    var a := new nat[k](_ => 0);
    ghost var ids := BinIndexes(xs, lo, hi, k);
    var i := 0;
    while i < |xs|
      invariant 0 <= i <= |xs|
      invariant a[..] == CountVector(ids[..i], k)
    {
      var b := BinOf(xs[i], lo, hi, k);
      assert ids[..i + 1] == ids[..i] + [b];
      CountVectorSnoc(ids[..i], b, k);
      a[b] := a[b] + 1;
      i := i + 1;
    }
    assert ids[..i] == ids;
    bins := a[..];
  }

  /** Between one and `cap` bins for a non-empty input, none for an empty one,
      and the bins hold every value exactly once. */
  lemma BinsTotal(xs: seq<real>, cap: nat)
    requires cap >= 1
    ensures |Bins(xs, cap)| == BinCount(|xs|, cap)
    ensures xs != [] ==> 1 <= |Bins(xs, cap)| <= cap
    ensures xs == [] ==> Bins(xs, cap) == []
    ensures Counting.Sum(Bins(xs, cap)) == |xs|
  {
    if xs != [] {
      var k := BinCount(|xs|, cap);
      CountVectorSum(BinIndexes(xs, NumericStats.Min(xs), NumericStats.Max(xs), k), k);
    }
  }

  /** The maximum is counted in the last bin. */
  lemma MaximumInLastBin(xs: seq<real>, cap: nat)
    requires cap >= 1 && xs != []
    ensures Bins(xs, cap)[|Bins(xs, cap)| - 1] >= 1
  {
    var lo, hi := NumericStats.Min(xs), NumericStats.Max(xs);
    var k := BinCount(|xs|, cap);
    var ids := BinIndexes(xs, lo, hi, k);
    assert Bins(xs, cap) == CountVector(ids, k);
    var j :| 0 <= j < |xs| && xs[j] == hi;
    assert ids[j] == k - 1;
    assert k - 1 in ids;
  }

  lemma {:induction false} CountConstant<T>(xs: seq<T>, x: T)
    requires forall i :: 0 <= i < |xs| ==> xs[i] == x
    ensures Count(xs, x) == |xs|
  {
    if xs != [] {
      CountConstant(xs[..|xs| - 1], x);
    }
  }

  lemma ConstantIndexes(xs: seq<real>, k: nat)
    requires k >= 1 && xs != []
    requires forall i :: 0 <= i < |xs| ==> xs[i] == xs[0]
    ensures var ids := BinIndexes(xs, NumericStats.Min(xs), NumericStats.Max(xs), k);
            forall i :: 0 <= i < |ids| ==> ids[i] == k - 1
  {
    var lo, hi := NumericStats.Min(xs), NumericStats.Max(xs);
    assert lo == xs[0] == hi;
  }

  lemma CountVectorConstant(ids: seq<nat>, k: nat)
    requires k >= 1
    requires forall i :: 0 <= i < |ids| ==> ids[i] == k - 1
    ensures CountVector(ids, k)[k - 1] == |ids|
    ensures forall b :: 0 <= b < k - 1 ==> CountVector(ids, k)[b] == 0
  {
    CountConstant(ids, k - 1);
  }

  /** When all values are equal, they all land in the last bin. */
  lemma ConstantInLastBin(xs: seq<real>, cap: nat)
    requires cap >= 1 && xs != []
    requires forall i :: 0 <= i < |xs| ==> xs[i] == xs[0]
    ensures var bins := Bins(xs, cap);
            && bins[|bins| - 1] == |xs|
            && forall b :: 0 <= b < |bins| - 1 ==> bins[b] == 0
  {
    var k := BinCount(|xs|, cap);
    var ids := BinIndexes(xs, NumericStats.Min(xs), NumericStats.Max(xs), k);
    ConstantIndexes(xs, k);
    CountVectorConstant(ids, k);
  }

  /** The chart a column's distribution gets: none without rows, a histogram
      when every non-empty value is a number, a bar chart of value
      frequencies otherwise. */
  datatype Distribution =
    | NotEnoughData
    | NumericBins(bins: seq<nat>)
    | CategoryBars(labels: seq<string>, counts: seq<nat>)

  /** Every non-empty value is a number; true of a column with no non-empty value. */
  predicate AllNumbers(values: seq<Cell>) {
    forall i :: 0 <= i < |values| ==> values[i].Num?
  }

  method DistributionChart(rows: seq<Row>, header: string, f: Formatter) returns (r: Distribution)
    ensures r.NotEnoughData? <==> rows == []
    ensures var column := Column(rows, header);
      r.NumericBins? <==> rows != [] && AllNumbers(NonEmptyValues(column))
    ensures var column := Column(rows, header);
      r.NumericBins? ==> r.bins == Bins(NumericStats.NumericValues(column), DistributionCap)
    ensures r.CategoryBars? ==>
      var column := Column(rows, header);
      var top := TextStats.TopEntries(TextStats.ValueTable(TextStats.CategoryTexts(column, f)),
                                      TextStats.ChartTop, TextStats.ChartCut);
      && |r.labels| == |r.counts| == |top|
      && forall i :: 0 <= i < |top| ==> r.labels[i] == top[i].value && r.counts[i] == top[i].count
  {
    if rows == [] {
      return NotEnoughData;
    }
    var column := Column(rows, header);
    var values := NonEmptyValues(column);
    if AllNumbers(values) {
      var bins := Histogram(NumericStats.NumericValues(column), DistributionCap);
      r := NumericBins(bins);
    } else {
      var labels, counts := TextStats.CategoricalChart(column, f);
      r := CategoryBars(labels, counts);
    }
  }

  /** The column analysis draws a histogram of at most fifteen bins when the
      column's type is number. */
  method MiniHistogram(column: seq<Cell>) returns (r: Option<seq<nat>>)
    ensures r.Some? <==> IsDominant(KindsOf(column), NumberKind)
    ensures r.Some? ==> NumericStats.NumericValues(column) != [] &&
                        r.value == Bins(NumericStats.NumericValues(column), MiniCap)
  {
    var d := DominantType(column);
    var nums := NumericStats.NumericValues(column);
    assert IsDominant(KindsOf(column), NumberKind) <==> d == NumberKind by {
      if IsDominant(KindsOf(column), NumberKind) {
        DominantUnique(KindsOf(column), d, NumberKind);
      }
    }
    if d == NumberKind && nums != [] {
      var bins := Histogram(nums, MiniCap);
      r := Some(bins);
    } else {
      r := None;
    }
  }
}
