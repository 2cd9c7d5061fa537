/** Data quality: missing values per column and in total, completeness, the
    severity badges, the dataset's density counters, candidate key columns and
    the recommendation to address columns with many missing values. */
module Quality {
  import opened Cells
  import opened Counting
  import opened Sorting
  import opened ColumnTypes
  import NumericStats

  /** Number of empty cells (null, undefined or the empty string) in a column. */
  function CountEmpty(column: seq<Cell>): (n: nat)
    ensures n <= |column|
  {
    if column == [] then 0
    else CountEmpty(column[..|column| - 1]) + (if IsEmptyCell(column[|column| - 1]) then 1 else 0)
  }

  lemma {:induction false} CountEmptyAppend(a: seq<Cell>, b: seq<Cell>)
    ensures CountEmpty(a + b) == CountEmpty(a) + CountEmpty(b)
  {
    if b != [] {
      var init, last := b[..|b| - 1], b[|b| - 1];
      assert (a + b)[..|a + b| - 1] == a + init;
      assert (a + b)[|a + b| - 1] == last;
      CountEmptyAppend(a, init);
    } else {
      assert a + b == a;
    }
  }

  /** The missing cells are exactly the values the type vote classifies as empty. */
  lemma {:induction false} CountEmptyIsEmptyKind(column: seq<Cell>)
    ensures CountEmpty(column) == Count(KindsOf(column), EmptyKind)
  {
    if column != [] {
      var init, c := column[..|column| - 1], column[|column| - 1];
      assert column == init + [c];
      CountEmptyIsEmptyKind(init);
      KindsOfConcat(init, [c]);
      CountAppend(KindsOf(init), Classify(c), EmptyKind);
    }
  }

  function MissingIn(rows: seq<Row>, header: string): nat {
    CountEmpty(Column(rows, header))
  }

  /** `part` as a percentage of `whole`. */
  function Percentage(part: nat, whole: nat): real
    requires whole > 0
  {
    (part as real / whole as real) * 100.0
  }

  /** A share of a whole is between 0 and 100 percent, and a larger share
      gives a larger percentage. */
  lemma PercentageBounds(part: nat, part': nat, whole: nat)
    requires whole > 0
    ensures part <= whole ==> 0.0 <= Percentage(part, whole) <= 100.0
    ensures part <= part' ==> Percentage(part, whole) <= Percentage(part', whole)
  {
    var w := whole as real;
    DivMono(part as real, part' as real, w);
    DivMono(0.0, part as real, w);
    DivMono(part as real, w, w);
    assert w / w == 1.0;
    assert 0.0 / w == 0.0;
  }

  lemma DivMono(a: real, b: real, w: real)
    requires w > 0.0
    ensures a <= b ==> a / w <= b / w
  {
    assert b / w - a / w == (b - a) / w;
  }

  /** The row of the missing-values table for one column. */
  datatype MissingInfo = MissingInfo(header: string, missing: nat, percentage: real)

  function Record(rows: seq<Row>, header: string): MissingInfo
    requires rows != []
  {
    MissingInfo(header, MissingIn(rows, header), Percentage(MissingIn(rows, header), |rows|))
  }

  /** The table rows in header order, before sorting. */
  function Records(rows: seq<Row>, headers: seq<string>): (rs: seq<MissingInfo>)
    requires rows != []
    ensures |rs| == |headers|
    ensures forall i :: 0 <= i < |headers| ==> rs[i] == Record(rows, headers[i])
  {
    seq(|headers|, i requires 0 <= i < |headers| => Record(rows, headers[i]))
  }

  /** Every column misses at most all of its rows. */
  lemma RecordBounds(rows: seq<Row>, headers: seq<string>)
    requires rows != []
    ensures forall r :: r in Records(rows, headers) ==>
              r.missing <= |rows| && 0.0 <= r.percentage <= 100.0
  {
    forall r | r in Records(rows, headers)
      ensures r.missing <= |rows| && 0.0 <= r.percentage <= 100.0
    {
      PercentageBounds(r.missing, r.missing, |rows|);
    }
  }

  /** The sum of the per-column missing counts. */
  function TotalMissing(rows: seq<Row>, headers: seq<string>): nat {
    if headers == [] then 0
    else TotalMissing(rows, headers[..|headers| - 1]) + MissingIn(rows, headers[|headers| - 1])
  }

  /** The comparator by descending missing count, as an ascending rank. */
  function ByMissing(r: MissingInfo): real {
    -(r.missing as real)
  }

  /** The scan of the rows for one column's missing values. */
  method CountMissing(rows: seq<Row>, header: string) returns (missing: nat)
    ensures missing == MissingIn(rows, header)
  {
    missing := 0;
    var j := 0;
    while j < |rows|
      invariant 0 <= j <= |rows|
      invariant missing == MissingIn(rows[..j], header)
    {
      var value := Get(rows[j], header);
      if value == Null || value == Str("") {
        missing := missing + 1;
      }
      MissingStep(rows, header, j);
      j := j + 1;
    }
    assert rows[..j] == rows;
  }

  lemma MissingStep(rows: seq<Row>, header: string, j: nat)
    requires j < |rows|
    ensures MissingIn(rows[..j + 1], header)
         == MissingIn(rows[..j], header) + (if IsEmptyCell(Get(rows[j], header)) then 1 else 0)
  {
    var value := Get(rows[j], header);
    ColumnStep(rows, header, j);
    CountEmptyAppend(Column(rows[..j], header), [value]);
    assert CountEmpty([value]) == (if IsEmptyCell(value) then 1 else 0) by {
      assert [value][..0] == [];
    }
  }

  /** Counts the missing values of each column in a scan of the rows, keeps a
      running total, and sorts the table in place by descending missing count. */
  method MissingProfile(rows: seq<Row>, headers: seq<string>) returns (profile: seq<MissingInfo>, totalMissing: nat)
    requires rows != []
    ensures totalMissing == TotalMissing(rows, headers)
    ensures profile == SortBy(Records(rows, headers), ByMissing)
  {
    var records;
    records, totalMissing := ScanColumns(rows, headers);
    var a := new MissingInfo[|records|](k requires 0 <= k < |records| => records[k]);
    assert a[..] == records;
    SortInPlace(a, ByMissing);
    profile := a[..];
  }

  /** The per-column loop: one record per header, in header order, and the
      running total. */
  method ScanColumns(rows: seq<Row>, headers: seq<string>) returns (records: seq<MissingInfo>, totalMissing: nat)
    requires rows != []
    ensures records == Records(rows, headers)
    ensures totalMissing == TotalMissing(rows, headers)
  {
    records := [];
    totalMissing := 0;
    var i := 0;
    while i < |headers|
      invariant 0 <= i <= |headers|
      invariant records == Records(rows, headers[..i])
      invariant totalMissing == TotalMissing(rows, headers[..i])
    {
      var header := headers[i];
      var missing := CountMissing(rows, header);
      records := records + [Record(rows, header)];
      totalMissing := totalMissing + missing;
      assert headers[..i + 1][..i] == headers[..i];
      i := i + 1;
    }
    assert headers[..i] == headers;
  }

  /** The sorted table lists the same rows as the unsorted one. */
  lemma ProfilePermutes(rows: seq<Row>, headers: seq<string>)
    requires rows != []
    ensures multiset(SortBy(Records(rows, headers), ByMissing)) == multiset(Records(rows, headers))
  {
    SortByPermutes(Records(rows, headers), ByMissing);
  }

  /** The sorted table runs by non-increasing missing count. */
  lemma ProfileDescending(rows: seq<Row>, headers: seq<string>, profile: seq<MissingInfo>)
    requires rows != [] && profile == SortBy(Records(rows, headers), ByMissing)
    ensures forall i, j :: 0 <= i < j < |profile| ==> profile[i].missing >= profile[j].missing
  {
    SortBySorted(Records(rows, headers), ByMissing);
    DescendingByMissing(profile);
  }

  /** Columns with the same missing count `m` keep their header order. */
  lemma ProfileStable(rows: seq<Row>, headers: seq<string>, m: nat)
    requires rows != []
    ensures WithRank(SortBy(Records(rows, headers), ByMissing), ByMissing, -(m as real))
         == WithRank(Records(rows, headers), ByMissing, -(m as real))
  {
    SortByStable(Records(rows, headers), ByMissing, -(m as real));
  }

  lemma DescendingByMissing(s: seq<MissingInfo>)
    requires SortedBy(s, ByMissing)
    ensures forall i, j :: 0 <= i < j < |s| ==> s[i].missing >= s[j].missing
  {
    forall i, j | 0 <= i < j < |s| ensures s[i].missing >= s[j].missing {
      assert ByMissing(s[i]) <= ByMissing(s[j]);
    }
  }

  /** The total never exceeds the number of cells. */
  lemma {:induction false} TotalMissingBound(rows: seq<Row>, headers: seq<string>)
    ensures TotalMissing(rows, headers) <= |rows| * |headers|
  {
    if headers != [] {
      var init := headers[..|headers| - 1];
      TotalMissingBound(rows, init);
      assert |rows| * |headers| == |rows| * |init| + |rows|;
    }
  }

  /** Percentage of complete cells; not a number when there are no cells. */
  function Completeness(totalCells: nat, totalMissing: nat): Option<real> {
    if totalCells == 0 then None
    else Some(((totalCells as int - totalMissing) as real / totalCells as real) * 100.0)
  }

  /** Completeness lies in 0 .. 100, is 100 exactly when nothing is missing
      and 0 exactly when everything is. */
  lemma CompletenessRange(totalCells: nat, totalMissing: nat)
    requires 0 < totalCells && totalMissing <= totalCells
    ensures var c := Completeness(totalCells, totalMissing).value;
            && 0.0 <= c <= 100.0
            && (c == 100.0 <==> totalMissing == 0)
            && (c == 0.0 <==> totalMissing == totalCells)
  {
    var present: nat := totalCells - totalMissing;
    assert Completeness(totalCells, totalMissing).value == Percentage(present, totalCells);
    PercentageBounds(present, present, totalCells);
    PercentageExact(present, totalCells);
  }

  lemma PercentageExact(part: nat, whole: nat)
    requires 0 < whole
    ensures Percentage(part, whole) == 100.0 <==> part == whole
    ensures Percentage(part, whole) == 0.0 <==> part == 0
  {
    var w := whole as real;
    var q := part as real / w;
    assert q * w == part as real;
  }

  /** The severity badge of a missing or empty percentage. */
  datatype Badge = Success | Primary | Warning | Danger

  function BadgeOf(p: real): (b: Badge)
    ensures b == Danger <==> p > 50.0
    ensures b == Warning <==> 20.0 < p <= 50.0
    ensures b == Primary <==> 5.0 < p <= 20.0
    ensures b == Success <==> p <= 5.0
  {
    if p > 50.0 then Danger
    else if p > 20.0 then Warning
    else if p > 5.0 then Primary
    else Success
  }

  function Severity(b: Badge): nat {
    match b
    case Success => 0
    case Primary => 1
    case Warning => 2
    case Danger => 3
  }

  /** More missing values never earn a milder badge. */
  lemma BadgeMonotone(p: real, q: real)
    requires p <= q
    ensures Severity(BadgeOf(p)) <= Severity(BadgeOf(q))
  {
  }

  /** The file overview's empty percentage of a column: its empty values over
      its values. */
  function EmptyPercentage(t: TypeTally): real
    requires t.nonEmpty <= t.total && t.total > 0
  {
    Percentage(t.total - t.nonEmpty, t.total)
  }

  /** The overview's empty percentage of a column equals the missing
      percentage of the quality table, so both show the same badge. */
  lemma OverviewAgreesWithProfile(rows: seq<Row>, header: string)
    requires rows != []
    ensures var t := TallyOf(Column(rows, header));
            t.nonEmpty <= t.total && t.total > 0 &&
            EmptyPercentage(t) == Record(rows, header).percentage &&
            BadgeOf(EmptyPercentage(t)) == BadgeOf(Record(rows, header).percentage)
  {
    CountEmptyIsEmptyKind(Column(rows, header));
  }

  /** The values of one row under the given headers. */
  function RowCells(row: Row, headers: seq<string>): (cs: seq<Cell>)
    ensures |cs| == |headers|
    ensures forall j :: 0 <= j < |headers| ==> cs[j] == Get(row, headers[j])
  {
    seq(|headers|, j requires 0 <= j < |headers| => Get(row, headers[j]))
  }

  /** Every cell of the table, row by row. */
  function AllCells(rows: seq<Row>, headers: seq<string>): seq<Cell> {
    if rows == [] then []
    else AllCells(rows[..|rows| - 1], headers) + RowCells(rows[|rows| - 1], headers)
  }

  lemma {:induction false} AllCellsLength(rows: seq<Row>, headers: seq<string>)
    ensures |AllCells(rows, headers)| == |rows| * |headers|
  {
    if rows != [] {
      AllCellsLength(rows[..|rows| - 1], headers);
      assert |rows| * |headers| == (|rows| - 1) * |headers| + |headers|;
    }
  }

  /** The overall statistics: all cells, the non-empty ones, and among those
      the numbers and the strings. */
  datatype Density = Density(total: nat, nonEmpty: nat, numeric: nat, text: nat)

  /** The counters are the overview tally of all cells. */
  ghost predicate DensityOf(d: Density, rows: seq<Row>, headers: seq<string>) {
    var t := TallyOf(AllCells(rows, headers));
    d.total == |rows| * |headers| && d.nonEmpty == t.nonEmpty && d.numeric == t.number && d.text == t.text
  }

  /** The three counters agree with the overview tally of `cells`. */
  ghost predicate Counted(d: Density, cells: seq<Cell>) {
    var t := TallyOf(cells);
    d.nonEmpty == t.nonEmpty && d.numeric == t.number && d.text == t.text
  }

  lemma {:induction false} CountConcat<T>(a: seq<T>, b: seq<T>, x: T)
    ensures Count(a + b, x) == Count(a, x) + Count(b, x)
  {
    if b == [] {
      assert a + b == a;
    } else {
      var init, last := b[..|b| - 1], b[|b| - 1];
      assert a + b == (a + init) + [last];
      assert b == init + [last];
      CountConcat(a, init, x);
      CountAppend(a + init, last, x);
      CountAppend(init, last, x);
    }
  }

  /** The tally of two stretches of cells is the sum of their tallies. */
  lemma TallyConcat(a: seq<Cell>, b: seq<Cell>)
    ensures var t, ta, tb := TallyOf(a + b), TallyOf(a), TallyOf(b);
            && t.nonEmpty == ta.nonEmpty + tb.nonEmpty
            && t.number == ta.number + tb.number
            && t.text == ta.text + tb.text
  {
    KindsOfConcat(a, b);
    CountConcat(KindsOf(a), KindsOf(b), EmptyKind);
    CountConcat(KindsOf(a), KindsOf(b), NumberKind);
    CountConcat(KindsOf(a), KindsOf(b), StringKind);
  }

  /** Scans every row and every header and counts the cells. */
  method DatasetCounters(rows: seq<Row>, headers: seq<string>) returns (d: Density)
    ensures DensityOf(d, rows, headers)
  {
    d := Density(|rows| * |headers|, 0, 0, 0);
    assert AllCells(rows[..0], headers) == [];
    var i := 0;
    while i < |rows|
      invariant 0 <= i <= |rows|
      invariant d.total == |rows| * |headers|
      invariant Counted(d, AllCells(rows[..i], headers))
    {
      var d' := CountRow(d, rows[i], headers);
      TallyConcat(AllCells(rows[..i], headers), RowCells(rows[i], headers));
      AllCellsStep(rows, headers, i);
      d := d';
      i := i + 1;
    }
    assert rows[..i] == rows;
  }

  lemma AllCellsStep(rows: seq<Row>, headers: seq<string>, i: nat)
    requires i < |rows|
    ensures AllCells(rows[..i + 1], headers) == AllCells(rows[..i], headers) + RowCells(rows[i], headers)
  {
    assert rows[..i + 1][..i] == rows[..i];
  }

  /** The inner scan over one row's headers adds the row's tally. */
  method CountRow(d0: Density, row: Row, headers: seq<string>) returns (d: Density)
    ensures d.total == d0.total
    ensures var t := TallyOf(RowCells(row, headers));
            && d.nonEmpty == d0.nonEmpty + t.nonEmpty
            && d.numeric == d0.numeric + t.number
            && d.text == d0.text + t.text
  {
    d := d0;
    ghost var seen: seq<Cell> := [];
    var j := 0;
    while j < |headers|
      invariant 0 <= j <= |headers|
      invariant seen == RowCells(row, headers[..j])
      invariant d.total == d0.total
      invariant var t := TallyOf(seen);
                d.nonEmpty == d0.nonEmpty + t.nonEmpty && d.numeric == d0.numeric + t.number
                && d.text == d0.text + t.text
    {
      var value := Get(row, headers[j]);
      TallyStep(seen, value);
      if value != Null && value != Str("") {
        d := d.(nonEmpty := d.nonEmpty + 1);
        if value.Num? {
          d := d.(numeric := d.numeric + 1);
        } else if value.Str? {
          d := d.(text := d.text + 1);
        }
      }
      seen := seen + [value];
      RowCellsStep(row, headers, j);
      j := j + 1;
    }
    assert headers[..j] == headers;
  }

  lemma RowCellsStep(row: Row, headers: seq<string>, j: nat)
    requires j < |headers|
    ensures RowCells(row, headers[..j + 1]) == RowCells(row, headers[..j]) + [Get(row, headers[j])]
  {
  }

  lemma {:induction false} TotalMissingNoRows(headers: seq<string>)
    ensures TotalMissing([], headers) == 0
  {
    if headers != [] {
      TotalMissingNoRows(headers[..|headers| - 1]);
    }
  }

  /** One more row adds its own empty cells to the total. */
  lemma {:induction false} TotalMissingAddRow(rows: seq<Row>, r: Row, headers: seq<string>)
    ensures TotalMissing(rows + [r], headers) == TotalMissing(rows, headers) + CountEmpty(RowCells(r, headers))
  {
    if headers != [] {
      var init, h := headers[..|headers| - 1], headers[|headers| - 1];
      TotalMissingAddRow(rows, r, init);
      assert RowCells(r, headers) == RowCells(r, init) + [Get(r, h)];
      CountEmptyAppend(RowCells(r, init), [Get(r, h)]);
      assert Column(rows + [r], h) == Column(rows, h) + [Get(r, h)];
      CountEmptyAppend(Column(rows, h), [Get(r, h)]);
    }
  }

  /** Counting the empty cells row by row or column by column gives the same total. */
  lemma {:induction false} EmptyCellsByRowsAndColumns(rows: seq<Row>, headers: seq<string>)
    ensures CountEmpty(AllCells(rows, headers)) == TotalMissing(rows, headers)
  {
    if rows == [] {
      TotalMissingNoRows(headers);
    } else {
      var init, r := rows[..|rows| - 1], rows[|rows| - 1];
      EmptyCellsByRowsAndColumns(init, headers);
      CountEmptyAppend(AllCells(init, headers), RowCells(r, headers));
      assert rows == init + [r];
      TotalMissingAddRow(init, r, headers);
    }
  }

  /** The density's non-empty cells and the quality table's missing cells
      split the table between them; numbers and strings are among the
      non-empty cells. */
  lemma DensityPartition(d: Density, rows: seq<Row>, headers: seq<string>)
    requires DensityOf(d, rows, headers)
    ensures d.nonEmpty + TotalMissing(rows, headers) == d.total
    ensures d.numeric + d.text <= d.nonEmpty
  {
    var cells := AllCells(rows, headers);
    AllCellsLength(rows, headers);
    TallyPartition(cells);
    CountEmptyIsEmptyKind(cells);
    EmptyCellsByRowsAndColumns(rows, headers);
  }

  /** Math.round of a percentage: the floor of the value plus one half; not a
      number when the whole is zero. */
  function RoundedPercentage(part: nat, whole: nat): Option<int> {
    if whole == 0 then None
    else Some((Percentage(part, whole) + 0.5).Floor)
  }

  lemma RoundedPercentageBounds(part: nat, whole: nat)
    requires 0 < whole && part <= whole
    ensures 0 <= RoundedPercentage(part, whole).value <= 100
    ensures RoundedPercentage(part, whole).value == 100 <==> Percentage(part, whole) >= 99.5
  {
    PercentageBounds(part, part, whole);
  }

  /** A column is a candidate key when more than 95 percent of its non-empty
      values are distinct, and it has at least one. */
  predicate IsCandidateKey(values: seq<Cell>) {
    |values| > 0 && Percentage(|Distinct(values)|, |values|) > 95.0
  }

  /** The criterion in whole numbers: twenty times the distinct values exceed
      nineteen times the values. */
  lemma CandidateKeyCriterion(values: seq<Cell>)
    ensures IsCandidateKey(values) <==> |values| > 0 && 20 * |Distinct(values)| > 19 * |values|
  {
    if |values| > 0 {
      var u, n := |Distinct(values)|, |values|;
      PercentageAbove(u, n, 95);
    }
  }

  /** A percentage exceeds a whole-number threshold exactly when the part,
      times one hundred, exceeds the threshold times the whole. */
  lemma PercentageAbove(part: nat, whole: nat, t: nat)
    requires whole > 0
    ensures Percentage(part, whole) > t as real <==> 100 * part > t * whole
  {
    var p, w := part as real, whole as real;
    var x := p * 100.0;
    assert (p / w) * 100.0 == x / w;
    assert x / w * w == x;
    NumericStats.MulStrict(t as real, x / w, w);
    assert (t * whole) as real == t as real * w;
  }

  lemma {:induction false} DistinctOfDistinct<T>(xs: seq<T>)
    requires forall i, j :: 0 <= i < j < |xs| ==> xs[i] != xs[j]
    ensures Distinct(xs) == xs
  {
    if xs != [] {
      var init, last := xs[..|xs| - 1], xs[|xs| - 1];
      DistinctOfDistinct(init);
      assert xs == init + [last];
    }
  }

  /** A column whose non-empty values are all different is a candidate key. */
  lemma AllDistinctIsCandidateKey(values: seq<Cell>)
    requires values != []
    requires forall i, j :: 0 <= i < j < |values| ==> values[i] != values[j]
    ensures IsCandidateKey(values)
  {
    DistinctOfDistinct(values);
    CandidateKeyCriterion(values);
  }

  /** The elements of `xs` that pass `keep`, in their order in `xs`. */
  function Select<T(!new)>(xs: seq<T>, keep: T -> bool): (r: seq<T>)
    ensures |r| <= |xs|
    ensures forall x :: x in r <==> x in xs && keep(x)
  {
    if xs == [] then []
    else
      var init, last := xs[..|xs| - 1], xs[|xs| - 1];
      assert xs == init + [last];
      Select(init, keep) + (if keep(last) then [last] else [])
  }

  /** Selecting from two runs selects from each in turn: the result keeps the
      order of the input. */
  lemma {:induction false} SelectConcat<T(!new)>(a: seq<T>, b: seq<T>, keep: T -> bool)
    ensures Select(a + b, keep) == Select(a, keep) + Select(b, keep)
  {
    if b == [] {
      assert a + b == a;
    } else {
      var init, last := b[..|b| - 1], b[|b| - 1];
      assert (a + b)[..|a + b| - 1] == a + init;
      assert (a + b)[|a + b| - 1] == last;
      SelectConcat(a, init, keep);
    }
  }

  /** The headers whose non-empty values make a candidate key, in header order. */
  function CandidateKeys(rows: seq<Row>, headers: seq<string>): (keys: seq<string>)
    ensures |keys| <= |headers|
    ensures forall h :: h in keys <==> h in headers && IsCandidateKey(NonEmptyValues(Column(rows, h)))
  {
    Select(headers, KeyTest(rows))
  }

  /** The candidate-key test on one header of `rows`. */
  function KeyTest(rows: seq<Row>): string -> bool {
    h => IsCandidateKey(NonEmptyValues(Column(rows, h)))
  }

  /** The candidate keys of two runs of headers are those of the first run
      followed by those of the second: the result keeps header order. */
  lemma CandidateKeysConcat(rows: seq<Row>, first: seq<string>, second: seq<string>)
    ensures CandidateKeys(rows, first + second) == CandidateKeys(rows, first) + CandidateKeys(rows, second)
  {
    SelectConcat(first, second, KeyTest(rows));
  }

  /** The recommendation's columns: more than 20 percent missing, in table order. */
  function HighMissing(profile: seq<MissingInfo>): (high: seq<MissingInfo>)
    ensures |high| <= |profile|
    ensures forall i :: 0 <= i < |high| ==> high[i].percentage > 20.0
  {
    if profile == [] then []
    else
      var init, r := profile[..|profile| - 1], profile[|profile| - 1];
      HighMissing(init) + (if r.percentage > 20.0 then [r] else [])
  }

  /** The recommendation names every column above 20 percent and no other. */
  lemma {:induction false} HighMissingMembers(profile: seq<MissingInfo>)
    ensures forall r :: r in HighMissing(profile) <==> r in profile && r.percentage > 20.0
  {
    if profile != [] {
      var init, r := profile[..|profile| - 1], profile[|profile| - 1];
      HighMissingMembers(init);
      assert profile == init + [r];
    }
  }

  /** Every column above 20 percent comes before every column at or below it. */
  ghost predicate FrontLoaded(profile: seq<MissingInfo>) {
    forall i, j :: 0 <= i < j < |profile| && profile[j].percentage > 20.0 ==> profile[i].percentage > 20.0
  }

  /** Filtering a sequence whose qualifying rows all come first keeps a prefix. */
  lemma {:induction false} HighMissingOfFrontLoaded(profile: seq<MissingInfo>)
    requires FrontLoaded(profile)
    ensures HighMissing(profile) == profile[..|HighMissing(profile)|]
  {
    if profile != [] {
      var init, r := profile[..|profile| - 1], profile[|profile| - 1];
      if r.percentage > 20.0 {
        LastAboveKeepsAll(profile);
      } else {
        assert FrontLoaded(init) by {
          forall i, j | 0 <= i < j < |init| && init[j].percentage > 20.0 ensures init[i].percentage > 20.0 {
            assert init[i] == profile[i] && init[j] == profile[j];
          }
        }
        HighMissingOfFrontLoaded(init);
        var n := |HighMissing(init)|;
        assert HighMissing(profile) == HighMissing(init);
        assert init[..n] == profile[..n];
      }
    }
  }

  lemma LastAboveKeepsAll(profile: seq<MissingInfo>)
    requires FrontLoaded(profile) && profile != []
    requires profile[|profile| - 1].percentage > 20.0
    ensures HighMissing(profile) == profile
  {
    FilterAllKept(profile);
  }

  lemma {:induction false} FilterAllKept(profile: seq<MissingInfo>)
    requires forall i :: 0 <= i < |profile| ==> profile[i].percentage > 20.0
    ensures HighMissing(profile) == profile
  {
    if profile != [] {
      var init := profile[..|profile| - 1];
      FilterAllKept(init);
    }
  }

  lemma ProfilePercentages(rows: seq<Row>, headers: seq<string>)
    requires rows != []
    ensures var profile := SortBy(Records(rows, headers), ByMissing);
            forall i :: 0 <= i < |profile| ==> profile[i].percentage == Percentage(profile[i].missing, |rows|)
  {
    var rs := Records(rows, headers);
    var profile := SortBy(rs, ByMissing);
    SortByPermutes(rs, ByMissing);
    forall i | 0 <= i < |profile| ensures profile[i].percentage == Percentage(profile[i].missing, |rows|) {
      assert profile[i] in multiset(rs);
      var k :| 0 <= k < |rs| && rs[k] == profile[i];
    }
  }

  /** In the sorted table the columns recommended for attention are exactly
      the first ones, and each of them carries the warning or danger badge. */
  lemma HighMissingLeadsProfile(rows: seq<Row>, headers: seq<string>)
    requires rows != []
    ensures var profile := SortBy(Records(rows, headers), ByMissing);
            var high := HighMissing(profile);
            && high == profile[..|high|]
            && forall r :: r in high ==> BadgeOf(r.percentage) in {Warning, Danger}
  {
    var rs := Records(rows, headers);
    var profile := SortBy(rs, ByMissing);
    ProfileDescending(rows, headers, profile);
    ProfilePercentages(rows, headers);
    forall i, j | 0 <= i < j < |profile| && profile[j].percentage > 20.0
      ensures profile[i].percentage > 20.0
    {
      assert profile[i].missing >= profile[j].missing;
      PercentageBounds(profile[j].missing, profile[i].missing, |rows|);
    }
    HighMissingOfFrontLoaded(profile);
  }
}
