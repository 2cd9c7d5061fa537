/** Text columns: the string values, their average length, and the frequency
    table of exact values that the analyzer sorts by descending count and shows
    truncated. */
module TextStats {
  import opened Cells
  import opened Counting
  import opened Sorting
  import NumericStats

  /** The values of a column whose JavaScript type is string, the empty string
      included, in row order. */
  function StringValues(column: seq<Cell>): (vs: seq<string>)
    ensures |vs| <= |column|
    ensures forall v :: v in vs <==> Str(v) in column
    ensures forall v :: Count(vs, v) == Count(column, Str(v))
  {
    if column == [] then []
    else
      var init, last := column[..|column| - 1], column[|column| - 1];
      assert column == init + [last];
      var rest := StringValues(init);
      CountSnoc(init, last);
      if last.Str? then
        CountSnoc(rest, last.s);
        rest + [last.s]
      else
        rest
  }

  /** The strings of two stretches of a column are those of the first
      followed by those of the second: row order is kept. */
  lemma {:induction false} StringValuesAppend(a: seq<Cell>, b: seq<Cell>)
    ensures StringValues(a + b) == StringValues(a) + StringValues(b)
  {
    if b == [] {
      assert a + b == a;
    } else {
      var init, last := b[..|b| - 1], b[|b| - 1];
      assert b == init + [last];
      assert (a + b)[..|a + b| - 1] == a + init;
      StringValuesAppend(a, init);
    }
  }

  /** A single cell contributes its string, and nothing when it is not a string. */
  lemma StringValuesSingle(c: Cell)
    ensures StringValues([c]) == if c.Str? then [c.s] else []
  {
    assert [c][..0] == [];
  }

  function Lengths(vs: seq<string>): (ls: seq<real>)
    ensures |ls| == |vs|
    ensures forall i :: 0 <= i < |vs| ==> ls[i] == |vs[i]| as real
  {
    seq(|vs|, i requires 0 <= i < |vs| => |vs[i]| as real)
  }

  /** Sum of the lengths divided by the number of values. */
  function AverageLength(vs: seq<string>): real
    requires vs != []
  {
    NumericStats.Mean(Lengths(vs))
  }

  /** The average length lies between the shortest and the longest value. */
  lemma AverageLengthBounds(vs: seq<string>)
    requires vs != []
    ensures exists i :: 0 <= i < |vs| && |vs[i]| as real <= AverageLength(vs)
    ensures exists j :: 0 <= j < |vs| && AverageLength(vs) <= |vs[j]| as real
  {
    var ls := Lengths(vs);
    NumericStats.MeanBounds(ls);
    var lo, hi := NumericStats.Min(ls), NumericStats.Max(ls);
    var i :| 0 <= i < |ls| && ls[i] == lo;
    var j :| 0 <= j < |ls| && ls[j] == hi;
  }

  /** One row of a frequency table: a value and its number of occurrences. */
  datatype Entry = Entry(value: string, count: nat)

  /** The comparator by descending count, as an ascending rank. */
  function ByCount(e: Entry): real {
    -(e.count as real)
  }

  /** The count dictionary's entries in insertion order. */
  function Frequencies(vs: seq<string>): (es: seq<Entry>)
    ensures |es| == |Distinct(vs)|
    ensures forall i :: 0 <= i < |es| ==> es[i] == Entry(Distinct(vs)[i], Count(vs, Distinct(vs)[i]))
  {
    var d := Distinct(vs);
    seq(|d|, i requires 0 <= i < |d| => Entry(d[i], Count(vs, d[i])))
  }

  /** The entries stably sorted by descending count. */
  function Ranked(vs: seq<string>): seq<Entry> {
    SortBy(Frequencies(vs), ByCount)
  }

  /** The one key a plain object does not store as its own property: the
      count dictionary is a `{}`, and assigning a string to its `__proto__`
      is ignored, so this value never gets an entry. */
  const ProtoKey := "__proto__"

  /** The values whose counts the dictionary keeps, in row order. */
  function OwnKeys(vs: seq<string>): (ks: seq<string>)
    ensures |ks| <= |vs|
    ensures forall v :: Count(ks, v) == if v == ProtoKey then 0 else Count(vs, v)
    ensures forall v :: v in ks <==> v in vs && v != ProtoKey
  {
    if vs == [] then []
    else
      var init, last := vs[..|vs| - 1], vs[|vs| - 1];
      assert vs == init + [last];
      var rest := OwnKeys(init);
      CountSnoc(init, last);
      CountSnoc(rest, last);
      if last == ProtoKey then rest else rest + [last]
  }

  /** The frequency table of the values `vs` as the analyzer builds it. */
  function ValueTable(vs: seq<string>): seq<Entry> {
    Ranked(OwnKeys(vs))
  }

  /** Counts the values in a `{}` dictionary, lists its entries and sorts
      them in place by descending count. */
  method FrequencyTable(vs: seq<string>) returns (table: seq<Entry>)
    ensures table == ValueTable(vs)
  {
    var stored := OwnKeys(vs);
    var keys, counts := CountByValue(stored);
    var a := new Entry[|keys|];
    var i := 0;
    while i < |keys|
      invariant 0 <= i <= |keys|
      invariant forall j :: 0 <= j < i ==> a[j] == Frequencies(stored)[j]
    {
      assert keys[i] in Distinct(stored);
      DistinctMembers(stored, keys[i]);
      a[i] := Entry(keys[i], counts[keys[i]]);
      i := i + 1;
    }
    assert a[..] == Frequencies(stored);
    SortInPlace(a, ByCount);
    table := a[..];
  }

  lemma DistinctMembers(vs: seq<string>, v: string)
    ensures v in Distinct(vs) <==> v in vs
  {
    DistinctFirstSeen(vs);
  }

  /** No value occurs twice in a sequence. */
  ghost predicate NoDuplicates<T>(s: seq<T>) {
    forall i, j :: 0 <= i < j < |s| ==> s[i] != s[j]
  }

  lemma {:induction false} NoDuplicatesMultiplicity<T>(s: seq<T>, x: T)
    requires NoDuplicates(s)
    ensures multiset(s)[x] <= 1
  {
    if s != [] {
      var init, last := s[..|s| - 1], s[|s| - 1];
      assert s == init + [last];
      NoDuplicatesMultiplicity(init, x);
      if x == last {
        assert x !in init;
      }
    }
  }

  lemma RepeatedMultiplicity<T>(s: seq<T>, i: int, j: int)
    requires 0 <= i < j < |s| && s[i] == s[j]
    ensures multiset(s)[s[i]] >= 2
  {
    assert s == s[..j] + s[j..];
    assert s[i] in s[..j];
    assert s[j] in s[j..];
  }

  /** A permutation of a sequence without duplicates has none. */
  lemma NoDuplicatesPermutation<T>(s: seq<T>, t: seq<T>)
    requires NoDuplicates(s) && multiset(s) == multiset(t)
    ensures NoDuplicates(t)
  {
    forall i, j | 0 <= i < j < |t| ensures t[i] != t[j] {
      if t[i] == t[j] {
        RepeatedMultiplicity(t, i, j);
        NoDuplicatesMultiplicity(s, t[i]);
      }
    }
  }

  lemma FrequenciesDistinct(vs: seq<string>)
    ensures NoDuplicates(Frequencies(vs))
    ensures forall i, j :: 0 <= i < j < |Frequencies(vs)| ==> Frequencies(vs)[i].value != Frequencies(vs)[j].value
  {
    DistinctFirstSeen(vs);
  }

  /** The ranked table lists every value of `vs` exactly once with its number
      of occurrences, and nothing else. */
  lemma RankedEntries(vs: seq<string>)
    ensures forall e :: e in Ranked(vs) <==> e.value in vs && e.count == Count(vs, e.value)
    ensures forall i, j :: 0 <= i < j < |Ranked(vs)| ==> Ranked(vs)[i].value != Ranked(vs)[j].value
    ensures |Ranked(vs)| == |Distinct(vs)|
  {
    SortByMembers(Frequencies(vs), ByCount);
    FrequenciesMembers(vs);
    RankedValuesDistinct(vs);
  }

  /** The entries are exactly the values of `vs` with their counts. */
  lemma FrequenciesMembers(vs: seq<string>)
    ensures forall e :: e in Frequencies(vs) <==> e.value in vs && e.count == Count(vs, e.value)
  {
    var fs := Frequencies(vs);
    DistinctFirstSeen(vs);
    forall e: Entry | e.value in vs && e.count == Count(vs, e.value) ensures e in fs {
      var k :| 0 <= k < |Distinct(vs)| && Distinct(vs)[k] == e.value;
      assert fs[k] == e;
    }
  }

  /** Sorting keeps the values apart: two entries of the ranked table with the
      same value would be the same entry listed twice. */
  lemma RankedValuesDistinct(vs: seq<string>)
    ensures forall i, j :: 0 <= i < j < |Ranked(vs)| ==> Ranked(vs)[i].value != Ranked(vs)[j].value
  {
    var fs, rs := Frequencies(vs), Ranked(vs);
    SortByPermutes(fs, ByCount);
    SortByMembers(fs, ByCount);
    FrequenciesMembers(vs);
    FrequenciesDistinct(vs);
    NoDuplicatesPermutation(fs, rs);
    forall i, j | 0 <= i < j < |rs| ensures rs[i].value != rs[j].value {
      assert rs[i] in fs && rs[j] in fs;
    }
  }

  /** The ranked table's counts never increase. */
  lemma RankedDescending(vs: seq<string>)
    ensures forall i, j :: 0 <= i < j < |Ranked(vs)| ==> Ranked(vs)[i].count >= Ranked(vs)[j].count
  {
    SortBySorted(Frequencies(vs), ByCount);
    forall i, j | 0 <= i < j < |Ranked(vs)| ensures Ranked(vs)[i].count >= Ranked(vs)[j].count {
      assert ByCount(Ranked(vs)[i]) <= ByCount(Ranked(vs)[j]);
    }
  }

  /** Values of equal count keep the order in which the column first shows them. */
  lemma RankedTiesInFirstSeenOrder(vs: seq<string>, c: nat)
    ensures WithRank(Ranked(vs), ByCount, -(c as real)) == WithRank(Frequencies(vs), ByCount, -(c as real))
    ensures FirstSeenOrder(vs, Distinct(vs))
  {
    SortByStable(Frequencies(vs), ByCount, -(c as real));
    DistinctFirstSeen(vs);
  }

  /** The first row is a most frequent value. */
  lemma MostCommonIsMode(vs: seq<string>)
    ensures Ranked(vs) != [] <==> vs != []
    ensures Ranked(vs) != [] ==>
      && Ranked(vs)[0].value in vs
      && Ranked(vs)[0].count == Count(vs, Ranked(vs)[0].value)
      && forall v :: v in vs ==> Count(vs, v) <= Ranked(vs)[0].count
  {
    RankedEntries(vs);
    RankedDescending(vs);
    var rs := Ranked(vs);
    if vs != [] {
      assert Entry(vs[0], Count(vs, vs[0])) in rs;
    }
    forall v | v in vs ensures Count(vs, v) <= rs[0].count {
      var e := Entry(v, Count(vs, v));
      assert e in rs;
      var k :| 0 <= k < |rs| && rs[k] == e;
    }
  }

  /** The analyzer's table lists each value of `vs` other than `__proto__`
      once, with its number of occurrences in `vs`, and nothing else. */
  lemma ValueTableEntries(vs: seq<string>)
    ensures forall e :: e in ValueTable(vs) <==> e.value in vs && e.value != ProtoKey && e.count == Count(vs, e.value)
    ensures forall i, j :: 0 <= i < j < |ValueTable(vs)| ==> ValueTable(vs)[i].value != ValueTable(vs)[j].value
  {
    RankedEntries(OwnKeys(vs));
  }

  /** The table's first row is a most frequent value; the table is empty
      only when every value is `__proto__`. */
  lemma ValueTableMode(vs: seq<string>)
    ensures ValueTable(vs) == [] <==> forall v :: v in vs ==> v == ProtoKey
    ensures ValueTable(vs) != [] ==>
      && ValueTable(vs)[0].value in vs && ValueTable(vs)[0].value != ProtoKey
      && ValueTable(vs)[0].count == Count(vs, ValueTable(vs)[0].value)
      && forall v :: v in vs && v != ProtoKey ==> Count(vs, v) <= ValueTable(vs)[0].count
  {
    var ks := OwnKeys(vs);
    MostCommonIsMode(ks);
    if ks != [] {
      assert ks[0] in ks;
    }
  }

  /** A column whose only string is `__proto__` gets an empty table. */
  lemma ProtoOnlyTable()
    ensures ValueTable([ProtoKey]) == []
  {
    assert OwnKeys([ProtoKey]) == [] by {
      assert [ProtoKey][..0] == [];
    }
    var none: seq<string> := [];
    assert Distinct(none) == [];
  }

  /** The first `n` rows with each value cut to `limit` characters. */
  function TopEntries(table: seq<Entry>, n: nat, limit: nat): (top: seq<Entry>)
    ensures |top| == if |table| < n then |table| else n
    ensures forall i :: 0 <= i < |top| ==>
              top[i] == Entry(Truncate(table[i].value, limit), table[i].count)
  {
    var m := if |table| < n then |table| else n;
    seq(m, i requires 0 <= i < m => Entry(Truncate(table[i].value, limit), table[i].count))
  }

  /** How many values the column analysis, the statistics table and the chart
      show, and where they cut each value. */
  const AnalysisTop := 5
  const AnalysisCut := 30
  const TableCut := 20
  const ChartTop := 20
  const ChartCut := 15

  /** A row of the statistics tab's text table. */
  datatype TextSummary = TextSummary(
    count: nat, unique: nat, averageLength: real, mostCommon: string, mostCommonCount: nat)

  /** The text row for non-empty `vs`: the first row of the table is the
      most common value, or 'N/A' with count 0 when the table is empty. */
  function TextSummaryOf(vs: seq<string>): TextSummary
    requires vs != []
  {
    var table := ValueTable(vs);
    var common := if table == [] then "N/A" else table[0].value;
    var n := if table == [] then 0 else table[0].count;
    TextSummary(|vs|, |Distinct(vs)|, AverageLength(vs), Truncate(common, TableCut), n)
  }

  /** The statistics tab's text row for the string values of a column; none
      when there are no string values. */
  method SummarizeText(vs: seq<string>) returns (r: Option<TextSummary>)
    ensures r.None? <==> vs == []
    ensures r.Some? ==> r.value == TextSummaryOf(vs)
    ensures r.Some? ==>
      && r.value.count == |vs|
      && r.value.unique == |Distinct(vs)|
      && r.value.averageLength == AverageLength(vs)
      && (forall v :: v in vs && v != ProtoKey ==> Count(vs, v) <= r.value.mostCommonCount)
      && (r.value.mostCommonCount == 0 <==> forall v :: v in vs ==> v == ProtoKey)
      && (r.value.mostCommonCount == 0 ==> r.value.mostCommon == "N/A")
      && (r.value.mostCommonCount > 0 ==>
            exists v :: v in vs && v != ProtoKey && Count(vs, v) == r.value.mostCommonCount &&
                        r.value.mostCommon == Truncate(v, TableCut))
  {
    if vs == [] {
      return None;
    }
    var table := FrequencyTable(vs);
    ValueTableMode(vs);
    var common, n;
    if table == [] {
      common, n := "N/A", 0;
    } else {
      common, n := table[0].value, table[0].count;
      assert common in vs && common != ProtoKey && Count(vs, common) == n;
    }
    r := Some(TextSummary(|vs|, |Distinct(vs)|, AverageLength(vs), Truncate(common, TableCut), n));
  }

  /** A column whose only string is `__proto__` shows 'N/A (0)'. */
  lemma ProtoOnlySummary()
    ensures TextSummaryOf([ProtoKey]).mostCommon == "N/A"
    ensures TextSummaryOf([ProtoKey]).mostCommonCount == 0
  {
    ProtoOnlyTable();
  }

  /** The distribution chart of a non-numeric column: each non-empty value
      converted to text, counted, ranked, the first twenty shown with labels
      cut to fifteen characters. */
  method CategoricalChart(column: seq<Cell>, f: Formatter) returns (labels: seq<string>, counts: seq<nat>)
    ensures var texts := CategoryTexts(column, f);
            var top := TopEntries(ValueTable(texts), ChartTop, ChartCut);
            && |labels| == |counts| == |top|
            && (forall i :: 0 <= i < |top| ==> labels[i] == top[i].value && counts[i] == top[i].count)
  {
    var texts := CategoryTexts(column, f);
    var table := FrequencyTable(texts);
    var top := TopEntries(table, ChartTop, ChartCut);
    labels := seq(|top|, i requires 0 <= i < |top| => top[i].value);
    counts := seq(|top|, i requires 0 <= i < |top| => top[i].count);
  }

  /** The text of each non-empty value of a column. */
  function CategoryTexts(column: seq<Cell>, f: Formatter): (ts: seq<string>)
    ensures |ts| == |NonEmptyValues(column)|
    ensures forall i :: 0 <= i < |ts| ==> ts[i] == CellText(NonEmptyValues(column)[i], f)
  {
    var vs := NonEmptyValues(column);
    seq(|vs|, i requires 0 <= i < |vs| => CellText(vs[i], f))
  }
}
