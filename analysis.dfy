/** The per-column analysis and the statistics tab: the guards, the type vote
    and the choice between numeric and text statistics that tie the other
    modules together. */
module Analysis {
  import opened Cells
  import opened Counting
  import opened ColumnTypes
  import NumericStats
  import TextStats

  /** The text part of the column analysis: the string values' count and
      average length and the five most frequent values cut to thirty characters. */
  datatype TextAnalysis = TextAnalysis(count: nat, averageLength: real, top: seq<TextStats.Entry>)

  datatype ColumnAnalysis = ColumnAnalysis(
    dominant: Kind, total: nat, nonEmpty: nat, unique: nat,
    numeric: Option<NumericStats.NumericSummary>, text: Option<TextAnalysis>)

  /** The analysis of one column; none for an empty column name or no rows. */
  method AnalyzeColumn(rows: seq<Row>, header: string) returns (r: Option<ColumnAnalysis>)
    ensures r.None? <==> header == "" || rows == []
    ensures r.Some? ==>
      var column, a := Column(rows, header), r.value;
      && IsDominant(KindsOf(column), a.dominant)
      && a.total == |rows|
      && a.nonEmpty == |NonEmptyValues(column)|
      && a.unique == |Distinct(NonEmptyValues(column))|
      && a.numeric == (if a.dominant == NumberKind then NumericStats.Summarize(column) else None)
      && (a.text.Some? <==> a.dominant == StringKind && TextStats.StringValues(column) != [])
      && (a.text.Some? ==>
            var vs := TextStats.StringValues(column);
            a.text.value == TextAnalysis(|vs|, TextStats.AverageLength(vs),
              TextStats.TopEntries(TextStats.ValueTable(vs), TextStats.AnalysisTop, TextStats.AnalysisCut)))
  {
    if header == "" || rows == [] {
      return None;
    }
    var column := Column(rows, header);
    var d := DominantType(column);
    var nonEmpty := NonEmptyValues(column);
    var numeric: Option<NumericStats.NumericSummary> := None;
    var text: Option<TextAnalysis> := None;
    if d == NumberKind {
      numeric := NumericStats.Summarize(column);
    } else if d == StringKind {
      var vs := TextStats.StringValues(column);
      if vs != [] {
        var table := TextStats.FrequencyTable(vs);
        text := Some(TextAnalysis(|vs|, TextStats.AverageLength(vs),
                                  TextStats.TopEntries(table, TextStats.AnalysisTop, TextStats.AnalysisCut)));
      }
    }
    r := Some(ColumnAnalysis(d, |rows|, |nonEmpty|, |Distinct(nonEmpty)|, numeric, text));
  }

  /** What the statistics tab makes of one column: its type by the analysis
      vote, its row of the numeric table or of the text table, if any. */
  datatype ColumnEntry = ColumnEntry(
    header: string, kind: Kind,
    numeric: Option<NumericStats.NumericSummary>, text: Option<TextStats.TextSummary>)

  /** `e` is the statistics tab's entry for the column `header`: a numeric row
      for a number column, computed over its numbers, when it has any; a text
      row for a string column, computed over its string values, when it has any. */
  ghost predicate EntryFor(rows: seq<Row>, header: string, e: ColumnEntry) {
    var column := Column(rows, header);
    var vs := TextStats.StringValues(column);
    && e.header == header
    && IsDominant(KindsOf(column), e.kind)
    && e.numeric == (if e.kind == NumberKind then NumericStats.Summarize(column) else None)
    && (e.text.Some? <==> e.kind == StringKind && vs != [])
    && (e.text.Some? ==> vs != [] && e.text.value == TextStats.TextSummaryOf(vs))
  }

  /** One pass of the statistics tab's loop over the headers. */
  method ColumnEntryOf(rows: seq<Row>, header: string) returns (e: ColumnEntry)
    ensures EntryFor(rows, header, e)
  {
    var column := Column(rows, header);
    var d := DominantType(column);
    var numeric: Option<NumericStats.NumericSummary> := None;
    var text: Option<TextStats.TextSummary> := None;
    if d == NumberKind {
      numeric := NumericStats.Summarize(column);
    } else if d == StringKind {
      text := TextStats.SummarizeText(TextStats.StringValues(column));
    }
    e := ColumnEntry(header, d, numeric, text);
  }

  /** A number column never gets a text row and a string column never gets a
      numeric row; a number column always has a number, so it always gets its
      numeric row. */
  lemma EntryRows(rows: seq<Row>, header: string, e: ColumnEntry)
    requires EntryFor(rows, header, e)
    ensures !(e.numeric.Some? && e.text.Some?)
    ensures e.kind == NumberKind ==> e.numeric.Some?
  {
    var column := Column(rows, header);
    if e.kind == NumberKind {
      assert NumberKind in KindsOf(column);
      var j :| 0 <= j < |column| && KindsOf(column)[j] == NumberKind;
      assert column[j].Num?;
    }
  }

  /** The statistics tab; nothing without rows. The numeric table is the
      entries' numeric rows and the text table their text rows, both in header order. */
  method AnalyzeStatistics(rows: seq<Row>, headers: seq<string>) returns (r: Option<seq<ColumnEntry>>)
    ensures r.None? <==> rows == []
    ensures r.Some? ==> |r.value| == |headers|
    ensures r.Some? ==> forall i :: 0 <= i < |headers| ==> EntryFor(rows, headers[i], r.value[i])
  {
    if rows == [] {
      return None;
    }
    var entries: seq<ColumnEntry> := [];
    for i := 0 to |headers|
      invariant |entries| == i
      invariant forall j :: 0 <= j < i ==> EntryFor(rows, headers[j], entries[j])
    {
      var e := ColumnEntryOf(rows, headers[i]);
      entries := entries + [e];
    }
    r := Some(entries);
  }
}
