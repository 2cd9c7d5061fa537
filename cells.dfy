/** Cell values as the CSV parser hands them to the analyzer (already type-coerced),
    rows and columns, and the per-cell helpers every part of the analysis shares:
    emptiness, the five-way classification, display formatting, lower-casing,
    substring search and the "..." truncation of displayed values. */
module Cells {
  import Counting

  /** One cell. `Null` stands for both JavaScript `null` and `undefined`
      (a row that lacks a header's key reads as `undefined`). Numbers are
      idealised as reals; a date carries its time value. */
  datatype Cell = Null | Num(x: real) | Bool(b: bool) | Date(time: int) | Str(s: string)

  datatype Option<T> = None | Some(value: T)

  /** A parsed row: header name to cell. */
  type Row = map<string, Cell>

  /** The five classes of `analyzeColumn`: 'empty', 'number', 'boolean', 'date', 'string'. */
  datatype Kind = EmptyKind | NumberKind | BooleanKind | DateKind | StringKind

  /** The cell of a row under a header; a key the row lacks reads as undefined. */
  function Get(row: Row, header: string): Cell {
    if header in row then row[header] else Null
  }

  /** The values of one column, row by row. */
  function Column(rows: seq<Row>, header: string): (col: seq<Cell>)
    ensures |col| == |rows|
    ensures forall i :: 0 <= i < |rows| ==> col[i] == Get(rows[i], header)
  {
    seq(|rows|, i requires 0 <= i < |rows| => Get(rows[i], header))
  }

  lemma ColumnStep(rows: seq<Row>, header: string, i: nat)
    requires i < |rows|
    ensures Column(rows[..i + 1], header) == Column(rows[..i], header) + [Get(rows[i], header)]
  {
  }

  /** Empty: null, undefined or the empty string. */
  predicate IsEmptyCell(c: Cell) {
    c == Null || c == Str("")
  }

  /** The non-empty values of a column, in row order. */
  function NonEmptyValues(column: seq<Cell>): (vs: seq<Cell>)
    ensures |vs| <= |column|
    ensures forall c :: c in vs <==> c in column && !IsEmptyCell(c)
    ensures forall c :: Counting.Count(vs, c) == if IsEmptyCell(c) then 0 else Counting.Count(column, c)
  {
    if column == [] then []
    else
      var init, last := column[..|column| - 1], column[|column| - 1];
      assert column == init + [last];
      var rest := NonEmptyValues(init);
      Counting.CountSnoc(init, last);
      Counting.CountSnoc(rest, last);
      if IsEmptyCell(last) then rest else rest + [last]
  }

  /** Filtering keeps row order: the non-empty values of two stretches of a
      column are those of the first followed by those of the second. */
  lemma {:induction false} NonEmptyValuesAppend(a: seq<Cell>, b: seq<Cell>)
    ensures NonEmptyValues(a + b) == NonEmptyValues(a) + NonEmptyValues(b)
  {
    if b == [] {
      assert a + b == a;
    } else {
      var init, last := b[..|b| - 1], b[|b| - 1];
      assert b == init + [last];
      assert (a + b)[..|a + b| - 1] == a + init;
      NonEmptyValuesAppend(a, init);
    }
  }

  /** A single value is kept exactly when it is not empty. */
  lemma NonEmptyValuesSingle(c: Cell)
    ensures NonEmptyValues([c]) == if IsEmptyCell(c) then [] else [c]
  {
    assert [c][..0] == [];
  }

  /** The classification: empty first, then number, boolean, date, and string for
      everything else. */
  function Classify(c: Cell): (k: Kind)
    ensures k == EmptyKind <==> c.Null? || c == Str("")
    ensures k == NumberKind <==> c.Num?
    ensures k == BooleanKind <==> c.Bool?
    ensures k == DateKind <==> c.Date?
    ensures k == StringKind <==> c.Str? && c.s != ""
  {
    if IsEmptyCell(c) then EmptyKind
    else if c.Num? then NumberKind
    else if c.Bool? then BooleanKind
    else if c.Date? then DateKind
    else StringKind
  }

  /** The classification of each cell of a column, in row order. */
  function KindsOf(column: seq<Cell>): (kinds: seq<Kind>)
    ensures |kinds| == |column|
    ensures forall i :: 0 <= i < |column| ==> kinds[i] == Classify(column[i])
  {
    seq(|column|, i requires 0 <= i < |column| => Classify(column[i]))
  }

  /** The host's text conversions, which the model takes as given: the locale
      formatting of numbers and dates and their plain string conversions. */
  datatype Formatter = Formatter(
    numberLocale: real -> string,
    dateLocale: int -> string,
    numberText: real -> string,
    dateText: int -> string)

  function BoolText(b: bool): string {
    if b then "true" else "false"
  }

  /** The display text of a cell: what the table shows and what the search matches. */
  function FormatCell(c: Cell, f: Formatter): (r: string)
    ensures c.Null? ==> r == ""
    ensures c.Str? ==> r == c.s
    ensures c.Bool? ==> r == BoolText(c.b)
    ensures c.Num? ==> r == f.numberLocale(c.x)
    ensures c.Date? ==> r == f.dateLocale(c.time)
  {
    match c
    case Null => ""
    case Date(t) => f.dateLocale(t)
    case Num(x) => f.numberLocale(x)
    case Bool(b) => BoolText(b)
    case Str(s) => s
  }

  /** The plain string conversion of a cell, used as the key of the categorical chart. */
  function CellText(c: Cell, f: Formatter): (r: string)
    ensures c.Null? ==> r == "null"
    ensures c.Str? ==> r == c.s
    ensures c.Bool? ==> r == BoolText(c.b)
    ensures c.Num? ==> r == f.numberText(c.x)
    ensures c.Date? ==> r == f.dateText(c.time)
  {
    match c
    case Null => "null"
    case Date(t) => f.dateText(t)
    case Num(x) => f.numberText(x)
    case Bool(b) => BoolText(b)
    case Str(s) => s
  }

  function LowerChar(ch: char): char {
    if 'A' <= ch <= 'Z' then (ch as int + 32) as char else ch
  }

  /** Lower-casing, on the ASCII letters. */
  function Lower(s: string): (r: string)
    ensures |r| == |s|
    ensures forall i :: 0 <= i < |s| ==> r[i] == LowerChar(s[i])
    ensures forall i :: 0 <= i < |r| ==> !('A' <= r[i] <= 'Z')
  {
    seq(|s|, i requires 0 <= i < |s| => LowerChar(s[i]))
  }

  lemma LowerIdempotent(s: string)
    ensures Lower(Lower(s)) == Lower(s)
  {
    var once := Lower(s);
    assert forall i :: 0 <= i < |once| ==> LowerChar(once[i]) == once[i];
  }

  predicate OccursAt(hay: string, needle: string, i: int) {
    0 <= i && i + |needle| <= |hay| && hay[i..i + |needle|] == needle
  }

  /** Substring test. */
  predicate Contains(hay: string, needle: string) {
    exists i | 0 <= i <= |hay| :: OccursAt(hay, needle, i)
  }

  /** Display truncation: a value longer than `limit` shows its first `limit` characters and "...". */
  function Truncate(s: string, limit: nat): (r: string)
    ensures |s| <= limit ==> r == s
    ensures |s| > limit ==> |r| == limit + 3 && r[..limit] == s[..limit] && r[limit..] == "..."
    ensures |r| <= limit + 3
  {
    if |s| > limit then s[..limit] + "..." else s
  }
}
