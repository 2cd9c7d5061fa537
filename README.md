# CSV analyzer statistics core, in Dafny

This project models the statistics and table engine of a browser CSV analyzer
(`script.js`), stripped of its DOM, chart and file-reading glue. A dataset is
a sequence of rows. Each row maps a header to a cell: null/undefined, a
number, a boolean, a date or a string.

The model covers:

- **Cell classification and the two type votes.**
  - The per-column analysis counts cell classes in an insertion-ordered
    dictionary. It keeps the first class of strictly greatest count.
  - The file overview tallies numbers, strings and booleans and compares them
    in a fixed order.
- **Numeric statistics** of a column: count, min, max, sum, mean, median of
  the ascending copy, and population variance.
- **Text statistics**: average length, the exact-match frequency table
  stably sorted by descending count, the most common value, and the
  truncated top-N displays.
- **Equal-width histogram binning** for the distribution chart (at most 20
  bins) and the mini histogram (at most 15 bins). Non-numeric columns get
  the categorical top-20 bar chart instead.
- **Data quality.**
  - Per-column missing counts and percentages, sorted by descending missing
    count, with the total and the completeness.
  - The severity badges and the dataset density counters.
  - Candidate key columns and the high-missing recommendation.
- **The data explorer.**
  - The case-insensitive search filter over displayed cell text.
  - Page clamping and slicing.
  - The page state that the prev/next/rows-per-page/search handlers and a
    file load update.

Modules, one per concern:

| module | file | concern |
|---|---|---|
| `Cells` | `cells.dfy` | cells, rows, columns, classification, display text, lower-casing, substring test, truncation |
| `Counting` | `counting.dfy` | occurrence counts, the insertion-ordered count dictionary, distinct values in first-seen order |
| `Sorting` | `sorting.dfy` | the stable sort by a numeric comparator (permutation, order, stability), and its in-place array form |
| `ColumnTypes` | `column_types.dfy` | the analysis vote and the overview tally and vote |
| `NumericStats` | `numeric_stats.dfy` | min, max, sum, mean, median, variance |
| `TextStats` | `text_stats.dfy` | string values, average length, frequency tables, top-N displays |
| `Histogram` | `histogram.dfy` | bin count, bin placement, the two histograms and the distribution chart |
| `Quality` | `quality.dfy` | missing values, completeness, badges, density, candidate keys, recommendations |
| `Explorer` | `explorer.dfy` | search filter, pagination, the page state class |
| `Analysis` | `analysis.dfy` | the column-analysis panel and the statistics tab, assembled from the above |

Numbers are modelled as mathematical reals and counts as naturals. The
display text of numbers and dates is a parameter, the `Formatter` record of
four functions: the locale text and the `String()` text of numbers, and the
same two of dates. Booleans display as exactly 'true' or 'false'
(`Cells.BoolText`).

Two edge cases of the histogram, as the code computes them:

- For a column without values the code computes `min(20, ceil(sqrt(0))) = 0`
  bins (`Histogram.BinCount`).
- When all values are equal it keeps `min(cap, ceil(sqrt(n)))` bins (a cap
  of 20 for the distribution chart, 15 for the mini histogram) and puts every
  value in the last one (`Histogram.ConstantInLastBin`).

## Model

| member | source | states |
|---|---|---|
| Cells.Column | script.js:475 | the column has one value per row, each the row's value under the header, undefined when the row lacks the key |
| Cells.Classify | script.js:478-484 | classification is total and prioritised: 'empty' exactly for null/undefined/'', otherwise number, boolean, date and string exactly for their kinds, and string only for a non-empty string |
| Cells.KindsOf | script.js:478-484 | the class sequence has one class per value, each the class of that value |
| Cells.NonEmptyValues | script.js:502 | the non-empty values are the column's values other than null, undefined and '', each kept as often as the column holds it |
| Cells.NonEmptyValuesAppend | script.js:502 | the filter keeps row order: the values of two stretches of a column are those of the first followed by those of the second |
| Cells.NonEmptyValuesSingle | script.js:502 | a single value is kept exactly when it is not null, undefined or '' |
| Cells.FormatCell | script.js:449-463 | null/undefined display as '', strings as themselves, booleans as 'true'/'false', numbers and dates through the locale formatter |
| Cells.CellText | script.js:1206 | String() gives 'null' for null, the string itself for a string, 'true'/'false' for a boolean, and the host's text of a number or a date |
| Cells.Lower | script.js:59 | lower-casing keeps the length, maps each character, and leaves no upper-case ASCII letter |
| Cells.LowerIdempotent | script.js:59 | lower-casing twice is lower-casing once |
| Cells.Truncate | script.js:584 | a value up to the limit shows unchanged; a longer one shows its first `limit` characters followed by '...' |
| Counting.Count | script.js:486-489 | a count never exceeds the length and is positive exactly when the value occurs |
| Counting.Distinct | script.js:503 | there are no more distinct values than values, and none exactly when there are no values |
| Counting.DistinctFirstSeen | script.js:503 | the distinct values list every value of the input once, in the order of first occurrence (a Set's iteration order) |
| Counting.CountByValue | script.js:486-489 | the dictionary has exactly the values seen as keys, in first-seen order, each mapped to its number of occurrences |
| Counting.CountVectorSum | script.js:1132-1139 | when every index is below k, the counts per index add up to the number of indexes |
| Sorting.SortByPermutes | script.js:525 | sorting returns a permutation of its input |
| Sorting.SortBySorted | script.js:525 | the sorted copy is in ascending order of the comparator's rank |
| Sorting.SortByStable | script.js:863 | elements of equal rank keep their relative input order |
| Sorting.SortByOfSorted | script.js:525 | sorting an already sorted sequence leaves it unchanged |
| Sorting.SortInPlace | script.js:863 | the in-place sort leaves the array holding the stable sort of its old contents |
| ColumnTypes.DominantUnique | script.js:492-499 | the analysis vote has exactly one outcome |
| ColumnTypes.DominantType | script.js:486-499 | the vote never returns 'empty'; its class has the greatest count among non-empty classes, is the earliest seen among those tied, and is 'string' for an all-empty column |
| ColumnTypes.TallyPartition | script.js:318-333 | numbers, strings, booleans and others add up to the non-empty count, which is at most the total |
| ColumnTypes.TallyStep | script.js:318-333 | one more value moves exactly the counters of its class by one |
| ColumnTypes.ColumnTally | script.js:306-333 | the overview's per-column loop computes the tally of the column |
| ColumnTypes.OverviewVote | script.js:336-347 | boolean wins only with strictly more than strings and numbers; numeric needs strictly more than strings and at least as many as booleans; text wins otherwise |
| ColumnTypes.VotesAgree | script.js:336-347 | without dates and without a tie for first place, the overview vote and the analysis vote name the same type |
| ColumnTypes.VotesDifferOnTie | script.js:336-347 | on a one-to-one tie between a number and a later string, the analysis says number and the overview says text |
| NumericStats.NumericValues | script.js:517 | the numeric values are the column's numbers, each as often as the column holds it |
| NumericStats.NumericValuesAppend | script.js:517 | the filter keeps row order: the numbers of two stretches of a column are those of the first followed by those of the second |
| NumericStats.NumericValuesSingle | script.js:517 | a single cell contributes its number, and nothing when it is not a number |
| NumericStats.Min | script.js:519 | the minimum is one of the values and no value is below it |
| NumericStats.Max | script.js:520 | the maximum is one of the values and no value is above it |
| NumericStats.SumBounds | script.js:521 | n values between lo and hi sum to between n·lo and n·hi |
| NumericStats.MeanBounds | script.js:519-522 | min ≤ mean ≤ max |
| NumericStats.MeanOfConstant | script.js:522 | the mean of equal values is that value |
| NumericStats.MedianBounds | script.js:525-527 | min ≤ median ≤ max |
| NumericStats.MedianOfPermutation | script.js:525 | the median depends only on the values, not on their order in the column (the input is copied, not reordered) |
| NumericStats.MedianOfSorted | script.js:526-527 | on an ascending sequence the median is the middle element for an odd count and the mean of the two middle elements for an even count |
| NumericStats.MedianEvenExample | script.js:527 | the median of 1, 2, 3, 4 is 2.5 |
| NumericStats.MedianOddExample | script.js:525-527 | the median of 3, 1, 2 is 2 |
| NumericStats.SquaredDeviations | script.js:530 | a sum of squared deviations is never negative |
| NumericStats.Variance | script.js:530 | the population variance is never negative |
| NumericStats.VarianceOfConstant | script.js:530 | equal values have variance 0 |
| NumericStats.VarianceExample | script.js:522-530 | 1 and 3 have mean 2 and population variance 1 |
| NumericStats.Summarize | script.js:517-531 | no statistics exactly when the column has no numbers; otherwise count, min, max, sum, mean, median and variance are those of the column's numbers, min and max are values of the column, and min ≤ mean ≤ max, min ≤ median ≤ max, variance ≥ 0 |
| TextStats.StringValues | script.js:554 | the string values are the column's strings, the empty string included, each as often as the column holds it |
| TextStats.StringValuesAppend | script.js:554 | the filter keeps row order: the strings of two stretches of a column are those of the first followed by those of the second |
| TextStats.StringValuesSingle | script.js:554 | a single cell contributes its string, and nothing when it is not a string |
| TextStats.Lengths | script.js:556 | one length per string, each that string's length |
| TextStats.AverageLengthBounds | script.js:556-557 | the average length lies between the shortest and the longest string's length |
| TextStats.OwnKeys | script.js:560-563 | the `{}` dictionary stores every value except '__proto__' (a write to that key is ignored), each counted as often as it occurs |
| TextStats.Frequencies | script.js:560-565 | for the keys the dictionary stores, its entries follow first-seen key order, each with the key's number of occurrences |
| TextStats.FrequencyTable | script.js:560-565 | counting in a `{}`, listing the entries and sorting them in place gives the ranked table of the stored keys |
| TextStats.RankedEntries | script.js:560-565 | for the keys the dictionary stores, the ranked table lists each key once with its number of occurrences, and nothing else |
| TextStats.ValueTableEntries | script.js:560-565 | the table of a column's strings lists each string other than '__proto__' once, with its number of occurrences, and nothing else |
| TextStats.ValueTableMode | script.js:807-814 | the table's first row is a most frequent string other than '__proto__'; the table is empty only when every string is '__proto__' |
| TextStats.ProtoOnlyTable | script.js:560-565 | the column ['__proto__'] gets an empty table |
| TextStats.RankedDescending | script.js:565 | the ranked table's counts never increase |
| TextStats.RankedTiesInFirstSeenOrder | script.js:560-565 | values of equal count keep the order in which the column first shows them |
| TextStats.MostCommonIsMode | script.js:812-814 | for the keys the dictionary stores, the table is empty only for no keys, and its first entry is a key with its number of occurrences that no other key exceeds |
| TextStats.TopEntries | script.js:580-584 | the display shows the first min(n, size) entries in order, with their counts, values truncated to the limit |
| TextStats.SummarizeText | script.js:801-822 | no row for a column without strings; otherwise the count, the number of distinct values (a Set, where '__proto__' counts), the average length, and a most frequent string other than '__proto__' (truncated to 20) with its count, no other string occurring more often; 'N/A' with count 0 when every string is '__proto__' |
| TextStats.ProtoOnlySummary | script.js:812-814 | the column ['__proto__'] shows 'N/A (0)' |
| TextStats.CategoryTexts | script.js:1109-1110 | one text per non-empty value, each that value's String() text |
| TextStats.CategoricalChart | script.js:1204-1216 | labels and counts are the top 20 of the `{}`-dictionary table of the String() texts of the non-empty values, labels truncated to 15 |
| Histogram.CeilSqrt | script.js:1120 | the result is the least c with c·c ≥ n (Math.ceil of Math.sqrt on whole numbers) |
| Histogram.CeilSqrtLeast | script.js:1120 | no c smaller than the result has c·c ≥ n |
| Histogram.BinCount | script.js:1120 | the bin count is at most the cap and ceil(sqrt(n)); it is the cap or enough bins that k·k ≥ n; at least 1 for n ≥ 1 and a cap ≥ 1; 0 for no values |
| Histogram.BinOf | script.js:1133-1137 | every value between min and max lands in a bin in [0, k), and the maximum in the last bin |
| Histogram.BinOfInterval | script.js:1136 | a value below the maximum lands in the bin whose half-open range [min + b·w, min + (b+1)·w) contains it |
| Histogram.BinOfMonotone | script.js:1136 | a larger value never lands in an earlier bin |
| Histogram.BinIndexes | script.js:1132-1139 | one bin index per value, each that value's bin and below k |
| Histogram.Histogram | script.js:1117-1139 | no bins for no values; otherwise the bin counts between the values' minimum and maximum, with `min(cap, ceil(sqrt(n)))` bins |
| Histogram.FillBins | script.js:1123-1139 | the in-place counting loop over a zeroed array of `k` bins leaves in each bin the number of values whose bin it is |
| Histogram.BinsTotal | script.js:1120-1139 | there are BinCount bins, between 1 and the cap for a non-empty column and none for an empty one, and their counts add up to the number of values |
| Histogram.MaximumInLastBin | script.js:1133-1134 | the last bin is never empty: it holds the maximum |
| Histogram.ConstantInLastBin | script.js:1117-1139 | when all values are equal, the last bin holds all of them and every other bin is empty |
| Histogram.DistributionChart | script.js:1102-1139 | no chart without rows; otherwise a column whose non-empty values are all numbers gets the 20-cap histogram of its numbers and any other column the categorical top-20 chart |
| Histogram.MiniHistogram | script.js:601-632 | a mini histogram is drawn exactly when the analysis vote says number; it is the 15-cap histogram of the column's numbers |
| Quality.CountEmpty | script.js:846-851 | a column misses at most all of its values |
| Quality.CountEmptyAppend | script.js:846-851 | the missing count of two stretches of values is the sum of their missing counts |
| Quality.CountEmptyIsEmptyKind | script.js:848 | a value counts as missing exactly when the analysis classifies it as 'empty' |
| Quality.PercentageBounds | script.js:856 | a share of a whole is between 0 and 100 percent, and a larger share never gives a smaller percentage |
| Quality.Records | script.js:853-857 | the unsorted table has one record per header, in header order, with the column's missing count and percentage |
| Quality.RecordBounds | script.js:853-857 | each record's missing count is at most the rows and its percentage is in [0, 100] |
| Quality.CountMissing | script.js:844-851 | the scan of the rows counts the column's missing values |
| Quality.ScanColumns | script.js:843-860 | the per-column loop builds the records in header order and sums the missing counts |
| Quality.MissingProfile | script.js:836-863 | the result is the records stably sorted by descending missing count, with the sum of the per-column missing counts |
| Quality.ProfilePermutes | script.js:863 | the sorted table is a permutation of the per-column records |
| Quality.ProfileDescending | script.js:863 | the sorted table runs by non-increasing missing count |
| Quality.ProfileStable | script.js:863 | columns with equal missing counts keep their header order |
| Quality.TotalMissingBound | script.js:837-859 | the total missing never exceeds the number of cells |
| Quality.CompletenessRange | script.js:866 | completeness lies in [0, 100]; it is 100 exactly when nothing is missing and 0 exactly when everything is |
| Quality.PercentageExact | script.js:856 | a percentage is 100 exactly for the whole and 0 exactly for nothing |
| Quality.BadgeOf | script.js:886-889 | danger above 50, warning above 20 up to 50, primary above 5 up to 20, success up to 5 |
| Quality.BadgeMonotone | script.js:886-889 | a higher percentage never gets a milder badge |
| Quality.OverviewAgreesWithProfile | script.js:349-353 | the overview's empty percentage and badge equal the missing-values table's for the same column |
| Quality.DatasetCounters | script.js:259-277 | the density counters are the overview tally of all cells: all cells, the non-empty ones, the numbers and the strings |
| Quality.CountRow | script.js:265-276 | the inner loop adds one row's tally to the counters |
| Quality.EmptyCellsByRowsAndColumns | script.js:259-277 | the empty cells counted row by row equal the per-column missing total |
| Quality.DensityPartition | script.js:268-297 | the non-empty cells and the missing total add up to all cells, and numbers plus strings never exceed the non-empty cells |
| Quality.RoundedPercentageBounds | script.js:290 | the rounded density lies in 0..100 and is 100 exactly from 99.5 percent on |
| Quality.CandidateKeyCriterion | script.js:1492-1497 | a column is a candidate key exactly when it has values and twenty times its distinct values exceed nineteen times its values |
| Quality.AllDistinctIsCandidateKey | script.js:1492-1497 | a non-empty column of pairwise different values is a candidate key |
| Quality.CandidateKeys | script.js:1491-1503 | the candidate keys are exactly the headers whose non-empty values are more than 95% distinct, and there are no more of them than headers |
| Quality.CandidateKeysConcat | script.js:1491-1503 | the candidate keys of two runs of headers are those of the first run followed by those of the second, so they come in header order |
| Quality.HighMissing | script.js:1479 | the recommendation keeps only records above 20 percent |
| Quality.HighMissingMembers | script.js:1479 | a record is recommended exactly when it is in the table and above 20 percent |
| Quality.HighMissingLeadsProfile | script.js:1459-1479 | in the sorted table the recommended columns are exactly the leading ones, and each has the warning or danger badge |
| Explorer.FilterRows | script.js:432-446 | the filter returns at most the rows, and all of them unchanged for an empty term |
| Explorer.FilterMembers | script.js:438-445 | for a non-empty term, a row is kept exactly when some header's non-null value, formatted and lower-cased, contains the term |
| Explorer.MatchingConcat | script.js:438-445 | filtering is order-preserving: filtering a concatenation concatenates the filtered parts |
| Explorer.FilterIdempotent | script.js:432-446 | filtering twice gives the same rows as filtering once |
| Explorer.SearchTermLowered | script.js:58-59 | the stored term is already lower case, and empty exactly when the input is |
| Explorer.TotalPages | script.js:390 | the page count is the least number of pages holding every row, and 0 exactly for no rows |
| Explorer.ClampPage | script.js:391 | the clamped page is never past the last page (page 1 when there are none) and otherwise unchanged |
| Explorer.Window | script.js:397-399 | a page holds at most rowsPerPage rows, all of them in bounds and consecutive from the start row, fewer only at the end |
| Explorer.PagesPrefix | script.js:397-399 | the first k pages together are the first k·rowsPerPage rows |
| Explorer.PagesReconstruct | script.js:389-399 | reading pages 1..totalPages in order gives back exactly the rows |
| Explorer.ClampedPageInRange | script.js:390-391 | after clamping, the page lies in 1..max(totalPages, 1), starts within the rows, and is non-empty when there are rows |
| Explorer.PageState.constructor | script.js:2-6 | the explorer starts with no rows, page 1, 25 rows per page and no search |
| Explorer.PageState.Render | script.js:385-399 | a redraw clamps the page to the filtered rows and returns that page's slice, changing nothing else |
| Explorer.PageState.Load | script.js:131-154 | a parsed file replaces the rows; without rows nothing else changes; otherwise the headers are set and the table redrawn |
| Explorer.PageState.PrevPage | script.js:37-42 | the page goes back by one only from a page after the first, and the redraw clamps it |
| Explorer.PageState.NextPage | script.js:44-50 | the page goes forward by one only from a page before the last of the filtered rows |
| Explorer.PageState.SetRowsPerPage | script.js:52-56 | a new page size resets to page 1 |
| Explorer.PageState.Search | script.js:58-62 | the lower-cased input becomes the term and the page resets to 1 |
| Analysis.AnalyzeColumn | script.js:466-565 | no analysis without a column name or rows; otherwise the vote, totals, unique count, numeric statistics for a number column, and the top-5 rows (cut at 30) of the `{}`-dictionary table for a string column with strings |
| Analysis.ColumnEntryOf | script.js:684-724 | one header's vote, its numeric statistics when it is a number column, and its text row when it is a string column with strings |
| Analysis.EntryRows | script.js:714-724 | no column has both a numeric and a text row, and every number column has a numeric row |
| Analysis.AnalyzeStatistics | script.js:667-826 | nothing without rows; otherwise one entry per header, in header order, each that column's entry |

## Left out

- Browser glue: DOM construction, HTML strings, event wiring, tab switching, `FileReader`, Papa Parse, downloads, the clipboard, Chart.js construction, `setTimeout` and the bin labels. The model returns the values these would display.
- Locale formatting: the `toLocaleString` and `String()` text of numbers and dates is a parameter (`Cells.Formatter`), and the model states facts about the values before formatting. The text of a boolean is fixed as 'true' or 'false' (`Cells.BoolText`). Display rounding with `toFixed` is not modelled.
- Floating point. Numbers are exact reals, so NaN, infinities and rounding are not modelled. This affects bin placement near bin edges and `Math.sqrt`, which is modelled as the exact integer ceiling square root.
- NumericStats.Summarize: `Math.min(...numericValues)` and `Math.max(...numericValues)` (script.js:519-520) pass every value as an argument. The host's limit on arguments of a spread call, which throws a RangeError for a very large column, is not modelled; the model returns the statistics for any length.
- NumericStats.Summarize: the standard deviation is the square root of the variance and is not modelled; the contract is stated for the variance.
- NumericStats.VarianceOfConstant: only one direction is proved (equal values have variance 0), not that a variance of 0 forces equal values.
- Cells.Lower: lower-cases ASCII letters only; JavaScript's full Unicode case mapping is not modelled.
- Counting.Distinct: compares dates by value. A JavaScript `Set` compares `Date` objects by identity, so two equal dates count twice there.
- Quality.CandidateKeys: counts distinct dates by value. With `dynamicTyping: true` (script.js:10) the parser turns full ISO datetimes into `Date` objects, and the `Set` at script.js:1494-1497 counts each one as unique. The source therefore flags every non-empty column of such datetimes as a potential ID column, even with repeated timestamps; the model flags it only when its dates are more than 95% distinct by value.
- Analysis.AnalyzeColumn: its unique count counts dates by value. The `Set` at script.js:503 counts each `Date` object of a column of full ISO datetimes as unique, so the source's unique count for such a column is its non-empty count.
- Explorer.FilterMembers: lower-cases the term and the cell text with `Cells.Lower`, which maps ASCII letters only. The source's `toLowerCase` (script.js:443) maps all of Unicode: the term "é" matches a cell "É" in the source but not in the model.
- Explorer.PageState.Search: stores the term lower-cased by `Cells.Lower`, ASCII letters only. The source's `toLowerCase` (script.js:59) maps all of Unicode, so a term such as "É" is stored as "é" there and unchanged here.
- TextStats.OwnKeys: only '__proto__' is treated as an inherited key. For the other names of `Object.prototype` ('constructor', 'toString', 'valueOf', 'hasOwnProperty' and the rest), the source starts the count from the inherited function and stores a text, not a number. The descending comparator then yields NaN and the order becomes implementation-defined. The model counts these names like any other value.
- TextStats.ValueTableEntries: the counts it states are wrong for the `Object.prototype` names other than '__proto__', as described for TextStats.OwnKeys.
- TextStats.ValueTableMode: for the `Object.prototype` names other than '__proto__' the source's counts are texts and its first row is implementation-defined, as described for TextStats.OwnKeys.
- TextStats.SummarizeText: the most common value and count differ from the source's when the column holds an `Object.prototype` name other than '__proto__', as described for TextStats.OwnKeys.
- TextStats.CategoricalChart: the same limitation for `Object.prototype` names applies to the chart's labels and counts, as described for TextStats.OwnKeys.
- Analysis.AnalyzeColumn: its top-5 rows share the limitation of TextStats.OwnKeys for `Object.prototype` names other than '__proto__'.
- TextStats.Lengths: a length counts Unicode scalar values, while JavaScript's `.length` counts UTF-16 code units. A character outside the Basic Multilingual Plane, such as an emoji, has length 2 in the source and 1 in the model, which changes the average length.
- Cells.Truncate: it cuts after `limit` Unicode scalar values. `substring` cuts after `limit` UTF-16 code units and can split a surrogate pair, which a Dafny string cannot represent.
- TextStats.CategoricalChart: keys follow insertion order. `Object.entries` lists integer-like keys first in ascending order, which changes the tie order for such keys. The columns this chart and `TextStats.ValueTable`, `TextStats.SummarizeText` and `Analysis.AnalyzeColumn` rank are string columns. With `dynamicTyping: true` (script.js:10) the parser turns integer-like fields into numbers, so such a column normally holds no integer-like text and the tie order of `TextStats.RankedTiesInFirstSeenOrder` is the source's.
- TextStats.FrequencyTable: its counts are wrong for the `Object.prototype` names other than '__proto__', as described for TextStats.OwnKeys.
- Histogram.DistributionChart: for a non-numeric column the bars count values in an object. The `Object.prototype` names other than '__proto__' get the source's wrong counts, as described for TextStats.OwnKeys. The source's `Object.entries` lists integer-like labels first in ascending order, while the model keeps first-seen order: the texts "10", "2", "N/A" give the source's labels "2", "10", "N/A" and the model's "10", "2", "N/A". Here the texts come from `String()` of any value, including numbers, so this case can occur.
- Histogram.DistributionChart: `Math.min(...columnValues)` and `Math.max(...columnValues)` (script.js:1117-1118) throw a RangeError for a column with more values than the host accepts as arguments; that limit is not modelled.
- Histogram.Histogram: the spread calls `Math.min(...columnValues)` and `Math.max(...columnValues)` (script.js:1117-1118) throw a RangeError past the host's argument limit; the model computes the bins for any length.
- Histogram.MiniHistogram: the spread calls `Math.min(...numericValues)` and `Math.max(...numericValues)` (script.js:610-611) throw a RangeError past the host's argument limit; the model computes the bins for any length.
- Analysis.AnalyzeColumn: the spread calls in its numeric statistics and mini histogram (script.js:519-520, 610-611) throw a RangeError past the host's argument limit; that limit is not modelled.
- Analysis.ColumnEntryOf: the spread calls `Math.min(...values)` and `Math.max(...values)` (script.js:748-749) throw a RangeError past the host's argument limit; that limit is not modelled. Its text row's most common value has the `Object.prototype` limitation described for TextStats.OwnKeys.
- Analysis.AnalyzeStatistics: each entry comes from `Analysis.ColumnEntryOf`, so it shares both limits: the spread calls at script.js:748-749 past the host's argument limit, and the `Object.prototype` names in the text rows' most common value.
- Explorer.PageState.SetRowsPerPage: requires a page size of at least 1. The selector's `parseInt` of its option values is assumed to give a positive number; NaN is not modelled.
- Explorer.PageState.Load: the headers are a parameter, not the first row's keys (`Object.keys(csvData[0])`), and the parse errors and alert are not modelled.
- The text report (script.js:1280-1525). Its byte-exact text depends on locale formatting and a timestamp. Its missing-value profile, high-missing filter and candidate-key detection are modelled above (`Quality`). Its top-3 text values per column (each cut at 30 characters) are not modelled; they are the first rows of `TextStats.ValueTable`.
- The pie-chart aggregation (script.js:1045-1055). It sums arbitrary values that may not be numbers.
- The statistics tab renders one HTML table of numeric rows and one of text rows. The model returns one entry per header with its optional numeric and text rows (`Analysis.AnalyzeStatistics`); splitting the entries into the two tables is presentation.
- Percent figures shown next to counts (non-empty share, per-value share, numeric and text shares of the density card) are display arithmetic on modelled counts and are not modelled separately.
