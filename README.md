# Regional GRDP / income dashboard: the data pipeline in Dafny

The dashboard loads a CSV of per-capita regional GDP, regional gross income
and personal income by province (`시도별`), metric (`항목`) and year, and
draws three panels from it. The only logic in the script is the chain that
turns the wide table into what the panels show. That chain is modelled here:

- **Year-column detection** (`_year_pairs`): a column is a year column when
  the first (up to) four characters of its stripped label are all digits.
  The pairs (year, label) are de-duplicated and sorted by year. The sidebar
  then offers `str(year)` labels, pre-selects the last (latest) one, and
  maps the chosen label back to a column through `{str(y): raw ...}`.
- **Metric filter and numeric coercion**: keep the rows whose `항목` is the
  chosen metric. Convert the chosen year column with `pd.to_numeric(...,
  errors="coerce")` and drop the rows that did not convert.
- **Summary**: the first region with the largest value (`idxmax`), the first
  region with the smallest value (`idxmin`) and the mean. These are computed
  only for a non-empty series.
- **Top-N / bottom-N**: `sort_values(...).head(top_n)`, descending and
  ascending.
- **Heatmap reshape**: the year columns are detected again in header order
  and each is overwritten by its numeric conversion. The frame is then
  melted into (region, year label, value) rows, and cells that failed to
  convert stay as missing values.

Modules: `Wrappers` (Option), `Text` (strip, digits, `int`/`str` of digit
strings), `Schema` (year detection and the year selection), `Table` (cells,
rows, the metric filter, coercion), `Summary`, `Ranking`, `Heatmap`, and
`Dashboard` (the three panels over the sidebar's settings).

Numbers are `real`. `pd.to_numeric`'s string parsing is a parameter
`parse: string -> Option<real>`. A text cell it parses becomes the number
it returns; one it rejects becomes missing; numbers and missing cells pass
through unchanged.
The parts of the script that loop are methods with loop invariants:
`Schema.YearPairs` (the append loop) and `Heatmap.HeatmapLong` (the
column-overwrite loop). `Table.SelectSeries` is a straight-line method
that reassigns the copied year column and then drops missing values. Each
is proved equal to a specification function, and the properties are
proved about that function.

### Where the code differs from the intended design

The model follows the code:

- The region multiselect is stored in the session state but no panel reads
  it. `Dashboard.RegionsIgnored` states that the regions never change any
  panel.
- Two labels with the same year are not reported. The year dictionary keeps
  the later pair's label, and the earlier label cannot be selected
  (`Schema.DuplicateYearCollapses`).
- `melt` keeps cells that failed to convert, as missing values. It does not
  omit them.
- The long table is year-major: column after column, then row order
  (`Heatmap.LongTableAt`).
- The ranking sort is pandas' default quicksort, which is not stable. The
  contracts say which values are kept and that they are ordered by value.
  They leave the order among equal values open (`Ranking.TiedTopTwo`).
- A short all-digit label such as `"12"` registers as year 12
  (`Schema.PaddedDigitsLabel`).

## Model

| member | source | states |
|---|---|---|
| `Text.Strip` | streamlit_app.py:61 | `str.strip()` never lengthens the label |
| `Text.StripSpec` | streamlit_app.py:61 | the stripped label neither starts nor ends with whitespace |
| `Text.StripPadded` | streamlit_app.py:61 | stripping a text with whitespace on both sides gives that text back |
| `Text.StripLeftSpaces` | streamlit_app.py:61 | leading whitespace in front of a non-space character is exactly what is removed on the left |
| `Text.StripRightSpaces` | streamlit_app.py:61 | trailing whitespace after a non-space character is exactly what is removed on the right |
| `Text.StripLeftSpec` | streamlit_app.py:61 | the result is a suffix of the input; everything dropped is whitespace; the result does not start with whitespace |
| `Text.StripRightSpec` | streamlit_app.py:61 | the result is a prefix of the input; everything dropped is whitespace; the result does not end with whitespace |
| `Text.DecimalValue` | streamlit_app.py:62 | `int(y)` of a digit string is below 10 to the power of its length |
| `Text.ToDecimal` | streamlit_app.py:67 | `str(y)` is a non-empty digit string with no leading zero unless the number is 0 |
| `Text.DecimalRoundTrip` | streamlit_app.py:62-67 | reading back the printed year gives the year: `int(str(n)) == n` |
| `Text.ToDecimalInjective` | streamlit_app.py:67-69 | distinct years print as distinct labels, so `str(y)` keys the dictionary by year |
| `Schema.YearToken` | streamlit_app.py:61 | the token taken from the stripped label has at most four characters |
| `Schema.IsYearLabel` | streamlit_app.py:61-62 | `y.isdigit()` on the token: a year label's stripped form starts with a digit |
| `Schema.LeadingYear` | streamlit_app.py:61-62 | the year read from a year label is below 10000 |
| `Schema.DetectedPairs` | streamlit_app.py:59-62 | the appended list has at most one pair per column |
| `Schema.DetectedPairsMembers` | streamlit_app.py:58-62 | a pair is appended iff its label is a column whose stripped head is non-empty and all digits, with the year read from that head; the unstripped label is kept |
| `Schema.SortUnique` | streamlit_app.py:63 | `sorted(list(set(pairs)), key=year)`: ascending by year, no pair twice, the same pairs as its input |
| `Schema.YearPairs` | streamlit_app.py:58-63 | the method's result is sorted by year, has no duplicate pair, and holds exactly the pairs registered from the columns |
| `Schema.YearLabels` | streamlit_app.py:67 | one `str(year)` label per pair, in pair order |
| `Schema.YearMap` | streamlit_app.py:69 | every pair's year label is a key |
| `Schema.YearMapValues` | streamlit_app.py:69 | every key is some pair's year label and maps to that pair's column |
| `Schema.YearMapLastWins` | streamlit_app.py:69 | for a year, the dictionary holds the label of the last pair with that year |
| `Schema.SelectYear` | streamlit_app.py:67-69 | choosing entry `i` shows `str(year_i)` and resolves to a column that produced that same year |
| `Schema.DefaultYear` | streamlit_app.py:66-72 | there is a default selection iff some year column exists |
| `Schema.DefaultIsLatest` | streamlit_app.py:66-69 | over the sorted pairs, the default shows the largest year and resolves to the last pair's label |
| `Schema.DuplicateYearCollapses` | streamlit_app.py:67-69 | two labels with one year both resolve to the later label's column |
| `Schema.NotYearLabel` | streamlit_app.py:61-62 | a label starting with a non-space, non-digit character is never a year column |
| `Schema.ExampleHeader` | streamlit_app.py:58-63 | the header `시도별, 항목, 2020, 2021 p), 총계` yields exactly `(2020, "2020"), (2021, "2021 p)")` |
| `Schema.PaddedDigitsLabel` | streamlit_app.py:61-62 | one to four digits with whitespace around them register, with the value of those digits (`" 12 "` is year 12) |
| `Schema.DetectedPairsSnoc` | streamlit_app.py:59-62 | one more column appends its pair, if it registers, after the pairs of the columns before it |
| `Table.ToNumeric` | streamlit_app.py:132 | a converted cell is never text; it is a number iff it was a number or text that parses; a number stays the same number, and parsed text becomes the number the parser returns |
| `Table.ToNumericColumn` | streamlit_app.py:132 | the column keeps its length and every cell is converted on its own |
| `Table.FilterMetric` | streamlit_app.py:131 | the mask keeps at most as many rows as the frame has |
| `Table.FilterMetricMembers` | streamlit_app.py:131 | a row is kept iff it is in the frame and its metric is the chosen one |
| `Table.FilterMetricNone` | streamlit_app.py:131 | a metric no row carries selects no row, without an error |
| `Table.FilterMetricAppend` | streamlit_app.py:131 | the mask keeps file order: filtering a concatenation filters each part |
| `Table.Coerced` | streamlit_app.py:132-133 | coerce-and-drop never adds rows |
| `Table.NumericSeries` | streamlit_app.py:131-133 | the series is no longer than the metric's rows, which are no more than all rows |
| `Table.NumericSeriesOfRow` | streamlit_app.py:131-133 | one row contributes its (region, value) iff it has the metric and its cell converts |
| `Table.NumericSeriesAppend` | streamlit_app.py:131-133 | the series keeps row order: the series of a concatenation is the two series in turn |
| `Table.CoercedSound` | streamlit_app.py:132-133 | every entry is a row's region with the number its cell converted to |
| `Table.CoercedComplete` | streamlit_app.py:132-133 | every row whose cell converts has its entry in the series |
| `Table.NumericSeriesMembers` | streamlit_app.py:131-133 | an entry is in the series iff some row of the metric has that region and a cell converting to that value |
| `Table.DropNa` | streamlit_app.py:133 | dropping missing values never adds rows |
| `Table.DropNaMatchesCoerced` | streamlit_app.py:131-133 | converting the copied column and dropping missing values equals the row-wise reference |
| `Table.SelectSeries` | streamlit_app.py:131-133 | the filter/copy/reassign/dropna steps produce exactly `NumericSeries` |
| `Summary.FirstMaxIndex` | streamlit_app.py:136 | `idxmax`: a position holding the largest value, with every earlier value strictly smaller |
| `Summary.FirstMinIndex` | streamlit_app.py:136 | `idxmin`: a position holding the smallest value, with every earlier value strictly larger |
| `Summary.Mean` | streamlit_app.py:139 | `.mean()`: the mean times the count is the sum of the values |
| `Summary.MeanBetween` | streamlit_app.py:139 | the mean of values in `[lo, hi]` lies in `[lo, hi]` |
| `Summary.Summarize` | streamlit_app.py:135-139 | no summary iff the series is empty; max and min are the first rows attaining them; `val_min <= val_avg <= val_max`; `val_avg` is the mean of the series |
| `Summary.SummaryBounds` | streamlit_app.py:135-139 | every value of the series lies between the reported minimum and maximum |
| `Summary.SingleRowSummary` | streamlit_app.py:135-139 | for one row, max, min and mean are that row's value and region |
| `Summary.TwoRegionSummary` | streamlit_app.py:135-139 | 서울 50000 and 부산 30000 give max 서울, min 부산, mean 40000 |
| `Ranking.SortByValue` | streamlit_app.py:208 | `sort_values`: a permutation of the series ordered by value in the requested direction |
| `Ranking.Head` | streamlit_app.py:208 | `head(n)`: the first `min(n, len)` entries |
| `Ranking.Ranked` | streamlit_app.py:208-221 | length `min(top_n, len)`, ordered, a sub-multiset of the series, and no dropped entry ranks ahead of a kept one |
| `Ranking.PrefixDominates` | streamlit_app.py:208-221 | cutting an ordered permutation: everything cut off ranks no better than everything kept |
| `Ranking.RankedAll` | streamlit_app.py:208-221 | when `top_n` covers the series, the list holds every entry |
| `Ranking.RankedHeadIsExtreme` | streamlit_app.py:208-221 | the first of the top list is a largest value; the first of the bottom list a smallest |
| `Ranking.TiedTopTwo` | streamlit_app.py:208 | with `A=10, B=10, C=5` the top 2 holds A and B, in an order left open |
| `Heatmap.YearColumns` | streamlit_app.py:178 | the comprehension keeps at most every column |
| `Heatmap.YearColumnsMembers` | streamlit_app.py:178 | a label is kept iff it is a column and year-like |
| `Heatmap.YearColumnsAppend` | streamlit_app.py:178 | the year columns keep header order |
| `Heatmap.HeatmapYearsMatchSidebar` | streamlit_app.py:178 | the heatmap's year columns are exactly the labels `_year_pairs` registers |
| `Heatmap.NumberOf` | streamlit_app.py:181 | a melted cell has a value iff its converted cell is a number, and that value is the number |
| `Heatmap.MeltColumn` | streamlit_app.py:181 | one long row per frame row for a value column, in row order |
| `Heatmap.Melt` | streamlit_app.py:181 | melting gives (number of value columns) × (number of rows) long rows |
| `Heatmap.MeltAt` | streamlit_app.py:181 | the cell of column `j` and row `i` is long row `j * rows + i` (year-major), missing values kept |
| `Heatmap.CoercedGrid` | streamlit_app.py:180 | after the loop the copied frame has one converted column per year label, one cell per row, and cell (`j`, `i`) is row `i`'s cell under year label `j`, converted |
| `Heatmap.LongTableAt` | streamlit_app.py:178-181 | long row `j * rows + i` is (region of metric row `i`, year column `j`, that cell converted, or missing) |
| `Heatmap.LongTable` | streamlit_app.py:178-181 | the long table has (#year columns) × (#rows with the metric) rows |
| `Heatmap.LongTableLaidOut` | streamlit_app.py:178-181 | every (year column, metric row) cell sits at `j * rows + i` as `LongTableAt` states, and the table has exactly that many rows |
| `Heatmap.HeatmapLong` | streamlit_app.py:178-181 | the copy/overwrite-loop/melt steps produce exactly `LongTable` |
| `Dashboard.TruthyIsPythonTruth` | streamlit_app.py:130 | `Truthy`, the `if year_col and metric` test: a missing selection and the empty string are false, every other string is true |
| `Dashboard.SummaryPanel` | streamlit_app.py:127-148 | asks for a selection unless both selections are truthy and both key columns exist; "no data" iff the series is empty; the shown statistics are the summary of the selected series (first max, first min, mean), with `min <= mean <= max` |
| `Dashboard.RankingPanel` | streamlit_app.py:196-221 | rankings iff both selections are truthy; both lists have `min(top_n, len)` entries, top non-increasing, bottom non-decreasing, both drawn from the series; no value left out of the top list is larger than one in it, none left out of the bottom list smaller |
| `Dashboard.HeatmapPanel` | streamlit_app.py:153-181 | a long table iff both selections are truthy, with (#year columns) × (#metric rows) rows, cell (`j`, `i`) at `j * rows + i` holding the region, the year label and the converted value or missing |
| `Dashboard.RegionsIgnored` | streamlit_app.py:85-113 | changing the selected regions changes no panel |
| `Dashboard.AbsentMetric` | streamlit_app.py:130-146 | a metric no row carries gives "no data", two empty rankings and an empty long table |

## Left out

- Page configuration, CSS, the sidebar widgets themselves, `st.metric`,
  `st.info` and `st.warning` output, and the session-state plumbing
  (lines 10-42, 53-118). These are presentation. The settings the panels
  read are a `Dashboard.Settings` value, and `Dashboard.TopN` keeps the
  number input's 3..20 bounds.
- The metric and region option lists (lines 75-87): sorted unique `항목`
  values and unique `시도별` values for the widgets. These are sidebar
  widgets.
- Plotly and Altair chart construction, the bar chart's descending sort,
  and the theme-name map (lines 90-99, 164-173, 183-189, 209-229). These
  are presentation and foreign library calls.
- CSV loading with the `cp949` encoding (lines 46-49). This is I/O. A
  cell is text, a number, or missing, as pandas may have read it.
- The string rules of `pd.to_numeric`. They are the `parse` parameter.
  Numbers and missing values pass through unchanged.
- Unicode digits in `str.isdigit()` and `int()`. Only ASCII `0`-`9` count
  as digits. `str.strip()` uses Python's whitespace set.
- Floating point. Values are `real`, so NaN/infinity as numbers, rounding
  in the mean, and the `:,.1f` formatting (lines 142-144) are not modelled.
- A CSV without `항목` or `시도별`. Without `항목` the metric options are
  empty, the metric selectbox yields `None`, and no panel computes anything.
  Without `시도별`, columns 1 and 2 fail inside pandas or plotly. Every row
  here carries a region and a metric, so those failures are not modelled.
  Column 0's explicit check of both columns is modelled.
  `Dashboard.Settings` does not tie the chosen metric to the frame, so the
  model also covers a chosen metric with no `항목` column, a state the
  script cannot reach.
- Repeated labels in the CSV header. `pd.read_csv` renames a repeat
  (`2020`, `2020.1`), so the loaded frame never has two columns with one
  label, and a row here has one cell per label. The renamed `2020.1` strips
  to the token `2020` and registers as a second year-2020 column. That
  is one way duplicate years arise; another is two labels whose stripped
  first four characters are the same digits, such as `2022` and `2022 p)`.
  `Schema.DuplicateYearCollapses` covers both.
- pandas row labels. `idxmax`/`idxmin` return the default consecutive index
  of the loaded frame, modelled as positions in the series.
- Schema.SortUnique: the order among pairs with the same year is not
  stated, because Python's set iteration order decides it. The model fixes
  one order.
- Ranking.Ranked: the order among equal values is not stated, because
  pandas' quicksort does not fix it. The model fixes one order.
- Design-level features the code does not have: duplicate-year warnings,
  skip counts, a load error for missing columns, region filtering, and a
  stable ranking.
