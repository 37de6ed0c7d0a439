/**
 * The heatmap's data in `streamlit_app.py`: the year columns are detected again
 * in header order, the metric's rows are copied with the region and those
 * columns, every year column is overwritten by its numeric conversion, and
 * the frame is melted into (region, year label, value) rows. Cells that did
 * not convert stay in the result as missing values.
 */
module Heatmap {
  import opened Wrappers
  import opened Schema
  import opened Table

  /** `[c for c in df.columns if str(c).strip()[:4].isdigit()]`. */
  function YearColumns(columns: seq<Label>): (r: seq<Label>)
    ensures |r| <= |columns|
  {
    if columns == [] then []
    else (if IsYearLabel(columns[0]) then [columns[0]] else []) + YearColumns(columns[1..])
  }

  /** The comprehension keeps exactly the year-like labels. */
  lemma {:induction false} YearColumnsMembers(columns: seq<Label>)
    ensures forall c :: c in YearColumns(columns) <==> c in columns && IsYearLabel(c)
  {
    if columns != [] {
      YearColumnsMembers(columns[1..]);
      assert columns == [columns[0]] + columns[1..];
    }
  }

  /** The comprehension keeps header order: on a concatenation it works part by part. */
  lemma {:induction false} YearColumnsAppend(a: seq<Label>, b: seq<Label>)
    ensures YearColumns(a + b) == YearColumns(a) + YearColumns(b)
  {
    if a != [] {
      assert (a + b)[1..] == a[1..] + b;
      YearColumnsAppend(a[1..], b);
    } else {
      assert a + b == b;
    }
  }

  /** The heatmap sees the same year columns as the sidebar: a label is kept iff it has a registered pair. */
  lemma HeatmapYearsMatchSidebar(columns: seq<Label>, c: Label)
    ensures c in YearColumns(columns) <==> exists p :: p in DetectedPairs(columns) && p.column == c
  {
    YearColumnsMembers(columns);
    DetectedPairsMembers(columns);
    if c in columns && IsYearLabel(c) {
      assert Registered(columns, YearPair(LeadingYear(c), c));
    }
  }

  /** One row of the long table: `시도별`, `연도` (the column label) and `값`. */
  datatype LongRow = LongRow(region: string, yearLabel: Label, value: Option<real>)

  /** A converted cell as the long table holds it: a number, or missing. */
  function NumberOf(v: Value): (r: Option<real>)
    ensures r.Some? <==> v.Num?
    ensures v.Num? ==> r == Some(v.x)
  {
    match v
    case Num(x) => Some(x)
    case _ => None
  }

  /** The shape of the copied frame: one column of cells per year label, one cell per row. */
  predicate IsGrid(grid: seq<seq<Value>>, width: nat, height: nat) {
    |grid| == width && forall j :: 0 <= j < |grid| ==> |grid[j]| == height
  }

  /** The long rows contributed by one value column: one per frame row, in row order. */
  function MeltColumn(regions: seq<string>, yearLabel: Label, column: seq<Value>): (r: seq<LongRow>)
    requires |column| == |regions|
    ensures |r| == |regions|
    ensures forall i :: 0 <= i < |r| ==> r[i] == LongRow(regions[i], yearLabel, NumberOf(column[i]))
  {
    seq(|regions|, i requires 0 <= i < |regions| => LongRow(regions[i], yearLabel, NumberOf(column[i])))
  }

  /** `melt(id_vars="시도별", value_vars=year_cols)`: value column after value column. */
  function Melt(regions: seq<string>, labels: seq<Label>, grid: seq<seq<Value>>): (r: seq<LongRow>)
    requires IsGrid(grid, |labels|, |regions|)
    ensures |r| == |labels| * |regions|
  {
    if labels == [] then []
    else
      MulPred(|labels|, |regions|);
      MeltColumn(regions, labels[0], grid[0]) + Melt(regions, labels[1..], grid[1..])
  }

  /**
   * Melting gives one long row per (column, row) cell, year-major: the cell
   * of column `j` and row `i` sits at position `j * |regions| + i`, with its
   * missing value kept.
   */
  lemma {:induction false} MeltAt(regions: seq<string>, labels: seq<Label>, grid: seq<seq<Value>>, j: nat, i: nat)
    requires IsGrid(grid, |labels|, |regions|)
    requires j < |labels| && i < |regions|
    ensures j * |regions| + i < |labels| * |regions|
    ensures Melt(regions, labels, grid)[j * |regions| + i] == LongRow(regions[i], labels[j], NumberOf(grid[j][i]))
  {
    var n := |regions|;
    CellIndexBound(j, i, |labels|, n);
    if j > 0 {
      MeltAt(regions, labels[1..], grid[1..], j - 1, i);
      MulPred(j, n);
    }
  }

  lemma MulPred(j: nat, n: nat)
    requires j > 0
    ensures j * n == n + (j - 1) * n
  {
  }

  /** Position `j * n + i` of a `k`-by-`n` layout is inside it. */
  lemma {:induction false} CellIndexBound(j: nat, i: nat, k: nat, n: nat)
    requires j < k && i < n
    ensures j * n + i < k * n
  {
    if j > 0 {
      CellIndexBound(j - 1, i, k - 1, n);
      MulPred(j, n);
      MulPred(k, n);
    }
  }

  /** The copied frame after the loop: every year column converted. */
  function CoercedGrid(rows: seq<Row>, years: seq<Label>, parse: Parser): (g: seq<seq<Value>>)
    ensures IsGrid(g, |years|, |rows|)
    ensures forall j, i :: 0 <= j < |years| && 0 <= i < |rows| ==> g[j][i] == ToNumeric(CellOf(rows[i], years[j]), parse)
  {
    seq(|years|, j requires 0 <= j < |years| => ToNumericColumn(ColumnOf(rows, years[j]), parse))
  }

  /** The long table the heatmap is drawn from. */
  function LongTable(frame: Frame, metric: string, parse: Parser): (r: seq<LongRow>)
    ensures |r| == |YearColumns(frame.columns)| * |FilterMetric(frame.rows, metric)|
  {
    var rows := FilterMetric(frame.rows, metric);
    var years := YearColumns(frame.columns);
    Melt(RegionsOf(rows), years, CoercedGrid(rows, years, parse))
  }

  /**
   * Long row `j * |rows| + i` exists and holds metric row `i`'s region, year
   * label `j` and that cell converted, or a missing value.
   */
  predicate CellAt(long: seq<LongRow>, rows: seq<Row>, years: seq<Label>, parse: Parser, j: nat, i: nat)
    requires j < |years| && i < |rows|
  {
    && j * |rows| + i < |long|
    && long[j * |rows| + i]
       == LongRow(rows[i].region, years[j], NumberOf(ToNumeric(CellOf(rows[i], years[j]), parse)))
  }

  /**
   * The long table has one row per (metric row, year column) pair and the
   * cell of year column `j` and metric row `i` at position `j * rows + i`:
   * year-major, then row order, with cells that did not convert kept as
   * missing values.
   */
  lemma LongTableAt(frame: Frame, metric: string, parse: Parser, j: nat, i: nat)
    requires j < |YearColumns(frame.columns)| && i < |FilterMetric(frame.rows, metric)|
    ensures CellAt(LongTable(frame, metric, parse), FilterMetric(frame.rows, metric), YearColumns(frame.columns), parse, j, i)
  {
    var rows, years := FilterMetric(frame.rows, metric), YearColumns(frame.columns);
    MeltCell(RegionsOf(rows), years, CoercedGrid(rows, years, parse), rows, parse, j, i);
  }

  lemma MeltCell(regions: seq<string>, years: seq<Label>, grid: seq<seq<Value>>, rows: seq<Row>, parse: Parser, j: nat, i: nat)
    requires regions == RegionsOf(rows) && grid == CoercedGrid(rows, years, parse)
    requires j < |years| && i < |rows|
    ensures j * |rows| + i < |Melt(regions, years, grid)|
    ensures Melt(regions, years, grid)[j * |rows| + i]
      == LongRow(rows[i].region, years[j], NumberOf(ToNumeric(CellOf(rows[i], years[j]), parse)))
  {
    MeltAt(regions, years, grid, j, i);
    assert regions[i] == rows[i].region;
    assert grid[j][i] == ToNumeric(CellOf(rows[i], years[j]), parse);
  }

  /**
   * `long` is the melt of the metric's rows over the year columns: one row
   * per (year column, metric row) pair, year-major, as `CellAt` places them.
   */
  predicate LaidOutYearMajor(long: seq<LongRow>, frame: Frame, metric: string, parse: Parser) {
    var rows, years := FilterMetric(frame.rows, metric), YearColumns(frame.columns);
    && |long| == |years| * |rows|
    && forall j: nat, i: nat :: j < |years| && i < |rows| ==> CellAt(long, rows, years, parse, j, i)
  }

  /** The long table is laid out cell by cell as `LongTableAt` states, for every cell. */
  lemma LongTableLaidOut(frame: Frame, metric: string, parse: Parser)
    ensures LaidOutYearMajor(LongTable(frame, metric, parse), frame, metric, parse)
  {
    var rows, years := FilterMetric(frame.rows, metric), YearColumns(frame.columns);
    var long := LongTable(frame, metric, parse);
    forall j: nat, i: nat | j < |years| && i < |rows|
      ensures CellAt(long, rows, years, parse, j, i)
    {
      LongTableAt(frame, metric, parse, j, i);
    }
  }

  /**
   * The heatmap panel's data steps: copy the metric's rows with the region and year columns,
   * overwrite each year column by its numeric conversion in turn, melt.
   */
  method HeatmapLong(frame: Frame, metric: string, parse: Parser) returns (long: seq<LongRow>)
    ensures long == LongTable(frame, metric, parse)
  {
    var years := YearColumns(frame.columns);
    var rows := FilterMetric(frame.rows, metric);
    var grid := seq(|years|, j requires 0 <= j < |years| => ColumnOf(rows, years[j]));
    for j := 0 to |years|
      invariant |grid| == |years|
      invariant forall k :: 0 <= k < j ==> grid[k] == ToNumericColumn(ColumnOf(rows, years[k]), parse)
      invariant forall k :: j <= k < |years| ==> grid[k] == ColumnOf(rows, years[k])
    {
      grid := grid[j := ToNumericColumn(grid[j], parse)];
    }
    forall k | 0 <= k < |years| ensures grid[k] == CoercedGrid(rows, years, parse)[k] { }
    assert grid == CoercedGrid(rows, years, parse);
    long := Melt(RegionsOf(rows), years, grid);
  }
}
