/**
 * The loaded table and the two steps every data panel repeats on it: keep
 * the rows of the chosen metric (`df[df["항목"] == metric]`), then convert
 * the chosen year column with `pd.to_numeric(..., errors="coerce")` and drop
 * the rows whose cell did not convert (`dropna(subset=[year_col])`).
 */
module Table {
  import opened Wrappers
  import opened Schema

  /** The grouping column and the metric column the panels look up by name. */
  const RegionColumn: Label := "시도별"
  const MetricColumn: Label := "항목"

  /** A cell: text as read from the CSV, a number, or pandas' missing value. */
  datatype Value = Text(s: string) | Num(x: real) | NaN

  /**
   * The string-to-number conversion inside `pd.to_numeric`. Its rules are
   * not modelled: every operation takes it as a parameter. A text cell that
   * parses becomes the number the parser returns; one that does not becomes
   * missing.
   */
  type Parser = string -> Option<real>

  /** One CSV line: its region (`시도별`), its metric (`항목`) and its other cells by column label. */
  datatype Row = Row(region: string, metric: string, cells: map<Label, Value>)

  /** The loaded CSV: the header in file order and the rows in file order. */
  datatype Frame = Frame(columns: seq<Label>, rows: seq<Row>)

  /** A (region, number) row of a coerced, NaN-free selection. */
  datatype Entry = Entry(region: string, value: real)

  /** The cell of `row` under `column`; a label the row has no cell for reads as missing. */
  function CellOf(row: Row, column: Label): Value {
    if column in row.cells then row.cells[column] else NaN
  }

  /**
   * `pd.to_numeric(..., errors="coerce")` on one cell: numbers and missing
   * values pass through, text becomes a number when it parses and missing
   * otherwise. The result is never text.
   */
  function ToNumeric(v: Value, parse: Parser): (r: Value)
    ensures !r.Text?
    ensures r.Num? <==> v.Num? || (v.Text? && parse(v.s).Some?)
    ensures v.Num? ==> r == v
    ensures v.Text? && parse(v.s).Some? ==> r == Num(parse(v.s).value)
  {
    match v
    case Text(s) => (match parse(s) case Some(x) => Num(x) case None => NaN)
    case Num(_) => v
    case NaN => NaN
  }


  /** `pd.to_numeric` on a whole column: cell by cell. */
  function ToNumericColumn(column: seq<Value>, parse: Parser): (r: seq<Value>)
    ensures |r| == |column|
    ensures forall i :: 0 <= i < |r| ==> r[i] == ToNumeric(column[i], parse)
  {
    seq(|column|, i requires 0 <= i < |column| => ToNumeric(column[i], parse))
  }

  /** The boolean mask `df["항목"] == metric` applied to the rows. */
  function FilterMetric(rows: seq<Row>, metric: string): (r: seq<Row>)
    ensures |r| <= |rows|
  {
    if rows == [] then []
    else (if rows[0].metric == metric then [rows[0]] else []) + FilterMetric(rows[1..], metric)
  }

  /** The mask keeps exactly the rows of the metric. */
  lemma {:induction false} FilterMetricMembers(rows: seq<Row>, metric: string)
    ensures forall row :: row in FilterMetric(rows, metric) <==> row in rows && row.metric == metric
  {
    if rows != [] {
      FilterMetricMembers(rows[1..], metric);
      assert rows == [rows[0]] + rows[1..];
    }
  }

  /** A metric that no row carries selects nothing (an empty frame, not an error). */
  lemma {:induction false} FilterMetricNone(rows: seq<Row>, metric: string)
    requires forall row :: row in rows ==> row.metric != metric
    ensures FilterMetric(rows, metric) == []
  {
    if rows != [] {
      assert rows[0] in rows;
      assert forall row :: row in rows[1..] ==> row in rows;
      FilterMetricNone(rows[1..], metric);
    }
  }

  /** The mask works row by row and keeps file order: filtering a concatenation filters each part. */
  lemma {:induction false} FilterMetricAppend(a: seq<Row>, b: seq<Row>, metric: string)
    ensures FilterMetric(a + b, metric) == FilterMetric(a, metric) + FilterMetric(b, metric)
  {
    if a != [] {
      assert (a + b)[1..] == a[1..] + b;
      FilterMetricAppend(a[1..], b, metric);
    } else {
      assert a + b == b;
    }
  }

  /**
   * Row-wise reference for coerce-then-drop: one entry per row whose cell
   * under `column` converts to a number, in row order.
   */
  function Coerced(rows: seq<Row>, column: Label, parse: Parser): (s: seq<Entry>)
    ensures |s| <= |rows|
  {
    if rows == [] then []
    else
      (match ToNumeric(CellOf(rows[0], column), parse)
       case Num(x) => [Entry(rows[0].region, x)]
       case _ => [])
      + Coerced(rows[1..], column, parse)
  }

  /** The selection each panel of `streamlit_app.py` repeats: the metric's rows whose year cell is numeric. */
  function NumericSeries(rows: seq<Row>, metric: string, column: Label, parse: Parser): (s: seq<Entry>)
    ensures |s| <= |FilterMetric(rows, metric)| <= |rows|
  {
    Coerced(FilterMetric(rows, metric), column, parse)
  }

  /** The series of one row: its entry when it has the metric and its cell converts, otherwise nothing. */
  lemma NumericSeriesOfRow(row: Row, metric: string, column: Label, parse: Parser)
    ensures NumericSeries([row], metric, column, parse)
         == if row.metric == metric && ToNumeric(CellOf(row, column), parse).Num?
            then [Entry(row.region, ToNumeric(CellOf(row, column), parse).x)]
            else []
  {
    assert [row][1..] == [];
  }

  lemma {:induction false} CoercedAppend(a: seq<Row>, b: seq<Row>, column: Label, parse: Parser)
    ensures Coerced(a + b, column, parse) == Coerced(a, column, parse) + Coerced(b, column, parse)
  {
    if a != [] {
      assert (a + b)[1..] == a[1..] + b;
      CoercedAppend(a[1..], b, column, parse);
    } else {
      assert a + b == b;
    }
  }

  /**
   * The series keeps row order: the series of a concatenation is the two
   * series one after the other. With NumericSeriesOfRow this fixes the
   * series completely: exactly the metric's convertible rows, in file order.
   */
  lemma NumericSeriesAppend(a: seq<Row>, b: seq<Row>, metric: string, column: Label, parse: Parser)
    ensures NumericSeries(a + b, metric, column, parse)
         == NumericSeries(a, metric, column, parse) + NumericSeries(b, metric, column, parse)
  {
    FilterMetricAppend(a, b, metric);
    CoercedAppend(FilterMetric(a, metric), FilterMetric(b, metric), column, parse);
  }

  /** Every entry comes from a row of the metric whose cell converted to exactly that number. */
  lemma {:induction false} CoercedSound(rows: seq<Row>, column: Label, parse: Parser)
    ensures forall e :: e in Coerced(rows, column, parse) ==>
      exists row :: row in rows && row.region == e.region && ToNumeric(CellOf(row, column), parse) == Num(e.value)
  {
    if rows != [] {
      CoercedSound(rows[1..], column, parse);
      assert forall row :: row in rows[1..] ==> row in rows;
    }
  }

  /** Every row of the metric whose cell converts has its entry in the series. */
  lemma {:induction false} CoercedComplete(rows: seq<Row>, column: Label, parse: Parser)
    ensures forall row :: row in rows && ToNumeric(CellOf(row, column), parse).Num? ==>
      Entry(row.region, ToNumeric(CellOf(row, column), parse).x) in Coerced(rows, column, parse)
  {
    if rows != [] {
      CoercedComplete(rows[1..], column, parse);
      assert rows == [rows[0]] + rows[1..];
    }
  }

  /**
   * Membership in the series: an entry is present exactly when some row of
   * the metric has that region and a cell converting to that value.
   */
  lemma NumericSeriesMembers(rows: seq<Row>, metric: string, column: Label, parse: Parser, e: Entry)
    ensures e in NumericSeries(rows, metric, column, parse) <==>
      exists row :: row in rows && row.metric == metric && row.region == e.region
                    && ToNumeric(CellOf(row, column), parse) == Num(e.value)
  {
    var selected := FilterMetric(rows, metric);
    FilterMetricMembers(rows, metric);
    CoercedSound(selected, column, parse);
    CoercedComplete(selected, column, parse);
  }

  /**
   * `dropna(subset=[year_col])` on the two-column copy: the rows whose value
   * is a number. pandas drops only missing values; this also drops text,
   * which cannot occur here because the column has been through
   * `ToNumericColumn` first, and that never yields text.
   */
  function DropNa(regions: seq<string>, values: seq<Value>): (s: seq<Entry>)
    requires |regions| == |values|
    ensures |s| <= |values|
  {
    if values == [] then []
    else
      (if values[0].Num? then [Entry(regions[0], values[0].x)] else [])
      + DropNa(regions[1..], values[1..])
  }

  /** `df_sel["시도별"]` of the selected rows. */
  function RegionsOf(rows: seq<Row>): (r: seq<string>)
    ensures |r| == |rows|
    ensures forall i :: 0 <= i < |rows| ==> r[i] == rows[i].region
  {
    seq(|rows|, i requires 0 <= i < |rows| => rows[i].region)
  }

  /** `df_sel[year_col]` of the selected rows, before conversion. */
  function ColumnOf(rows: seq<Row>, column: Label): (r: seq<Value>)
    ensures |r| == |rows|
    ensures forall i :: 0 <= i < |rows| ==> r[i] == CellOf(rows[i], column)
  {
    seq(|rows|, i requires 0 <= i < |rows| => CellOf(rows[i], column))
  }

  /** The column-at-a-time pandas steps agree with the row-wise reference. */
  lemma {:induction false} DropNaMatchesCoerced(rows: seq<Row>, column: Label, parse: Parser)
    ensures DropNa(RegionsOf(rows), ToNumericColumn(ColumnOf(rows, column), parse)) == Coerced(rows, column, parse)
  {
    if rows != [] {
      DropNaMatchesCoerced(rows[1..], column, parse);
      assert RegionsOf(rows)[1..] == RegionsOf(rows[1..]);
      assert ToNumericColumn(ColumnOf(rows, column), parse)[1..]
          == ToNumericColumn(ColumnOf(rows[1..], column), parse);
    }
  }

  /**
   * The summary panel's selection block in `streamlit_app.py`: filter by metric, copy the region
   * and year columns, overwrite the year column with its numeric
   * conversion, drop the rows left missing.
   */
  method SelectSeries(frame: Frame, metric: string, column: Label, parse: Parser) returns (series: seq<Entry>)
    ensures series == NumericSeries(frame.rows, metric, column, parse)
  {
    var selected := FilterMetric(frame.rows, metric);
    var regions := RegionsOf(selected);
    var values := ColumnOf(selected, column);
    values := ToNumericColumn(values, parse);
    series := DropNa(regions, values);
    DropNaMatchesCoerced(selected, column, parse);
  }
}
