/**
 * The three panels of the main area, each as a function of the loaded frame
 * and the sidebar's settings. Each panel first tests the selections for
 * truthiness (`if year_col and metric`), then runs its own copy of the
 * filter/convert steps. The region multiselect is stored in the settings
 * but no panel reads it.
 */
module Dashboard {
  import opened Wrappers
  import opened Schema
  import opened Table
  import opened Summary
  import opened Ranking
  import opened Heatmap

  /** The Top N number input: between 3 and 20, 10 by default. */
  type TopN = n: int | 3 <= n <= 20 witness 10

  /** What the sidebar leaves in the session state for the panels. */
  datatype Settings = Settings(
    yearColumn: Option<Label>,
    metric: Option<string>,
    regions: seq<string>,
    topN: TopN)

  /** Python truthiness of an optional string: present and non-empty. */
  predicate Truthy(o: Option<string>) {
    o.Some? && o.value != ""
  }

  /** `None` and the empty string are false in an `if`; any other string is true. */
  lemma TruthyIsPythonTruth()
    ensures !Truthy(None) && !Truthy(Some(""))
    ensures forall s: string :: s != "" ==> Truthy(Some(s))
  {
  }

  /** The series a panel works on once both selections are truthy. */
  function SelectedSeries(frame: Frame, st: Settings, parse: Parser): seq<Entry>
    requires Truthy(st.yearColumn) && Truthy(st.metric)
  {
    NumericSeries(frame.rows, st.metric.value, st.yearColumn.value, parse)
  }

  datatype SummaryView = AskForSelection | NoData | Metrics(summary: Summary)

  /**
   * Column 0: without both selections (or without the `항목` and `시도별`
   * columns) it asks for a selection; with an empty series it says there is
   * no data; otherwise it shows the statistics.
   */
  function SummaryPanel(frame: Frame, st: Settings, parse: Parser): (v: SummaryView)
    ensures v.AskForSelection? <==>
      !(Truthy(st.yearColumn) && Truthy(st.metric) && MetricColumn in frame.columns && RegionColumn in frame.columns)
    ensures v.NoData? <==> !v.AskForSelection? && SelectedSeries(frame, st, parse) == []
    ensures v.Metrics? ==> Summarize(SelectedSeries(frame, st, parse)) == Some(v.summary)
    ensures v.Metrics? ==> v.summary.valMin <= v.summary.valAvg <= v.summary.valMax
  {
    if Truthy(st.yearColumn) && Truthy(st.metric) && MetricColumn in frame.columns && RegionColumn in frame.columns then
      match Summarize(SelectedSeries(frame, st, parse))
      case None => NoData
      case Some(s) => Metrics(s)
    else AskForSelection
  }

  datatype RankingView = RankingHint | Rankings(top: seq<Entry>, bottom: seq<Entry>)

  /** Column 2: the top-N and bottom-N lists of the selected series. */
  function RankingPanel(frame: Frame, st: Settings, parse: Parser): (v: RankingView)
    ensures v.Rankings? <==> Truthy(st.yearColumn) && Truthy(st.metric)
    ensures v.Rankings? ==>
      var s := SelectedSeries(frame, st, parse);
      && |v.top| == |v.bottom| == (if st.topN < |s| then st.topN else |s|)
      && Ordered(v.top, false) && Ordered(v.bottom, true)
      && multiset(v.top) <= multiset(s) && multiset(v.bottom) <= multiset(s)
      && (forall d, k :: d in multiset(s) - multiset(v.top) && k in v.top ==> Precedes(k, d, false))
      && (forall d, k :: d in multiset(s) - multiset(v.bottom) && k in v.bottom ==> Precedes(k, d, true))
  {
    if Truthy(st.yearColumn) && Truthy(st.metric) then
      var s := SelectedSeries(frame, st, parse);
      Rankings(Ranked(s, st.topN, false), Ranked(s, st.topN, true))
    else RankingHint
  }

  datatype HeatmapView = HeatmapHint | LongFormat(long: seq<LongRow>)

  /** Column 1: the heatmap's long table for the chosen metric. */
  function HeatmapPanel(frame: Frame, st: Settings, parse: Parser): (v: HeatmapView)
    ensures v.LongFormat? <==> Truthy(st.yearColumn) && Truthy(st.metric)
    ensures v.LongFormat? ==> LaidOutYearMajor(v.long, frame, st.metric.value, parse)
  {
    if Truthy(st.yearColumn) && Truthy(st.metric) then
      LongTableLaidOut(frame, st.metric.value, parse);
      LongFormat(LongTable(frame, st.metric.value, parse))
    else HeatmapHint
  }

  /** The selected regions never change what any panel shows. */
  lemma RegionsIgnored(frame: Frame, st: Settings, regions: seq<string>, parse: Parser)
    ensures SummaryPanel(frame, st.(regions := regions), parse) == SummaryPanel(frame, st, parse)
    ensures RankingPanel(frame, st.(regions := regions), parse) == RankingPanel(frame, st, parse)
    ensures HeatmapPanel(frame, st.(regions := regions), parse) == HeatmapPanel(frame, st, parse)
  {
  }

  /**
   * A metric that no row carries leaves every panel empty but not failing:
   * "no data" for the statistics, two empty rankings, an empty long table.
   */
  lemma {:induction false} AbsentMetric(frame: Frame, st: Settings, parse: Parser)
    requires Truthy(st.yearColumn) && Truthy(st.metric)
    requires MetricColumn in frame.columns && RegionColumn in frame.columns
    requires forall row :: row in frame.rows ==> row.metric != st.metric.value
    ensures SummaryPanel(frame, st, parse) == NoData
    ensures RankingPanel(frame, st, parse) == Rankings([], [])
    ensures HeatmapPanel(frame, st, parse) == LongFormat([])
  {
    var metric := st.metric.value;
    FilterMetricNone(frame.rows, metric);
  }
}
