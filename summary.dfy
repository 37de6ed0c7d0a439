/**
 * The summary panel's statistics over a coerced series:
 * the region and value of the first largest entry (`idxmax`), of the first
 * smallest entry (`idxmin`), and the arithmetic mean. They are computed
 * only when the series is non-empty.
 */
module Summary {
  import opened Wrappers
  import opened Table

  datatype Summary = Summary(regionMax: string, valMax: real, regionMin: string, valMin: real, valAvg: real)

  function Sum(s: seq<Entry>): real {
    if s == [] then 0.0 else s[0].value + Sum(s[1..])
  }

  /** `s.mean()`: the sum over the rows present divided by their count. */
  function Mean(s: seq<Entry>): (r: real)
    requires s != []
    ensures r * (|s| as real) == Sum(s)
  {
    Sum(s) / (|s| as real)
  }

  /** Position `i` holds a largest value and no earlier position reaches it. */
  predicate IsFirstMax(s: seq<Entry>, i: int) {
    && 0 <= i < |s|
    && (forall j :: 0 <= j < |s| ==> s[j].value <= s[i].value)
    && (forall j :: 0 <= j < i ==> s[j].value < s[i].value)
  }

  /** Position `i` holds a smallest value and no earlier position reaches it. */
  predicate IsFirstMin(s: seq<Entry>, i: int) {
    && 0 <= i < |s|
    && (forall j :: 0 <= j < |s| ==> s[i].value <= s[j].value)
    && (forall j :: 0 <= j < i ==> s[i].value < s[j].value)
  }

  /** `idxmax()`: the first position of the largest value. */
  function FirstMaxIndex(s: seq<Entry>): (i: nat)
    requires s != []
    ensures IsFirstMax(s, i)
  {
    if |s| == 1 then 0
    else
      var k := FirstMaxIndex(s[..|s| - 1]);
      if s[|s| - 1].value > s[k].value then |s| - 1 else k
  }

  /** `idxmin()`: the first position of the smallest value. */
  function FirstMinIndex(s: seq<Entry>): (i: nat)
    requires s != []
    ensures IsFirstMin(s, i)
  {
    if |s| == 1 then 0
    else
      var k := FirstMinIndex(s[..|s| - 1]);
      if s[|s| - 1].value < s[k].value then |s| - 1 else k
  }

  /** `n` copies of `a` added up. */
  function Times(a: real, n: nat): real {
    if n == 0 then 0.0 else a + Times(a, n - 1)
  }

  lemma {:induction false} TimesIsProduct(a: real, n: nat)
    ensures Times(a, n) == a * (n as real)
  {
    if n > 0 {
      TimesIsProduct(a, n - 1);
      assert a * (n as real) == a * ((n - 1) as real) + a;
    }
  }

  /** A sum of values that all lie in [lo, hi] lies between `lo` and `hi` times the count. */
  lemma {:induction false} SumBounds(s: seq<Entry>, lo: real, hi: real)
    requires forall e :: e in s ==> lo <= e.value <= hi
    ensures Times(lo, |s|) <= Sum(s) <= Times(hi, |s|)
  {
    if s != [] {
      var tail := s[1..];
      assert forall e :: e in tail ==> e in s;
      SumBounds(tail, lo, hi);
      assert s[0] in s;
    }
  }

  /** The mean lies between the smallest and the largest value. */
  lemma MeanBetween(s: seq<Entry>, lo: real, hi: real)
    requires s != []
    requires forall e :: e in s ==> lo <= e.value <= hi
    ensures lo <= Mean(s) <= hi
  {
    SumBounds(s, lo, hi);
    TimesIsProduct(lo, |s|);
    TimesIsProduct(hi, |s|);
    var n, total := |s| as real, Sum(s);
    assert lo * n <= total <= hi * n;
    QuotientBounds(total, n, lo, hi);
  }

  /** `lo * n <= x <= hi * n` with positive `n` puts `x / n` in `[lo, hi]`. */
  lemma QuotientBounds(x: real, n: real, lo: real, hi: real)
    requires n > 0.0 && lo * n <= x <= hi * n
    ensures lo <= x / n <= hi
  {
    var m := x / n;
    assert m * n == x;
    CancelPositive(lo, m, n);
    CancelPositive(m, hi, n);
  }

  /** Dividing both sides of `a * n <= b * n` by a positive `n`. */
  lemma CancelPositive(a: real, b: real, n: real)
    requires n > 0.0 && a * n <= b * n
    ensures a <= b
  {
    assert (b - a) * n == b * n - a * n;
  }

  /**
   * The statistics block: nothing for an empty series; otherwise the first
   * largest and first smallest entries and the mean, with
   * `val_min <= val_avg <= val_max`.
   */
  function Summarize(s: seq<Entry>): (r: Option<Summary>)
    ensures r.None? <==> s == []
    ensures r.Some? ==> exists i :: IsFirstMax(s, i) && s[i] == Entry(r.value.regionMax, r.value.valMax)
    ensures r.Some? ==> exists i :: IsFirstMin(s, i) && s[i] == Entry(r.value.regionMin, r.value.valMin)
    ensures r.Some? ==> r.value.valMin <= r.value.valAvg <= r.value.valMax
    ensures r.Some? ==> r.value.valAvg == Mean(s)
  {
    if s == [] then None
    else
      var hi := FirstMaxIndex(s);
      var lo := FirstMinIndex(s);
      MeanBetween(s, s[lo].value, s[hi].value);
      Some(Summary(s[hi].region, s[hi].value, s[lo].region, s[lo].value, Mean(s)))
  }

  /** Every value of the series lies between the reported minimum and maximum. */
  lemma SummaryBounds(s: seq<Entry>)
    requires s != []
    ensures var r := Summarize(s).value;
      forall e :: e in s ==> r.valMin <= e.value <= r.valMax
  {
    var r := Summarize(s).value;
    var hi :| IsFirstMax(s, hi) && s[hi] == Entry(r.regionMax, r.valMax);
    var lo :| IsFirstMin(s, lo) && s[lo] == Entry(r.regionMin, r.valMin);
  }

  /** A single row is at once the maximum, the minimum and the mean. */
  lemma SingleRowSummary(e: Entry)
    ensures Summarize([e]) == Some(Summary(e.region, e.value, e.region, e.value, e.value))
  {
    assert [e][1..] == [];
  }

  /** Two regions: the larger is reported as maximum, the smaller as minimum, the midpoint as mean. */
  lemma TwoRegionSummary()
    ensures Summarize([Entry("서울", 50000.0), Entry("부산", 30000.0)])
         == Some(Summary("서울", 50000.0, "부산", 30000.0, 40000.0))
  {
    var s := [Entry("서울", 50000.0), Entry("부산", 30000.0)];
    assert s[1..] == [Entry("부산", 30000.0)];
    assert s[1..][1..] == [];
    assert s[..1] == [Entry("서울", 50000.0)];
  }
}
