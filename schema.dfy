/**
 * Year-column detection over the frame's column labels (`_year_pairs`) and
 * the sidebar's year selection: the `str(year)` labels, the default choice
 * (the last, i.e. latest, label) and the `{str(y): raw ...}` dictionary that
 * turns the chosen label back into a column.
 */
module Schema {
  import opened Wrappers
  import opened Text

  /** A column label of the loaded CSV. */
  type Label = string

  /** One registered year column: the year read from the label's head and the label as written. */
  datatype YearPair = YearPair(year: nat, column: Label)

  /** The first (up to) four characters of the stripped label: `str(c).strip()[:4]`. */
  function YearToken(name: Label): (t: string)
    ensures |t| <= 4
  {
    var s := Strip(name);
    s[..if |s| < 4 then |s| else 4]
  }

  /** `y.isdigit()` on the token: non-empty and made of digits only. */
  predicate IsYearLabel(name: Label): (b: bool)
    ensures b ==> Strip(name) != [] && IsDigit(Strip(name)[0])
  {
    var t := YearToken(name);
    t != [] && AllDigits(t)
  }

  /** `int(y)` of the token; at most four digits, so below 10000. */
  function LeadingYear(name: Label): (y: nat)
    requires IsYearLabel(name)
    ensures y < 10000
  {
    var t := YearToken(name);
    assert Pow10(|t|) <= 10000 by {
      assert Pow10(0) == 1 && Pow10(1) == 10 && Pow10(2) == 100 && Pow10(3) == 1000 && Pow10(4) == 10000;
    }
    DecimalValue(t)
  }

  /** A pair that the detection loop would append for some column of `cols`. */
  predicate Registered(cols: seq<Label>, p: YearPair) {
    p.column in cols && IsYearLabel(p.column) && p.year == LeadingYear(p.column)
  }

  /** The `pairs` list after the loop: one pair per year-like column, in column order. */
  function DetectedPairs(cols: seq<Label>): (r: seq<YearPair>)
    ensures |r| <= |cols|
  {
    if cols == [] then []
    else
      var last := cols[|cols| - 1];
      DetectedPairs(cols[..|cols| - 1]) + (if IsYearLabel(last) then [YearPair(LeadingYear(last), last)] else [])
  }

  /** A pair is appended exactly when its label is a column that registers, with that column's year. */
  lemma {:induction false} DetectedPairsMembers(cols: seq<Label>)
    ensures forall p :: p in DetectedPairs(cols) <==> Registered(cols, p)
  {
    if cols != [] {
      var front := cols[..|cols| - 1];
      assert cols == front + [cols[|cols| - 1]];
      DetectedPairsMembers(front);
    }
  }

  /** One more column: its pair, if it registers, goes after the pairs of the columns before it. */
  lemma DetectedPairsSnoc(front: seq<Label>, c: Label)
    ensures DetectedPairs(front + [c]) == DetectedPairs(front)
      + (if IsYearLabel(c) then [YearPair(LeadingYear(c), c)] else [])
  {
    assert (front + [c])[..|front|] == front;
  }

  lemma DetectedPairsAppend(front: seq<Label>, c: Label)
    requires IsYearLabel(c)
    ensures DetectedPairs(front + [c]) == DetectedPairs(front) + [YearPair(LeadingYear(c), c)]
  {
    DetectedPairsSnoc(front, c);
  }

  lemma DetectedPairsSkip(front: seq<Label>, c: Label)
    requires !IsYearLabel(c)
    ensures DetectedPairs(front + [c]) == DetectedPairs(front)
  {
    DetectedPairsSnoc(front, c);
  }

  predicate SortedByYear(s: seq<YearPair>) {
    forall i, j :: 0 <= i < j < |s| ==> s[i].year <= s[j].year
  }

  predicate Distinct(s: seq<YearPair>) {
    forall i, j :: 0 <= i < j < |s| ==> s[i] != s[j]
  }

  /** Puts `p` before the first pair whose year is not smaller. */
  function InsertByYear(p: YearPair, s: seq<YearPair>): (r: seq<YearPair>)
    requires SortedByYear(s)
    ensures SortedByYear(r)
    ensures |r| == |s| + 1
    ensures forall q :: q in r <==> q == p || q in s
  {
    if s == [] || p.year <= s[0].year then [p] + s
    else
      var tail := InsertByYear(p, s[1..]);
      assert forall q :: q in tail ==> s[0].year <= q.year;
      [s[0]] + tail
  }

  lemma {:induction false} InsertKeepsDistinct(p: YearPair, s: seq<YearPair>)
    requires SortedByYear(s) && Distinct(s) && p !in s
    ensures Distinct(InsertByYear(p, s))
  {
    if s != [] && p.year > s[0].year {
      assert s[0] !in s[1..] by {
        forall k | 0 <= k < |s| - 1 ensures s[1..][k] != s[0] {
          assert s[1..][k] == s[k + 1];
        }
      }
      InsertKeepsDistinct(p, s[1..]);
    }
  }

  /** `sorted(list(set(pairs)), key=lambda x: x[0])`: duplicates dropped, ascending by year. */
  function SortUnique(s: seq<YearPair>): (r: seq<YearPair>)
    ensures SortedByYear(r) && Distinct(r)
    ensures forall p :: p in r <==> p in s
  {
    if s == [] then []
    else
      var front := s[..|s| - 1];
      var p := s[|s| - 1];
      assert s == front + [p];
      var rest := SortUnique(front);
      if p in rest then rest
      else
        InsertKeepsDistinct(p, rest);
        InsertByYear(p, rest)
  }

  /**
   * `_year_pairs(cols)`: the loop appends a pair for every column whose
   * stripped head is all digits; the result is de-duplicated and sorted.
   */
  method YearPairs(cols: seq<Label>) returns (pairs: seq<YearPair>)
    ensures pairs == SortUnique(DetectedPairs(cols))
    ensures SortedByYear(pairs) && Distinct(pairs)
    ensures forall p :: p in pairs <==> Registered(cols, p)
  {
    var found: seq<YearPair> := [];
    for i := 0 to |cols|
      invariant found == DetectedPairs(cols[..i])
    {
      var s := Strip(cols[i]);
      var y := s[..if |s| < 4 then |s| else 4];
      assert y == YearToken(cols[i]);
      assert cols[..i + 1] == cols[..i] + [cols[i]];
      DetectedPairsSnoc(cols[..i], cols[i]);
      if y != [] && AllDigits(y) {
        found := found + [YearPair(DecimalValue(y), cols[i])];
      }
    }
    assert cols[..|cols|] == cols;
    DetectedPairsMembers(cols);
    pairs := SortUnique(found);
  }

  /** `[str(y) for y, _ in year_pairs]`: the labels the year selectbox offers. */
  function YearLabels(pairs: seq<YearPair>): (r: seq<string>)
    ensures |r| == |pairs|
    ensures forall i :: 0 <= i < |r| ==> r[i] == ToDecimal(pairs[i].year)
  {
    seq(|pairs|, i requires 0 <= i < |pairs| => ToDecimal(pairs[i].year))
  }

  /** `{str(y): raw for y, raw in year_pairs}`: a later pair overwrites an earlier one with the same year. */
  function YearMap(pairs: seq<YearPair>): (m: map<string, Label>)
    ensures forall p :: p in pairs ==> ToDecimal(p.year) in m
  {
    if pairs == [] then map[]
    else
      var front := pairs[..|pairs| - 1];
      var p := pairs[|pairs| - 1];
      assert pairs == front + [p];
      YearMap(front)[ToDecimal(p.year) := p.column]
  }

  /** Every key of the dictionary is the label of some pair's year, and maps to that pair's column. */
  lemma {:induction false} YearMapValues(pairs: seq<YearPair>, k: string)
    requires k in YearMap(pairs)
    ensures exists p :: p in pairs && ToDecimal(p.year) == k && YearMap(pairs)[k] == p.column
  {
    var front := pairs[..|pairs| - 1];
    var p := pairs[|pairs| - 1];
    assert pairs == front + [p];
    if k == ToDecimal(p.year) {
      assert YearMap(pairs)[k] == p.column;
    } else {
      YearMapValues(front, k);
      var q :| q in front && ToDecimal(q.year) == k && YearMap(front)[k] == q.column;
      assert q in pairs;
    }
  }

  /** For every year, the dictionary keeps the label of the last pair carrying that year. */
  lemma {:induction false} YearMapLastWins(pairs: seq<YearPair>, i: nat)
    requires i < |pairs|
    requires forall k :: i < k < |pairs| ==> pairs[k].year != pairs[i].year
    ensures YearMap(pairs)[ToDecimal(pairs[i].year)] == pairs[i].column
  {
    var front := pairs[..|pairs| - 1];
    var p := pairs[|pairs| - 1];
    if i < |pairs| - 1 {
      ToDecimalInjective(p.year, pairs[i].year);
      assert front[i] == pairs[i];
      YearMapLastWins(front, i);
    }
  }

  /** The year selectbox's outcome: the label shown and the column it resolves to. */
  datatype YearChoice = YearChoice(display: string, column: Label)

  /**
   * Choosing entry `index` of the year selectbox: the shown label is
   * `str(year)`, and the column is the one the dictionary holds for it, a
   * label that produced that same year.
   */
  function SelectYear(pairs: seq<YearPair>, index: nat): (c: YearChoice)
    requires index < |pairs|
    ensures c.display == ToDecimal(pairs[index].year)
    ensures YearPair(pairs[index].year, c.column) in pairs
  {
    var shown := YearLabels(pairs)[index];
    var column := YearMap(pairs)[shown];
    assert YearPair(pairs[index].year, column) in pairs by {
      YearMapValues(pairs, shown);
      var p :| p in pairs && ToDecimal(p.year) == shown && column == p.column;
      ToDecimalInjective(p.year, pairs[index].year);
    }
    YearChoice(shown, column)
  }

  /** The year selectbox's default: the last label is pre-selected; no year columns means no selection. */
  function DefaultYear(pairs: seq<YearPair>): (c: Option<YearChoice>)
    ensures c.None? <==> pairs == []
  {
    if pairs == [] then None else Some(SelectYear(pairs, |pairs| - 1))
  }

  /**
   * With the pairs ascending by year, the default choice is the largest year
   * and resolves to the label of the last pair.
   */
  lemma DefaultIsLatest(pairs: seq<YearPair>)
    requires SortedByYear(pairs) && pairs != []
    ensures var last := pairs[|pairs| - 1];
      && DefaultYear(pairs) == Some(YearChoice(ToDecimal(last.year), last.column))
      && forall p :: p in pairs ==> p.year <= last.year
  {
    YearMapLastWins(pairs, |pairs| - 1);
  }

  /**
   * When two labels produce the same year, both selectbox entries resolve to
   * the later pair's column: the earlier label is unreachable.
   */
  lemma {:induction false} DuplicateYearCollapses(pairs: seq<YearPair>, i: nat, j: nat)
    requires i < j < |pairs| && pairs[i].year == pairs[j].year
    requires forall k :: j < k < |pairs| ==> pairs[k].year != pairs[j].year
    ensures SelectYear(pairs, i).column == pairs[j].column
    ensures SelectYear(pairs, i) == SelectYear(pairs, j)
  {
    YearMapLastWins(pairs, j);
  }

  /** `str.strip()` and the four-character token of one label, step by step. */
  lemma TokenOfPlainLabel(name: Label)
    requires |name| >= 4 && AllDigits(name[..4]) && !IsSpace(name[0]) && !IsSpace(name[|name| - 1])
    ensures IsYearLabel(name) && YearToken(name) == name[..4]
  {
    assert StripLeft(name) == name;
    assert StripRight(name) == name;
  }

  lemma Example2020()
    ensures IsYearLabel("2020") && LeadingYear("2020") == 2020
  {
    TokenOfPlainLabel("2020");
    assert "2020"[..4] == "2020";
    assert "2020"[..3] == "202" && "202"[..2] == "20" && "20"[..1] == "2" && "2"[..0] == "";
  }

  lemma Example2021()
    ensures IsYearLabel("2021 p)") && LeadingYear("2021 p)") == 2021
  {
    TokenOfPlainLabel("2021 p)");
    assert "2021 p)"[..4] == "2021";
    assert "2021"[..3] == "202" && "202"[..2] == "20" && "20"[..1] == "2" && "2"[..0] == "";
  }

  /** The detection loop over a header shaped like the example: two labels, two year columns, one label. */
  lemma DetectedOfHeader(a: Label, b: Label, c: Label, d: Label, e: Label)
    requires !IsYearLabel(a) && !IsYearLabel(b) && !IsYearLabel(e)
    requires IsYearLabel(c) && IsYearLabel(d)
    ensures DetectedPairs([a, b, c, d, e]) == [YearPair(LeadingYear(c), c), YearPair(LeadingYear(d), d)]
  {
    var pc, pd := YearPair(LeadingYear(c), c), YearPair(LeadingYear(d), d);
    assert DetectedPairs([a, b]) == [] by {
      DetectedPairsSkip([], a);
      assert [] + [a] == [a];
      DetectedPairsSkip([a], b);
      assert [a] + [b] == [a, b];
    }
    assert DetectedPairs([a, b, c]) == [pc] by {
      DetectedPairsAppend([a, b], c);
      assert [a, b] + [c] == [a, b, c];
    }
    assert DetectedPairs([a, b, c, d]) == [pc, pd] by {
      DetectedPairsAppend([a, b, c], d);
      assert [a, b, c] + [d] == [a, b, c, d];
    }
    DetectedPairsSkip([a, b, c, d], e);
    assert [a, b, c, d] + [e] == [a, b, c, d, e];
  }

  /** The loop over the example header appends exactly the two year-like columns. */
  lemma ExampleHeaderDetected()
    ensures DetectedPairs(["시도별", "항목", "2020", "2021 p)", "총계"])
         == [YearPair(2020, "2020"), YearPair(2021, "2021 p)")]
  {
    NotYearLabel("시도별");
    NotYearLabel("항목");
    NotYearLabel("총계");
    Example2020();
    Example2021();
    DetectedOfHeader("시도별", "항목", "2020", "2021 p)", "총계");
  }

  /** The example header: only the two year-like columns register, in year order. */
  lemma ExampleHeader()
    ensures SortUnique(DetectedPairs(["시도별", "항목", "2020", "2021 p)", "총계"]))
         == [YearPair(2020, "2020"), YearPair(2021, "2021 p)")]
  {
    ExampleHeaderDetected();
    var p, q := YearPair(2020, "2020"), YearPair(2021, "2021 p)");
    assert [p, q][..1] == [p];
    assert [p][..0] == [];
    assert InsertByYear(p, []) == [p];
    assert SortUnique([p]) == [p];
    assert q !in [p];
    assert InsertByYear(q, []) == [q];
    assert InsertByYear(q, [p]) == [p, q];
  }

  /** A label whose first character is neither whitespace nor a digit never registers. */
  lemma NotYearLabel(name: Label)
    requires name != [] && !IsSpace(name[0]) && !IsDigit(name[0])
    ensures !IsYearLabel(name)
  {
    assert StripLeft(name) == name;
    var r := StripRight(name);
    StripRightSpec(name);
    assert r != [] ==> r[0] == name[0];
  }

  /**
   * A label of one to four digits with whitespace around it registers, with
   * the value of those digits: `" 12 "` is year 12.
   */
  lemma PaddedDigitsLabel(pad1: string, digits: string, pad2: string)
    requires AllSpace(pad1) && AllSpace(pad2)
    requires 1 <= |digits| <= 4 && AllDigits(digits)
    ensures IsYearLabel(pad1 + digits + pad2)
    ensures LeadingYear(pad1 + digits + pad2) == DecimalValue(digits)
  {
    assert IsDigit(digits[0]) && IsDigit(digits[|digits| - 1]);
    StripPadded(pad1, digits, pad2);
    assert digits[..|digits|] == digits;
  }
}
