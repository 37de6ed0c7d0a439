/**
 * The ranking panel of `streamlit_app.py`: `sort_values(year_col,
 * ascending=...)` followed by `head(top_n)`. pandas' default sort is not
 * stable, so the contracts fix which values are kept and their order by
 * value, and leave the order among equal values open.
 */
module Ranking {
  import opened Table

  /** `a` may stand before `b` in the requested direction. */
  predicate Precedes(a: Entry, b: Entry, ascending: bool) {
    if ascending then a.value <= b.value else a.value >= b.value
  }

  predicate Ordered(s: seq<Entry>, ascending: bool) {
    forall i, j :: 0 <= i < j < |s| ==> Precedes(s[i], s[j], ascending)
  }

  /** An entry that may precede every entry of an ordered list may be put in front of it. */
  lemma OrderedCons(x: Entry, t: seq<Entry>, ascending: bool)
    requires Ordered(t, ascending)
    requires forall y :: y in t ==> Precedes(x, y, ascending)
    ensures Ordered([x] + t, ascending)
  {
    forall i, j | 0 <= i < j < |[x] + t| ensures Precedes(([x] + t)[i], ([x] + t)[j], ascending) {
      if i == 0 {
        assert ([x] + t)[j] == t[j - 1];
        assert t[j - 1] in t;
      } else {
        assert ([x] + t)[i] == t[i - 1] && ([x] + t)[j] == t[j - 1];
      }
    }
  }

  /** What may precede the head of an ordered list may precede all of it. */
  lemma PrecedesHeadPrecedesAll(e: Entry, s: seq<Entry>, ascending: bool)
    requires Ordered(s, ascending) && s != [] && Precedes(e, s[0], ascending)
    ensures forall y :: y in s ==> Precedes(e, y, ascending)
  {
    forall y | y in s ensures Precedes(e, y, ascending) {
      var j :| 0 <= j < |s| && s[j] == y;
      if j > 0 { assert Precedes(s[0], s[j], ascending); }
    }
  }

  /** The head of an ordered list may precede anything drawn from its tail or ranked behind it. */
  lemma HeadPrecedesRest(e: Entry, s: seq<Entry>, rest: seq<Entry>, ascending: bool)
    requires Ordered(s, ascending) && s != [] && !Precedes(e, s[0], ascending)
    requires multiset(rest) == multiset(s[1..]) + multiset{e}
    ensures forall y :: y in rest ==> Precedes(s[0], y, ascending)
  {
    forall y | y in rest ensures Precedes(s[0], y, ascending) {
      assert y in multiset(rest);
      if y != e {
        assert y in multiset(s[1..]);
        var j :| 0 <= j < |s[1..]| && s[1..][j] == y;
        assert s[j + 1] == y;
      }
    }
  }

  function Insert(e: Entry, s: seq<Entry>, ascending: bool): (r: seq<Entry>)
    requires Ordered(s, ascending)
    ensures Ordered(r, ascending)
    ensures multiset(r) == multiset(s) + multiset{e}
  {
    if s == [] then [e]
    else if Precedes(e, s[0], ascending) then
      PrecedesHeadPrecedesAll(e, s, ascending);
      OrderedCons(e, s, ascending);
      [e] + s
    else
      var tail := Insert(e, s[1..], ascending);
      assert s == [s[0]] + s[1..];
      HeadPrecedesRest(e, s, tail, ascending);
      OrderedCons(s[0], tail, ascending);
      [s[0]] + tail
  }

  /** `sort_values(year_col, ascending=ascending)`: a permutation ordered by value. */
  function SortByValue(s: seq<Entry>, ascending: bool): (r: seq<Entry>)
    ensures Ordered(r, ascending)
    ensures multiset(r) == multiset(s)
  {
    if s == [] then []
    else
      assert s == [s[0]] + s[1..];
      Insert(s[0], SortByValue(s[1..], ascending), ascending)
  }

  /** `head(n)`: the first `n` entries, or all of them when there are fewer. */
  function Head(s: seq<Entry>, n: nat): (r: seq<Entry>)
    ensures |r| == if n < |s| then n else |s|
    ensures r == s[..|r|]
  {
    if n < |s| then s[..n] else s
  }

  /**
   * Top-N (`ascending = false`) or bottom-N (`ascending = true`): as many
   * entries as asked for or as exist, in ranking order, drawn from the
   * series, and every entry left out ranks no better than every entry kept.
   */
  function Ranked(s: seq<Entry>, n: nat, ascending: bool): (r: seq<Entry>)
    ensures |r| == if n < |s| then n else |s|
    ensures Ordered(r, ascending)
    ensures multiset(r) <= multiset(s)
    ensures forall d, k :: d in multiset(s) - multiset(r) && k in r ==> Precedes(k, d, ascending)
  {
    var sorted := SortByValue(s, ascending);
    var r := Head(sorted, n);
    PrefixDominates(sorted, |r|, ascending);
    r
  }

  /** Cutting an ordered permutation after `m` entries: what is cut off ranks no better than what is kept. */
  lemma PrefixDominates(sorted: seq<Entry>, m: nat, ascending: bool)
    requires Ordered(sorted, ascending) && m <= |sorted|
    ensures multiset(sorted[..m]) <= multiset(sorted)
    ensures forall d, k :: d in multiset(sorted) - multiset(sorted[..m]) && k in sorted[..m] ==> Precedes(k, d, ascending)
  {
    var r, rest := sorted[..m], sorted[m..];
    assert sorted == r + rest;
    assert multiset(sorted) == multiset(r) + multiset(rest);
    forall d, k | d in multiset(rest) && k in r ensures Precedes(k, d, ascending) {
      var a :| 0 <= a < |r| && r[a] == k;
      var b :| 0 <= b < |rest| && rest[b] == d;
      assert sorted[a] == k && sorted[m + b] == d;
    }
  }

  /** When the series is no longer than `n`, the ranking holds every entry of it. */
  lemma RankedAll(s: seq<Entry>, n: nat, ascending: bool)
    requires |s| <= n
    ensures multiset(Ranked(s, n, ascending)) == multiset(s)
  {
    var r := Ranked(s, n, ascending);
    assert |multiset(r)| == |multiset(s)|;
    MultisetSubsetSameSize(multiset(r), multiset(s));
  }

  lemma {:induction false} MultisetSubsetSameSize(a: multiset<Entry>, b: multiset<Entry>)
    requires a <= b && |a| == |b|
    ensures a == b
    decreases |a|
  {
    if a == multiset{} {
      assert |b| == 0;
    } else {
      var x :| x in a;
      assert x in b;
      assert |a - multiset{x}| == |a| - 1;
      assert |b - multiset{x}| == |b| - 1;
      MultisetSubsetSameSize(a - multiset{x}, b - multiset{x});
      assert a == (a - multiset{x}) + multiset{x};
      assert b == (b - multiset{x}) + multiset{x};
    }
  }

  /** The first entry of a top-N list is a largest value of the series; of a bottom-N list, a smallest. */
  lemma RankedHeadIsExtreme(s: seq<Entry>, n: nat, ascending: bool, e: Entry)
    requires n >= 1 && e in s
    ensures var r := Ranked(s, n, ascending);
      r != [] && Precedes(r[0], e, ascending)
  {
    var r := Ranked(s, n, ascending);
    assert r != [];
    if e in r {
      var i :| 0 <= i < |r| && r[i] == e;
      if i > 0 { assert Precedes(r[0], r[i], ascending); }
    } else {
      assert e in multiset(s);
      assert e !in multiset(r);
      assert e in multiset(s) - multiset(r);
      assert r[0] in r;
    }
  }

  /** Sorting three entries descending when the first two are tied and the third is smaller. */
  lemma SortThreeDescending(a: Entry, b: Entry, c: Entry)
    requires a.value == b.value && c.value < b.value
    ensures SortByValue([a, b, c], false) == [a, b, c]
  {
    assert [a, b, c][1..] == [b, c] && [b, c][1..] == [c] && [c][1..] == [];
    assert SortByValue([], false) == [];
    assert Insert(c, [], false) == [c];
    assert SortByValue([c], false) == [c];
    assert Insert(b, [c], false) == [b, c];
    assert SortByValue([b, c], false) == [b, c];
    assert Insert(a, [b, c], false) == [a, b, c];
  }

  /**
   * Three entries, two of them tied at the top: the top-2 list holds both
   * tied entries.
   */
  lemma TiedTopTwo()
    ensures var a, b, c := Entry("A", 10.0), Entry("B", 10.0), Entry("C", 5.0);
      multiset(Ranked([a, b, c], 2, false)) == multiset{a, b}
  {
    var a, b, c := Entry("A", 10.0), Entry("B", 10.0), Entry("C", 5.0);
    SortThreeDescending(a, b, c);
    assert Head([a, b, c], 2) == [a, b];
    assert Ranked([a, b, c], 2, false) == [a, b];
    assert multiset([a, b]) == multiset{a, b};
  }
}
