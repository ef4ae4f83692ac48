/**
 * The year chart's table:
 * `filtered_df['tahun_diterima_lpdp'].value_counts().sort_index()`,
 * one (year, count) pair per present year, in ascending year order.
 */
module Aggregates {
  import opened Wrappers
  import opened Series
  import opened Awardees
  import opened Sidebar

  datatype YearCount = YearCount(year: int, count: nat)

  /** The number of rows admitted in year `y`. */
  function CountYear(t: Table, y: int): (n: nat)
    ensures n == multiset(Years(t))[Some(y)]
    ensures n <= |t|
  {
    if t == [] then 0
    else
      assert Years(t) == [t[0].year] + Years(t[1..]);
      (if t[0].year == Some(y) then 1 else 0) + CountYear(t[1..], y)
  }

  /** A year has a positive count exactly when some row carries it. */
  lemma {:induction false} CountYearPositive(t: Table, y: int)
    ensures CountYear(t, y) >= 1 <==> Some(y) in Years(t)
  {
    if t != [] {
      CountYearPositive(t[1..], y);
      assert Years(t) == [t[0].year] + Years(t[1..]);
    }
  }

  /** Pairs each of `ys` with its count in `t`. */
  function Tally(t: Table, ys: seq<int>): (r: seq<YearCount>)
    ensures |r| == |ys|
    ensures forall i :: 0 <= i < |ys| ==> r[i] == YearCount(ys[i], CountYear(t, ys[i]))
  {
    if ys == [] then [] else [YearCount(ys[0], CountYear(t, ys[0]))] + Tally(t, ys[1..])
  }

  /** `value_counts().sort_index()`: the index is the distinct present years, ascending. */
  function YearCounts(t: Table): (r: seq<YearCount>)
    ensures forall i, j :: 0 <= i < j < |r| ==> r[i].year < r[j].year
    ensures forall i :: 0 <= i < |r| ==> r[i].count == CountYear(t, r[i].year) >= 1
    ensures forall y :: Some(y) in Years(t) <==> exists i :: 0 <= i < |r| && r[i].year == y
  {
    var ys := YearOptions(t);
    var r := Tally(t, ys);
    forall i | 0 <= i < |r| ensures r[i].count == CountYear(t, r[i].year) >= 1 {
      assert r[i].year == ys[i] && ys[i] in ys;
      CountYearPositive(t, ys[i]);
    }
    forall y | Some(y) in Years(t) ensures exists i :: 0 <= i < |r| && r[i].year == y {
      var i :| 0 <= i < |ys| && ys[i] == y;
      assert r[i].year == y;
    }
    forall i | 0 <= i < |r| ensures Some(r[i].year) in Years(t) {
      assert r[i].year == ys[i] && ys[i] in ys;
    }
    r
  }

  /** The sum of the counts of a table of pairs. */
  function Total(cs: seq<YearCount>): nat {
    if cs == [] then 0 else cs[0].count + Total(cs[1..])
  }

  /** How many entries of `ys` the optional year `v` equals. */
  function Hits(ys: seq<int>, v: Option<int>): nat {
    if ys == [] then 0 else (if v == Some(ys[0]) then 1 else 0) + Hits(ys[1..], v)
  }

  lemma {:induction false} HitsDistinct(ys: seq<int>, v: Option<int>)
    requires Distinct(ys)
    ensures Hits(ys, v) == if v.Some? && v.value in ys then 1 else 0
  {
    if ys != [] {
      HitsDistinct(ys[1..], v);
      assert ys == [ys[0]] + ys[1..];
    }
  }

  lemma {:induction false} TallyOfEmpty(ys: seq<int>)
    ensures Total(Tally([], ys)) == 0
  {
    if ys != [] {
      TallyOfEmpty(ys[1..]);
    }
  }

  /** One more row adds one to the count of its year, if that year is tallied. */
  lemma {:induction false} TallyStep(t: Table, ys: seq<int>)
    requires t != []
    ensures Total(Tally(t, ys)) == Total(Tally(t[1..], ys)) + Hits(ys, t[0].year)
  {
    if ys != [] {
      TallyStep(t, ys[1..]);
    }
  }

  /** Tallying over distinct years that cover every present year counts every dated row once. */
  lemma {:induction false} TallyCovers(t: Table, ys: seq<int>)
    requires Distinct(ys)
    requires forall y :: Some(y) in Years(t) ==> y in ys
    ensures Total(Tally(t, ys)) == |DropNa(Years(t))|
  {
    if t == [] {
      TallyOfEmpty(ys);
    } else {
      var col := Years(t);
      assert col == [t[0].year] + Years(t[1..]);
      TallyStep(t, ys);
      HitsDistinct(ys, t[0].year);
      TallyCovers(t[1..], ys);
      assert col[1..] == Years(t[1..]);
      match t[0].year
      case None =>
        assert DropNa(col) == DropNa(Years(t[1..]));
      case Some(y) =>
        assert col[0] == Some(y);
        assert y in ys;
        assert DropNa(col) == [y] + DropNa(Years(t[1..]));
    }
  }

  /** The year counts sum to the number of rows whose year is present. */
  lemma YearCountsTotal(t: Table)
    ensures Total(YearCounts(t)) == |DropNa(Years(t))|
  {
    TallyCovers(t, YearOptions(t));
  }
}
