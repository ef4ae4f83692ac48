/**
 * One rerun of the dashboard script after a widget change: filter the table,
 * show the recipient count and build the per-year table for the bar chart.
 */
module Dashboard {
  import opened Wrappers
  import opened Series
  import opened Awardees
  import opened Filters
  import opened Aggregates

  method Refresh(df: Table, sel: Selection) returns (filteredDf: Table, recipients: nat, perYear: seq<YearCount>)
    ensures filteredDf == Select(df, sel)
    ensures recipients == |filteredDf|
    ensures perYear == YearCounts(filteredDf)
    ensures Total(perYear) <= recipients
    ensures Total(perYear) == recipients <==> forall i :: 0 <= i < recipients ==> filteredDf[i].year.Some?
  {
    filteredDf := ApplyFilters(df, sel);
    recipients := |filteredDf|;
    perYear := YearCounts(filteredDf);
    YearCountsTotal(filteredDf);
  }

  function Row(year: int, scholarship: string): Record {
    Record(Some(year), Some(scholarship), None, None, None, None, None)
  }

  /** Two of three rows admitted in 2020: choosing 2020 leaves those two, charted as one bar of two. */
  lemma ThreeRowScenario()
    ensures var t := [Row(2020, "Reguler"), Row(2021, "Afirmasi"), Row(2020, "Afirmasi")];
      var f := Select(t, NoSelection.(years := {2020}));
      && f == [t[0], t[2]]
      && YearCounts(f) == [YearCount(2020, 2)]
  {
    var t := [Row(2020, "Reguler"), Row(2021, "Afirmasi"), Row(2020, "Afirmasi")];
    assert Select(t, NoSelection.(years := {2020})) == [t[0], t[2]];
    TwoRowsOf2020([t[0], t[2]]);
  }

  /** Two rows of 2020 give one bar of height two. */
  lemma TwoRowsOf2020(f: Table)
    requires |f| == 2 && f[0].year == Some(2020) && f[1].year == Some(2020)
    ensures YearCounts(f) == [YearCount(2020, 2)]
  {
    assert Years(f) == [Some(2020), Some(2020)];
    assert CountYear(f, 2020) == 2;
    var r := YearCounts(f);
    assert Some(2020) in Years(f);
    var i :| 0 <= i < |r| && r[i].year == 2020;
    assert forall j :: 0 <= j < |r| ==> Some(r[j].year) in Years(f);
    assert forall j :: 0 <= j < |r| ==> r[j].year == 2020;
    assert |r| == 1;
  }
}
