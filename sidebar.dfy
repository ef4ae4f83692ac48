/**
 * The option lists of the five sidebar multiselects: the distinct present
 * values of each column, the years also sorted ascending.
 */
module Sidebar {
  import opened Wrappers
  import opened Series
  import opened Awardees
  import opened Filters

  /** `sorted(df['tahun_diterima_lpdp'].dropna().unique())`. */
  function YearOptions(t: Table): (r: seq<int>)
    ensures StrictlyAscending(r)
    ensures forall y :: y in r <==> Some(y) in Years(t)
  {
    var u := Unique(DropNa(Years(t)));
    var r := Sort(u);
    assert forall y :: y in r <==> y in multiset(u);
    r
  }

  /** `df[column].dropna().unique()`, for a categorical column. */
  function CategoryOptions(t: Table, c: Category): (r: seq<string>)
    ensures Distinct(r)
    ensures forall v :: v in r <==> Some(v) in Texts(t, c)
  {
    Unique(DropNa(Texts(t, c)))
  }

  /** Selecting one year alone keeps some row exactly when that year is offered. */
  lemma YearOptionSelectsRows(t: Table, y: int)
    ensures y in YearOptions(t) <==> Select(t, NoSelection.(years := {y})) != []
  {
    var sel := NoSelection.(years := {y});
    if y in YearOptions(t) {
      var k :| 0 <= k < |t| && Years(t)[k] == Some(y);
      assert t[k] in t && Matches(t[k], sel);
      SelectComplete(t, sel, t[k]);
    } else {
      StaleSelectionMatchesNothing(t, sel);
    }
  }

  /** Selecting one value of a categorical column keeps some row exactly when that value is offered. */
  lemma {:induction false} CategoryOptionSelectsRows(t: Table, c: Category, v: string)
    ensures v in CategoryOptions(t, c) <==> Select(t, Constrain(NoSelection, TextIn(c, {v}))) != []
  {
    var sel := Constrain(NoSelection, TextIn(c, {v}));
    assert forall r :: Matches(r, sel) <==> Text(r, c) == Some(v);
    if t != [] {
      CategoryOptionSelectsRows(t[1..], c, v);
      assert Texts(t, c) == [Text(t[0], c)] + Texts(t[1..], c);
    }
  }
}
