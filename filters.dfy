/**
 * The sidebar filter block: starting from a copy of the table, each of the
 * five multiselects that holds at least one value narrows the rows to those
 * whose cell is one of the selected values (`Series.isin`).
 */
module Filters {
  import opened Wrappers
  import opened Series
  import opened Awardees

  /** `isin`: the cell is present and one of the chosen values. A missing cell
      never matches, since the options a user can choose exclude missing values. */
  predicate In<T>(v: Option<T>, chosen: set<T>) {
    v.Some? && v.value in chosen
  }

  /** One narrowing step: the column it tests and the values `isin` accepts. */
  datatype Criterion = YearIn(years: set<int>) | TextIn(column: Category, values: set<string>)

  predicate Passes(r: Record, c: Criterion) {
    match c
    case YearIn(ys) => In(r.year, ys)
    case TextIn(col, vs) => In(Text(r, col), vs)
  }

  /** `filtered_df[filtered_df[column].isin(values)]`. */
  function Where(t: Table, c: Criterion): (kept: Table)
    ensures |kept| <= |t|
    ensures forall i :: 0 <= i < |kept| ==> Passes(kept[i], c)
  {
    Keep(t, r => Passes(r, c))
  }

  /** A step keeps each passing row as often as it occurs, and drops every other row. */
  lemma WhereMultiplicity(t: Table, c: Criterion, x: Record)
    ensures multiset(Where(t, c))[x] == if Passes(x, c) then multiset(t)[x] else 0
  {
    KeepMultiplicity(t, r => Passes(r, c), x);
  }

  /** The five multiselects: year, scholarship type, level, regency/city, gender. */
  datatype Selection = Selection(
    years: set<int>,
    scholarships: set<string>,
    levels: set<string>,
    regions: set<string>,
    genders: set<string>)

  const NoSelection := Selection({}, {}, {}, {}, {})

  /** The values chosen for a categorical column. */
  function Chosen(sel: Selection, c: Category): set<string> {
    match c
    case Scholarship => sel.scholarships
    case Level => sel.levels
    case Region => sel.regions
    case Gender => sel.genders
  }

  /** A selection constrains its column only when it is non-empty. */
  predicate Admits<T>(chosen: set<T>, v: Option<T>) {
    chosen == {} || In(v, chosen)
  }

  /** The reference meaning of the filter block: a conjunction of optional membership tests. */
  predicate Matches(r: Record, sel: Selection) {
    && Admits(sel.years, r.year)
    && Admits(sel.scholarships, r.scholarship)
    && Admits(sel.levels, r.level)
    && Admits(sel.regions, r.region)
    && Admits(sel.genders, r.gender)
  }

  /** The rows of `t` matching `sel`, in their original order. */
  function Select(t: Table, sel: Selection): Table {
    Keep(t, r => Matches(r, sel))
  }

  /** The selection with the column of `c` set to the values of `c`. */
  function Constrain(sel: Selection, c: Criterion): Selection {
    match c
    case YearIn(ys) => sel.(years := ys)
    case TextIn(Scholarship, vs) => sel.(scholarships := vs)
    case TextIn(Level, vs) => sel.(levels := vs)
    case TextIn(Region, vs) => sel.(regions := vs)
    case TextIn(Gender, vs) => sel.(genders := vs)
  }

  /** `sel` does not yet constrain the column `c` tests, and `c` tests a non-empty set. */
  predicate Fresh(sel: Selection, c: Criterion) {
    match c
    case YearIn(ys) => sel.years == {} && ys != {}
    case TextIn(col, vs) => Chosen(sel, col) == {} && vs != {}
  }

  /** One guarded step narrows a partly applied selection by one more column. */
  lemma WhereTightens(t: Table, sel: Selection, c: Criterion)
    requires Fresh(sel, c)
    ensures Where(Select(t, sel), c) == Select(t, Constrain(sel, c))
  {
    KeepTwice(t, r => Matches(r, sel), r => Passes(r, c), r => Matches(r, Constrain(sel, c)));
  }

  /** Lines 39-49: copy the table, then apply each non-empty multiselect in turn. */
  method ApplyFilters(df: Table, sel: Selection) returns (filteredDf: Table)
    ensures filteredDf == Select(df, sel)
  {
    filteredDf := df;
    ghost var applied := NoSelection;
    NoSelectionKeepsAll(df);
    if sel.years != {} {
      WhereTightens(df, applied, YearIn(sel.years));
      filteredDf := Where(filteredDf, YearIn(sel.years));
    }
    applied := applied.(years := sel.years);
    if sel.scholarships != {} {
      WhereTightens(df, applied, TextIn(Scholarship, sel.scholarships));
      filteredDf := Where(filteredDf, TextIn(Scholarship, sel.scholarships));
    }
    applied := applied.(scholarships := sel.scholarships);
    if sel.levels != {} {
      WhereTightens(df, applied, TextIn(Level, sel.levels));
      filteredDf := Where(filteredDf, TextIn(Level, sel.levels));
    }
    applied := applied.(levels := sel.levels);
    if sel.regions != {} {
      WhereTightens(df, applied, TextIn(Region, sel.regions));
      filteredDf := Where(filteredDf, TextIn(Region, sel.regions));
    }
    applied := applied.(regions := sel.regions);
    if sel.genders != {} {
      WhereTightens(df, applied, TextIn(Gender, sel.genders));
      filteredDf := Where(filteredDf, TextIn(Gender, sel.genders));
    }
    applied := applied.(genders := sel.genders);
    assert applied == sel;
  }

  /** With every multiselect empty the filtered table is the input table, rows and order. */
  lemma NoSelectionKeepsAll(t: Table)
    ensures Select(t, NoSelection) == t
  {
    KeepEverything(t, r => Matches(r, NoSelection));
  }

  /** Every kept row has, for each non-empty selection, a present value in the selected set. */
  lemma SelectSound(t: Table, sel: Selection, i: nat)
    requires i < |Select(t, sel)|
    ensures var r := Select(t, sel)[i];
      && (sel.years != {} ==> r.year.Some? && r.year.value in sel.years)
      && (sel.scholarships != {} ==> r.scholarship.Some? && r.scholarship.value in sel.scholarships)
      && (sel.levels != {} ==> r.level.Some? && r.level.value in sel.levels)
      && (sel.regions != {} ==> r.region.Some? && r.region.value in sel.regions)
      && (sel.genders != {} ==> r.gender.Some? && r.gender.value in sel.genders)
  {
  }

  /** Every matching input row is kept, as often as it occurs; no other row is; order is kept. */
  lemma SelectComplete(t: Table, sel: Selection, r: Record)
    ensures multiset(Select(t, sel))[r] == if Matches(r, sel) then multiset(t)[r] else 0
    ensures Matches(r, sel) && r in t ==> r in Select(t, sel)
    ensures IsSubsequence(Select(t, sel), t)
    ensures |Select(t, sel)| <= |t|
  {
    KeepMultiplicity(t, r => Matches(r, sel), r);
    KeepIsSubsequence(t, r => Matches(r, sel));
  }

  /** Reapplying the same selections to the filtered table changes nothing. */
  lemma ReapplyIsNoOp(t: Table, sel: Selection)
    ensures Select(Select(t, sel), sel) == Select(t, sel)
  {
    KeepTwice(t, r => Matches(r, sel), r => Matches(r, sel), r => Matches(r, sel));
  }

  /** A selection holding only values absent from the table keeps no row: it is not ignored. */
  lemma {:induction false} StaleSelectionMatchesNothing(t: Table, sel: Selection)
    requires sel.years != {}
    requires forall y :: y in sel.years ==> Some(y) !in Years(t)
    ensures Select(t, sel) == []
  {
    if t != [] {
      if t[0].year.Some? {
        var y := t[0].year.value;
        assert Years(t)[0] == Some(y);
        assert Some(y) in Years(t);
      }
      assert !Matches(t[0], sel);
      assert forall k :: 0 <= k < |t| - 1 ==> Years(t[1..])[k] == Years(t)[k + 1];
      StaleSelectionMatchesNothing(t[1..], sel);
    }
  }

  /** The narrowing steps that the non-empty multiselects perform, in the script's order. */
  function Active(sel: Selection): (cs: seq<Criterion>) {
    (if sel.years != {} then [YearIn(sel.years)] else [])
    + (if sel.scholarships != {} then [TextIn(Scholarship, sel.scholarships)] else [])
    + (if sel.levels != {} then [TextIn(Level, sel.levels)] else [])
    + (if sel.regions != {} then [TextIn(Region, sel.regions)] else [])
    + (if sel.genders != {} then [TextIn(Gender, sel.genders)] else [])
  }

  /** Applying narrowing steps one after another, in the order given. */
  function NarrowAll(t: Table, cs: seq<Criterion>): Table
    decreases |cs|
  {
    if cs == [] then t else NarrowAll(Where(t, cs[0]), cs[1..])
  }

  predicate PassesAll(r: Record, cs: seq<Criterion>) {
    forall c :: c in cs ==> Passes(r, c)
  }

  /** A sequence of narrowing steps keeps exactly the rows that pass every step. */
  lemma {:induction false} NarrowAllConjunction(t: Table, cs: seq<Criterion>)
    ensures NarrowAll(t, cs) == Keep(t, r => PassesAll(r, cs))
    decreases |cs|
  {
    if cs == [] {
      KeepEverything(t, r => PassesAll(r, cs));
    } else {
      var c, rest := cs[0], cs[1..];
      NarrowAllConjunction(Where(t, c), rest);
      assert forall x :: PassesAll(x, cs) <==> Passes(x, c) && PassesAll(x, rest) by {
        assert cs == [c] + rest;
      }
      KeepTwice(t, r => Passes(r, c), r => PassesAll(r, rest), r => PassesAll(r, cs));
    }
  }

  /** A row passes the active steps exactly when it matches the selection. */
  lemma ActiveMeansMatches(sel: Selection, r: Record)
    ensures PassesAll(r, Active(sel)) <==> Matches(r, sel)
  {
    var cs := Active(sel);
    if sel.years != {} { assert YearIn(sel.years) in cs; }
    if sel.scholarships != {} { assert TextIn(Scholarship, sel.scholarships) in cs; }
    if sel.levels != {} { assert TextIn(Level, sel.levels) in cs; }
    if sel.regions != {} { assert TextIn(Region, sel.regions) in cs; }
    if sel.genders != {} { assert TextIn(Gender, sel.genders) in cs; }
  }

  /** Applying the non-empty filters in any order (or repeating some) gives the filter block's result. */
  lemma FilterOrderIrrelevant(t: Table, sel: Selection, cs: seq<Criterion>)
    requires forall c :: c in cs <==> c in Active(sel)
    ensures NarrowAll(t, cs) == Select(t, sel)
  {
    NarrowAllConjunction(t, cs);
    forall r | r in t ensures PassesAll(r, cs) == Matches(r, sel) {
      ActiveMeansMatches(sel, r);
    }
    KeepCongruent(t, r => PassesAll(r, cs), r => Matches(r, sel));
  }

  /** `isin` with an empty list keeps nothing, which is why each step is guarded. */
  lemma {:induction false} UnguardedEmptyStepDropsAll(t: Table, c: Criterion)
    requires c.YearIn? ==> c.years == {}
    requires c.TextIn? ==> c.values == {}
    ensures Where(t, c) == []
  {
    if t != [] {
      UnguardedEmptyStepDropsAll(t[1..], c);
    }
  }
}
