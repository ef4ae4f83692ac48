# LPDP NTB awardee dashboard: filter and count core

A model of the logic inside the Streamlit dashboard `Streamlit_mgntb.py`. The dashboard shows recipients of LPDP scholarships from Nusa Tenggara Barat. It loads a table of awardees. Five sidebar multiselects narrow the table. The page then shows the number of matching recipients and a bar chart of recipients per admission year.

The model has these parts:

- `Wrappers`: `Option`. A missing cell (NaN) is `None`.
- `Series`: the pandas and Python operations the script uses, each stated by what it promises. They are `dropna()` (`DropNa`), `unique()` (`Unique`), `sorted` (`Sort`) and boolean-mask row selection `df[mask]` (`Keep`).
- `Awardees`: a `Record` per row, a `Table` as `seq<Record>`, and the columns the script reads.
- `Filters`: the filter block (lines 39-49). `ApplyFilters` is a method. It copies the table, then reassigns the filtered table once for each non-empty multiselect, in the script's order. Its contract ties the result to `Select`, the reference meaning. `Select` keeps a row when it passes every non-empty selection. An empty selection imposes no constraint, and a missing cell never passes a non-empty one.
- `Sidebar`: the option lists of the five multiselects (lines 32-36).
- `Aggregates`: the year table `value_counts().sort_index()` (line 55).
- `Dashboard`: one rerun of the script. It filters, counts the rows (line 51) and builds the year table.

A selection naming a value absent from the data is not treated as "no constraint": `isin` with such a value matches no rows, so the filtered table loses every row (`Filters.StaleSelectionMatchesNothing`). The loader never checks the HTTP status of its request; the loader is outside this model.

## Model

| member | source | states |
|---|---|---|
| Series.DropNa | Streamlit_mgntb.py:32-36 | the result has one entry per present cell (the column's length minus its missing cells), each value as often as it occurs in the column, in the column's order |
| Series.Unique | Streamlit_mgntb.py:32-36 | no value occurs twice, and the result has exactly the values of the input |
| Series.Sort | Streamlit_mgntb.py:32 | the result is ascending and a permutation of the input, and strictly ascending when the input has no duplicates |
| Series.Keep | Streamlit_mgntb.py:41 | mask selection never adds rows, and every row it returns satisfies the mask |
| Series.KeepMultiplicity | Streamlit_mgntb.py:41 | a row occurs in the result as often as in the input if it satisfies the mask, and not at all otherwise |
| Series.KeepIsSubsequence | Streamlit_mgntb.py:41 | mask selection returns a subsequence of the input, in the original order |
| Series.KeepTwice | Streamlit_mgntb.py:40-43 | narrowing by one mask and then another equals narrowing once by their conjunction |
| Series.KeepCongruent | Streamlit_mgntb.py:41 | two masks that agree on every row select the same rows |
| Series.KeepEverything | Streamlit_mgntb.py:39 | a mask that every row satisfies returns the table unchanged |
| Awardees.Years | Streamlit_mgntb.py:32 | the year column has one cell per row, the year of that row |
| Awardees.Texts | Streamlit_mgntb.py:33-36 | a categorical column has one cell per row, that row's value |
| Filters.ApplyFilters | Streamlit_mgntb.py:39-49 | the copied and five-times-guarded-narrowed table equals the rows that match the conjunction of the non-empty selections, in input order |
| Filters.Where | Streamlit_mgntb.py:41-49 | one `isin` step never adds rows, and every row it keeps has a present value in the step's set |
| Filters.WhereMultiplicity | Streamlit_mgntb.py:41-49 | one `isin` step keeps each passing row as often as it occurs in its input, and no other row |
| Filters.WhereTightens | Streamlit_mgntb.py:40-49 | one guarded `isin` step on a column not yet constrained narrows the result to the selection with that column added |
| Filters.NoSelectionKeepsAll | Streamlit_mgntb.py:39-49 | with every multiselect empty, the filtered table equals the input table, rows and order |
| Filters.SelectSound | Streamlit_mgntb.py:40-49 | every kept row has, for each non-empty selection, a present value in the selected set |
| Filters.SelectComplete | Streamlit_mgntb.py:39-49 | every matching input row is kept, with its multiplicity, and no other row is; the result is an order-preserving subsequence and never longer than the input |
| Filters.ReapplyIsNoOp | Streamlit_mgntb.py:40-49 | filtering the filtered table again with the same selections changes nothing |
| Filters.StaleSelectionMatchesNothing | Streamlit_mgntb.py:40-41 | a year selection holding only years absent from the table leaves no rows; it is not ignored |
| Filters.NarrowAllConjunction | Streamlit_mgntb.py:40-49 | applying `isin` steps one after another keeps exactly the rows passing all of them |
| Filters.ActiveMeansMatches | Streamlit_mgntb.py:40-49 | a row passes the steps of the non-empty multiselects iff it matches the selection |
| Filters.FilterOrderIrrelevant | Streamlit_mgntb.py:40-49 | applying the non-empty filters in any order, even with repeats, gives the filter block's result |
| Filters.UnguardedEmptyStepDropsAll | Streamlit_mgntb.py:40-49 | an `isin` step with an empty list would keep no row, which is why each step is guarded |
| Sidebar.YearOptions | Streamlit_mgntb.py:32 | the year options are strictly ascending (so distinct) and are exactly the years present in the table |
| Sidebar.CategoryOptions | Streamlit_mgntb.py:33-36 | the options of a categorical column are distinct and are exactly the values present in that column |
| Sidebar.YearOptionSelectsRows | Streamlit_mgntb.py:32-41 | selecting a single year keeps some row iff that year is among the offered options |
| Sidebar.CategoryOptionSelectsRows | Streamlit_mgntb.py:33-49 | selecting a single categorical value keeps some row iff that value is among the offered options |
| Aggregates.CountYear | Streamlit_mgntb.py:55 | a year's count is the number of cells of the year column that hold that year, and never exceeds the number of rows |
| Aggregates.CountYearPositive | Streamlit_mgntb.py:55 | a year's row count is at least one iff some row carries that year |
| Aggregates.Tally | Streamlit_mgntb.py:55 | each tallied year is paired with its number of rows, in the order of the years given |
| Aggregates.YearCounts | Streamlit_mgntb.py:55 | the year keys are strictly ascending; each count equals the number of rows with that year and is at least one; the keys are exactly the years present |
| Aggregates.TallyCovers | Streamlit_mgntb.py:55 | counting over distinct years that cover every present year counts each dated row exactly once |
| Aggregates.YearCountsTotal | Streamlit_mgntb.py:55 | the year counts sum to the number of rows whose year is present |
| Dashboard.Refresh | Streamlit_mgntb.py:39-55 | the displayed count is the length of the filtered table; the year table is built from the filtered rows; its total is at most the count, and equal iff no filtered row lacks a year |
| Dashboard.ThreeRowScenario | Streamlit_mgntb.py:39-55 | rows (2020, Reguler), (2021, Afirmasi), (2020, Afirmasi) filtered to 2020 leave the first and third rows, with year table [(2020, 2)] |
| Dashboard.TwoRowsOf2020 | Streamlit_mgntb.py:55 | two rows both admitted in 2020 give the year table [(2020, 2)] |

## Left out

- The secret lookup and the authenticated HTTP GET (lines 7-15): network I/O through a foreign library. The script never checks the response status, so no "source unavailable" error is modelled.
- CSV parsing with `pd.read_csv` (line 16): a library parser. The model starts from the parsed table.
- The commented-out loader with column-name normalisation (lines 20-26): dead code.
- Widgets, `st.dataframe`, `st.markdown`, titles and subheaders (lines 17, 28-36, 51, 54): UI rendering. Only the values they display are modelled.
- The plotly bar chart and the four categorical histograms (lines 57-78): the per-category counting is done inside plotly.
- Pandas row index labels: the model keeps rows and their order but not the index that `df[mask]` carries along.
- Years are integers. Pandas stores the year column as floating point when a cell is missing; this changes neither equality nor order of the years.
- Series.Unique: pandas returns values in order of first appearance; the function computes that order, but its contract states only distinctness and the set of values.
