# HR dashboard data module, in Dafny

This project models `src/updated_data.py`, the data-transform and aggregation
module of a Streamlit HR analytics dashboard, and proves properties of it.

- **Loading** (`load_transform`): every missing cell of the parsed table is
  filled with 0, in every column. Then two columns are appended:
  `ToBePromoted`, an integer flag that is 1 when `YearsSinceLastPromotion >= 5`
  and `PerformanceRating > 2`, and `ToBeRetrenched`, "Yes" when
  `YearsInCurrentRole >= 10` and `PerformanceRating < 3`, or when
  `3 <= YearsInCurrentRole < 10` and `PerformanceRating == 1`, and "No"
  otherwise.
- **Filter options** (`get_filter_options`): the distinct values of `Gender`,
  `Department`, `EducationField` and `JobRole` in order of first appearance,
  and `[min, max]` of `Age` and `YearsAtCompany`. In clearing mode the four
  lists are empty and the ranges stay.
- **Gender counts** (`get_gender_count`): the male and female counts, their
  sum as the total, and each as a percentage of that total, or 0 when the
  total is 0.
- **Retrenchment counts** (`get_retrench_count`): the sizes of the "Yes" and
  "No" groups, 0 for a group that does not occur, and each as a percentage of
  the row count.

Files:

- `Wrappers.dfy`: `Option` (a missing cell, or the minimum of an empty column)
  and `Result` (a computation that raises).
- `Series.dfy`: the column operations the module is built from. These are
  counting the cells equal to a value, `unique`, `min`/`max`, and
  `groupby(...).size()` with `.get(key, 0)`.
- `UpdatedData.dfy`: the module itself. A table is a `seq<Employee>`. Text
  columns hold a `Cell`, which is `Text(s)` or `Num(n)`, because filling puts
  the number 0 into a text column. A filled-in gender is therefore neither
  "Male" nor "Female". `LoadTransform` is a method with four loops. The
  first fills the rows into a new array. The second computes the
  `ToBePromoted` flag column and the third the boolean retrenchment column.
  The fourth assembles the rows and maps the boolean to "Yes"/"No". It is
  proved equal to the row-wise function `Transformed`, and the lemmas are
  about that function.

Facts about the code that the model keeps:

- `ToBePromoted` is the integer 0 or 1, not a boolean.
- `get_retrench_count` has no zero-row guard. On an empty table Python raises
  `ZeroDivisionError`. The model returns `Failure(ZeroDivisionError)`; see
  Findings.
- Missing cells of text columns become the number 0. They do not become an
  "Unknown" marker.
- The module defines no promotion count and no per-department statistics.

## Model

| member | source | states |
|---|---|---|
| `Series.Count` | src/updated_data.py:50-51 | the number of rows a mask `column == value` selects is the multiplicity of the value in the column, at most the row count |
| `Series.CountPair` | src/updated_data.py:50-52 | two different values are counted at most once per row together, and their counts add up to the row count exactly when every row holds one of them |
| `Series.Distinct` | src/updated_data.py:37-40 | `unique()` has no duplicates and holds exactly the values of the column |
| `Series.DistinctFirstSeenOrder` | src/updated_data.py:37-40 | `unique()` lists values in increasing order of their first appearance |
| `Series.Bounds` | src/updated_data.py:32-33 | `[min(), max()]` is absent exactly for an empty column; otherwise min <= max, both are values of the column, and every value lies between them |
| `Series.GroupSizes` | src/updated_data.py:61 | `groupby(...).size()` has a key for exactly the values that occur, each mapped to its count |
| `Series.GetOr` | src/updated_data.py:62-63 | `.get(key, d)` gives the value at the key when it is present and the default `d` otherwise |
| `Series.GroupSizeOrZero` | src/updated_data.py:61-63 | `.get(key, 0)` on the group sizes is the count of the key, 0 when no row has it |
| `UpdatedData.FillMissing` | src/updated_data.py:10 | `fillna(0)` on a row keeps every present cell and turns every missing cell of every column into 0, keeping the number of columns |
| `UpdatedData.FillComplete` | src/updated_data.py:10 | a row without gaps is read back unchanged by filling |
| `UpdatedData.FillIdempotent` | src/updated_data.py:10 | after filling nothing is missing, and filling again changes nothing |
| `UpdatedData.FillNoMissing` | src/updated_data.py:10 | on a row without gaps filling loses no information |
| `UpdatedData.PromotionFlag` | src/updated_data.py:13-14 | `ToBePromoted` is 0 or 1, and 1 exactly when years since last promotion >= 5 and rating > 2 |
| `UpdatedData.RetrenchLabel` | src/updated_data.py:17-19 | `ToBeRetrenched` is "Yes" or "No" and nothing else, and "Yes" exactly when one of the two retrenchment rules holds |
| `UpdatedData.RetrenchBands` | src/updated_data.py:17-18 | for ratings 1 to 4 the rule reads as tenure bands: nobody under 3 years, rating 1 from 3 to 9 years, rating 1 or 2 from 10 years |
| `UpdatedData.MissingRatingRetrenchment` | src/updated_data.py:10-18 | a missing rating, filled with 0, is retrenched from 10 years in the role but never in the 3 to 9 year band |
| `UpdatedData.MissingTenureNeverFlagged` | src/updated_data.py:10-19 | a missing years-since-promotion or rating never promotes, and a missing years-in-role never retrenches |
| `UpdatedData.DuePromotion` | src/updated_data.py:13-14 | the promotion mask; a row it selects is never due for retrenchment, since a rating above 2 rules out both retrenchment rules |
| `UpdatedData.DueRetrenchment` | src/updated_data.py:17-18 | the retrenchment mask; a row it selects has at least 3 years in the role and a rating below 3 |
| `UpdatedData.TransformRow` | src/updated_data.py:10-19 | one row of the loaded table: its filled record, a 0/1 flag that is 1 exactly when the row is due for promotion, and "Yes" or "No", "Yes" exactly when it is due for retrenchment |
| `UpdatedData.Transformed` | src/updated_data.py:10-19 | the loaded table has one row per input row, in order, each transformed on its own, and every row carries both derived columns with one of their two values |
| `UpdatedData.TransformedRows` | src/updated_data.py:5-21 | the transformed table has the rows of the file in order, each its filled record with both derived columns set by that record |
| `UpdatedData.TransformedAppend` | src/updated_data.py:10-19 | the transform works row by row: transforming joined files is joining the transformed files |
| `UpdatedData.LoadTransform` | src/updated_data.py:5-21 | four loops: fill into a new array, the flag column, the boolean retrenchment column, then the rows with the Yes/No map; the result is the row-wise transform of the input |
| `UpdatedData.GetFilterOptions` | src/updated_data.py:24-44 | clearing mode empties the four lists; each range is absent exactly on an empty table |
| `UpdatedData.FilterOptionsListColumns` | src/updated_data.py:36-40 | without clearing, each list holds its column's values once each, in order of first appearance |
| `UpdatedData.FilterOptionsRanges` | src/updated_data.py:26-42 | both modes give the same ranges; on a non-empty table each is [min, max] with min <= max, attained, bounding every row |
| `UpdatedData.Percent` | src/updated_data.py:53-54 | `(count / total) * 100` is the exact ratio: percent times total is count times 100 |
| `UpdatedData.PercentShares` | src/updated_data.py:53-54 | two counts making up the total give percentages in [0, 100] adding up to 100 |
| `UpdatedData.GenderCount` | src/updated_data.py:47-55 | male and female counts are the multiplicities of "Male" and "Female"; percentages are 0 on a zero total and otherwise the exact share of the total |
| `UpdatedData.GenderTotal` | src/updated_data.py:50-52 | the total is male plus female, at most the rows, and equal to the rows exactly when every gender is "Male" or "Female" |
| `UpdatedData.GenderPercentages` | src/updated_data.py:53-54 | on a non-zero total both percentages lie in [0, 100] and add up to 100 |
| `UpdatedData.GenderCountExample` | src/updated_data.py:47-55 | genders Male, Male, Female, Female give (4, 2, 2, 50, 50) |
| `UpdatedData.RetrenchCount` | src/updated_data.py:58-67 | raises exactly on an empty table; otherwise the counts are the multiplicities of "Yes" and "No" and each percentage is the exact share of the row count |
| `UpdatedData.RetrenchCountCoversTable` | src/updated_data.py:61-66 | on a non-empty labelled table the two counts add up to the rows and the percentages lie in [0, 100] and add up to 100 |
| `UpdatedData.RetrenchCountOfLoaded` | src/updated_data.py:61-64 | on a loaded table the counts add up to the rows and the "Yes" count is the number of rows due for retrenchment |
| `UpdatedData.DueRowsStep` | src/updated_data.py:17-19 | one more row adds one to the rows due for retrenchment exactly when it is due |
| `UpdatedData.YesCountIsDue` | src/updated_data.py:61-62 | among the first n rows of a loaded table the "Yes" count is the number of rows due for retrenchment |
| `UpdatedData.RetrenchCountEmptyRaises` | src/updated_data.py:64-66 | the unguarded division rejects an empty table |
| `UpdatedData.GuardedRetrenchCount` | src/updated_data.py:64-66 | with a zero-row guard an empty table gives zeros and any other table the unguarded result |
| `UpdatedData.GuardedRetrenchCountTotal` | src/updated_data.py:61-66 | guarded, every labelled table gives counts adding up to its rows and percentages adding up to 100, or 0 when empty |
| `UpdatedData.DerivationExamples` | src/updated_data.py:13-19 | worked cases of both rules: (6, 3) promotes; 4 years never promotes; (12, 2) and (4, 1) retrench; (4, 2) does not |

## Findings

| source | as written | input that shows it | evidently intended | confidence | as-written member | corrected member |
|---|---|---|---|---|---|---|
| src/updated_data.py:64-66 | the percentages divide by `len(df)` with no zero guard | an empty table, for instance a filter selection that matches no employee: `0 / 0` raises `ZeroDivisionError` | percentages of 0 on an empty table, as the guard in `get_gender_count` (lines 53-54) gives | medium, not executed | `UpdatedData.RetrenchCountEmptyRaises` | `UpdatedData.GuardedRetrenchCount` |

## Left out

- Parsing the file (`pd.read_csv`, line 7) is a foreign call. The input is a sequence of already parsed rows whose cells may be missing. A file that lacks a column the module reads fails in pandas with a `KeyError`. The typed row always has these columns, so that failure is not modelled.
- Only the nine columns the module reads have their own fields. Every other column is an untyped cell in `others`, filled like the rest.
- pandas turns a numeric column with a missing cell into floating point. The model keeps such columns as integers, and floating point is not modelled.
- `df_to_csv` (lines 70-72) only serialises through pandas, so it is not modelled.
- `src/tab_capacity.py` and `src/tab_summary.py` are layout, cards and charts, so they are not modelled. The functions they call that this module does not define are `get_promo_count`, `get_dept_promo_pct` and `get_dept_retrench_pct`. They have no counterpart.
- `min()`/`max()` of an empty column is NaN in pandas. `Bounds` returns `None` for it.
- Percent: states the exact ratio `(count / total) * 100` without the `round(..., 2)` to two decimals, because binary floating point is not modelled.
- GenderCount: its percentages are exact ratios, without the rounding of lines 53-54.
- RetrenchCount: its percentages are exact ratios, without the rounding of lines 65-66.
- LoadTransform: `load_transform` updates its pandas frame in place, and the frame is never shared before it is returned. The method fills into a new array instead and returns a sequence, so it does not capture the in-place update.
