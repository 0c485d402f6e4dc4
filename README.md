# Bike rentals dashboard: the aggregation layer

The dashboard loads a table of hourly bike-rental records. Each record has a
date string `dteday`, a year label `yr`, the month `mnth`, the hour `hr`, a
weekday name, and the counts `casual`, `registered` and `cnt`. From that table
the page computes:

- the rows of the years picked in the sidebar, and their casual, registered
  and total sums;
- the monthly trend: those rows grouped by `(yr, mnth)`, with `cnt` summed per
  group;
- the rows of the picked date, matched on its `YYYY-MM-DD` spelling, and their
  three sums;
- the rows of the day before that date;
- the average casual and registered rentals per calendar day of each weekday.
  This is a group-by sum, a group-by distinct-date count, an inner merge and
  two column divisions.

The model writes each of these as a pure function of the records and the
chosen parameters, and states their properties as lemmas.

- `Table` holds the row filter (the boolean-mask selection) and the column sum.
- `Grouping` holds pandas' sorted `groupby`. A key-sorted list of groups is
  built by inserting each row. It is proved equal, key by key, to "filter the
  rows with this key, then aggregate them".
- `Text` holds Python's string order, which pandas uses to sort weekday names.
- `Dates` models `datetime.date` for years 1 to 9999. It covers the ordinal day
  number, the day before and the day after, `strftime('%Y-%m-%d')`, and reading
  that spelling back.
- `Dashboard` holds the records and every table and number of the page, in the
  order the script computes them.

The model assumes the data file holds integer labels in `yr` and `mnth` (the
column types that `read_csv` infers from it), so the `(yr, mnth)` group keys
sort numerically. Counts are `nat`. The division at l.134-135
is exact (`real`).

## Model

| member | source | states |
|---|---|---|
| `Table.Sum` | dashboard.py:25-27 | The column `.sum()` of a frame. Its properties are `Table.SumAppend`, `Table.SumPointwise` and `Table.SumWherePartition`. |
| `Table.Where` | dashboard.py:19 | A mask filter keeps a row exactly when the row is in the table and the mask holds for it. The result is never longer than the table, and it is empty when no row passes. |
| `Table.WhereIsSubsequence` | dashboard.py:19 | The filtered rows are a subsequence of the table, so their original order is kept. |
| `Table.WhereAppend` | dashboard.py:19 | Filtering a concatenation is the concatenation of the filtered parts. |
| `Table.WhereMultiplicity` | dashboard.py:66 | Every copy of a kept row survives the filter, and no copy of a dropped row does. |
| `Table.WhereAll` | dashboard.py:16-19 | A mask that holds on every row keeps the whole table unchanged. |
| `Table.SumAppend` | dashboard.py:25-27 | A column sum over a concatenation is the sum of the two parts' sums. |
| `Table.SumPointwise` | dashboard.py:25-27 | If one column is the row-wise sum of two others, its total is the sum of their totals. |
| `Table.SumWherePartition` | dashboard.py:25-27 | The column sums of a filter and of its complement add up to the column sum of the whole table. |
| `Grouping.Insert` | dashboard.py:41 | One row of a group-by pass: open the row's group or fold the row into it. Specified by `Grouping.InsertSpec`. |
| `Grouping.GroupBy` | dashboard.py:41 | pandas `groupby(...).agg(...)` with sorted keys. Specified by `Grouping.GroupBySpec` and `Grouping.GroupByRows`. |
| `Grouping.Find` | dashboard.py:41 | A lookup by key finds a group exactly when some group has that key. |
| `Grouping.InsertSpec` | dashboard.py:41 | Adding a row keeps the groups strictly sorted and adds the row's key. It changes only the group with that key: the row opens it or folds into it. |
| `Grouping.GroupBySpec` | dashboard.py:41 | The group-by has strictly ascending keys and one group for each key present. The group for key k holds the aggregate of exactly the rows whose key is k. |
| `Grouping.GroupByRows` | dashboard.py:41 | Every output group is non-empty and holds the aggregate of its own rows. There are exactly as many groups as distinct keys. |
| `Grouping.FindAt` | dashboard.py:41 | In sorted groups, looking up a group's own key returns that group's value. |
| `Grouping.AscendingDistinct` | dashboard.py:41 | Strictly sorted groups have pairwise distinct keys: their key set is as large as their length. |
| `Grouping.KeysPresentBounds` | dashboard.py:127 | A non-empty group of rows has between 1 and (number of rows) distinct values in any column. |
| `Grouping.UniqueMatch` | dashboard.py:131 | In a sorted grouped table, exactly one row carries a given row's key. |
| `Order.SortedUnique` | dashboard.py:124 | Two strictly sorted key sequences with the same members are equal. |
| `Text.Less` | dashboard.py:124 | Python's `str` comparison, the order pandas sorts the weekday keys in. `Text.LessIsStrictTotalOrder` proves it is a strict total order. |
| `Text.LessIrreflexive` | dashboard.py:124 | No weekday name sorts before itself. |
| `Text.LessTransitive` | dashboard.py:124 | String order is transitive. |
| `Text.LessTotal` | dashboard.py:124 | Of two different strings, one sorts before the other. |
| `Text.LessIsStrictTotalOrder` | dashboard.py:124 | Python's string comparison is a strict total order, so it can sort the weekday keys. |
| `Dates.Ordinal` | dashboard.py:85 | The day number that `datetime.date.toordinal` gives. Its properties are `Dates.OrdinalInjective`, `Dates.FirstOrdinal` and `Dates.OrdinalPositive`. |
| `Dates.Previous` | dashboard.py:85 | `selected_date - pd.Timedelta(days=1)`, or `None` where Python overflows. Specified by `Dates.PreviousSpec` and `Dates.PreviousIsPredecessor`. |
| `Dates.YearLength` | dashboard.py:85 | A year has 365 days, or 366 when it is a Gregorian leap year. |
| `Dates.MonthLength` | dashboard.py:85 | The first of a month comes right after the last day of the month before. |
| `Dates.PreviousSpec` | dashboard.py:85 | Subtracting one day fails only for 0001-01-01. Otherwise it gives a valid date whose ordinal is one less and whose next day is the selected date. The month, year and Feb-29 boundaries are covered. |
| `Dates.PreviousAcrossMonth` | dashboard.py:85 | On the first of a month, the day before is the last day of the previous month, with that month's own length (28 or 29 in February). |
| `Dates.PreviousAcrossYear` | dashboard.py:85 | The day before January 1 is December 31 of the previous year, one ordinal earlier. |
| `Dates.NextSpec` | dashboard.py:85 | Adding one day fails only for 9999-12-31. Otherwise it gives a valid date whose ordinal is one more and whose previous day is the original date. |
| `Dates.OrdinalInYear` | dashboard.py:85 | A date's ordinal lies inside its year's range of day numbers. |
| `Dates.OrdinalMonthOrder` | dashboard.py:85 | Within a year, a date in an earlier month has a smaller ordinal. |
| `Dates.YearsBefore` | dashboard.py:85 | The count of days before a year never decreases as the year grows. |
| `Dates.OrdinalInjective` | dashboard.py:85 | Different valid dates have different ordinals. |
| `Dates.FirstOrdinal` | dashboard.py:85 | 0001-01-01 is day 1. |
| `Dates.OrdinalPositive` | dashboard.py:85 | Every valid date has an ordinal of at least 1. |
| `Dates.PreviousIsPredecessor` | dashboard.py:85 | The previous day is the one valid date whose ordinal is one less than the selected date's. |
| `Dates.Pad` | dashboard.py:65 | A zero-padded field has exactly the requested width, and all its characters are digits. |
| `Dates.PadValue` | dashboard.py:65 | A number below 10^width can be read back from its padded digits. |
| `Dates.Format` | dashboard.py:65 | The `YYYY-MM-DD` spelling is 10 characters long, with `-` at positions 4 and 7 and digits everywhere else. |
| `Dates.Parse` | dashboard.py:65 | Whatever `Parse` accepts is a valid calendar date. |
| `Dates.FormatRoundTrip` | dashboard.py:65 | Parsing the formatted string returns the date. |
| `Dates.FormatInjective` | dashboard.py:65-66 | Two valid dates with the same spelling are the same date, so the string test selects one calendar day. |
| `Dates.PadExamples` | dashboard.py:65 | The year fields `2011` and `2010` pad to four digits as themselves, and the fields `1`, `12`, `31` pad to `01`, `12`, `31`. |
| `Dates.FormatExample` | dashboard.py:62-65 | The default date is spelled `2011-01-01`, and the day before it `2010-12-31`. |
| `Dashboard.TotalsOf` | dashboard.py:25-27 | The three metric sums of a frame. Its consistency property is `Dashboard.TotalsOfConsistent`. |
| `Dashboard.YearOptions` | dashboard.py:15 | `all_df['yr'].unique()` as a set. The default selection of all of them keeps every row (`Dashboard.DefaultSelectionKeepsAll`). |
| `Dashboard.TotalsOfConsistent` | dashboard.py:25-27 | If every row has `cnt == casual + registered`, the total card equals casual plus registered. |
| `Dashboard.YearFilter` | dashboard.py:19 | `year_df` holds exactly the rows whose `yr` is selected, and it is empty when nothing is selected. |
| `Dashboard.YearTotals` | dashboard.py:25-27 | With no year selected, all three cards are 0. On consistent rows, total rentals equal casual plus registered. |
| `Dashboard.DefaultSelectionKeepsAll` | dashboard.py:15-19 | The default selection, every year present, keeps the whole table in order. |
| `Dashboard.YearFilterOrderAndRest` | dashboard.py:19-27 | `year_df` keeps table order. Its total plus the unselected rows' `cnt` equals the whole table's `cnt`. |
| `Dashboard.MonthBeforeIsStrictTotalOrder` | dashboard.py:41 | Ordering by (year, month) is a strict total order. |
| `Dashboard.MonthlyTrend` | dashboard.py:41 | `monthly_trend`. Specified by `Dashboard.MonthlyTrendSpec` and `Dashboard.MonthlyTrendConservation`. |
| `Dashboard.AggregateCnt` | dashboard.py:41 | Folding `cnt` into a group gives the group's `cnt` sum. |
| `Dashboard.MonthlyTrendSpec` | dashboard.py:41 | `monthly_trend` is strictly ascending by (yr, mnth). It has one row per (yr, mnth) present in `year_df`. Each row's `cnt` is the sum of `cnt` over that month's selected rows, and no row is empty. |
| `Dashboard.InsertTotal` | dashboard.py:41 | Adding a row to the trend groups raises their summed `cnt` by that row's `cnt`. |
| `Dashboard.GroupByTotal` | dashboard.py:41 | The trend groups' summed `cnt` equals the `cnt` sum of the grouped rows. |
| `Dashboard.MonthlyTrendConservation` | dashboard.py:27-41 | The `cnt` values across `monthly_trend` add up to `total_rentals`. |
| `Dashboard.DateFilter` | dashboard.py:66 | The date slice holds exactly the rows whose `dteday` equals the given string, in table order. |
| `Dashboard.SelectedDay` | dashboard.py:65-66 | `filtered_df_selected` holds exactly the rows whose `dteday` reads back as the selected date. |
| `Dates.FormatIsOnlySpelling` | dashboard.py:65-66 | The only string that parses to a date is that date's formatted spelling. |
| `Dates.PadSpelling` | dashboard.py:65 | A digit string of width w that spells n is n zero-padded to w. |
| `Dates.DecimalValueNonNegative` | dashboard.py:65 | A string of digits spells a number of at least 0. |
| `Dashboard.DateTotals` | dashboard.py:69-71 | A date with no rows gives (0, 0, 0), with no failure. On consistent rows, total rentals equal casual plus registered. |
| `Dashboard.PreviousDay` | dashboard.py:85-87 | `filtered_df_previous`, or `None` where the subtraction overflows. Specified by `Dashboard.PreviousDaySpec` and `Dashboard.PreviousDayFails`. |
| `Dashboard.PreviousDaySpec` | dashboard.py:85-87 | `filtered_df_previous` is the slice of the one valid date whose ordinal is one less than the selected date's. |
| `Dashboard.PreviousDayFails` | dashboard.py:85 | The day-before step fails (Python's `OverflowError`) only for 0001-01-01. |
| `Dashboard.BeforeFirstDayIsEmpty` | dashboard.py:85-87 | If every row is dated on or after a first date, the day before that date has an empty slice and zero cards. |
| `Dashboard.ExampleDay` | dashboard.py:65-71 | For the two example rows of 2011-01-01, the slice is both rows in order and the cards are (11, 45, 56). |
| `Dashboard.ExampleDayBefore` | dashboard.py:85-87 | For the two example rows, the day before 2011-01-01 gives an empty slice, not a failure. |
| `Dashboard.WeekdaySums` | dashboard.py:124 | The per-weekday casual and registered sums. Specified by `Dashboard.WeekdaySumsSpec`. |
| `Dashboard.WeekdayDates` | dashboard.py:127 | The distinct `dteday` values of each weekday group. Each group holds exactly its dates (`Dashboard.AggregateDays`). |
| `Dashboard.UniqueDays` | dashboard.py:127-128 | `unique_days`. Specified by `Dashboard.UniqueDaysSpec`. |
| `Dashboard.Matches` | dashboard.py:131 | The `unique_days` rows with a given weekday. Specified by `Dashboard.MatchesSpec`. |
| `Dashboard.Merge` | dashboard.py:131 | `pd.merge(..., on='weekday')` as an inner join in left order. Specified by `Dashboard.MergeOneToOne` and `Dashboard.MergedRows`. |
| `Dashboard.Divide` | dashboard.py:134-135 | The two column divisions by `unique_days`. Their values are stated by `Dashboard.WeekdayAveragesValues`. |
| `Dashboard.WeekdayAverages` | dashboard.py:124-135 | The final `average_rentals` frame. Specified by `Dashboard.WeekdayAveragesKeys` and `Dashboard.WeekdayAveragesValues`. |
| `Dashboard.AggregateCounts` | dashboard.py:124 | Folding rows into a weekday group gives its casual and registered sums. |
| `Dashboard.AggregateDays` | dashboard.py:127 | Folding rows into a weekday's date set gives exactly its distinct `dteday` values. |
| `Dashboard.WeekdaySumsSpec` | dashboard.py:124 | The per-weekday sums are sorted by weekday name, with one row per weekday present. Each row holds the casual and registered sums of its weekday's rows over the whole table. |
| `Dashboard.UniqueDaysKeys` | dashboard.py:127 | `unique_days` is sorted by weekday name and has one row per weekday present in the table. |
| `Dashboard.UniqueDaysRow` | dashboard.py:127-128 | Any single `unique_days` row belongs to a weekday with at least one record, and holds that weekday's number of distinct dates. |
| `Dashboard.UniqueDaysSpec` | dashboard.py:127-128 | `unique_days` is sorted by weekday name, with one row per weekday present. Each row holds the number of distinct dates among that weekday's rows. |
| `Dashboard.MatchesSpec` | dashboard.py:131 | Each weekday present meets exactly one `unique_days` row in the merge: its own. |
| `Dashboard.MergeOneToOne` | dashboard.py:131 | An inner join in which every left row has exactly one partner keeps the left rows in order and attaches each partner's value. |
| `Dashboard.MergedRows` | dashboard.py:124-131 | The merged frame has one row per weekday group, in the same order. Each row carries its own weekday's sums and distinct-date count. |
| `Dashboard.WeekdayAveragesKeys` | dashboard.py:124-135 | The averages have one row per weekday present in `all_df`, strictly ascending by weekday name. |
| `Dashboard.WeekdayAveragesValues` | dashboard.py:124-135 | Each average is the weekday's summed count divided by its distinct-date count. That count is between 1 and the weekday's number of rows, so no division is by zero. |
| `Dashboard.IndexOf` | dashboard.py:138 | Returns the first position of a value in a list, or nothing exactly when the value is absent. |
| `Dashboard.CategoryCode` | dashboard.py:138 | The categorical code of a weekday is its position in Monday to Sunday. It is missing exactly for names outside that list. |
| `Dashboard.AlphabeticalWeekdaysSorted` | dashboard.py:124 | Friday, Monday, Saturday, Sunday, Thursday, Tuesday, Wednesday is strictly ascending and lists the same seven names as the categories. |
| `Dashboard.WeekdayColumnSpec` | dashboard.py:124-135 | The weekday column of the averages is strictly sorted and holds exactly the weekdays present. |
| `Dashboard.WeekdayRowOrder` | dashboard.py:124-135 | When all seven weekdays occur, the averages rows that l.138 receives run Friday, Monday, Saturday, Sunday, Thursday, Tuesday, Wednesday. |
| `Dashboard.CodeAt` | dashboard.py:138 | Each of the seven category names gets its own position as its code. |
| `Dashboard.AlphabeticalCode` | dashboard.py:138 | The categorical codes of Friday, Monday, Saturday, Sunday, Thursday, Tuesday, Wednesday are 4, 0, 5, 6, 3, 1, 2. |
| `Dashboard.Categorize` | dashboard.py:138 | The weekday column replaced by its categorical code. Specified by `Dashboard.CategorizeKeepsRows` and `Dashboard.CategorizeDecodes`. |
| `Dashboard.CategorizeKeepsRows` | dashboard.py:138 | Assigning the categorical column keeps the frame's length and its row order: row i of the result is row i of the frame, recoded. |
| `Dashboard.CategorizeDecodes` | dashboard.py:138 | A recoded row keeps its casual, registered and unique-days values. Its code is below 7 and names the weekday it replaced, whenever that weekday is one of the categories. |
| `Dashboard.CategorizedCodes` | dashboard.py:124-138 | When all seven weekdays occur, the final frame has seven rows whose codes run 4, 0, 5, 6, 3, 1, 2: the rows stay in alphabetical order, not Monday to Sunday. |
| `Dashboard.Render` | dashboard.py:15-138 | Everything the page computes, stopping at l.85 when the subtraction overflows. The weekday averages are given after the l.138 recoding. Its behaviour is stated by `Dashboard.RenderStops` and `Dashboard.FiltersAreIndependent`. |
| `Dashboard.RenderStops` | dashboard.py:85-138 | The previous slice and the weekday averages are missing exactly for 0001-01-01, where l.85 raises and the rest of the script does not run. |
| `Dashboard.FiltersAreIndependent` | dashboard.py:19-135 | The weekday averages never depend on the year selection. They are the same for any two dates at which the page computes them. The date cards, the selected slice and the previous slice ignore the year selection. The year cards and the trend ignore the date. |

## Left out

- Loading the CSV file (l.8) is file I/O. The model takes the record sequence as given and does not validate rows.
- Streamlit widgets and layout are not modelled: sidebar, multiselect, `date_input`, columns and metric cards (l.11-16, 30-38, 62, 74-82, 89-90). The selected years and the selected date are plain parameters.
- Matplotlib and seaborn plotting is not modelled (l.44-56, 92-118, 140-152). That includes any hour order of the plotted hourly points, which seaborn decides.
- Line 138 replaces the weekday column with a categorical. The model gives that column as its category codes (`Categorize`) and proves that the rows keep their order (`CategorizeKeepsRows`). How the plot orders a categorical axis is not modelled.
- Pandas float division (l.134-135) is modelled as exact `real` division. Rounding is not modelled, and neither is `inf`/`NaN` on a zero divisor, which cannot happen in this pipeline.
- The 64-bit integer sums of pandas are modelled as unbounded naturals. Overflow is not modelled.
- For years below 1000, `%Y` output depends on the platform's C library. The model always pads to four digits. The default date picker range (ten years either side of 2011-01-01) never reaches such years.
- `GroupBy` folds rows from the end of the table toward the front. pandas folds them from the front. Both aggregates used here (a sum and a set of dates) do not depend on order, so the results are the same.
- Repeated calls give identical results because every operation is a function. No separate lemma says so.

## Behaviour worth knowing

These facts about the code are easy to get wrong.

- The weekday averages have one row per weekday present in the data, not always seven. The rows come in pandas' sort order of the names, which is alphabetical (`WeekdayRowOrder`). Line 138 only recodes the weekday column and keeps that order (`CategorizeKeepsRows`, `CategorizedCodes`).
- No weekday row can have zero distinct dates. A weekday without records has no row at all, so the divisions at l.134-135 never divide by zero (`WeekdayAveragesValues`).
- The date slices only filter the table on `dteday` (l.66, l.87). They keep the table's own row order and any duplicate hours (`DateFilter`, `Table.WhereMultiplicity`). Any sorting by hour is left to the plotting library.
- The cards sum each column separately. `total == casual + registered` holds for the cards whenever it holds for every row (`Dashboard.TotalsOfConsistent`). The converse fails: inconsistent rows can still add up to consistent cards.
- At 0001-01-01 the subtraction at l.85 raises `OverflowError`, and the script ends there. `Render` then has no previous slice and no weekday averages (`RenderStops`). The date picker's default range never reaches that date.
