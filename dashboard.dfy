/**
 * The aggregation layer of the bike-rentals dashboard: every table and
 * number the page shows, as a function of the loaded hourly records
 * (`all_df`), the selected years and the selected date.
 */
module Dashboard {
  import opened Wrappers
  import Table
  import Grouping
  import Order
  import Text
  import Dates

  /** One hourly row of the rentals table (the columns the dashboard reads). */
  datatype Record = Record(dteday: string, yr: int, mnth: int, hr: int, weekday: string,
                           casual: nat, registered: nat, cnt: nat)

  function CasualOf(r: Record): nat { r.casual }
  function RegisteredOf(r: Record): nat { r.registered }
  function CntOf(r: Record): nat { r.cnt }
  function YrOf(r: Record): int { r.yr }
  function DteOf(r: Record): string { r.dteday }
  function WeekdayOf(r: Record): string { r.weekday }

  /** The dataset's own invariant: total rentals are casual plus registered. */
  predicate Consistent(r: Record)
  {
    r.cnt == r.casual + r.registered
  }

  /** The three metric cards: casual, registered and total rentals. */
  datatype Totals = Totals(casual: nat, registered: nat, rentals: nat)

  function TotalsOf(s: seq<Record>): Totals
  {
    Totals(Table.Sum(s, CasualOf), Table.Sum(s, RegisteredOf), Table.Sum(s, CntOf))
  }

  /** Consistent rows give consistent cards. */
  lemma TotalsOfConsistent(s: seq<Record>)
    ensures (forall r :: r in s ==> Consistent(r)) ==>
            TotalsOf(s).rentals == TotalsOf(s).casual + TotalsOf(s).registered
  {
    if forall r :: r in s ==> Consistent(r) {
      forall i | 0 <= i < |s| ensures CntOf(s[i]) == CasualOf(s[i]) + RegisteredOf(s[i]) {
        assert s[i] in s;
      }
      Table.SumPointwise(s, CntOf, CasualOf, RegisteredOf);
    }
  }

  // ---------------------------------------------------------------------------
  // Year selection

  /** `all_df['yr'].unique()`: the year labels offered, all selected by default. */
  function YearOptions(records: seq<Record>): set<int>
  {
    Grouping.KeysPresent(records, YrOf)
  }

  /** The mask `all_df['yr'].isin(selected_years)`. */
  function InYears(selected: set<int>): Record -> bool
  {
    (x: Record) => x.yr in selected
  }

  /** The mask `all_df['dteday'] == day`. */
  function OnDay(day: string): Record -> bool
  {
    (x: Record) => x.dteday == day
  }

  /** `year_df = all_df[all_df['yr'].isin(selected_years)]`. */
  function YearFilter(records: seq<Record>, selected: set<int>): (r: seq<Record>)
    ensures forall x :: x in r <==> x in records && x.yr in selected
    ensures selected == {} ==> r == []
  {
    Table.Where(records, InYears(selected))
  }

  /** The selected years' metric cards. */
  function YearTotals(records: seq<Record>, selected: set<int>): (t: Totals)
    ensures selected == {} ==> t == Totals(0, 0, 0)
    ensures (forall r :: r in records ==> Consistent(r)) ==> t.rentals == t.casual + t.registered
  {
    var year := YearFilter(records, selected);
    TotalsOfConsistent(year);
    TotalsOf(year)
  }

  /** The default selection (every year present) keeps the whole table. */
  lemma DefaultSelectionKeepsAll(records: seq<Record>)
    ensures YearFilter(records, YearOptions(records)) == records
  {
    var options := YearOptions(records);
    forall i | 0 <= i < |records| ensures records[i].yr in options {
      assert YrOf(records[i]) == records[i].yr;
    }
    Table.WhereAll(records, InYears(options));
  }

  /** The year filter keeps the selected rows in their original order, and the
      rows it drops carry the rest of every count. */
  lemma YearFilterOrderAndRest(records: seq<Record>, selected: set<int>)
    ensures Table.IsSubsequence(YearFilter(records, selected), records)
    ensures TotalsOf(YearFilter(records, selected)).rentals
            + Table.Sum(Table.Where(records, Table.Not(InYears(selected))), CntOf)
            == Table.Sum(records, CntOf)
  {
    Table.WhereIsSubsequence(records, InYears(selected));
    Table.SumWherePartition(records, InYears(selected), CntOf);
  }

  // ---------------------------------------------------------------------------
  // Monthly trend

  /** The group key `['yr', 'mnth']`. */
  datatype MonthKey = MonthKey(yr: int, mnth: int)

  function MonthOf(r: Record): MonthKey { MonthKey(r.yr, r.mnth) }

  /** pandas sorts the key pairs by year, then by month. */
  predicate MonthBefore(a: MonthKey, b: MonthKey)
  {
    a.yr < b.yr || (a.yr == b.yr && a.mnth < b.mnth)
  }

  lemma MonthBeforeIsStrictTotalOrder()
    ensures Order.StrictTotalOrder(MonthBefore)
  {
  }

  function AddCnt(total: nat, r: Record): nat { total + r.cnt }

  /** One row `(yr, mnth, cnt)` of `monthly_trend`. */
  type TrendRow = Grouping.Group<MonthKey, nat>

  /** `year_df.groupby(['yr', 'mnth']).agg({'cnt': 'sum'}).reset_index()`. */
  function MonthlyTrend(records: seq<Record>, selected: set<int>): seq<TrendRow>
  {
    Grouping.GroupBy(YearFilter(records, selected), MonthOf, CntOf, AddCnt, MonthBefore)
  }

  /** Folding `cnt` into a group is summing it. */
  lemma {:induction false} AggregateCnt(w: seq<Record>)
    requires w != []
    ensures Grouping.Aggregate(w, CntOf, AddCnt) == Table.Sum(w, CntOf)
  {
    if |w| > 1 {
      AggregateCnt(w[1..]);
    }
  }

  /** The records of the selected years that fall in month `k`. */
  function MonthRows(records: seq<Record>, selected: set<int>, k: MonthKey): seq<Record>
  {
    Grouping.WithKey(YearFilter(records, selected), MonthOf, k)
  }

  /** `monthly_trend` has one row per (year, month) present in the year-filtered
      table, strictly ascending by (year, month), each row holding the sum of
      `cnt` over the records of its month. */
  lemma MonthlyTrendSpec(records: seq<Record>, selected: set<int>)
    ensures Grouping.Ascending(MonthlyTrend(records, selected), MonthBefore)
    ensures Grouping.KeySet(MonthlyTrend(records, selected))
            == Grouping.KeysPresent(YearFilter(records, selected), MonthOf)
    ensures |MonthlyTrend(records, selected)|
            == |Grouping.KeysPresent(YearFilter(records, selected), MonthOf)|
    ensures forall i :: 0 <= i < |MonthlyTrend(records, selected)| ==>
              var row := MonthlyTrend(records, selected)[i];
              MonthRows(records, selected, row.key) != []
              && row.acc == Table.Sum(MonthRows(records, selected, row.key), CntOf)
  {
    var year := YearFilter(records, selected);
    MonthBeforeIsStrictTotalOrder();
    Grouping.GroupBySpec(year, MonthOf, CntOf, AddCnt, MonthBefore);
    Grouping.GroupByRows(year, MonthOf, CntOf, AddCnt, MonthBefore);
    var trend := MonthlyTrend(records, selected);
    forall i | 0 <= i < |trend|
      ensures trend[i].acc == Table.Sum(MonthRows(records, selected, trend[i].key), CntOf)
    {
      AggregateCnt(MonthRows(records, selected, trend[i].key));
    }
  }

  /** The summed `cnt` column of a trend table. */
  function TrendTotal(rows: seq<TrendRow>): nat
  {
    if rows == [] then 0 else rows[0].acc + TrendTotal(rows[1..])
  }

  lemma {:induction false} InsertTotal(rows: seq<TrendRow>, x: Record)
    ensures TrendTotal(Grouping.Insert(rows, x, MonthOf, CntOf, AddCnt, MonthBefore)) == TrendTotal(rows) + x.cnt
  {
    var r := Grouping.Insert(rows, x, MonthOf, CntOf, AddCnt, MonthBefore);
    if rows == [] {
    } else if rows[0].key == MonthOf(x) {
      assert r[1..] == rows[1..];
    } else if MonthBefore(MonthOf(x), rows[0].key) {
      assert r[1..] == rows;
    } else {
      InsertTotal(rows[1..], x);
      assert r[1..] == Grouping.Insert(rows[1..], x, MonthOf, CntOf, AddCnt, MonthBefore);
    }
  }

  lemma {:induction false} GroupByTotal(s: seq<Record>)
    ensures TrendTotal(Grouping.GroupBy(s, MonthOf, CntOf, AddCnt, MonthBefore)) == Table.Sum(s, CntOf)
  {
    if s != [] {
      GroupByTotal(s[1..]);
      InsertTotal(Grouping.GroupBy(s[1..], MonthOf, CntOf, AddCnt, MonthBefore), s[0]);
    }
  }

  /** Nothing is lost or counted twice: the trend rows add up to the total rentals card. */
  lemma MonthlyTrendConservation(records: seq<Record>, selected: set<int>)
    ensures TrendTotal(MonthlyTrend(records, selected)) == YearTotals(records, selected).rentals
  {
    GroupByTotal(YearFilter(records, selected));
  }

  // ---------------------------------------------------------------------------
  // Selected date and the day before

  /** `all_df[all_df['dteday'] == day]`. */
  function DateFilter(records: seq<Record>, day: string): (r: seq<Record>)
    ensures forall x :: x in r <==> x in records && x.dteday == day
    ensures Table.IsSubsequence(r, records)
  {
    Table.WhereIsSubsequence(records, OnDay(day));
    Table.Where(records, OnDay(day))
  }

  /** `filtered_df_selected`: the rows of the selected date, matched on `YYYY-MM-DD`. */
  function SelectedDay(records: seq<Record>, d: Dates.Date): (r: seq<Record>)
    requires Dates.Valid(d)
    ensures forall x :: x in r <==> x in records && Dates.Parse(x.dteday) == Some(d)
  {
    forall x | x in records && Dates.Parse(x.dteday) == Some(d) ensures x.dteday == Dates.Format(d) {
      Dates.FormatIsOnlySpelling(x.dteday, d);
    }
    Dates.FormatRoundTrip(d);
    DateFilter(records, Dates.Format(d))
  }

  /** The selected date's metric cards; zero when the date has no rows. */
  function DateTotals(records: seq<Record>, d: Dates.Date): (t: Totals)
    requires Dates.Valid(d)
    ensures (forall x :: x in records ==> x.dteday != Dates.Format(d)) ==> t == Totals(0, 0, 0)
    ensures (forall r :: r in records ==> Consistent(r)) ==> t.rentals == t.casual + t.registered
  {
    var day := DateFilter(records, Dates.Format(d));
    TotalsOfConsistent(day);
    TotalsOf(day)
  }

  /** `filtered_df_previous`: the rows of `selected_date - pd.Timedelta(days=1)`;
      `None` where that subtraction overflows. */
  function PreviousDay(records: seq<Record>, d: Dates.Date): Option<seq<Record>>
    requires Dates.Valid(d)
  {
    match Dates.Previous(d)
    case None => None
    case Some(p) =>
      Dates.PreviousSpec(d);
      Some(DateFilter(records, Dates.Format(p)))
  }

  /** The previous-day slice exists for every date but 0001-01-01, and it is the
      slice of the one valid date whose day number is one less. */
  lemma PreviousDaySpec(records: seq<Record>, d: Dates.Date, e: Dates.Date)
    requires Dates.Valid(d) && Dates.Valid(e) && Dates.Ordinal(e) == Dates.Ordinal(d) - 1
    ensures PreviousDay(records, d) == Some(DateFilter(records, Dates.Format(e)))
  {
    Dates.PreviousIsPredecessor(d, e);
  }

  lemma PreviousDayFails(records: seq<Record>, d: Dates.Date)
    requires Dates.Valid(d)
    ensures PreviousDay(records, d).None? <==> d == Dates.Date(Dates.MinYear, 1, 1)
  {
    Dates.PreviousSpec(d);
  }

  /** When every row is dated on or after `first` (as the table's first day is),
      the day before `first` has no rows: its slice is empty, its cards are zero,
      and nothing fails. */
  lemma BeforeFirstDayIsEmpty(records: seq<Record>, first: Dates.Date)
    requires Dates.Valid(first) && first != Dates.Date(Dates.MinYear, 1, 1)
    requires forall x :: x in records ==>
               Dates.Parse(x.dteday).Some? && Dates.Ordinal(Dates.Parse(x.dteday).value) >= Dates.Ordinal(first)
    ensures Dates.Previous(first).Some?
    ensures PreviousDay(records, first) == Some([])
    ensures DateTotals(records, Dates.Previous(first).value) == Totals(0, 0, 0)
  {
    Dates.PreviousSpec(first);
    var p := Dates.Previous(first).value;
    Dates.FormatRoundTrip(p);
    assert forall x :: x in records ==> x.dteday != Dates.Format(p);
    assert DateFilter(records, Dates.Format(p)) == [];
  }

  function ExampleRows(): seq<Record>
  {
    [Record("2011-01-01", 2011, 1, 0, "Saturday", 3, 13, 16),
     Record("2011-01-01", 2011, 1, 1, "Saturday", 8, 32, 40)]
  }

  /** The two-row example day: its slice is both rows in order and its cards
      are (11, 45, 56). */
  lemma ExampleDay()
    ensures DateFilter(ExampleRows(), Dates.Format(Dates.Date(2011, 1, 1))) == ExampleRows()
    ensures DateTotals(ExampleRows(), Dates.Date(2011, 1, 1)) == Totals(11, 45, 56)
  {
    var rows := ExampleRows();
    Dates.FormatExample();
    assert DateFilter(rows, "2011-01-01") == rows by {
      assert Table.Where(rows[1..], OnDay("2011-01-01")) == rows[1..];
    }
    assert Table.Sum(rows, CasualOf) == 11;
    assert Table.Sum(rows, RegisteredOf) == 45;
    assert Table.Sum(rows, CntOf) == 56;
  }

  /** The day before the example day has no rows: an empty slice, not a failure. */
  lemma ExampleDayBefore()
    ensures PreviousDay(ExampleRows(), Dates.Date(2011, 1, 1)) == Some([])
  {
    var rows := ExampleRows();
    Dates.FormatExample();
    assert Dates.Previous(Dates.Date(2011, 1, 1)) == Some(Dates.Date(2010, 12, 31));
    assert "2011-01-01"[3] != "2010-12-31"[3];
    assert DateFilter(rows, "2010-12-31") == [];
  }

  // ---------------------------------------------------------------------------
  // Average rentals per day of the week

  /** The casual and registered sums of one weekday group. */
  datatype Counts = Counts(casual: nat, registered: nat)

  function CountsOf(r: Record): Counts { Counts(r.casual, r.registered) }

  function AddCounts(c: Counts, r: Record): Counts { Counts(c.casual + r.casual, c.registered + r.registered) }

  /** `all_df.groupby('weekday').agg({'casual': 'sum', 'registered': 'sum'}).reset_index()`. */
  function WeekdaySums(records: seq<Record>): seq<Grouping.Group<string, Counts>>
  {
    Grouping.GroupBy(records, WeekdayOf, CountsOf, AddCounts, Text.Less)
  }

  function DayOf(r: Record): set<string> { {r.dteday} }

  function AddDay(days: set<string>, r: Record): set<string> { days + {r.dteday} }

  /** The distinct `dteday` values of each weekday group. */
  function WeekdayDates(records: seq<Record>): seq<Grouping.Group<string, set<string>>>
  {
    Grouping.GroupBy(records, WeekdayOf, DayOf, AddDay, Text.Less)
  }

  /** `all_df.groupby('weekday')['dteday'].nunique().reset_index()`, columns
      renamed to `weekday`, `unique_days`. */
  function UniqueDays(records: seq<Record>): seq<Grouping.Group<string, nat>>
  {
    var dates := WeekdayDates(records);
    seq(|dates|, i requires 0 <= i < |dates| => Grouping.Group(dates[i].key, |dates[i].acc|))
  }

  /** One row of the merged frame `weekday, casual, registered, unique_days`. */
  datatype Joined = Joined(weekday: string, casual: nat, registered: nat, uniqueDays: nat)

  /** The rows of `right` whose weekday is `w`. */
  function Matches(right: seq<Grouping.Group<string, nat>>, w: string): seq<Grouping.Group<string, nat>>
  {
    Grouping.WithKey(right, Grouping.KeyOf, w)
  }

  function JoinRow(l: Grouping.Group<string, Counts>, matches: seq<Grouping.Group<string, nat>>): seq<Joined>
  {
    seq(|matches|, j requires 0 <= j < |matches| =>
      Joined(l.key, l.acc.casual, l.acc.registered, matches[j].acc))
  }

  /** `pd.merge(average_rentals, unique_days, on='weekday')`: an inner join that
      keeps the order of the left rows, each paired with every right row of its key. */
  function Merge(left: seq<Grouping.Group<string, Counts>>, right: seq<Grouping.Group<string, nat>>): seq<Joined>
  {
    if left == [] then [] else JoinRow(left[0], Matches(right, left[0].key)) + Merge(left[1..], right)
  }

  /** One row of the averages frame after the two column divisions. */
  datatype Average = Average(weekday: string, casual: real, registered: real, uniqueDays: nat)

  /** `average_rentals['casual'] / average_rentals['unique_days']`, and the same for `registered`. */
  function Divide(rows: seq<Joined>): seq<Average>
    requires forall i :: 0 <= i < |rows| ==> rows[i].uniqueDays > 0
  {
    seq(|rows|, i requires 0 <= i < |rows| =>
      Average(rows[i].weekday, rows[i].casual as real / rows[i].uniqueDays as real,
              rows[i].registered as real / rows[i].uniqueDays as real, rows[i].uniqueDays))
  }

  /** The records of weekday `w`, over the whole table. */
  function WeekdayRows(records: seq<Record>, w: string): seq<Record>
  {
    Grouping.WithKey(records, WeekdayOf, w)
  }

  /** Folding rows into a weekday's sums is summing both columns. */
  lemma {:induction false} AggregateCounts(w: seq<Record>)
    requires w != []
    ensures Grouping.Aggregate(w, CountsOf, AddCounts) == Counts(Table.Sum(w, CasualOf), Table.Sum(w, RegisteredOf))
  {
    if |w| > 1 {
      AggregateCounts(w[1..]);
    }
  }

  /** Folding rows into a weekday's date set collects its distinct dates. */
  lemma {:induction false} AggregateDays(w: seq<Record>)
    requires w != []
    ensures Grouping.Aggregate(w, DayOf, AddDay) == Grouping.KeysPresent(w, DteOf)
  {
    Grouping.KeysPresentCons(w, DteOf);
    if |w| > 1 {
      AggregateDays(w[1..]);
    } else {
      assert Grouping.KeysPresent(w[1..], DteOf) == {};
    }
  }

  /** Joining rows that each meet exactly one partner keeps the left rows, in order. */
  lemma {:induction false} MergeOneToOne(left: seq<Grouping.Group<string, Counts>>, right: seq<Grouping.Group<string, nat>>)
    requires forall i :: 0 <= i < |left| ==> |Matches(right, left[i].key)| == 1
    ensures |Merge(left, right)| == |left|
    ensures forall i :: 0 <= i < |left| ==>
              Merge(left, right)[i]
              == Joined(left[i].key, left[i].acc.casual, left[i].acc.registered, Matches(right, left[i].key)[0].acc)
  {
    if left != [] {
      assert forall i :: 0 <= i < |left[1..]| ==> left[1..][i] == left[i + 1];
      MergeOneToOne(left[1..], right);
    }
  }

  /** The weekday sums frame: sorted by weekday name, one group per weekday
      present, each holding the two column sums of its records. */
  lemma WeekdaySumsSpec(records: seq<Record>)
    ensures Grouping.Ascending(WeekdaySums(records), Text.Less)
    ensures Grouping.KeySet(WeekdaySums(records)) == Grouping.KeysPresent(records, WeekdayOf)
    ensures |WeekdaySums(records)| == |Grouping.KeysPresent(records, WeekdayOf)|
    ensures forall i :: 0 <= i < |WeekdaySums(records)| ==>
              var g := WeekdaySums(records)[i];
              WeekdayRows(records, g.key) != []
              && g.acc == Counts(Table.Sum(WeekdayRows(records, g.key), CasualOf),
                                 Table.Sum(WeekdayRows(records, g.key), RegisteredOf))
  {
    var left := WeekdaySums(records);
    Text.LessIsStrictTotalOrder();
    Grouping.GroupBySpec(records, WeekdayOf, CountsOf, AddCounts, Text.Less);
    Grouping.GroupByRows(records, WeekdayOf, CountsOf, AddCounts, Text.Less);
    forall i | 0 <= i < |left|
      ensures left[i].acc == Counts(Table.Sum(WeekdayRows(records, left[i].key), CasualOf),
                                    Table.Sum(WeekdayRows(records, left[i].key), RegisteredOf))
    {
      AggregateCounts(WeekdayRows(records, left[i].key));
    }
  }

  /** The unique-days frame is sorted by weekday name and has one row per weekday present. */
  lemma UniqueDaysKeys(records: seq<Record>)
    ensures Grouping.Ascending(UniqueDays(records), Text.Less)
    ensures Grouping.KeySet(UniqueDays(records)) == Grouping.KeysPresent(records, WeekdayOf)
  {
    var dates, right := WeekdayDates(records), UniqueDays(records);
    Text.LessIsStrictTotalOrder();
    Grouping.GroupBySpec(records, WeekdayOf, DayOf, AddDay, Text.Less);
    assert Grouping.KeySet(right) == Grouping.KeySet(dates) by {
      assert forall j :: 0 <= j < |right| ==> right[j].key == dates[j].key;
    }
  }

  /** One row of the unique-days frame counts the distinct dates of its own weekday. */
  lemma UniqueDaysRow(records: seq<Record>, j: int)
    requires 0 <= j < |UniqueDays(records)|
    ensures WeekdayRows(records, UniqueDays(records)[j].key) != []
    ensures UniqueDays(records)[j].acc
            == |Grouping.KeysPresent(WeekdayRows(records, UniqueDays(records)[j].key), DteOf)|
  {
    var dates := WeekdayDates(records);
    var w := dates[j].key;
    Text.LessIsStrictTotalOrder();
    Grouping.GroupByRows(records, WeekdayOf, DayOf, AddDay, Text.Less);
    assert UniqueDays(records)[j] == Grouping.Group(w, |dates[j].acc|);
    var rows := WeekdayRows(records, w);
    assert rows != [] && dates[j].acc == Grouping.Aggregate(rows, DayOf, AddDay);
    AggregateDays(rows);
  }

  /** The unique-days frame: sorted by weekday name, one row per weekday present,
      each holding the number of distinct dates among its records. */
  lemma UniqueDaysSpec(records: seq<Record>)
    ensures Grouping.Ascending(UniqueDays(records), Text.Less)
    ensures Grouping.KeySet(UniqueDays(records)) == Grouping.KeysPresent(records, WeekdayOf)
    ensures forall j :: 0 <= j < |UniqueDays(records)| ==>
              var g := UniqueDays(records)[j];
              WeekdayRows(records, g.key) != []
              && g.acc == |Grouping.KeysPresent(WeekdayRows(records, g.key), DteOf)|
  {
    UniqueDaysKeys(records);
    forall j | 0 <= j < |UniqueDays(records)|
      ensures WeekdayRows(records, UniqueDays(records)[j].key) != []
      ensures UniqueDays(records)[j].acc
              == |Grouping.KeysPresent(WeekdayRows(records, UniqueDays(records)[j].key), DteOf)|
    {
      UniqueDaysRow(records, j);
    }
  }

  /** A weekday present in the table meets exactly one unique-days row, its own. */
  lemma MatchesSpec(records: seq<Record>, w: string)
    requires w in Grouping.KeysPresent(records, WeekdayOf)
    ensures |Matches(UniqueDays(records), w)| == 1
    ensures Matches(UniqueDays(records), w)[0].acc == |Grouping.KeysPresent(WeekdayRows(records, w), DteOf)|
  {
    var right := UniqueDays(records);
    UniqueDaysSpec(records);
    Text.LessIsStrictTotalOrder();
    assert w in Grouping.KeySet(right);
    var j :| 0 <= j < |right| && right[j].key == w;
    Grouping.UniqueMatch(right, Text.Less, j);
  }

  /** Each weekday group of the sums frame meets its own distinct-day count in the merge. */
  lemma MergedRows(records: seq<Record>)
    ensures |Merge(WeekdaySums(records), UniqueDays(records))| == |WeekdaySums(records)|
    ensures forall i :: 0 <= i < |WeekdaySums(records)| ==>
              var g := WeekdaySums(records)[i];
              var rows := WeekdayRows(records, g.key);
              rows != []
              && Merge(WeekdaySums(records), UniqueDays(records))[i]
                 == Joined(g.key, Table.Sum(rows, CasualOf), Table.Sum(rows, RegisteredOf),
                           |Grouping.KeysPresent(rows, DteOf)|)
  {
    var left, right := WeekdaySums(records), UniqueDays(records);
    WeekdaySumsSpec(records);
    forall i | 0 <= i < |left|
      ensures |Matches(right, left[i].key)| == 1
      ensures Matches(right, left[i].key)[0].acc == |Grouping.KeysPresent(WeekdayRows(records, left[i].key), DteOf)|
    {
      assert left[i].key in Grouping.KeySet(left);
      MatchesSpec(records, left[i].key);
    }
    MergeOneToOne(left, right);
  }

  /** The averages frame, before l.138 turns its weekday column into a categorical. */
  function WeekdayAverages(records: seq<Record>): seq<Average>
  {
    var joined := Merge(WeekdaySums(records), UniqueDays(records));
    MergedRows(records);
    forall i | 0 <= i < |joined| ensures joined[i].uniqueDays > 0 {
      Grouping.KeysPresentBounds(WeekdayRows(records, WeekdaySums(records)[i].key), DteOf);
    }
    Divide(joined)
  }

  /** Every weekday present in the table gets one averages row, and the rows
      come in strictly ascending order of the weekday's name. */
  lemma WeekdayAveragesKeys(records: seq<Record>)
    ensures |WeekdayAverages(records)| == |Grouping.KeysPresent(records, WeekdayOf)|
    ensures forall i, j :: 0 <= i < j < |WeekdayAverages(records)| ==>
              Text.Less(WeekdayAverages(records)[i].weekday, WeekdayAverages(records)[j].weekday)
    ensures (set i | 0 <= i < |WeekdayAverages(records)| :: WeekdayAverages(records)[i].weekday)
            == Grouping.KeysPresent(records, WeekdayOf)
  {
    var left, avgs := WeekdaySums(records), WeekdayAverages(records);
    WeekdaySumsSpec(records);
    MergedRows(records);
    assert forall i :: 0 <= i < |avgs| ==> avgs[i].weekday == left[i].key;
    assert (set i | 0 <= i < |avgs| :: avgs[i].weekday) == Grouping.KeySet(left);
  }

  /** Each averages row holds its weekday's summed counts divided by its number
      of distinct dates, which lies between 1 and the weekday's number of
      records: the division never divides by zero. */
  lemma WeekdayAveragesValues(records: seq<Record>)
    ensures forall i :: 0 <= i < |WeekdayAverages(records)| ==>
              var a := WeekdayAverages(records)[i];
              var rows := WeekdayRows(records, a.weekday);
              && a.uniqueDays == |Grouping.KeysPresent(rows, DteOf)|
              && 1 <= a.uniqueDays <= |rows|
              && a.casual == Table.Sum(rows, CasualOf) as real / a.uniqueDays as real
              && a.registered == Table.Sum(rows, RegisteredOf) as real / a.uniqueDays as real
  {
    var left, avgs := WeekdaySums(records), WeekdayAverages(records);
    MergedRows(records);
    forall i | 0 <= i < |avgs|
      ensures 1 <= avgs[i].uniqueDays <= |WeekdayRows(records, avgs[i].weekday)|
    {
      Grouping.KeysPresentBounds(WeekdayRows(records, left[i].key), DteOf);
    }
  }

  /** The weekday categories of l.138, Monday first. */
  const WeekdayCategories: seq<string> :=
    ["Monday", "Tuesday", "Wednesday", "Thursday", "Friday", "Saturday", "Sunday"]

  /** The seven weekday names in the order pandas sorts them. */
  const AlphabeticalWeekdays: seq<string> :=
    ["Friday", "Monday", "Saturday", "Sunday", "Thursday", "Tuesday", "Wednesday"]

  /** The first position of `x` in `s`. */
  function IndexOf<T(==)>(s: seq<T>, x: T): (r: Option<nat>)
    ensures r.Some? ==> r.value < |s| && s[r.value] == x && forall j :: 0 <= j < r.value ==> s[j] != x
    ensures r.None? <==> x !in s
  {
    if s == [] then None
    else if s[0] == x then Some(0)
    else match IndexOf(s[1..], x)
         case None => None
         case Some(j) => Some(j + 1)
  }

  /** The categorical code l.138 gives a weekday name: its position among the
      categories, or none (NaN) for a name outside them. */
  function CategoryCode(w: string): (c: Option<nat>)
    ensures c.Some? ==> c.value < 7 && WeekdayCategories[c.value] == w
    ensures c.None? <==> w !in WeekdayCategories
  {
    IndexOf(WeekdayCategories, w)
  }

  lemma AlphabeticalWeekdaysSorted()
    ensures Order.Sorted(AlphabeticalWeekdays, Text.Less)
    ensures forall w :: w in AlphabeticalWeekdays <==> w in WeekdayCategories
  {
    var n := AlphabeticalWeekdays;
    assert Text.Less(n[0], n[1]) && Text.Less(n[1], n[2]) && Text.Less(n[2], n[3]);
    assert Text.Less(n[3], n[4]) && Text.Less(n[4], n[5]) && Text.Less(n[5], n[6]);
    Text.LessIsStrictTotalOrder();
  }

  /** The weekday column of the averages frame. */
  function WeekdayColumn(avgs: seq<Average>): seq<string>
  {
    seq(|avgs|, i requires 0 <= i < |avgs| => avgs[i].weekday)
  }

  lemma WeekdayColumnSpec(records: seq<Record>)
    ensures Order.Sorted(WeekdayColumn(WeekdayAverages(records)), Text.Less)
    ensures forall x :: x in WeekdayColumn(WeekdayAverages(records)) <==> x in Grouping.KeysPresent(records, WeekdayOf)
  {
    var avgs := WeekdayAverages(records);
    var names := WeekdayColumn(avgs);
    WeekdayAveragesKeys(records);
    forall x ensures x in names <==> x in Grouping.KeysPresent(records, WeekdayOf) {
      if x in names {
        var i :| 0 <= i < |names| && names[i] == x;
        assert x in (set i | 0 <= i < |avgs| :: avgs[i].weekday);
      }
      if x in Grouping.KeysPresent(records, WeekdayOf) {
        var i :| 0 <= i < |avgs| && avgs[i].weekday == x;
        assert names[i] == x;
      }
    }
  }

  /** l.138 recodes the weekday column but does not reorder rows: on a table
      covering all seven weekdays, the averages rows run Friday, Monday,
      Saturday, Sunday, Thursday, Tuesday, Wednesday. */
  lemma WeekdayRowOrder(records: seq<Record>)
    requires Grouping.KeysPresent(records, WeekdayOf) == set w | w in WeekdayCategories
    ensures WeekdayColumn(WeekdayAverages(records)) == AlphabeticalWeekdays
  {
    WeekdayColumnSpec(records);
    AlphabeticalWeekdaysSorted();
    Text.LessIsStrictTotalOrder();
    Order.SortedUnique(WeekdayColumn(WeekdayAverages(records)), AlphabeticalWeekdays, Text.Less);
  }

  /** One row of `average_rentals` after l.138: the weekday replaced by its
      categorical code, the other columns as they were. */
  datatype CodedAverage = CodedAverage(weekday: Option<nat>, casual: real, registered: real, uniqueDays: nat)

  function Recode(a: Average): CodedAverage
  {
    CodedAverage(CategoryCode(a.weekday), a.casual, a.registered, a.uniqueDays)
  }

  /** l.138: the weekday column becomes a categorical; assigning a column
      leaves the rows where they are. */
  function Categorize(avgs: seq<Average>): seq<CodedAverage>
  {
    if avgs == [] then [] else [Recode(avgs[0])] + Categorize(avgs[1..])
  }

  lemma {:induction false} CategorizeLength(avgs: seq<Average>)
    ensures |Categorize(avgs)| == |avgs|
  {
    if avgs != [] {
      CategorizeLength(avgs[1..]);
    }
  }

  lemma {:induction false} CategorizeAt(avgs: seq<Average>, i: int)
    requires 0 <= i < |avgs|
    ensures |Categorize(avgs)| == |avgs| && Categorize(avgs)[i] == Recode(avgs[i])
  {
    CategorizeLength(avgs);
    if i > 0 {
      CategorizeAt(avgs[1..], i - 1);
      assert avgs[1..][i - 1] == avgs[i];
    }
  }

  /** Categorizing keeps every row in place: row i of the result is row i of the
      frame, with the weekday name replaced by its code. */
  lemma CategorizeKeepsRows(avgs: seq<Average>)
    ensures |Categorize(avgs)| == |avgs|
    ensures forall i :: 0 <= i < |avgs| ==> Categorize(avgs)[i] == Recode(avgs[i])
  {
    CategorizeLength(avgs);
    forall i | 0 <= i < |avgs| ensures Categorize(avgs)[i] == Recode(avgs[i]) {
      CategorizeAt(avgs, i);
    }
  }

  /** The recoded weekday decodes back to the name it replaced, for every row
      whose name is one of the categories; the other columns are unchanged. */
  lemma CategorizeDecodes(avgs: seq<Average>, i: int)
    requires 0 <= i < |avgs|
    ensures |Categorize(avgs)| == |avgs|
    ensures Categorize(avgs)[i].casual == avgs[i].casual
    ensures Categorize(avgs)[i].registered == avgs[i].registered
    ensures Categorize(avgs)[i].uniqueDays == avgs[i].uniqueDays
    ensures avgs[i].weekday in WeekdayCategories ==>
              && Categorize(avgs)[i].weekday.Some?
              && Categorize(avgs)[i].weekday.value < 7
              && WeekdayCategories[Categorize(avgs)[i].weekday.value] == avgs[i].weekday
  {
    CategorizeKeepsRows(avgs);
  }

  /** The seven category names are pairwise different. */
  lemma CategoriesDistinct(a: int, b: int)
    requires 0 <= a < 7 && 0 <= b < 7 && WeekdayCategories[a] == WeekdayCategories[b]
    ensures a == b
  {
    var s, t := WeekdayCategories[a], WeekdayCategories[b];
    assert |s| == |t| && s[0] == t[0];
  }

  /** The categorical code of a category name is its own position. */
  lemma CodeAt(k: int)
    requires 0 <= k < 7
    ensures CategoryCode(WeekdayCategories[k]) == Some(k)
  {
    var c := CategoryCode(WeekdayCategories[k]);
    assert WeekdayCategories[k] in WeekdayCategories;
    CategoriesDistinct(c.value, k);
  }

  /** The categorical code of each name in alphabetical order. */
  lemma AlphabeticalCode(i: int)
    requires 0 <= i < 7
    ensures CategoryCode(AlphabeticalWeekdays[i]) == Some([4, 0, 5, 6, 3, 1, 2][i])
  {
    var k := [4, 0, 5, 6, 3, 1, 2][i];
    assert AlphabeticalWeekdays[i] == WeekdayCategories[k];
    CodeAt(k);
  }

  /** On a table covering all seven weekdays, the categorical codes of the
      final frame, row by row, are those of Friday, Monday, Saturday, Sunday,
      Thursday, Tuesday, Wednesday. */
  lemma CategorizedCodes(records: seq<Record>)
    requires Grouping.KeysPresent(records, WeekdayOf) == set w | w in WeekdayCategories
    ensures |Categorize(WeekdayAverages(records))| == 7
    ensures forall i :: 0 <= i < 7 ==>
              Categorize(WeekdayAverages(records))[i].weekday == Some([4, 0, 5, 6, 3, 1, 2][i])
  {
    var avgs := WeekdayAverages(records);
    WeekdayRowOrder(records);
    CategorizeKeepsRows(avgs);
    assert |avgs| == |WeekdayColumn(avgs)| == 7;
    forall i | 0 <= i < 7
      ensures Categorize(avgs)[i].weekday == Some([4, 0, 5, 6, 3, 1, 2][i])
    {
      assert avgs[i].weekday == WeekdayColumn(avgs)[i] == AlphabeticalWeekdays[i];
      AlphabeticalCode(i);
    }
  }

  // ---------------------------------------------------------------------------
  // The whole page

  /** Everything the page computes for one choice of years and date. The
      script stops at the day-before step when that subtraction overflows, so
      the previous slice and the weekday averages are then `None`. */
  datatype View = View(yearTotals: Totals, monthlyTrend: seq<TrendRow>,
                       dateTotals: Totals, selectedDay: seq<Record>,
                       previousDay: Option<seq<Record>>, averages: Option<seq<CodedAverage>>)

  function Render(records: seq<Record>, selected: set<int>, d: Dates.Date): View
    requires Dates.Valid(d)
  {
    View(YearTotals(records, selected), MonthlyTrend(records, selected),
         DateTotals(records, d), SelectedDay(records, d),
         PreviousDay(records, d),
         if Dates.Previous(d).Some? then Some(Categorize(WeekdayAverages(records))) else None)
  }

  /** The page stops before the day-before slice and the weekday averages
      exactly for 0001-01-01; the cards, trend and selected slice come first. */
  lemma RenderStops(records: seq<Record>, selected: set<int>, d: Dates.Date)
    requires Dates.Valid(d)
    ensures Render(records, selected, d).averages.None? <==> d == Dates.Date(Dates.MinYear, 1, 1)
    ensures Render(records, selected, d).previousDay.None? <==> d == Dates.Date(Dates.MinYear, 1, 1)
  {
    Dates.PreviousSpec(d);
  }

  /** The date cards and slices read `all_df`, not `year_df`, so they ignore the
      year selection; the year cards and trend ignore the date; the weekday
      averages ignore both, wherever the page reaches them. */
  lemma FiltersAreIndependent(records: seq<Record>, s1: set<int>, s2: set<int>, d1: Dates.Date, d2: Dates.Date)
    requires Dates.Valid(d1) && Dates.Valid(d2)
    ensures Render(records, s1, d1).averages == Render(records, s2, d1).averages
    ensures Render(records, s1, d1).averages.Some? && Render(records, s2, d2).averages.Some? ==>
            Render(records, s1, d1).averages == Render(records, s2, d2).averages
    ensures Render(records, s1, d1).dateTotals == Render(records, s2, d1).dateTotals
    ensures Render(records, s1, d1).selectedDay == Render(records, s2, d1).selectedDay
    ensures Render(records, s1, d1).previousDay == Render(records, s2, d1).previousDay
    ensures Render(records, s1, d1).yearTotals == Render(records, s1, d2).yearTotals
    ensures Render(records, s1, d1).monthlyTrend == Render(records, s1, d2).monthlyTrend
  {
  }
}
