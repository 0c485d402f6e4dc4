/**
 * Calendar dates as Python's `datetime.date` has them: the proleptic
 * Gregorian calendar, years 1 to 9999. `Ordinal` is `date.toordinal()`
 * (0001-01-01 is day 1); subtracting `timedelta(days=1)` moves one ordinal
 * back and raises `OverflowError` below the first representable date.
 * `Format` is `strftime('%Y-%m-%d')`, and `Parse` reads that form back.
 */
module Dates {
  import opened Wrappers

  const MinYear := 1
  const MaxYear := 9999

  datatype Date = Date(year: int, month: int, day: int)

  predicate IsLeapYear(y: int)
  {
    y % 4 == 0 && (y % 100 != 0 || y % 400 == 0)
  }

  function DaysInMonth(y: int, m: int): int
    requires 1 <= m <= 12
  {
    if m == 2 then (if IsLeapYear(y) then 29 else 28)
    else if m == 4 || m == 6 || m == 9 || m == 11 then 30
    else 31
  }

  predicate Valid(d: Date)
  {
    && MinYear <= d.year <= MaxYear
    && 1 <= d.month <= 12
    && 1 <= d.day <= DaysInMonth(d.year, d.month)
  }

  /** Days in the years before `y`. */
  function DaysBeforeYear(y: int): int
  {
    var p := y - 1;
    p * 365 + p / 4 - p / 100 + p / 400
  }

  /** Days in year `y` before the first of month `m`. */
  function DaysBeforeMonth(y: int, m: int): int
    requires 1 <= m <= 12
  {
    [0, 31, 59, 90, 120, 151, 181, 212, 243, 273, 304, 334][m - 1]
      + (if m > 2 && IsLeapYear(y) then 1 else 0)
  }

  /** The day number of `d`, counting 0001-01-01 as day 1. */
  function Ordinal(d: Date): int
    requires Valid(d)
  {
    DaysBeforeYear(d.year) + DaysBeforeMonth(d.year, d.month) + d.day
  }

  /** `d - timedelta(days=1)`; `None` where Python raises `OverflowError`. */
  function Previous(d: Date): Option<Date>
    requires Valid(d)
  {
    if d.day > 1 then Some(Date(d.year, d.month, d.day - 1))
    else if d.month > 1 then Some(Date(d.year, d.month - 1, DaysInMonth(d.year, d.month - 1)))
    else if d.year > MinYear then Some(Date(d.year - 1, 12, 31))
    else None
  }

  /** `d + timedelta(days=1)`; `None` where Python raises `OverflowError`. */
  function Next(d: Date): Option<Date>
    requires Valid(d)
  {
    if d.day < DaysInMonth(d.year, d.month) then Some(Date(d.year, d.month, d.day + 1))
    else if d.month < 12 then Some(Date(d.year, d.month + 1, 1))
    else if d.year < MaxYear then Some(Date(d.year + 1, 1, 1))
    else None
  }

  /** A year holds 365 days, 366 in a leap year. */
  lemma YearLength(y: int)
    requires y >= 1
    ensures DaysBeforeYear(y + 1) == DaysBeforeYear(y) + 365 + (if IsLeapYear(y) then 1 else 0)
  {
    QuotientStep4(y);
    QuotientStep100(y);
    QuotientStep400(y);
  }

  /** Moving from `y - 1` to `y` adds one multiple of 4 exactly when 4 divides `y`. */
  lemma QuotientStep4(y: int)
    ensures y / 4 - (y - 1) / 4 == (if y % 4 == 0 then 1 else 0)
  {
  }

  /** Moving from `y - 1` to `y` adds one multiple of 100 exactly when 100 divides `y`. */
  lemma QuotientStep100(y: int)
    ensures y / 100 - (y - 1) / 100 == (if y % 100 == 0 then 1 else 0)
  {
  }

  /** Moving from `y - 1` to `y` adds one multiple of 400 exactly when 400 divides `y`. */
  lemma QuotientStep400(y: int)
    ensures y / 400 - (y - 1) / 400 == (if y % 400 == 0 then 1 else 0)
  {
  }

  /** The first of a month follows the last day of the month before. */
  lemma MonthLength(y: int, m: int)
    requires 1 <= m < 12
    ensures DaysBeforeMonth(y, m + 1) == DaysBeforeMonth(y, m) + DaysInMonth(y, m)
  {
  }

  /** The day before `d` is a valid date one ordinal earlier whose next day is `d`;
      there is none exactly for the first representable date. */
  lemma PreviousSpec(d: Date)
    requires Valid(d)
    ensures Previous(d).None? <==> d == Date(MinYear, 1, 1)
    ensures Previous(d).Some? ==>
              var p := Previous(d).value;
              Valid(p) && Ordinal(p) == Ordinal(d) - 1 && Next(p) == Some(d)
  {
    if d.day > 1 {
    } else if d.month > 1 {
      PreviousAcrossMonth(d);
    } else if d.year > MinYear {
      PreviousAcrossYear(d);
    }
  }

  lemma PreviousAcrossMonth(d: Date)
    requires Valid(d) && d.day == 1 && d.month > 1
    ensures var p := Date(d.year, d.month - 1, DaysInMonth(d.year, d.month - 1));
            Valid(p) && Ordinal(p) == Ordinal(d) - 1 && Next(p) == Some(d)
  {
    MonthLength(d.year, d.month - 1);
  }

  lemma PreviousAcrossYear(d: Date)
    requires Valid(d) && d.day == 1 && d.month == 1 && d.year > MinYear
    ensures var p := Date(d.year - 1, 12, 31);
            Valid(p) && Ordinal(p) == Ordinal(d) - 1 && Next(p) == Some(d)
  {
    YearLength(d.year - 1);
    assert DaysBeforeMonth(d.year - 1, 12) + 31 == 365 + (if IsLeapYear(d.year - 1) then 1 else 0);
  }

  /** The day after `d` is a valid date one ordinal later whose previous day is `d`;
      there is none exactly for the last representable date. */
  lemma NextSpec(d: Date)
    requires Valid(d)
    ensures Next(d).None? <==> d == Date(MaxYear, 12, 31)
    ensures Next(d).Some? ==>
              var n := Next(d).value;
              Valid(n) && Ordinal(n) == Ordinal(d) + 1 && Previous(n) == Some(d)
  {
    if d.day < DaysInMonth(d.year, d.month) {
    } else if d.month < 12 {
      MonthLength(d.year, d.month);
    } else if d.year < MaxYear {
      YearLength(d.year);
      assert DaysBeforeMonth(d.year, 12) + 31 == 365 + (if IsLeapYear(d.year) then 1 else 0);
    }
  }

  /** Every date of year `y` lies in that year's ordinal range. */
  lemma OrdinalInYear(d: Date)
    requires Valid(d)
    ensures DaysBeforeYear(d.year) < Ordinal(d) <= DaysBeforeYear(d.year + 1)
  {
    YearLength(d.year);
  }

  /** Dates in a strictly earlier month of the same year have strictly smaller ordinals. */
  lemma OrdinalMonthOrder(a: Date, b: Date)
    requires Valid(a) && Valid(b) && a.year == b.year && a.month < b.month
    ensures Ordinal(a) < Ordinal(b)
  {
  }

  /** Day numbers are one-to-one: a date is determined by its ordinal. */
  lemma OrdinalInjective(a: Date, b: Date)
    requires Valid(a) && Valid(b) && Ordinal(a) == Ordinal(b)
    ensures a == b
  {
    OrdinalInYear(a);
    OrdinalInYear(b);
    if a.year < b.year {
      YearsBefore(a.year + 1, b.year);
    } else if b.year < a.year {
      YearsBefore(b.year + 1, a.year);
    } else if a.month < b.month {
      OrdinalMonthOrder(a, b);
    } else if b.month < a.month {
      OrdinalMonthOrder(b, a);
    }
  }

  /** `DaysBeforeYear` is monotonic. */
  lemma YearsBefore(x: int, y: int)
    requires 1 <= x <= y
    ensures DaysBeforeYear(x) <= DaysBeforeYear(y)
  {
  }

  lemma FirstOrdinal()
    ensures Ordinal(Date(MinYear, 1, 1)) == 1
  {
  }

  lemma OrdinalPositive(d: Date)
    requires Valid(d)
    ensures Ordinal(d) >= 1
  {
    OrdinalInYear(d);
    YearsBefore(1, d.year);
  }

  /** `Previous` is the calendar predecessor: the one valid date one day earlier. */
  lemma PreviousIsPredecessor(d: Date, e: Date)
    requires Valid(d) && Valid(e) && Ordinal(e) == Ordinal(d) - 1
    ensures Previous(d) == Some(e)
  {
    OrdinalPositive(e);
    assert d != Date(MinYear, 1, 1) by {
      FirstOrdinal();
    }
    PreviousSpec(d);
    OrdinalInjective(Previous(d).value, e);
  }

  function Digit(n: int): char
    requires 0 <= n <= 9
  {
    (48 + n) as char
  }

  predicate IsDigit(c: char)
  {
    '0' <= c <= '9'
  }

  function DigitValue(c: char): int
  {
    c as int - 48
  }

  function Pow10(w: nat): nat
  {
    if w == 0 then 1 else 10 * Pow10(w - 1)
  }

  /** The last `width` decimal digits of `n`, zero-padded on the left. */
  function Pad(n: nat, width: nat): (r: string)
    ensures |r| == width
    ensures forall i :: 0 <= i < |r| ==> IsDigit(r[i])
  {
    if width == 0 then "" else Pad(n / 10, width - 1) + [Digit(n % 10)]
  }

  /** The number a string of decimal digits spells. */
  function DecimalValue(s: string): int
  {
    if s == [] then 0 else 10 * DecimalValue(s[..|s| - 1]) + DigitValue(s[|s| - 1])
  }

  lemma {:induction false} PadValue(n: nat, width: nat)
    requires n < Pow10(width)
    ensures DecimalValue(Pad(n, width)) == n
  {
    if width > 0 {
      PadValue(n / 10, width - 1);
      var r := Pad(n, width);
      assert r[..|r| - 1] == Pad(n / 10, width - 1);
    }
  }

  /** `strftime('%Y-%m-%d')`: four-digit year, two-digit month and day. */
  function Format(d: Date): (r: string)
    requires Valid(d)
    ensures |r| == 10 && r[4] == '-' && r[7] == '-'
    ensures forall i :: 0 <= i < 10 && i != 4 && i != 7 ==> IsDigit(r[i])
  {
    Pad(d.year, 4) + "-" + Pad(d.month, 2) + "-" + Pad(d.day, 2)
  }

  predicate AllDigits(s: string)
  {
    forall i :: 0 <= i < |s| ==> IsDigit(s[i])
  }

  /** Reads a `YYYY-MM-DD` string back into a valid date. */
  function Parse(s: string): (r: Option<Date>)
    ensures r.Some? ==> Valid(r.value)
  {
    if |s| == 10 && s[4] == '-' && s[7] == '-'
       && AllDigits(s[..4]) && AllDigits(s[5..7]) && AllDigits(s[8..])
    then
      var d := Date(DecimalValue(s[..4]), DecimalValue(s[5..7]), DecimalValue(s[8..]));
      if Valid(d) then Some(d) else None
    else None
  }

  /** Formatting loses nothing: parsing the string gives the date back. */
  lemma FormatRoundTrip(d: Date)
    requires Valid(d)
    ensures Parse(Format(d)) == Some(d)
  {
    var s := Format(d);
    assert s[..4] == Pad(d.year, 4);
    assert s[5..7] == Pad(d.month, 2);
    assert s[8..] == Pad(d.day, 2);
    assert Pow10(2) == 100 && Pow10(4) == 10000;
    PadValue(d.year, 4);
    PadValue(d.month, 2);
    PadValue(d.day, 2);
  }

  /** Distinct dates have distinct strings, so an equality test on the string
      selects exactly one calendar date. */
  lemma FormatInjective(a: Date, b: Date)
    requires Valid(a) && Valid(b) && Format(a) == Format(b)
    ensures a == b
  {
    FormatRoundTrip(a);
    FormatRoundTrip(b);
  }

  /** A string that parses to `d` is the formatted `d`: the filter misses no spelling. */
  lemma FormatIsOnlySpelling(s: string, d: Date)
    requires Valid(d) && Parse(s) == Some(d)
    ensures s == Format(d)
  {
    var f := Format(d);
    assert |s| == 10 && s[4] == '-' && s[7] == '-';
    PadSpelling(s[..4], d.year, 4);
    PadSpelling(s[5..7], d.month, 2);
    PadSpelling(s[8..], d.day, 2);
    assert f[..4] == Pad(d.year, 4) && f[5..7] == Pad(d.month, 2) && f[8..] == Pad(d.day, 2);
    assert s == s[..4] + "-" + s[5..7] + "-" + s[8..];
  }

  /** A digit string of width `w` spelling `n` is `n` zero-padded to `w`. */
  lemma {:induction false} PadSpelling(s: string, n: int, w: nat)
    requires |s| == w && AllDigits(s) && DecimalValue(s) == n && n >= 0
    ensures s == Pad(n, w)
  {
    if w > 0 {
      var init, last := s[..w - 1], s[w - 1];
      assert AllDigits(init);
      PadSpelling(init, DecimalValue(init), w - 1);
      DecimalValueNonNegative(init);
      var v := DecimalValue(init);
      assert n == 10 * v + (last as int - 48);
      assert n / 10 == v && n % 10 == last as int - 48;
      assert s == init + [last];
    }
  }

  lemma {:induction false} DecimalValueNonNegative(s: string)
    requires AllDigits(s)
    ensures DecimalValue(s) >= 0
  {
    if s != [] {
      assert AllDigits(s[..|s| - 1]);
      DecimalValueNonNegative(s[..|s| - 1]);
    }
  }

  /** The padded fields of the dashboard's default date and the day before it. */
  lemma PadExamples()
    ensures Pad(2011, 4) == "2011" && Pad(2010, 4) == "2010"
    ensures Pad(1, 2) == "01" && Pad(12, 2) == "12" && Pad(31, 2) == "31"
  {
    assert Pad(2, 1) == "2";
    assert Pad(20, 2) == "20";
    assert Pad(201, 3) == "201";
    assert Pad(0, 1) == "0";
    assert Pad(1, 1) == "1";
    assert Pad(3, 1) == "3";
  }

  /** The dashboard's default date and the day before it, as they are spelled. */
  lemma FormatExample()
    ensures Format(Date(2011, 1, 1)) == "2011-01-01"
    ensures Format(Date(2010, 12, 31)) == "2010-12-31"
  {
    PadExamples();
  }
}
