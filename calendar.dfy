/** Proleptic Gregorian calendar dates as Python's `datetime.date` has them:
    the leap-year rule, month lengths, and `toordinal()` (day 1 is
    0001-01-01). */
module Calendar {

  datatype Date = Date(year: int, month: int, day: int)

  predicate IsLeapYear(y: int)
  {
    y % 4 == 0 && (y % 100 != 0 || y % 400 == 0)
  }

  function DaysInMonth(y: int, m: int): (n: int)
    requires 1 <= m <= 12
    ensures 28 <= n <= 31
    ensures m == 2 ==> (n == 29 <==> IsLeapYear(y))
  {
    if m == 2 then (if IsLeapYear(y) then 29 else 28)
    else if m == 4 || m == 6 || m == 9 || m == 11 then 30
    else 31
  }

  function DaysInYear(y: int): int
  {
    if IsLeapYear(y) then 366 else 365
  }

  /** A date `datetime.date` accepts: year 1..9999, month 1..12, and a day
      that exists in that month of that year. */
  predicate IsCalendarDate(d: Date)
  {
    1 <= d.year <= 9999 && 1 <= d.month <= 12 && 1 <= d.day <= DaysInMonth(d.year, d.month)
  }

  /** A value of a `DATE` column: always a calendar date. */
  type ValidDate = d: Date | IsCalendarDate(d) witness Date(1, 1, 1)

  /** Days in the months of year `y` before month `m`. */
  function DaysBeforeMonth(y: int, m: int): int
    requires 1 <= m <= 12
  {
    var table := [0, 31, 59, 90, 120, 151, 181, 212, 243, 273, 304, 334];
    table[m - 1] + (if m > 2 && IsLeapYear(y) then 1 else 0)
  }

  /** Days in the years before year `y` (the closed form Python's
      `datetime` module uses). */
  function DaysBeforeYear(y: int): int
    requires y >= 1
  {
    var k := y - 1;
    k * 365 + k / 4 - k / 100 + k / 400
  }

  /** `date.toordinal()` */
  function Ordinal(d: Date): int
    requires IsCalendarDate(d)
  {
    DaysBeforeYear(d.year) + DaysBeforeMonth(d.year, d.month) + d.day
  }

  /** Python's `<` on dates: by year, then month, then day. */
  predicate Before(a: Date, b: Date)
  {
    a.year < b.year || (a.year == b.year && (a.month < b.month || (a.month == b.month && a.day < b.day)))
  }

  lemma MonthStep(y: int, m: int)
    requires 1 <= m < 12
    ensures DaysBeforeMonth(y, m + 1) == DaysBeforeMonth(y, m) + DaysInMonth(y, m)
  {
  }

  lemma LastMonth(y: int)
    ensures DaysBeforeMonth(y, 12) + DaysInMonth(y, 12) == DaysInYear(y)
  {
  }

  lemma YearStep(y: int)
    requires y >= 1
    ensures DaysBeforeYear(y + 1) == DaysBeforeYear(y) + DaysInYear(y)
  {
    var k := y - 1;
    assert (k + 1) / 4 == k / 4 + (if y % 4 == 0 then 1 else 0);
    assert (k + 1) / 100 == k / 100 + (if y % 100 == 0 then 1 else 0);
    assert (k + 1) / 400 == k / 400 + (if y % 400 == 0 then 1 else 0);
  }

  /** Every day of year `y` lies within that year's span of ordinals. */
  lemma {:induction false} DayWithinYear(d: Date)
    requires IsCalendarDate(d)
    ensures DaysBeforeMonth(d.year, d.month) + d.day <= DaysInYear(d.year)
    decreases 12 - d.month
  {
    if d.month == 12 {
      LastMonth(d.year);
    } else {
      MonthStep(d.year, d.month);
      DayWithinYear(Date(d.year, d.month + 1, 1));
    }
  }

  lemma {:induction false} YearsApart(a: int, b: int)
    requires 1 <= a <= b
    ensures DaysBeforeYear(b) >= DaysBeforeYear(a) + 365 * (b - a)
    decreases b - a
  {
    if a < b {
      YearStep(a);
      YearsApart(a + 1, b);
    }
  }

  lemma {:induction false} MonthsApart(y: int, a: int, b: int)
    requires 1 <= a <= b <= 12
    ensures DaysBeforeMonth(y, b) >= DaysBeforeMonth(y, a) + 28 * (b - a)
    decreases b - a
  {
    if a < b {
      MonthStep(y, a);
      MonthsApart(y, a + 1, b);
    }
  }

  /** The ordinal follows the calendar: one date comes before another exactly
      when its ordinal is smaller, and two dates share an ordinal only when
      they are the same date. */
  lemma OrdinalOrder(a: Date, b: Date)
    requires IsCalendarDate(a) && IsCalendarDate(b)
    ensures Before(a, b) <==> Ordinal(a) < Ordinal(b)
    ensures Ordinal(a) == Ordinal(b) <==> a == b
  {
    if Before(a, b) {
      BeforeOrdinal(a, b);
    } else if Before(b, a) {
      BeforeOrdinal(b, a);
    } else {
      assert a == b;
    }
  }

  lemma BeforeOrdinal(a: Date, b: Date)
    requires IsCalendarDate(a) && IsCalendarDate(b) && Before(a, b)
    ensures Ordinal(a) < Ordinal(b)
  {
    if a.year < b.year {
      DayWithinYear(a);
      YearStep(a.year);
      YearsApart(a.year + 1, b.year);
    } else if a.month < b.month {
      MonthStep(a.year, a.month);
      MonthsApart(a.year, a.month + 1, b.month);
    }
  }

  /** Meteorological seasons, keyed by calendar month whatever the year. */
  datatype Season = Winter | Spring | Summer | Fall

  /** `season_map[month]` */
  function SeasonOf(month: int): Season
    requires 1 <= month <= 12
  {
    if month == 12 || month == 1 || month == 2 then Winter
    else if month <= 5 then Spring
    else if month <= 8 then Summer
    else Fall
  }

  /** The months a season is made of. */
  function MonthsOf(s: Season): set<int>
  {
    match s
    case Winter => {12, 1, 2}
    case Spring => {3, 4, 5}
    case Summer => {6, 7, 8}
    case Fall => {9, 10, 11}
  }

  /** Every month belongs to exactly one season: the one `SeasonOf` names. */
  lemma SeasonsPartitionMonths(month: int, s: Season)
    requires 1 <= month <= 12
    ensures month in MonthsOf(s) <==> SeasonOf(month) == s
  {
  }
}
