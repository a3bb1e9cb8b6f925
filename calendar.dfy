/**
 * Calendar dates as pandas holds them after `pd.to_datetime`: proleptic
 * Gregorian dates at midnight.  Provides the day count used for Length of
 * Stay and the month-end label used by the monthly (`freq='M'`) grouping.
 */
module Calendar {

  datatype Date = Date(year: int, month: int, day: int)

  predicate IsLeapYear(y: int)
  {
    y % 4 == 0 && (y % 100 != 0 || y % 400 == 0)
  }

  function DaysInMonth(y: int, m: int): (n: int)
    requires 1 <= m <= 12
    ensures 28 <= n <= 31
  {
    if m == 2 then (if IsLeapYear(y) then 29 else 28)
    else if m == 4 || m == 6 || m == 9 || m == 11 then 30
    else 31
  }

  function YearLength(y: int): int
  {
    if IsLeapYear(y) then 366 else 365
  }

  predicate IsValid(d: Date)
  {
    1 <= d.month <= 12 && 1 <= d.day <= DaysInMonth(d.year, d.month)
  }

  /** A date that exists in the calendar. */
  type CivilDate = d: Date | IsValid(d) witness Date(2000, 1, 1)

  /** Chronological order; on dates it is the lexicographic order of (year, month, day). */
  predicate Before(a: Date, b: Date)
  {
    a.year < b.year || (a.year == b.year && (a.month < b.month || (a.month == b.month && a.day < b.day)))
  }

  predicate NotAfter(a: Date, b: Date)
  {
    a == b || Before(a, b)
  }

  /** The calendar's own notion of "the day after". */
  function NextDay(d: CivilDate): CivilDate
  {
    if d.day < DaysInMonth(d.year, d.month) then Date(d.year, d.month, d.day + 1)
    else if d.month < 12 then Date(d.year, d.month + 1, 1)
    else Date(d.year + 1, 1, 1)
  }

  /** Days in the months of year y before month m. */
  function DaysBeforeMonth(y: int, m: int): int
    requires 1 <= m <= 13
    decreases m
  {
    if m == 1 then 0 else DaysBeforeMonth(y, m - 1) + DaysInMonth(y, m - 1)
  }

  /** Days from 0001-01-01 to the first of January of year y. */
  function DaysBeforeYear(y: int): int
  {
    var p := y - 1;
    365 * p + p / 4 - p / 100 + p / 400
  }

  /** Days from 0001-01-01 to d (a days-from-civil count). */
  function DayNumber(d: CivilDate): int
  {
    DaysBeforeYear(d.year) + DaysBeforeMonth(d.year, d.month) + d.day - 1
  }

  /**
   * `(discharge - admission).dt.days`: the whole-day difference between two
   * midnights.  Negative, not clamped, when discharge precedes admission.
   */
  function StayDays(admission: CivilDate, discharge: CivilDate): (n: int)
    ensures n < 0 <==> Before(discharge, admission)
    ensures n == 0 <==> discharge == admission
  {
    DayNumberOrder(admission, discharge);
    DayNumberOrder(discharge, admission);
    DayNumber(discharge) - DayNumber(admission)
  }

  /**
   * The `freq='M'` label of a date: the last day of its calendar month, which
   * is never earlier than the date and lies in the same year and month.
   */
  function MonthEnd(d: CivilDate): (e: CivilDate)
    ensures e.year == d.year && e.month == d.month
    ensures NotAfter(d, e)
    ensures NextDay(e).day == 1
  {
    Date(d.year, d.month, DaysInMonth(d.year, d.month))
  }

  /** Floor division by a positive constant steps up by one exactly at multiples. */
  lemma FloorStep(p: int, k: int)
    requires k == 4 || k == 100 || k == 400
    ensures (p + 1) / k - p / k == (if (p + 1) % k == 0 then 1 else 0)
  {
    var q, r := p / k, p % k;
    assert p == k * q + r && 0 <= r < k;
    if r == k - 1 {
      assert p + 1 == k * (q + 1) + 0;
    } else {
      assert p + 1 == k * q + (r + 1) && 0 <= r + 1 < k;
    }
  }

  lemma YearStep(y: int)
    ensures DaysBeforeYear(y + 1) == DaysBeforeYear(y) + YearLength(y)
  {
    var p := y - 1;
    FloorStep(p, 4);
    FloorStep(p, 100);
    FloorStep(p, 400);
    assert p + 1 == y;
    DivisorsOfCentury(y);
    var step := (y / 4 - p / 4) - (y / 100 - p / 100) + (y / 400 - p / 400);
    assert step == (if IsLeapYear(y) then 1 else 0);
    assert DaysBeforeYear(y + 1) - DaysBeforeYear(y) == 365 + step;
  }

  /** A multiple of 400 is a multiple of 100, and a multiple of 100 a multiple of 4. */
  lemma DivisorsOfCentury(y: int)
    ensures y % 400 == 0 ==> y % 100 == 0
    ensures y % 100 == 0 ==> y % 4 == 0
  {
    if y % 400 == 0 {
      MultipleOfMultiple(y, 100, 4);
    }
    if y % 100 == 0 {
      MultipleOfMultiple(y, 4, 25);
    }
  }

  lemma MultipleOfMultiple(y: int, a: int, b: int)
    requires (a == 100 && b == 4) || (a == 4 && b == 25)
    requires y % (a * b) == 0
    ensures y % a == 0
  {
    var q := y / (a * b);
    assert y == (a * b) * q;
    assert y == a * (b * q);
  }

  lemma DaysBeforeMonthGrows(y: int, m1: int, m2: int)
    requires 1 <= m1 <= m2 <= 13
    ensures DaysBeforeMonth(y, m1) <= DaysBeforeMonth(y, m2)
    decreases m2 - m1
  {
    if m1 < m2 {
      DaysBeforeMonthGrows(y, m1, m2 - 1);
    }
  }

  lemma DaysBeforeYearGrows(y1: int, y2: int)
    requires y1 <= y2
    ensures DaysBeforeYear(y1) <= DaysBeforeYear(y2)
    decreases y2 - y1
  {
    if y1 < y2 {
      DaysBeforeYearGrows(y1, y2 - 1);
      YearStep(y2 - 1);
    }
  }

  /** Every date of year y is numbered within that year's block of days. */
  lemma DayOfYearBounds(d: CivilDate)
    ensures 0 <= DaysBeforeMonth(d.year, d.month) + d.day - 1 < YearLength(d.year)
  {
    DaysBeforeMonthGrows(d.year, d.month + 1, 13);
    DaysBeforeMonthGrows(d.year, 1, d.month);
    assert DaysBeforeMonth(d.year, 13) == YearLength(d.year);
  }

  /** The day count advances by exactly one from a date to the next. */
  lemma {:induction false} DayNumberNextDay(d: CivilDate)
    ensures DayNumber(NextDay(d)) == DayNumber(d) + 1
  {
    if d.day == DaysInMonth(d.year, d.month) && d.month == 12 {
      YearStep(d.year);
      assert DaysBeforeMonth(d.year, 13) == YearLength(d.year);
    }
  }

  lemma {:induction false} DayNumberMonotone(a: CivilDate, b: CivilDate)
    requires Before(a, b)
    ensures DayNumber(a) < DayNumber(b)
  {
    if a.year < b.year {
      DayOfYearBounds(a);
      DayOfYearBounds(b);
      YearStep(a.year);
      DaysBeforeYearGrows(a.year + 1, b.year);
      var ya, yb := DaysBeforeYear(a.year), DaysBeforeYear(b.year);
      assert DayNumber(a) < ya + YearLength(a.year) <= yb <= DayNumber(b);
    } else if a.month < b.month {
      DaysBeforeMonthGrows(a.year, a.month + 1, b.month);
    }
  }

  /** Chronological (lexicographic) order and day-count order agree on real dates. */
  lemma {:induction false} DayNumberOrder(a: CivilDate, b: CivilDate)
    ensures Before(a, b) <==> DayNumber(a) < DayNumber(b)
    ensures a == b <==> DayNumber(a) == DayNumber(b)
  {
    if Before(a, b) {
      DayNumberMonotone(a, b);
    } else if Before(b, a) {
      DayNumberMonotone(b, a);
    }
  }

  /** No date of a month lies after that month's label. */
  lemma MonthEndIsLast(d: CivilDate, e: CivilDate)
    requires e.year == d.year && e.month == d.month
    ensures NotAfter(e, MonthEnd(d))
  {
  }

  /** Month-end labelling preserves chronological order. */
  lemma MonthEndMonotone(a: CivilDate, b: CivilDate)
    requires NotAfter(a, b)
    ensures NotAfter(MonthEnd(a), MonthEnd(b))
  {
  }

  /**
   * For a range that starts on the first of a month and ends on a month's last
   * day, a date is in the range exactly when its month-end label is.
   */
  lemma MonthAlignedRange(d: CivilDate, start: CivilDate, end: CivilDate)
    requires start.day == 1 && end == MonthEnd(end)
    ensures (NotAfter(start, d) && NotAfter(d, end))
        <==> (NotAfter(start, MonthEnd(d)) && NotAfter(MonthEnd(d), end))
  {
    if NotAfter(d, end) {
      MonthEndMonotone(d, end);
    }
  }
}
