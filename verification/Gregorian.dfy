/** The validated civil types, and the calendar counted out month by month and year by year. */
module Gregorian {
  import opened Octets

  const MAX_YEAR: int := 9999

  predicate IsLeapYear(year: int) {
    year % 4 == 0 && (year % 100 != 0 || year % 400 == 0)
  }

  function DaysInMonth(year: int, month: int): Option<int> {
    if month in {1, 3, 5, 7, 8, 10, 12} then Some(31)
    else if month in {4, 6, 9, 11} then Some(30)
    else if month == 2 then Some(if IsLeapYear(year) then 29 else 28)
    else None
  }

  datatype DateFields = DateFields(year: int, month: int, day: int)

  predicate IsDate(d: DateFields) {
    && 0 <= d.year <= MAX_YEAR
    && var length := DaysInMonth(d.year, d.month);
    length.Some? && 1 <= d.day <= length.value
  }

  type CivilDate = d: DateFields | IsDate(d) witness DateFields(0, 1, 1)

  function FromYmd(year: int, month: int, day: int): Option<CivilDate> {
    var d := DateFields(year, month, day);
    if IsDate(d) then Some(d) else None
  }

  datatype TimeFields = TimeFields(hour: int, minute: int, second: int)

  predicate IsTime(t: TimeFields) {
    0 <= t.hour <= 23 && 0 <= t.minute <= 59 && 0 <= t.second <= 60
  }

  type CivilTime = t: TimeFields | IsTime(t) witness TimeFields(0, 0, 0)

  function FromHms(hour: int, minute: int, second: int): Option<CivilTime> {
    var t := TimeFields(hour, minute, second);
    if IsTime(t) then Some(t) else None
  }

  datatype CivilDateTime = CivilDateTime(date: CivilDate, time: CivilTime)

  /** Whole seconds east of UTC, strictly inside a day either way. */
  type UtcOffset = s: int | -86_400 < s < 86_400

  /** A span kept as the two parts it was stated in. */
  datatype Duration = Duration(days: int, seconds: int)

  datatype MonthAddOutcome = Exact(date: CivilDate) | Clamped(date: CivilDate, requestedDay: int) | Overflow

  // -------------------------------------------------------------------------
  // Counting days the long way
  // -------------------------------------------------------------------------

  function YearLength(year: int): int {
    if IsLeapYear(year) then 366 else 365
  }

  /** The days in the years from 0 up to the given one. */
  function DaysBeforeYear(year: nat): int {
    if year == 0 then 0 else DaysBeforeYear(year - 1) + YearLength(year - 1)
  }

  /** The days of the year before a month. */
  function DaysBeforeMonth(year: int, month: int): int
    requires 1 <= month <= 12
    decreases month
  {
    if month == 1 then 0 else DaysBeforeMonth(year, month - 1) + DaysInMonth(year, month - 1).value
  }

  /** A date's place in the calendar, counting 1 January of year 0 as 0. */
  function CountedDays(d: CivilDate): int {
    DaysBeforeYear(d.year) + DaysBeforeMonth(d.year, d.month) + d.day - 1
  }

  const EPOCH: CivilDate := DateFields(1970, 1, 1)

  /** The date after a date, by the calendar's own rules. */
  function NextDate(d: CivilDate): Option<CivilDate> {
    if d.day < DaysInMonth(d.year, d.month).value then Some(d.(day := d.day + 1))
    else if d.month < 12 then Some(DateFields(d.year, d.month + 1, 1))
    else FromYmd(d.year + 1, 1, 1)
  }

  predicate Earlier(a: CivilDate, b: CivilDate) {
    a.year < b.year || (a.year == b.year && (a.month < b.month || (a.month == b.month && a.day < b.day)))
  }

  lemma {:induction false} NextDateCounts(d: CivilDate)
    ensures NextDate(d).Some? ==> CountedDays(NextDate(d).value) == CountedDays(d) + 1
    ensures NextDate(d).None? <==> d == DateFields(MAX_YEAR, 12, 31)
  {
    hide IsLeapYear, DaysBeforeYear, DaysBeforeMonth, YearLength;
    if d.month == 12 {
      YearOfMonths(d.year);
      NextYear(d.year);
    } else {
      NextMonth(d.year, d.month);
    }
  }

  lemma {:induction false} NextMonth(year: int, month: int)
    requires 1 <= month < 12
    ensures DaysBeforeMonth(year, month + 1) == DaysBeforeMonth(year, month) + DaysInMonth(year, month).value
  {
    hide IsLeapYear;
  }

  lemma {:induction false} NextYear(year: nat)
    ensures DaysBeforeYear(year + 1) == DaysBeforeYear(year) + YearLength(year) && DaysBeforeMonth(year + 1, 1) == 0
  {
    hide IsLeapYear;
  }

  lemma {:induction false} YearOfMonths(year: int)
    ensures DaysBeforeMonth(year, 12) + 31 == YearLength(year)
  {
    var f := if IsLeapYear(year) then 29 else 28;
    assert DaysBeforeMonth(year, 3) == 31 + f;
    assert DaysBeforeMonth(year, 5) == 92 + f;
    assert DaysBeforeMonth(year, 7) == 153 + f;
    assert DaysBeforeMonth(year, 9) == 215 + f;
    assert DaysBeforeMonth(year, 11) == 276 + f;
  }

  lemma {:induction false} MonthsMonotone(year: int, m: int, n: int)
    requires 1 <= m < n <= 12
    ensures DaysBeforeMonth(year, m) + DaysInMonth(year, m).value <= DaysBeforeMonth(year, n)
    decreases n
  {
    if m < n - 1 { MonthsMonotone(year, m, n - 1); }
  }

  lemma {:induction false} YearsMonotone(y: nat, z: nat)
    requires y < z
    ensures DaysBeforeYear(y) + YearLength(y) <= DaysBeforeYear(z)
    decreases z
  {
    if y < z - 1 { YearsMonotone(y, z - 1); }
  }

  lemma {:induction false} WithinYear(d: CivilDate)
    ensures DaysBeforeYear(d.year) <= CountedDays(d) < DaysBeforeYear(d.year) + YearLength(d.year)
  {
    YearOfMonths(d.year);
    if d.month < 12 { MonthsMonotone(d.year, d.month, 12); }
    if d.month > 1 { MonthsMonotone(d.year, 1, d.month); }
  }

  /** Counting preserves the order of dates. */
  lemma {:induction false} CountedOrder(a: CivilDate, b: CivilDate)
    requires Earlier(a, b)
    ensures CountedDays(a) < CountedDays(b)
  {
    if a.year < b.year {
      WithinYear(a);
      WithinYear(b);
      YearsMonotone(a.year, b.year);
    } else if a.month < b.month {
      MonthsMonotone(a.year, a.month, b.month);
    }
  }
}
