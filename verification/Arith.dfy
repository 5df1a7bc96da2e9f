/**
 Calendar arithmetic in closed form over 400-year eras, proved against counting days out; months
 that may not have the day; instants; and durations whose seconds borrow whole days.
 */
module Arith {
  import opened Octets
  import opened Gregorian

  const DAYS_FROM_ERA_TO_EPOCH: int := 719_468
  const DAYS_PER_ERA: int := 146_097
  const YEARS_PER_ERA: int := 400
  const SECONDS_PER_DAY: int := 86_400

  const FIRST_DAY: int := -719_528
  const LAST_DAY: int := 2_932_896

  /** The result of a checked step: nothing outside 64 bits. */
  function CheckedI64(n: int): Option<int> {
    if I64_MIN <= n <= I64_MAX then Some(n) else None
  }

  // -------------------------------------------------------------------------
  // Dates and day numbers
  // -------------------------------------------------------------------------

  function DayOfYearFromMarch(month: int, day: int): int {
    (153 * ((month + 9) % 12) + 2) / 5 + day - 1
  }

  function DayOfEra(yearOfEra: int, dayOfYear: int): int {
    yearOfEra * 365 + yearOfEra / 4 - yearOfEra / 100 + dayOfYear
  }

  function DaysFromEpoch(d: CivilDate): (r: Option<int>)
    ensures r.Some?
  {
    var shiftedYear := if d.month <= 2 then d.year - 1 else d.year;
    var era, yearOfEra := shiftedYear / YEARS_PER_ERA, shiftedYear % YEARS_PER_ERA;
    CheckedI64(era * DAYS_PER_ERA + DayOfEra(yearOfEra, DayOfYearFromMarch(d.month, d.day)) - DAYS_FROM_ERA_TO_EPOCH)
  }

  function YearOfEraHolding(dayOfEra: int): int {
    (dayOfEra - dayOfEra / 1460 + dayOfEra / 36_524 - dayOfEra / 146_096) / 365
  }

  function FromMarchYear(shiftedYear: int, dayOfYear: int): Option<CivilDate> {
    var monthIndex := (dayOfYear * 5 + 2) / 153;
    var day := dayOfYear - (monthIndex * 153 + 2) / 5 + 1;
    if monthIndex < 10 then FromYmd(shiftedYear, monthIndex + 3, day)
    else FromYmd(shiftedYear + 1, monthIndex - 9, day)
  }

  function FromDaysFromEpoch(days: int): Option<CivilDate> {
    if CheckedI64(days + DAYS_FROM_ERA_TO_EPOCH).None? then None
    else
      var fromEraOrigin := days + DAYS_FROM_ERA_TO_EPOCH;
      var era, dayOfEra := fromEraOrigin / DAYS_PER_ERA, fromEraOrigin % DAYS_PER_ERA;
      var yearOfEra := YearOfEraHolding(dayOfEra);
      var dayOfYear := dayOfEra - yearOfEra * 365 - (yearOfEra / 4 - yearOfEra / 100);
      FromMarchYear(era * YEARS_PER_ERA + yearOfEra, dayOfYear)
  }

  /** The day the March-based year y begins on, counted from era zero. */
  function MarchStart(y: int): int {
    365 * y + y / 4 - y / 100 + y / 400
  }

  /** The length of the March-based year: its leap day is the next year's 29 February. */
  function MarchYearLength(y: int): int {
    YearLength(y + 1)
  }

  lemma {:induction false} EraForm(y: int)
    ensures (y / YEARS_PER_ERA) * DAYS_PER_ERA + DayOfEra(y % YEARS_PER_ERA, 0) == MarchStart(y)
  {
    var e, r := y / 400, y % 400;
    assert y == 400 * e + r;
    assert y / 4 == 100 * e + r / 4;
    assert y / 100 == 4 * e + r / 100;
  }

  lemma {:induction false} MarchStep(y: int)
    ensures MarchStart(y + 1) == MarchStart(y) + MarchYearLength(y)
  {
    var z := y + 1;
    assert z / 4 - y / 4 == if z % 4 == 0 then 1 else 0;
    assert z / 100 - y / 100 == if z % 100 == 0 then 1 else 0;
    assert z / 400 - y / 400 == if z % 400 == 0 then 1 else 0;
  }

  lemma {:induction false} MarchIncreases(y: int, z: int)
    requires y < z
    ensures MarchStart(y) + MarchYearLength(y) <= MarchStart(z)
    decreases z - y
  {
    MarchStep(y);
    if y + 1 < z { MarchIncreases(y + 1, z); }
  }

  /** Years counted out and March-based years differ by the months before March. */
  lemma {:induction false} YearsAreMarchYears(y: nat)
    ensures DaysBeforeYear(y) == MarchStart(y - 1) + 366
  {
    if y > 0 {
      YearsAreMarchYears(y - 1);
      MarchStep(y - 2);
    }
  }

  lemma {:induction false} DaysFromEpochForm(d: CivilDate)
    ensures DaysFromEpoch(d)
      == Some(MarchStart(if d.month <= 2 then d.year - 1 else d.year) + DayOfYearFromMarch(d.month, d.day) - DAYS_FROM_ERA_TO_EPOCH)
  {
    EraForm(if d.month <= 2 then d.year - 1 else d.year);
  }

  lemma {:induction false} MonthTable(year: int, month: int)
    requires 1 <= month <= 12
    ensures var f := if IsLeapYear(year) then 29 else 28;
      DaysBeforeMonth(year, month)
      == match month
         case 1 => 0
         case 2 => 31
         case 3 => 31 + f
         case 4 => 62 + f
         case 5 => 92 + f
         case 6 => 123 + f
         case 7 => 153 + f
         case 8 => 184 + f
         case 9 => 215 + f
         case 10 => 245 + f
         case 11 => 276 + f
         case 12 => 306 + f
  {
    if month > 1 { MonthTable(year, month - 1); }
  }

  lemma {:induction false} MarchMonths(year: int, month: int, day: int)
    requires 1 <= month <= 12
    ensures DayOfYearFromMarch(month, day)
      == DaysBeforeMonth(year, month) + day - 1 + if month <= 2 then 306 else -(if IsLeapYear(year) then 60 else 59)
  {
    MonthTable(year, month);
  }

  /** The closed form is the number of days counted out from the epoch. */
  lemma {:induction false} DaysFromEpochCounts(d: CivilDate)
    ensures DaysFromEpoch(d) == Some(CountedDays(d) - CountedDays(EPOCH))
  {
    hide DaysFromEpoch, DaysBeforeMonth, DaysBeforeYear, MarchStart, DayOfYearFromMarch, IsLeapYear;
    DaysFromEpochForm(d);
    YearsAreMarchYears(d.year);
    MarchStep(d.year - 1);
    MarchMonths(d.year, d.month, d.day);
    EpochCounts();
  }

  lemma {:induction false} EpochCounts()
    ensures CountedDays(EPOCH) == 719_528
  {
    YearsAreMarchYears(1970);
  }

  /** The year of an era a day falls in, from its centuries, four-year cycles and years. */
  lemma {:induction false} YearOfEraFound(c: int, q: int, r: int, doy: int)
    requires 0 <= c < 4 && 0 <= q < 25 && 0 <= r < 4 && 0 <= doy <= 365
    requires doy == 365 ==> r == 3 && (q == 24 ==> c == 3)
    ensures YearOfEraHolding(36_524 * c + 1461 * q + 365 * r + doy) == 100 * c + 4 * q + r
  {
    var doe := 36_524 * c + 1461 * q + 365 * r + doy;
    var k := 25 * c + q;
    var t := k - c + 365 * r + doy;
    CenturyFound(c, 1461 * q + 365 * r + doy);
    var carry := if t < 1460 then 0 else 1;
    CycleFound(doe, k, t);
    YearFound(4 * k + r, doy - carry);
  }

  lemma {:induction false} CenturyFound(c: int, rest: int)
    requires 0 <= c < 4 && 0 <= rest <= if c == 3 then 36_524 else 36_523
    ensures var doe := 36_524 * c + rest; doe / 36_524 - doe / 146_096 == c
  {
  }

  lemma {:induction false} CycleFound(doe: int, k: int, t: int)
    requires doe == 1460 * k + t && 0 <= t < 2920
    ensures doe / 1460 == k + if t < 1460 then 0 else 1
  {
  }

  lemma {:induction false} YearFound(year: int, day: int)
    requires 0 <= day < 365
    ensures (365 * year + day) / 365 == year
  {
  }

  /** Every day of an era has a century, a cycle, a year and a day in it. */
  lemma {:induction false} EraParts(doe: int) returns (c: int, q: int, r: int, doy: int)
    requires 0 <= doe < DAYS_PER_ERA
    ensures 0 <= c < 4 && 0 <= q < 25 && 0 <= r < 4 && 0 <= doy <= 365
    ensures doy == 365 ==> r == 3 && (q == 24 ==> c == 3)
    ensures doe == 36_524 * c + 1461 * q + 365 * r + doy
  {
    c := if doe / 36_524 > 3 then 3 else doe / 36_524;
    var inCentury := doe - 36_524 * c;
    q := inCentury / 1461;
    var inCycle := inCentury - 1461 * q;
    r := if inCycle / 365 > 3 then 3 else inCycle / 365;
    doy := inCycle - 365 * r;
  }

  /** A day number found in its March-based year. */
  lemma {:induction false} DayFound(days: int) returns (y: int, doy: int)
    requires I64_MIN <= days + DAYS_FROM_ERA_TO_EPOCH <= I64_MAX
    ensures 0 <= doy < MarchYearLength(y)
    ensures days == MarchStart(y) + doy - DAYS_FROM_ERA_TO_EPOCH
    ensures FromDaysFromEpoch(days) == FromMarchYear(y, doy)
  {
    hide FromMarchYear, FromDaysFromEpoch, YearOfEraHolding, IsLeapYear, MarchStart, DayOfEra;
    var n := days + DAYS_FROM_ERA_TO_EPOCH;
    var e, doe := n / DAYS_PER_ERA, n % DAYS_PER_ERA;
    var c, q, r, d := EraParts(doe);
    var yoe := 100 * c + 4 * q + r;
    y, doy := 400 * e + yoe, d;
    YearOfEraFound(c, q, r, d);
    YearByParts(e, c, q, r);
    EraForm(y);
    DayOfEraByParts(c, q, r);
    FoundInEra(days, yoe, doy);
  }

  lemma {:induction false} DayOfEraByParts(c: int, q: int, r: int)
    requires var yoe := 100 * c + 4 * q + r; yoe / 4 == 25 * c + q && yoe / 100 == c
    ensures DayOfEra(100 * c + 4 * q + r, 0) == 36_524 * c + 1461 * q + 365 * r
  {
  }

  lemma {:induction false} FoundInEra(days: int, yearOfEra: int, dayOfYear: int)
    requires I64_MIN <= days + DAYS_FROM_ERA_TO_EPOCH <= I64_MAX
    requires var doe := (days + DAYS_FROM_ERA_TO_EPOCH) % DAYS_PER_ERA;
      YearOfEraHolding(doe) == yearOfEra && doe == DayOfEra(yearOfEra, 0) + dayOfYear
    ensures FromDaysFromEpoch(days)
      == FromMarchYear(400 * ((days + DAYS_FROM_ERA_TO_EPOCH) / DAYS_PER_ERA) + yearOfEra, dayOfYear)
  {
    hide FromMarchYear, YearOfEraHolding;
  }

  /** A year's quotients, and whether the next one is a leap year, from its place in its era. */
  lemma {:induction false} YearByParts(e: int, c: int, q: int, r: int)
    requires 0 <= c < 4 && 0 <= q < 25 && 0 <= r < 4
    ensures var yoe := 100 * c + 4 * q + r; var y := 400 * e + yoe;
      && yoe / 4 == 25 * c + q && yoe / 100 == c && y / 400 == e && y % 400 == yoe
      && (IsLeapYear(y + 1) <==> r == 3 && (q == 24 ==> c == 3))
  {
    var z := 400 * e + 100 * c + 4 * q + r + 1;
    if r < 3 {
      Remainder(z, 4, 100 * e + 25 * c + q, r + 1);
    } else {
      Remainder(z, 4, 100 * e + 25 * c + q + 1, 0);
      if q < 24 {
        Remainder(z, 100, 4 * e + c, 4 * q + 4);
      } else if c < 3 {
        Remainder(z, 100, 4 * e + c + 1, 0);
        Remainder(z, 400, e, 100 * (c + 1));
      } else {
        Remainder(z, 400, e + 1, 0);
      }
    }
  }

  lemma {:induction false} Remainder(n: int, d: int, q: int, r: int)
    requires d in {4, 100, 400} && 0 <= r < d && n == d * q + r
    ensures n % d == r
  {
  }

  /** The month and day of a day of a March-based year, whichever year it is. */
  lemma {:induction false} MarchDayIsDate(y: int, doy: int)
    requires 0 <= doy < MarchYearLength(y)
    ensures var i := (doy * 5 + 2) / 153;
      var month, year := if i < 10 then i + 3 else i - 9, if i < 10 then y else y + 1;
      var day := doy - (i * 153 + 2) / 5 + 1;
      && 0 <= i < 12 && 1 <= month <= 12 && (i < 10 <==> doy < 306)
      && DaysInMonth(year, month).Some? && 1 <= day <= DaysInMonth(year, month).value
      && DayOfYearFromMarch(month, day) == doy
  {
    var i := (doy * 5 + 2) / 153;
    assert 0 <= i < 12;
    assert 153 * i <= doy * 5 + 2 < 153 * (i + 1);
    if i < 10 { assert (i + 3 + 9) % 12 == i; } else { assert (i - 9 + 9) % 12 == i; }
  }

  /** Going from a day number to a date and back changes nothing; outside years 0 to 9999 there is no date. */
  lemma {:induction false} FromDaysInverts(days: int)
    ensures FromDaysFromEpoch(days).Some? <==> FIRST_DAY <= days <= LAST_DAY
    ensures FromDaysFromEpoch(days).Some? ==> DaysFromEpoch(FromDaysFromEpoch(days).value) == Some(days)
  {
    hide DaysFromEpoch, FromMarchYear, YearOfEraHolding;
    if I64_MIN <= days + DAYS_FROM_ERA_TO_EPOCH <= I64_MAX { FromDaysInverts64(days); }
  }

  lemma {:induction false} FromDaysInverts64(days: int)
    requires I64_MIN <= days + DAYS_FROM_ERA_TO_EPOCH <= I64_MAX
    ensures FromDaysFromEpoch(days).Some? <==> FIRST_DAY <= days <= LAST_DAY
    ensures FromDaysFromEpoch(days).Some? ==> DaysFromEpoch(FromDaysFromEpoch(days).value) == Some(days)
  {
    hide FromDaysFromEpoch, DaysFromEpoch, MarchStart, IsLeapYear, DayOfYearFromMarch, DaysInMonth;
    var y, doy := DayFound(days);
    MarchDayIsDate(y, doy);
    if FromMarchYear(y, doy).Some? { DaysFromEpochForm(FromMarchYear(y, doy).value); }
    MarchRange(y, doy);
  }

  lemma {:induction false} MarchRange(y: int, doy: int)
    requires 0 <= doy < MarchYearLength(y)
    ensures 0 <= (if doy < 306 then y else y + 1) <= MAX_YEAR
      <==> FIRST_DAY <= MarchStart(y) + doy - DAYS_FROM_ERA_TO_EPOCH <= LAST_DAY
  {
    if y < -1 { MarchIncreases(y, -1); }
    if y > 9999 { MarchIncreases(9999, y); }
    if -1 < y { MarchIncreases(-1, y); }
    if y < 9999 { MarchIncreases(y, 9999); }
  }

  /** Going from a date to its day number and back changes nothing either. */
  lemma {:induction false} DaysFromInverts(d: CivilDate)
    ensures FromDaysFromEpoch(DaysFromEpoch(d).value) == Some(d)
  {
    hide DaysFromEpoch, FromDaysFromEpoch, CountedDays, DaysInMonth;
    var n := DaysFromEpoch(d).value;
    DaysFromEpochCounts(d);
    WithinRange(d);
    FromDaysInverts(n);
    var back := FromDaysFromEpoch(n).value;
    DaysFromEpochCounts(back);
    if Earlier(d, back) { CountedOrder(d, back); }
    if Earlier(back, d) { CountedOrder(back, d); }
  }

  lemma {:induction false} YearZero()
    ensures DaysBeforeYear(0) == 0
  {
  }

  lemma {:induction false} WithinRange(d: CivilDate)
    ensures FIRST_DAY <= CountedDays(d) - CountedDays(EPOCH) <= LAST_DAY
  {
    hide CountedDays, DaysBeforeYear, DaysBeforeMonth;
    EpochCounts();
    WithinYear(d);
    YearZero();
    YearsAreMarchYears(10_000);
    YearsMonotone(d.year, 10_000);
    if d.year > 0 { YearsMonotone(0, d.year); }
  }

  /** Day numbers are in the order of the dates. */
  lemma {:induction false} DaysOrder(a: CivilDate, b: CivilDate)
    ensures Earlier(a, b) <==> DaysFromEpoch(a).value < DaysFromEpoch(b).value
  {
    DaysFromEpochCounts(a);
    DaysFromEpochCounts(b);
    if Earlier(a, b) { CountedOrder(a, b); }
    if Earlier(b, a) { CountedOrder(b, a); }
  }

  // -------------------------------------------------------------------------
  // Weekdays
  // -------------------------------------------------------------------------

  /** Days counted from Monday. */
  function Weekday(d: CivilDate): int {
    (DaysFromEpoch(d).value + 3) % 7
  }

  /** The weekday moves on by one with every date, and the epoch was a Thursday. */
  lemma {:induction false} WeekdayAdvances(d: CivilDate)
    ensures NextDate(d).Some? ==> Weekday(NextDate(d).value) == (Weekday(d) + 1) % 7
    ensures Weekday(EPOCH) == 3
  {
    hide DaysFromEpoch, CountedDays, NextDate, DaysInMonth;
    DaysFromEpochCounts(d);
    DaysFromEpochCounts(EPOCH);
    NextDateCounts(d);
    if NextDate(d).Some? { DaysFromEpochCounts(NextDate(d).value); }
  }

  function CheckedAddDays(d: CivilDate, days: int): Option<CivilDate> {
    match CheckedI64(DaysFromEpoch(d).value + days)
    case None => None
    case Some(moved) => FromDaysFromEpoch(moved)
  }

  /** Adding days moves the day number by exactly that many, or leaves the calendar. */
  lemma {:induction false} AddDaysMoves(d: CivilDate, days: int)
    ensures match CheckedAddDays(d, days)
      case Some(r) => DaysFromEpoch(r).value == DaysFromEpoch(d).value + days
      case None => !(FIRST_DAY <= DaysFromEpoch(d).value + days <= LAST_DAY)
  {
    hide DaysFromEpoch, FromDaysFromEpoch;
    FromDaysInverts(DaysFromEpoch(d).value + days);
  }

  // -------------------------------------------------------------------------
  // Months
  // -------------------------------------------------------------------------

  function CheckedI32(n: int): Option<int> {
    if -0x8000_0000 <= n <= 0x7FFF_FFFF then Some(n) else None
  }

  function MonthIndex(d: CivilDate): int {
    d.year * 12 + d.month - 1
  }

  function FirstOfShiftedMonth(d: CivilDate, count: int): Option<CivilDate> {
    match CheckedI32(MonthIndex(d) + count)
    case None => None
    case Some(total) => FromYmd(total / 12, total % 12 + 1, 1)
  }

  function AddMonths(d: CivilDate, count: int): MonthAddOutcome {
    match FirstOfShiftedMonth(d, count)
    case None => Overflow
    case Some(target) =>
      var length := DaysInMonth(target.year, target.month).value;
      if d.day <= length then Exact(target.(day := d.day)) else Clamped(target.(day := length), d.day)
  }

  /**
   The outcome is Exact, Clamped or Overflow as the target month has the day, lacks it, or is
   outside years 0 to 9999; the date is in that month, on the day asked for or the month's last.
   */
  lemma {:induction false} AddMonthsOutcome(d: CivilDate, count: int)
    ensures var target := MonthIndex(d) + count;
      match AddMonths(d, count)
      case Overflow => !(0 <= target < 12 * (MAX_YEAR + 1))
      case Exact(r) => MonthIndex(r) == target && r.day == d.day
      case Clamped(r, requested) =>
        MonthIndex(r) == target && requested == d.day > r.day && r.day == DaysInMonth(r.year, r.month).value
  {
  }

  /** A month within the calendar is never refused, and an outcome is never of the wrong kind. */
  lemma {:induction false} AddMonthsKind(d: CivilDate, count: int)
    requires 0 <= MonthIndex(d) + count < 12 * (MAX_YEAR + 1)
    ensures var target := MonthIndex(d) + count;
      var length := DaysInMonth(target / 12, target % 12 + 1).value;
      && (AddMonths(d, count).Exact? <==> d.day <= length)
      && (AddMonths(d, count).Clamped? <==> d.day > length)
  {
    var target := MonthIndex(d) + count;
    assert DaysInMonth(target / 12, target % 12 + 1).Some?;
  }

  /** After an exact step, a further step is the sum of the two, whatever its outcome. */
  lemma {:induction false} AddMonthsComposes(d: CivilDate, a: int, b: int)
    requires AddMonths(d, a).Exact? && CheckedI32(a).Some? && CheckedI32(b).Some? && CheckedI32(a + b).Some?
    ensures AddMonths(AddMonths(d, a).date, b) == AddMonths(d, a + b)
  {
    var mid := AddMonths(d, a).date;
    AddMonthsOutcome(d, a);
    assert MonthIndex(mid) + b == MonthIndex(d) + (a + b);
    assert FirstOfShiftedMonth(mid, b) == FirstOfShiftedMonth(d, a + b);
  }

  // -------------------------------------------------------------------------
  // Clocks and instants
  // -------------------------------------------------------------------------

  function SecondsOfDay(t: CivilTime): int {
    t.hour * 3600 + t.minute * 60 + (if t.second > 59 then 59 else t.second)
  }

  function TimeOfDay(second: int): Option<CivilTime> {
    FromHms(second / 3600, second / 60 % 60, second % 60)
  }

  /** The clock with a leap second read as the second before it. */
  function WithoutLeapSecond(t: CivilTime): CivilTime {
    if t.second == 60 then t.(second := 59) else t
  }

  lemma {:induction false} ClockInverts(second: int)
    ensures 0 <= second < SECONDS_PER_DAY ==> TimeOfDay(second).Some? && SecondsOfDay(TimeOfDay(second).value) == second
  {
    var h, m, s := second / 3600, second / 60 % 60, second % 60;
    assert second / 60 == 60 * h + m by { assert (second / 60) / 60 == second / 3600; }
    assert second == 60 * (second / 60) + s;
  }

  lemma {:induction false} ClockForward(t: CivilTime)
    ensures 0 <= SecondsOfDay(t) < SECONDS_PER_DAY && TimeOfDay(SecondsOfDay(t)) == Some(WithoutLeapSecond(t))
  {
    var s := SecondsOfDay(t);
    var p := WithoutLeapSecond(t);
    assert s == 60 * (60 * p.hour + p.minute) + p.second;
    assert s / 60 == 60 * p.hour + p.minute;
    assert s / 3600 == p.hour;
  }

  /** Seconds since the epoch of a wall clock at an offset. */
  function AtOffset(stamp: CivilDateTime, offset: UtcOffset): (r: Option<int>)
    ensures r.Some?
  {
    DaysBounded(stamp.date);
    ClockForward(stamp.time);
    CheckedI64(DaysFromEpoch(stamp.date).value * SECONDS_PER_DAY + SecondsOfDay(stamp.time) - offset)
  }

  function FromInstant(unixSeconds: int, offset: UtcOffset): Option<CivilDateTime> {
    match CheckedI64(unixSeconds + offset)
    case None => None
    case Some(local) =>
      match (FromDaysFromEpoch(local / SECONDS_PER_DAY), TimeOfDay(local % SECONDS_PER_DAY))
      case (Some(date), Some(time)) => Some(CivilDateTime(date, time))
      case _ => None
  }

  /** An instant is the seconds counted out from the epoch, less the offset; second 60 counts as 59. */
  lemma {:induction false} AtOffsetIs(stamp: CivilDateTime, offset: UtcOffset)
    ensures AtOffset(stamp, offset)
      == Some(86_400 * (CountedDays(stamp.date) - CountedDays(DateFields(1970, 1, 1)))
              + 3600 * stamp.time.hour + 60 * stamp.time.minute + (if stamp.time.second == 60 then 59 else stamp.time.second)
              - offset)
  {
    hide DaysFromEpoch, CountedDays;
    DaysBounded(stamp.date);
    DaysFromEpochCounts(stamp.date);
  }

  lemma {:induction false} DayOf(days: int, second: int)
    requires 0 <= second < SECONDS_PER_DAY
    ensures (days * SECONDS_PER_DAY + second) / SECONDS_PER_DAY == days
    ensures (days * SECONDS_PER_DAY + second) % SECONDS_PER_DAY == second
  {
  }

  lemma {:induction false} DaysBounded(d: CivilDate)
    ensures FIRST_DAY <= DaysFromEpoch(d).value <= LAST_DAY
  {
    DaysFromEpochCounts(d);
    WithinRange(d);
  }

  /** Every stamp names an instant, and that instant at the same offset is the stamp, leap second aside. */
  lemma {:induction false} FromInstantInverts(stamp: CivilDateTime, offset: UtcOffset)
    ensures FromInstant(AtOffset(stamp, offset).value, offset) == Some(stamp.(time := WithoutLeapSecond(stamp.time)))
  {
    hide DaysFromEpoch, FromDaysFromEpoch, SecondsOfDay, TimeOfDay, CountedDays;
    var days := DaysFromEpoch(stamp.date).value;
    DaysBounded(stamp.date);
    DaysFromInverts(stamp.date);
    ClockForward(stamp.time);
    DayOf(days, SecondsOfDay(stamp.time));
  }

  /** An instant has a stamp exactly when its local day is in the calendar, and the stamp names it. */
  lemma {:induction false} AtOffsetInverts(unixSeconds: int, offset: UtcOffset)
    ensures FromInstant(unixSeconds, offset).Some?
      <==> FIRST_DAY * SECONDS_PER_DAY <= unixSeconds + offset < (LAST_DAY + 1) * SECONDS_PER_DAY
    ensures FromInstant(unixSeconds, offset).Some? ==>
      AtOffset(FromInstant(unixSeconds, offset).value, offset) == Some(unixSeconds)
  {
    hide DaysFromEpoch, FromDaysFromEpoch, SecondsOfDay, TimeOfDay;
    var local := unixSeconds + offset;
    FromDaysInverts(local / SECONDS_PER_DAY);
    ClockInverts(local % SECONDS_PER_DAY);
    assert local == local / SECONDS_PER_DAY * SECONDS_PER_DAY + local % SECONDS_PER_DAY;
  }

  // -------------------------------------------------------------------------
  // Durations
  // -------------------------------------------------------------------------

  function CheckedAddDuration(stamp: CivilDateTime, span: Duration): Option<CivilDateTime> {
    match CheckedI64(SecondsOfDay(stamp.time) + span.seconds)
    case None => None
    case Some(secondOfDay) =>
      match CheckedI64(DaysFromEpoch(stamp.date).value + span.days)
      case None => None
      case Some(moved) =>
        match CheckedI64(moved + secondOfDay / SECONDS_PER_DAY)
        case None => None
        case Some(dayCount) =>
          match (FromDaysFromEpoch(dayCount), TimeOfDay(secondOfDay % SECONDS_PER_DAY))
          case (Some(date), Some(time)) => Some(CivilDateTime(date, time))
          case _ => None
  }

  /** A duration's total span. */
  function TotalSeconds(span: Duration): int {
    span.days * SECONDS_PER_DAY + span.seconds
  }

  /**
   Adding a duration moves the instant, at any offset, by exactly its total span; it fails only
   when the result would leave years 0 to 9999 or the clock plus the seconds leaves 64 bits.
   */
  lemma {:induction false} AddDurationMoves(stamp: CivilDateTime, span: Duration, offset: UtcOffset)
    requires I64_MIN <= span.days <= I64_MAX && I64_MIN <= span.seconds <= I64_MAX
    ensures var local := AtOffset(stamp, offset).value + offset + TotalSeconds(span);
      var fits := I64_MIN <= SecondsOfDay(stamp.time) + span.seconds <= I64_MAX;
      && (CheckedAddDuration(stamp, span).Some?
          <==> fits && FIRST_DAY * SECONDS_PER_DAY <= local < (LAST_DAY + 1) * SECONDS_PER_DAY)
      && (CheckedAddDuration(stamp, span).Some? ==>
          AtOffset(CheckedAddDuration(stamp, span).value, offset) == Some(AtOffset(stamp, offset).value + TotalSeconds(span)))
  {
    hide DaysFromEpoch, FromDaysFromEpoch, SecondsOfDay, TimeOfDay, CountedDays;
    var days, clock := DaysFromEpoch(stamp.date).value, SecondsOfDay(stamp.time);
    DaysBounded(stamp.date);
    ClockForward(stamp.time);
    var second := clock + span.seconds;
    var borrow, left := second / SECONDS_PER_DAY, second % SECONDS_PER_DAY;
    assert second == borrow * SECONDS_PER_DAY + left;
    var count := days + span.days + borrow;
    FromDaysInverts(count);
    ClockInverts(left);
    assert AtOffset(stamp, offset).value + offset + TotalSeconds(span) == count * SECONDS_PER_DAY + left;
  }
}
