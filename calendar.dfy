/**
 * The proleptic Gregorian calendar of Python's `datetime` module: naive dates
 * and date-times, the day after a date, day ordinals and adding minutes
 * (`dt + timedelta(minutes=m)`), with carries into hour, day, month and year.
 */
module Calendar {

  datatype Date = Date(year: int, month: int, day: int)

  /** A naive local date-time at minute resolution (seconds are always zero here). */
  datatype DateTime = DateTime(year: int, month: int, day: int, hour: int, minute: int)

  predicate IsLeap(y: int) { y % 4 == 0 && (y % 100 != 0 || y % 400 == 0) }

  function DaysInMonth(y: int, m: int): (n: int)
    requires 1 <= m <= 12
    ensures 28 <= n <= 31
    ensures n == 29 <==> m == 2 && IsLeap(y)
  {
    if m == 2 then (if IsLeap(y) then 29 else 28)
    else if m == 4 || m == 6 || m == 9 || m == 11 then 30
    else 31
  }

  function DaysInYear(y: int): int { if IsLeap(y) then 366 else 365 }

  /** A calendar date from year 1 on (Python's MINYEAR is 1). */
  predicate ValidDate(d: Date) {
    d.year >= 1 && 1 <= d.month <= 12 && 1 <= d.day <= DaysInMonth(d.year, d.month)
  }

  predicate ValidDateTime(dt: DateTime) {
    ValidDate(DateOf(dt)) && 0 <= dt.hour <= 23 && 0 <= dt.minute <= 59
  }

  /** A value Python's `date` can hold: a valid date no later than year 9999 (MAXYEAR). */
  predicate IsDate(d: Date) { ValidDate(d) && d.year <= 9999 }

  /** A value Python's `datetime` can hold (seconds and microseconds zero). */
  predicate IsDatetime(dt: DateTime) { ValidDateTime(dt) && dt.year <= 9999 }

  /** `dt.date()` */
  function DateOf(dt: DateTime): Date { Date(dt.year, dt.month, dt.day) }

  /** Python's comparison of dates: lexicographic on (year, month, day). */
  predicate Before(a: Date, b: Date) {
    a.year < b.year || (a.year == b.year && (a.month < b.month || (a.month == b.month && a.day < b.day)))
  }

  predicate AtMost(a: Date, b: Date) { Before(a, b) || a == b }

  /** `d + timedelta(days=1)` */
  function NextDay(d: Date): (r: Date)
    requires ValidDate(d)
    ensures ValidDate(r) && Before(d, r)
  {
    if d.day < DaysInMonth(d.year, d.month) then Date(d.year, d.month, d.day + 1)
    else if d.month < 12 then Date(d.year, d.month + 1, 1)
    else Date(d.year + 1, 1, 1)
  }

  /** Days in the years before `y`, counted from year 1 (Python's `_days_before_year`). */
  function DaysBeforeYear(y: int): int
    requires y >= 1
  {
    var p := y - 1;
    p * 365 + p / 4 - p / 100 + p / 400
  }

  /** Days in the months of year `y` before month `m` (Python's `_days_before_month`). */
  function DaysBeforeMonth(y: int, m: int): int
    requires 1 <= m <= 12
  {
    [0, 31, 59, 90, 120, 151, 181, 212, 243, 273, 304, 334][m - 1]
      + (if m > 2 && IsLeap(y) then 1 else 0)
  }

  /** Python's `date.toordinal()`: 0001-01-01 is day 1. */
  function Ordinal(d: Date): int
    requires ValidDate(d)
  {
    DaysBeforeYear(d.year) + DaysBeforeMonth(d.year, d.month) + d.day
  }

  /** `d + timedelta(days=n)` for n >= 0. */
  function AddDays(d: Date, n: nat): (r: Date)
    requires ValidDate(d)
    ensures ValidDate(r)
  {
    if n == 0 then d else NextDay(AddDays(d, n - 1))
  }

  /** Minutes since 0001-01-01 00:00 shifted by one day: a total order on date-times. */
  function Stamp(dt: DateTime): int
    requires ValidDateTime(dt)
  {
    Ordinal(DateOf(dt)) * 1440 + dt.hour * 60 + dt.minute
  }

  /** `dt + timedelta(minutes=m)`: minutes carry into hours, hours into days, days into months and years. */
  function AddMinutes(dt: DateTime, m: nat): (r: DateTime)
    requires ValidDateTime(dt)
    ensures ValidDateTime(r)
    ensures Ordinal(DateOf(dt)) <= Ordinal(DateOf(r))
  {
    var total := dt.hour * 60 + dt.minute + m;
    AddDaysOrdinal(DateOf(dt), total / 1440);
    var date := AddDays(DateOf(dt), total / 1440);
    var rest := total % 1440;
    DateTime(date.year, date.month, date.day, rest / 60, rest % 60)
  }

  lemma DaysBeforeYearStep(y: int)
    requires y >= 1
    ensures DaysBeforeYear(y + 1) == DaysBeforeYear(y) + DaysInYear(y)
  {
    var p := y - 1;
    assert y / 4 == p / 4 + (if y % 4 == 0 then 1 else 0);
    assert y / 100 == p / 100 + (if y % 100 == 0 then 1 else 0);
    assert y / 400 == p / 400 + (if y % 400 == 0 then 1 else 0);
  }

  lemma DaysBeforeMonthStep(y: int, m: int)
    requires 1 <= m < 12
    ensures DaysBeforeMonth(y, m + 1) == DaysBeforeMonth(y, m) + DaysInMonth(y, m)
  {
  }

  /** A valid date's day of the year lies in [1, DaysInYear]. */
  lemma DayOfYearBounds(d: Date)
    requires ValidDate(d)
    ensures 1 <= DaysBeforeMonth(d.year, d.month) + d.day <= DaysInYear(d.year)
  {
  }

  /** Within a year, a later (month, day) has a larger day of the year. */
  lemma {:induction false} DayOfYearMonotone(y: int, m1: int, d1: int, m2: int, d2: int)
    requires 1 <= m1 <= 12 && 1 <= m2 <= 12
    requires 1 <= d1 <= DaysInMonth(y, m1) && 1 <= d2 <= DaysInMonth(y, m2)
    requires m1 < m2
    ensures DaysBeforeMonth(y, m1) + d1 < DaysBeforeMonth(y, m2) + d2
    decreases m2 - m1
  {
    DaysBeforeMonthStep(y, m1);
    if m1 + 1 < m2 {
      DayOfYearMonotone(y, m1 + 1, 1, m2, d2);
    }
  }

  /** Later years start later, by at least the length of the earlier year. */
  lemma {:induction false} DaysBeforeYearMonotone(y1: int, y2: int)
    requires 1 <= y1 < y2
    ensures DaysBeforeYear(y1) + DaysInYear(y1) <= DaysBeforeYear(y2)
    decreases y2 - y1
  {
    DaysBeforeYearStep(y1);
    if y1 + 1 < y2 {
      DaysBeforeYearMonotone(y1 + 1, y2);
      DaysBeforeYearStep(y1 + 1);
    }
  }

  /** The ordinal follows Python's date order exactly: it is strictly increasing. */
  lemma {:induction false} OrdinalMonotone(a: Date, b: Date)
    requires ValidDate(a) && ValidDate(b) && Before(a, b)
    ensures Ordinal(a) < Ordinal(b)
  {
    DayOfYearBounds(a);
    DayOfYearBounds(b);
    if a.year < b.year {
      DaysBeforeYearMonotone(a.year, b.year);
    } else if a.month < b.month {
      DayOfYearMonotone(a.year, a.month, a.day, b.month, b.day);
    }
  }

  /** Comparing dates and comparing their ordinals agree, in both directions. */
  lemma OrdinalOrder(a: Date, b: Date)
    requires ValidDate(a) && ValidDate(b)
    ensures Before(a, b) <==> Ordinal(a) < Ordinal(b)
    ensures a == b <==> Ordinal(a) == Ordinal(b)
    ensures AtMost(a, b) <==> Ordinal(a) <= Ordinal(b)
  {
    if Before(a, b) {
      OrdinalMonotone(a, b);
    } else if Before(b, a) {
      OrdinalMonotone(b, a);
    }
  }

  /** The day after a date is exactly one ordinal later. */
  lemma {:induction false} NextDayOrdinal(d: Date)
    requires ValidDate(d)
    ensures Ordinal(NextDay(d)) == Ordinal(d) + 1
  {
    if d.day < DaysInMonth(d.year, d.month) {
    } else if d.month < 12 {
      DaysBeforeMonthStep(d.year, d.month);
    } else {
      DaysBeforeYearStep(d.year);
    }
  }

  /** Adding n days moves the ordinal by exactly n. */
  lemma {:induction false} AddDaysOrdinal(d: Date, n: nat)
    requires ValidDate(d)
    ensures Ordinal(AddDays(d, n)) == Ordinal(d) + n
  {
    if n > 0 {
      AddDaysOrdinal(d, n - 1);
      NextDayOrdinal(AddDays(d, n - 1));
    }
  }

  /** The stamp determines the date-time: two valid date-times share one exactly when equal. */
  lemma StampInjective(a: DateTime, b: DateTime)
    requires ValidDateTime(a) && ValidDateTime(b)
    ensures Stamp(a) == Stamp(b) <==> a == b
  {
    if Stamp(a) == Stamp(b) {
      var oa, ob := Ordinal(DateOf(a)), Ordinal(DateOf(b));
      var ra, rb := a.hour * 60 + a.minute, b.hour * 60 + b.minute;
      assert oa * 1440 + ra == ob * 1440 + rb;
      assert oa == ob;
      OrdinalOrder(DateOf(a), DateOf(b));
    }
  }

  /** Adding m minutes yields a valid date-time exactly m minutes later. */
  lemma {:induction false} AddMinutesStamp(dt: DateTime, m: nat)
    requires ValidDateTime(dt)
    ensures ValidDateTime(AddMinutes(dt, m))
    ensures Stamp(AddMinutes(dt, m)) == Stamp(dt) + m
  {
    var total := dt.hour * 60 + dt.minute + m;
    AddDaysOrdinal(DateOf(dt), total / 1440);
    var r := AddMinutes(dt, m);
    assert DateOf(r) == AddDays(DateOf(dt), total / 1440);
  }

  /** AddMinutes is the only valid date-time m minutes after dt. */
  lemma AddMinutesUnique(dt: DateTime, m: nat, r: DateTime)
    requires ValidDateTime(dt) && ValidDateTime(r)
    ensures Stamp(r) == Stamp(dt) + m <==> r == AddMinutes(dt, m)
  {
    AddMinutesStamp(dt, m);
    StampInjective(r, AddMinutes(dt, m));
  }

  /** Without an hour boundary to cross, adding minutes changes only the minute. */
  lemma NoCarry(dt: DateTime, m: nat)
    requires ValidDateTime(dt) && dt.minute + m < 60
    ensures AddMinutes(dt, m) == DateTime(dt.year, dt.month, dt.day, dt.hour, dt.minute + m)
  {
    AddMinutesUnique(dt, m, DateTime(dt.year, dt.month, dt.day, dt.hour, dt.minute + m));
  }
}
