/**
 * The proleptic Gregorian calendar as Python's `datetime` module computes with it:
 * which dates exist, the day ordinal (0001-01-01 is day 1), subtraction of a
 * `timedelta`, and the month/year subtraction of dateutil's `relativedelta`.
 *
 * An aware date-time is its wall-clock fields plus a fixed UTC offset in seconds;
 * arithmetic keeps the offset and works on the wall clock, as Python does for a
 * fixed-offset `tzinfo`.
 */
module Calendar {
  import opened Wrappers

  const MIN_YEAR := 1
  const MAX_YEAR := 9999
  const US_PER_SECOND := 1_000_000
  const US_PER_MINUTE := 60_000_000
  const US_PER_HOUR := 3_600_000_000
  const US_PER_DAY := 86_400_000_000

  datatype Date = Date(year: int, month: int, day: int)
  datatype Time = Time(hour: int, minute: int, second: int, micro: int)
  datatype DateTime = DateTime(date: Date, time: Time, offset: int)

  /** 12:00:00.000000, the time of day the date parser coerces to. */
  const Noon := Time(12, 0, 0, 0)

  /** A bare date at noon with the given offset. */
  function AtNoon(d: Date, offset: int): DateTime {
    DateTime(d, Noon, offset)
  }

  predicate IsLeap(y: int) {
    y % 4 == 0 && (y % 100 != 0 || y % 400 == 0)
  }

  function DaysInMonth(y: int, m: int): (n: int)
    requires 1 <= m <= 12
    ensures 28 <= n <= 31
    ensures n == 29 <==> m == 2 && IsLeap(y)
  {
    if m == 2 then (if IsLeap(y) then 29 else 28)
    else if m == 4 || m == 6 || m == 9 || m == 11 then 30
    else 31
  }

  function DaysInYear(y: int): int {
    if IsLeap(y) then 366 else 365
  }

  /** What `datetime(y, m, d)` accepts without raising `ValueError`. */
  predicate ValidDate(d: Date) {
    MIN_YEAR <= d.year <= MAX_YEAR && 1 <= d.month <= 12 && 1 <= d.day <= DaysInMonth(d.year, d.month)
  }

  predicate ValidTime(t: Time) {
    0 <= t.hour < 24 && 0 <= t.minute < 60 && 0 <= t.second < 60 && 0 <= t.micro < US_PER_SECOND
  }

  predicate ValidDateTime(dt: DateTime) {
    ValidDate(dt.date) && ValidTime(dt.time)
  }

  const MinDate := Date(MIN_YEAR, 1, 1)

  /** Days in the years before `y` (Python's `_days_before_year`). */
  function DaysBeforeYear(y: int): int {
    var p := y - 1;
    365 * p + p / 4 - p / 100 + p / 400
  }

  /** Days in the months of year `y` before month `m` (Python's `_days_before_month`). */
  function DaysBeforeMonth(y: int, m: int): int {
    (if m == 2 then 31 else if m == 3 then 59 else if m == 4 then 90 else if m == 5 then 120
     else if m == 6 then 151 else if m == 7 then 181 else if m == 8 then 212 else if m == 9 then 243
     else if m == 10 then 273 else if m == 11 then 304 else if m == 12 then 334 else 0)
    + (if m > 2 && IsLeap(y) then 1 else 0)
  }

  /** Python's `date.toordinal()`. */
  function Ordinal(d: Date): int {
    DaysBeforeYear(d.year) + DaysBeforeMonth(d.year, d.month) + d.day
  }

  lemma Div4Step(p: int)
    requires p >= 0
    ensures (p + 1) / 4 == p / 4 + (if (p + 1) % 4 == 0 then 1 else 0)
  {
  }

  lemma Div100Step(p: int)
    requires p >= 0
    ensures (p + 1) / 100 == p / 100 + (if (p + 1) % 100 == 0 then 1 else 0)
  {
  }

  lemma Div400Step(p: int)
    requires p >= 0
    ensures (p + 1) / 400 == p / 400 + (if (p + 1) % 400 == 0 then 1 else 0)
  {
  }

  /** Consecutive years are DaysInYear apart. */
  lemma DaysBeforeYearStep(y: int)
    requires y >= 1
    ensures DaysBeforeYear(y + 1) == DaysBeforeYear(y) + DaysInYear(y)
  {
    var p := y - 1;
    Div4Step(p);
    Div100Step(p);
    Div400Step(p);
    if y % 400 == 0 {
      assert y % 100 == 0 && y % 4 == 0;
    } else if y % 100 == 0 {
      assert y % 4 == 0;
    }
  }

  lemma DaysBeforeYearMonotone(a: int, b: int)
    requires 1 <= a <= b
    ensures DaysBeforeYear(a) + (b - a) * 365 <= DaysBeforeYear(b)
    decreases b - a
  {
    if a < b {
      DaysBeforeYearStep(a);
      DaysBeforeYearMonotone(a + 1, b);
    }
  }

  /** A month's days fit between its start and the next month's start. */
  lemma MonthFits(y: int, m: int)
    requires 1 <= m <= 12
    ensures DaysBeforeMonth(y, m) + DaysInMonth(y, m) == (if m == 12 then DaysInYear(y) else DaysBeforeMonth(y, m + 1))
  {
  }

  lemma MonthEndWithinYear(y: int, m: int)
    requires 1 <= m <= 12
    ensures DaysBeforeMonth(y, m) + DaysInMonth(y, m) <= DaysInYear(y)
  {
  }

  lemma DaysBeforeMonthMonotone(y: int, a: int, b: int)
    requires 1 <= a < b <= 12
    ensures DaysBeforeMonth(y, a) + DaysInMonth(y, a) <= DaysBeforeMonth(y, b)
  {
  }

  /** Valid dates start at day 1; only 0001-01-01 has ordinal 1. */
  lemma OrdinalPositive(d: Date)
    requires ValidDate(d)
    ensures Ordinal(d) >= 1
    ensures Ordinal(d) == 1 <==> d == MinDate
  {
    DaysBeforeYearMonotone(1, d.year);
  }

  /** Ordinals order valid dates lexicographically (so no two valid dates share one). */
  lemma {:induction false} OrdinalStrictlyIncreasing(a: Date, b: Date)
    requires ValidDate(a) && ValidDate(b)
    requires a.year < b.year || (a.year == b.year && (a.month < b.month || (a.month == b.month && a.day < b.day)))
    ensures Ordinal(a) < Ordinal(b)
  {
    if a.year < b.year {
      MonthEndWithinYear(a.year, a.month);
      DaysBeforeYearStep(a.year);
      DaysBeforeYearMonotone(a.year + 1, b.year);
    } else if a.month < b.month {
      DaysBeforeMonthMonotone(a.year, a.month, b.month);
    }
  }

  lemma OrdinalInjective(a: Date, b: Date)
    requires ValidDate(a) && ValidDate(b) && Ordinal(a) == Ordinal(b)
    ensures a == b
  {
    if a.year < b.year || (a.year == b.year && (a.month < b.month || (a.month == b.month && a.day < b.day))) {
      OrdinalStrictlyIncreasing(a, b);
    } else if b.year < a.year || (a.year == b.year && (b.month < a.month || (a.month == b.month && b.day < a.day))) {
      OrdinalStrictlyIncreasing(b, a);
    }
  }

  /** The calendar day before `d`. */
  function PrevDay(d: Date): (p: Date)
    requires ValidDate(d) && Ordinal(d) > 1
    ensures ValidDate(p) && Ordinal(p) == Ordinal(d) - 1
  {
    OrdinalPositive(d);
    if d.day > 1 then Date(d.year, d.month, d.day - 1)
    else if d.month > 1 then
      MonthFits(d.year, d.month - 1);
      Date(d.year, d.month - 1, DaysInMonth(d.year, d.month - 1))
    else
      DaysBeforeYearStep(d.year - 1);
      MonthFits(d.year - 1, 12);
      Date(d.year - 1, 12, 31)
  }

  /**
   * `d - timedelta(days=n)` on the date part: defined exactly when the result
   * is not before 0001-01-01 (otherwise Python raises `OverflowError`).
   */
  function SubDays(d: Date, n: nat): (r: Option<Date>)
    requires ValidDate(d)
    ensures r.Some? <==> Ordinal(d) - n >= 1
    ensures r.Some? ==> ValidDate(r.value) && Ordinal(r.value) == Ordinal(d) - n
    decreases n
  {
    if n == 0 then Some(d)
    else if Ordinal(d) == 1 then None
    else
      OrdinalPositive(d);
      SubDays(PrevDay(d), n - 1)
  }

  /** Microseconds since midnight. */
  function TimeMicros(t: Time): (us: int)
    ensures ValidTime(t) ==> 0 <= us < US_PER_DAY
  {
    ((t.hour * 60 + t.minute) * 60 + t.second) * US_PER_SECOND + t.micro
  }

  /** The time of day `us` microseconds after midnight. */
  function TimeOfMicros(us: int): (t: Time)
    requires 0 <= us < US_PER_DAY
    ensures ValidTime(t) && TimeMicros(t) == us
  {
    var secs := us / US_PER_SECOND;
    var mins := secs / 60;
    Time(mins / 60, mins % 60, secs % 60, us % US_PER_SECOND)
  }

  /** The wall clock as microseconds since 0000-12-31T00:00 of the same offset. */
  function LocalMicros(dt: DateTime): int {
    Ordinal(dt.date) * US_PER_DAY + TimeMicros(dt.time)
  }

  /** The instant denoted, in UTC microseconds: what aware comparisons compare. */
  function Instant(dt: DateTime): int {
    LocalMicros(dt) - dt.offset * US_PER_SECOND
  }

  /** Distinct valid wall clocks have distinct local microsecond counts. */
  lemma LocalMicrosInjective(a: DateTime, b: DateTime)
    requires ValidDateTime(a) && ValidDateTime(b) && a.offset == b.offset
    requires LocalMicros(a) == LocalMicros(b)
    ensures a == b
  {
    assert Ordinal(a.date) == Ordinal(b.date);
    OrdinalInjective(a.date, b.date);
    TimeRoundTrip(a.time);
    TimeRoundTrip(b.time);
  }

  lemma TimeRoundTrip(t: Time)
    requires ValidTime(t)
    ensures TimeOfMicros(TimeMicros(t)) == t
  {
    var us := TimeMicros(t);
    var secs := us / US_PER_SECOND;
    assert secs == (t.hour * 60 + t.minute) * 60 + t.second;
    var mins := secs / 60;
    assert mins == t.hour * 60 + t.minute;
  }

  /**
   * `dt - timedelta(microseconds=us)`: the wall clock moves back by exactly `us`,
   * the offset stays, and the operation is defined exactly when the result is
   * not before 0001-01-01T00:00 (Python raises `OverflowError` otherwise).
   */
  function SubtractMicros(dt: DateTime, us: nat): (r: Option<DateTime>)
    requires ValidDateTime(dt)
    ensures r.Some? <==> LocalMicros(dt) - us >= US_PER_DAY
    ensures r.Some? ==> ValidDateTime(r.value) && r.value.offset == dt.offset
    ensures r.Some? ==> LocalMicros(r.value) == LocalMicros(dt) - us
    ensures r.Some? ==> Instant(r.value) == Instant(dt) - us
  {
    var t := TimeMicros(dt.time) - us;
    var q := t / US_PER_DAY;
    var rest := t % US_PER_DAY;
    assert q <= 0;
    assert t == q * US_PER_DAY + rest;
    match SubDays(dt.date, -q)
    case None => None
    case Some(d) => Some(DateTime(d, TimeOfMicros(rest), dt.offset))
  }

  function Min(a: int, b: int): int {
    if a <= b then a else b
  }

  /** Months counted from year 0, month 1: the quantity relativedelta month arithmetic preserves. */
  function MonthIndex(d: Date): int {
    d.year * 12 + d.month - 1
  }

  /**
   * `dt - relativedelta(months=n)`: relativedelta normalises `n` into whole
   * years and 0..11 months, subtracts both, borrows a year when the month falls
   * below 1, then clamps the day to the target month's length. `replace` raises
   * `ValueError` when the year falls below 1.
   */
  function SubtractMonths(dt: DateTime, n: nat): (r: Option<DateTime>)
    requires ValidDateTime(dt)
    ensures r.Some? <==> MonthIndex(dt.date) - n >= 12 * MIN_YEAR
    ensures r.Some? ==> ValidDateTime(r.value) && r.value.time == dt.time && r.value.offset == dt.offset
    ensures r.Some? ==> MonthIndex(r.value.date) == MonthIndex(dt.date) - n
    ensures r.Some? ==> r.value.date.day <= dt.date.day
    ensures r.Some? && r.value.date.day < dt.date.day ==> r.value.date.day == DaysInMonth(r.value.date.year, r.value.date.month)
  {
    var years := n / 12;
    var months := n % 12;
    var y0 := dt.date.year - years;
    var m0 := dt.date.month - months;
    var y := if m0 < 1 then y0 - 1 else y0;
    var m := if m0 < 1 then m0 + 12 else m0;
    if y < MIN_YEAR then None
    else Some(DateTime(Date(y, m, Min(DaysInMonth(y, m), dt.date.day)), dt.time, dt.offset))
  }

  /**
   * `dt - relativedelta(years=n)`: the year moves back by `n`, the month stays,
   * and only 29 February can be clamped, to the 28th when the target year is not leap.
   */
  function SubtractYears(dt: DateTime, n: nat): (r: Option<DateTime>)
    requires ValidDateTime(dt)
    ensures r.Some? <==> dt.date.year - n >= MIN_YEAR
    ensures r.Some? ==> ValidDateTime(r.value) && r.value.time == dt.time && r.value.offset == dt.offset
    ensures r.Some? ==> r.value.date.year == dt.date.year - n && r.value.date.month == dt.date.month
    ensures r.Some? ==> r.value.date.day == (if dt.date.month == 2 && dt.date.day == 29 && !IsLeap(dt.date.year - n) then 28 else dt.date.day)
  {
    var y := dt.date.year - n;
    if y < MIN_YEAR then None
    else Some(DateTime(Date(y, dt.date.month, Min(DaysInMonth(y, dt.date.month), dt.date.day)), dt.time, dt.offset))
  }

  /** 29 February stays the 29th four years back and becomes the 28th one year back. */
  lemma LeapDayYearsBack(t: Time, offset: int)
    requires ValidTime(t)
    ensures SubtractYears(DateTime(Date(2024, 2, 29), t, offset), 4) == Some(DateTime(Date(2020, 2, 29), t, offset))
    ensures SubtractYears(DateTime(Date(2024, 2, 29), t, offset), 1) == Some(DateTime(Date(2023, 2, 28), t, offset))
  {
  }

  /** One month before 2024-03-31 is 2024-02-29, not a fixed 30 days earlier. */
  lemma MonthBeforeMarch31(t: Time, offset: int)
    requires ValidTime(t)
    ensures SubtractMonths(DateTime(Date(2024, 3, 31), t, offset), 1) == Some(DateTime(Date(2024, 2, 29), t, offset))
  {
  }
}
