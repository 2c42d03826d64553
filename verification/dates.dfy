/** Naive date-times as Python's `datetime` holds them: the proleptic Gregorian
    calendar, field-wise ordering, and the whole-day difference `(a - b).days`
    the reporter takes between an expiry date and the current time. */
module Dates {

  datatype DateTime = DateTime(year: int, month: int, day: int,
                               hour: int, minute: int, second: int, micro: int)

  predicate IsLeap(y: int) {
    y % 4 == 0 && (y % 100 != 0 || y % 400 == 0)
  }

  function DaysInMonth(y: int, m: int): (n: int)
    requires 1 <= m <= 12
    ensures 28 <= n <= 31
  {
    if m == 2 then (if IsLeap(y) then 29 else 28)
    else if m == 4 || m == 6 || m == 9 || m == 11 then 30
    else 31
  }

  function DaysInYear(y: int): int {
    if IsLeap(y) then 366 else 365
  }

  /** The range checks `datetime`'s constructor performs: a value outside them
      raises `ValueError`. */
  predicate Valid(d: DateTime) {
    && 1 <= d.year <= 9999
    && 1 <= d.month <= 12
    && 1 <= d.day <= DaysInMonth(d.year, d.month)
    && 0 <= d.hour < 24
    && 0 <= d.minute < 60
    && 0 <= d.second < 60
    && 0 <= d.micro < 1000000
  }

  type ValidDateTime = d: DateTime | Valid(d) witness DateTime(1, 1, 1, 0, 0, 0, 0)

  /** Strict chronological order: `datetime` compares its fields
      lexicographically from the year down to the microsecond. */
  predicate Before(a: DateTime, b: DateTime) {
    || a.year < b.year
    || (a.year == b.year && a.month < b.month)
    || (a.year == b.year && a.month == b.month && a.day < b.day)
    || (a.year == b.year && a.month == b.month && a.day == b.day && a.hour < b.hour)
    || (a.year == b.year && a.month == b.month && a.day == b.day && a.hour == b.hour
        && a.minute < b.minute)
    || (a.year == b.year && a.month == b.month && a.day == b.day && a.hour == b.hour
        && a.minute == b.minute && a.second < b.second)
    || (a.year == b.year && a.month == b.month && a.day == b.day && a.hour == b.hour
        && a.minute == b.minute && a.second == b.second && a.micro < b.micro)
  }

  /** `a <= b` on `datetime` values. */
  predicate NotAfter(a: DateTime, b: DateTime) {
    a == b || Before(a, b)
  }

  /** `NotAfter` is a total order: reflexive, antisymmetric, transitive and total. */
  lemma NotAfterIsTotalOrder()
    ensures forall a: DateTime :: NotAfter(a, a)
    ensures forall a: DateTime, b: DateTime :: NotAfter(a, b) && NotAfter(b, a) ==> a == b
    ensures forall a: DateTime, b: DateTime, c: DateTime ::
      NotAfter(a, b) && NotAfter(b, c) ==> NotAfter(a, c)
    ensures forall a: DateTime, b: DateTime :: NotAfter(a, b) || NotAfter(b, a)
  {
  }

  /** Days from 0001-01-01 to the first day of year `y`, as Python's
      `_days_before_year`. */
  function DaysBeforeYear(y: int): int {
    var k := y - 1;
    365 * k + k / 4 - k / 100 + k / 400
  }

  /** Days in year `y` before the first day of month `m`, as Python's
      `_days_before_month`. */
  function DaysBeforeMonth(y: int, m: int): int
    requires 1 <= m <= 12
  {
    [0, 31, 59, 90, 120, 151, 181, 212, 243, 273, 304, 334][m - 1]
      + (if m > 2 && IsLeap(y) then 1 else 0)
  }

  /** The proleptic Gregorian ordinal, 1 for 0001-01-01, as `date.toordinal()`. */
  function Ordinal(d: ValidDateTime): int {
    DaysBeforeYear(d.year) + DaysBeforeMonth(d.year, d.month) + d.day
  }

  const MicrosPerDay: int := 86400000000

  /** Microseconds since midnight. */
  function TimeOfDay(d: ValidDateTime): (t: int)
    ensures 0 <= t < MicrosPerDay
  {
    ((d.hour * 60 + d.minute) * 60 + d.second) * 1000000 + d.micro
  }

  /** Microseconds from the start of day 0 of the ordinal count. */
  function Instant(d: ValidDateTime): int {
    Ordinal(d) * MicrosPerDay + TimeOfDay(d)
  }

  /** `(expiry - now).days`: the difference normalised the way `timedelta`
      does, whole days rounded toward negative infinity. */
  function DaysLeft(expiry: ValidDateTime, now: ValidDateTime): (days: int)
    ensures days * MicrosPerDay <= Instant(expiry) - Instant(now) < (days + 1) * MicrosPerDay
  {
    (Instant(expiry) - Instant(now)) / MicrosPerDay
  }

  /** Stepping from `y - 1` to `y` adds one multiple of 4, 100 or 400
      exactly when it divides `y`. */
  lemma LeapCountsStep(y: int)
    ensures y / 4 - (y - 1) / 4 == (if y % 4 == 0 then 1 else 0)
    ensures y / 100 - (y - 1) / 100 == (if y % 100 == 0 then 1 else 0)
    ensures y / 400 - (y - 1) / 400 == (if y % 400 == 0 then 1 else 0)
  {
  }

  lemma DaysBeforeYearStep(y: int)
    ensures DaysBeforeYear(y + 1) == DaysBeforeYear(y) + DaysInYear(y)
  {
    LeapCountsStep(y);
  }

  lemma {:induction false} DaysBeforeYearMonotone(y1: int, y2: int)
    requires y1 <= y2
    ensures DaysBeforeYear(y1) + (y2 - y1) * 365 <= DaysBeforeYear(y2)
    decreases y2 - y1
  {
    if y1 < y2 {
      DaysBeforeYearMonotone(y1, y2 - 1);
      DaysBeforeYearStep(y2 - 1);
    }
  }

  lemma DaysBeforeMonthStep(y: int, m: int)
    requires 1 <= m < 12
    ensures DaysBeforeMonth(y, m) + DaysInMonth(y, m) == DaysBeforeMonth(y, m + 1)
  {
  }

  lemma DayOfYearBound(d: ValidDateTime)
    ensures 1 <= DaysBeforeMonth(d.year, d.month) + d.day <= DaysInYear(d.year)
  {
  }

  /** Later calendar dates have larger ordinals. */
  lemma OrdinalMonotone(a: ValidDateTime, b: ValidDateTime)
    requires a.year < b.year || (a.year == b.year && a.month < b.month)
             || (a.year == b.year && a.month == b.month && a.day < b.day)
    ensures Ordinal(a) < Ordinal(b)
  {
    if a.year < b.year {
      DayOfYearBound(a);
      DaysBeforeYearStep(a.year);
      DaysBeforeYearMonotone(a.year + 1, b.year);
    } else if a.month < b.month {
      DaysBeforeMonthStep(a.year, a.month);
      assert DaysBeforeMonth(a.year, a.month + 1) <= DaysBeforeMonth(b.year, b.month);
    }
  }

  /** The instant of a date-time increases strictly with chronological order:
      the field-wise comparison `datetime` uses and the time line agree. */
  lemma InstantMonotone(a: ValidDateTime, b: ValidDateTime)
    requires Before(a, b)
    ensures Instant(a) < Instant(b)
  {
    if a.year != b.year || a.month != b.month || a.day != b.day {
      OrdinalMonotone(a, b);
      assert (Ordinal(a) + 1) * MicrosPerDay <= Ordinal(b) * MicrosPerDay;
    }
  }

  /** A later (or equal) expiry never has fewer days left. */
  lemma DaysLeftMonotone(a: ValidDateTime, b: ValidDateTime, now: ValidDateTime)
    requires NotAfter(a, b)
    ensures DaysLeft(a, now) <= DaysLeft(b, now)
  {
    if a != b {
      InstantMonotone(a, b);
    }
  }
}
