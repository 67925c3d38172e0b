/** Proleptic Gregorian civil date-times, as Python's `datetime` represents
    them: year 1..9999, whole seconds (the parsed timestamps never carry
    microseconds), no time zone.  An `Instant` is the number of seconds since
    0001-01-01 00:00:00, so that subtracting two instants gives exactly the
    `timedelta` Python computes for `end - start`. */
module Civil {

  datatype DateTime = DateTime(year: int, month: int, day: int,
                               hour: int, minute: int, second: int)

  const SecondsPerDay: int := 86400

  predicate IsLeapYear(y: int) {
    y % 4 == 0 && (y % 100 != 0 || y % 400 == 0)
  }

  function DaysInYear(y: int): int {
    if IsLeapYear(y) then 366 else 365
  }

  function DaysInMonth(y: int, m: int): int
    requires 1 <= m <= 12
  {
    if m == 2 then (if IsLeapYear(y) then 29 else 28)
    else if m == 4 || m == 6 || m == 9 || m == 11 then 30
    else 31
  }

  /** Days in the months of year `y` that precede month `m`. */
  function DaysBeforeMonth(y: int, m: int): int
    requires 1 <= m <= 12
  {
    [0, 31, 59, 90, 120, 151, 181, 212, 243, 273, 304, 334][m - 1]
      + (if m > 2 && IsLeapYear(y) then 1 else 0)
  }

  /** Days from 0001-01-01 up to (not including) January 1st of year `y`. */
  function DaysBeforeYear(y: int): int
    requires y >= 1
  {
    var p := y - 1;
    p * 365 + p / 4 - p / 100 + p / 400
  }

  predicate ValidDate(y: int, m: int, d: int) {
    1 <= y <= 9999 && 1 <= m <= 12 && 1 <= d <= DaysInMonth(y, m)
  }

  predicate ValidTime(h: int, mi: int, s: int) {
    0 <= h <= 23 && 0 <= mi <= 59 && 0 <= s <= 59
  }

  /** What Python's `datetime` constructor accepts. */
  predicate Valid(dt: DateTime) {
    ValidDate(dt.year, dt.month, dt.day) && ValidTime(dt.hour, dt.minute, dt.second)
  }

  type Stamp = dt: DateTime | Valid(dt) witness DateTime(1, 1, 1, 0, 0, 0)

  /** Python's `date.toordinal()`: 0001-01-01 is day 1. */
  function Ordinal(dt: Stamp): int {
    DaysBeforeYear(dt.year) + DaysBeforeMonth(dt.year, dt.month) + dt.day
  }

  /** Seconds since midnight: what `strftime('%H:%M:%S')` renders. */
  function TimeOfDay(dt: Stamp): (t: int)
    ensures 0 <= t < SecondsPerDay
  {
    dt.hour * 3600 + dt.minute * 60 + dt.second
  }

  function Instant(dt: Stamp): int {
    (Ordinal(dt) - 1) * SecondsPerDay + TimeOfDay(dt)
  }

  /** Python's ordering of `datetime` values: field by field, most significant first. */
  predicate Before(a: DateTime, b: DateTime) {
    if a.year != b.year then a.year < b.year
    else if a.month != b.month then a.month < b.month
    else if a.day != b.day then a.day < b.day
    else if a.hour != b.hour then a.hour < b.hour
    else if a.minute != b.minute then a.minute < b.minute
    else a.second < b.second
  }

  /** Going from one January 1st to the next advances by that year's length. */
  lemma DaysBeforeYearStep(y: int)
    requires y >= 1
    ensures DaysBeforeYear(y + 1) == DaysBeforeYear(y) + DaysInYear(y)
  {
    var p := y - 1;
    QuarterStep(p);
    CenturyStep(p);
    QuadCenturyStep(p);
  }

  /** Each count of multiples goes up by one exactly at a multiple. */
  lemma QuarterStep(p: int)
    ensures (p + 1) / 4 - p / 4 == (if (p + 1) % 4 == 0 then 1 else 0)
  {
  }

  lemma CenturyStep(p: int)
    ensures (p + 1) / 100 - p / 100 == (if (p + 1) % 100 == 0 then 1 else 0)
  {
  }

  lemma QuadCenturyStep(p: int)
    ensures (p + 1) / 400 - p / 400 == (if (p + 1) % 400 == 0 then 1 else 0)
  {
  }

  /** A whole earlier year fits before any later January 1st. */
  lemma {:induction false} DaysBeforeYearGrows(y1: int, y2: int)
    requires 1 <= y1 < y2
    ensures DaysBeforeYear(y1) + DaysInYear(y1) <= DaysBeforeYear(y2)
    decreases y2 - y1
  {
    DaysBeforeYearStep(y1);
    if y1 + 1 < y2 {
      DaysBeforeYearGrows(y1 + 1, y2);
    }
  }

  /** A whole earlier month fits before any later month of the same year. */
  lemma DaysBeforeMonthGrows(y: int, m1: int, m2: int)
    requires 1 <= m1 < m2 <= 12
    ensures DaysBeforeMonth(y, m1) + DaysInMonth(y, m1) <= DaysBeforeMonth(y, m2)
  {
  }

  /** The day of the year of a valid date lies within the year. */
  lemma DayOfYearBounds(y: int, m: int, d: int)
    requires ValidDate(y, m, d)
    ensures 1 <= DaysBeforeMonth(y, m) + d <= DaysInYear(y)
  {
  }

  /** Strict field order on dates is strict order on ordinals. */
  lemma OrdinalOrder(a: Stamp, b: Stamp)
    requires a.year < b.year || (a.year == b.year && a.month < b.month)
             || (a.year == b.year && a.month == b.month && a.day < b.day)
    ensures Ordinal(a) < Ordinal(b)
  {
    if a.year < b.year {
      DayOfYearBounds(a.year, a.month, a.day);
      DayOfYearBounds(b.year, b.month, b.day);
      DaysBeforeYearGrows(a.year, b.year);
    } else if a.month < b.month {
      DaysBeforeMonthGrows(a.year, a.month, b.month);
    }
  }

  /** Instants order date-times exactly as Python compares `datetime` values,
      and two date-times share an instant only when they are equal; so sorting
      by instant is sorting by `datetime`, and `end - start` is zero only for
      identical timestamps. */
  lemma InstantOrder(a: Stamp, b: Stamp)
    ensures Instant(a) < Instant(b) <==> Before(a, b)
    ensures Instant(a) == Instant(b) <==> a == b
  {
    if a.year != b.year || a.month != b.month || a.day != b.day {
      if Before(a, b) {
        OrdinalOrder(a, b);
      } else {
        OrdinalOrder(b, a);
      }
    }
  }

  /** An instant's remainder modulo a day is its time of day. */
  lemma InstantTimeOfDay(dt: Stamp)
    ensures Instant(dt) % SecondsPerDay == TimeOfDay(dt)
    ensures Instant(dt) / SecondsPerDay == Ordinal(dt) - 1
  {
  }

  /** The instants Python's `datetime` can hold: 0001-01-01 00:00:00 through
      9999-12-31 23:59:59. */
  const MaxInstant: int := 3652059 * SecondsPerDay - 1

  lemma InstantRange(dt: Stamp)
    ensures 0 <= Instant(dt) <= MaxInstant
  {
    DayOfYearBounds(dt.year, dt.month, dt.day);
    if dt.year < 9999 {
      DaysBeforeYearGrows(dt.year, 9999);
    }
    DaysBeforeYearStep(9999);
  }
}
