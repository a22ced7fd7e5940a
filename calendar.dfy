/** Proleptic Gregorian dates and wall-clock date-times, as Python's
    `datetime.date` and `datetime.datetime` treat them: day ordinals with
    1 January of year 1 as day 1, weekdays with Monday as 0, and
    `timedelta(days=n)` as a shift of the ordinal. Comparison of date-times
    is field by field, which for valid values is chronological order. */
module Calendar {

  datatype Date = Date(year: int, month: int, day: int)

  datatype DateTime = DateTime(date: Date, hour: int, minute: int, second: int)

  predicate IsLeap(y: int) {
    y % 4 == 0 && (y % 100 != 0 || y % 400 == 0)
  }

  function DaysInYear(y: int): int {
    if IsLeap(y) then 366 else 365
  }

  function DaysInMonth(y: int, m: int): (n: int)
    ensures 28 <= n <= 31
    ensures n == 28 <==> m == 2 && !IsLeap(y)
  {
    if m == 2 then (if IsLeap(y) then 29 else 28)
    else if m == 4 || m == 6 || m == 9 || m == 11 then 30
    else 31
  }

  predicate ValidDate(d: Date) {
    1 <= d.year && 1 <= d.month <= 12 && 1 <= d.day <= DaysInMonth(d.year, d.month)
  }

  predicate ValidTime(h: int, mi: int, s: int) {
    0 <= h < 24 && 0 <= mi < 60 && 0 <= s < 60
  }

  predicate ValidDateTime(t: DateTime) {
    ValidDate(t.date) && ValidTime(t.hour, t.minute, t.second)
  }

  /** The values a Python `date` can take. */
  type Day = d: Date | ValidDate(d) witness Date(1, 1, 1)

  /** The values a Python `datetime` can take. */
  type Instant = t: DateTime | ValidDateTime(t) witness DateTime(Date(1, 1, 1), 0, 0, 0)

  /** Days in the years before `y`. */
  function DaysBeforeYear(y: int): nat
    decreases y
  {
    if y <= 1 then 0 else DaysBeforeYear(y - 1) + DaysInYear(y - 1)
  }

  /** Days in the months of year `y` before month `m` (Python's table plus
      the leap day). */
  function DaysBeforeMonth(y: int, m: int): nat
    requires 1 <= m <= 12
  {
    [0, 0, 31, 59, 90, 120, 151, 181, 212, 243, 273, 304, 334][m]
      + (if m > 2 && IsLeap(y) then 1 else 0)
  }

  /** `date.toordinal()` */
  function Ordinal(d: Date): int
    requires ValidDate(d)
  {
    DaysBeforeYear(d.year) + DaysBeforeMonth(d.year, d.month) + d.day
  }

  /** `date.weekday()`: 0 is Monday, 6 is Sunday. */
  function Weekday(d: Date): (w: int)
    requires ValidDate(d)
    ensures 0 <= w < 7
  {
    (Ordinal(d) + 6) % 7
  }

  lemma MonthStep(y: int, m: int)
    requires 1 <= m < 12
    ensures DaysBeforeMonth(y, m + 1) == DaysBeforeMonth(y, m) + DaysInMonth(y, m)
  {
  }

  lemma YearEnd(y: int)
    ensures DaysBeforeMonth(y, 12) + 31 == DaysInYear(y)
  {
  }

  /** Months start later the later they come in the year. */
  lemma {:induction false} MonthsOrdered(y: int, m1: int, m2: int)
    requires 1 <= m1 < m2 <= 12
    ensures DaysBeforeMonth(y, m1) + DaysInMonth(y, m1) <= DaysBeforeMonth(y, m2)
    decreases m2 - m1
  {
    MonthStep(y, m1);
    if m1 + 1 < m2 {
      MonthsOrdered(y, m1 + 1, m2);
    }
  }

  /** Every valid date of a year lies inside that year's span of ordinals. */
  lemma OrdinalInYear(d: Date)
    requires ValidDate(d)
    ensures DaysBeforeYear(d.year) < Ordinal(d) <= DaysBeforeYear(d.year) + DaysInYear(d.year)
  {
    YearEnd(d.year);
    if d.month < 12 {
      MonthsOrdered(d.year, d.month, 12);
    }
  }

  lemma {:induction false} YearsOrdered(y1: int, y2: int)
    requires 1 <= y1 < y2
    ensures DaysBeforeYear(y1) + DaysInYear(y1) <= DaysBeforeYear(y2)
    decreases y2 - y1
  {
    if y1 + 1 < y2 {
      YearsOrdered(y1 + 1, y2);
    }
  }

  /** Field order on dates. */
  predicate DateBefore(a: Date, b: Date) {
    a.year < b.year
    || (a.year == b.year && (a.month < b.month || (a.month == b.month && a.day < b.day)))
  }

  /** For valid dates the field order is the order of the ordinals. */
  lemma OrdinalOrder(a: Date, b: Date)
    requires ValidDate(a) && ValidDate(b)
    ensures DateBefore(a, b) <==> Ordinal(a) < Ordinal(b)
    ensures a == b <==> Ordinal(a) == Ordinal(b)
  {
    OrdinalInYear(a);
    OrdinalInYear(b);
    if a.year < b.year {
      YearsOrdered(a.year, b.year);
    } else if b.year < a.year {
      YearsOrdered(b.year, a.year);
    } else if a.month < b.month {
      MonthsOrdered(a.year, a.month, b.month);
    } else if b.month < a.month {
      MonthsOrdered(a.year, b.month, a.month);
    }
  }

  /** The day after `d` (`d + timedelta(days=1)`). */
  function NextDay(d: Date): (r: Date)
    requires ValidDate(d)
    ensures ValidDate(r) && Ordinal(r) == Ordinal(d) + 1
  {
    if d.day < DaysInMonth(d.year, d.month) then Date(d.year, d.month, d.day + 1)
    else if d.month < 12 then
      MonthStep(d.year, d.month);
      Date(d.year, d.month + 1, 1)
    else
      YearEnd(d.year);
      Date(d.year + 1, 1, 1)
  }

  /** The day before `d` (`d - timedelta(days=1)`); there is none before
      1 January of year 1. */
  function PrevDay(d: Date): (r: Date)
    requires ValidDate(d) && Ordinal(d) > 1
    ensures ValidDate(r) && Ordinal(r) == Ordinal(d) - 1
  {
    if d.day > 1 then Date(d.year, d.month, d.day - 1)
    else if d.month > 1 then
      MonthStep(d.year, d.month - 1);
      Date(d.year, d.month - 1, DaysInMonth(d.year, d.month - 1))
    else
      YearEnd(d.year - 1);
      Date(d.year - 1, 12, 31)
  }

  /** `d + timedelta(days=n)` */
  function AddDays(d: Date, n: nat): (r: Date)
    requires ValidDate(d)
    ensures ValidDate(r) && Ordinal(r) == Ordinal(d) + n
    decreases n
  {
    if n == 0 then d else AddDays(NextDay(d), n - 1)
  }

  /** `d - timedelta(days=n)` */
  function SubDays(d: Date, n: nat): (r: Date)
    requires ValidDate(d) && Ordinal(d) > n
    ensures ValidDate(r) && Ordinal(r) == Ordinal(d) - n
    decreases n
  {
    if n == 0 then d else SubDays(PrevDay(d), n - 1)
  }

  /** Adding days without leaving the month only moves the day. */
  lemma {:induction false} AddDaysInMonth(d: Date, n: nat)
    requires ValidDate(d) && d.day + n <= DaysInMonth(d.year, d.month)
    ensures AddDays(d, n) == Date(d.year, d.month, d.day + n)
    decreases n
  {
    if n > 0 {
      AddDaysInMonth(NextDay(d), n - 1);
    }
  }

  /** Days of one month advance the weekday one by one. */
  lemma WeekdayInMonth(y: int, m: int, d: int)
    requires ValidDate(Date(y, m, d))
    ensures Weekday(Date(y, m, d)) == (Weekday(Date(y, m, 1)) + d - 1) % 7
  {
  }

  /** Date-time order: Python compares the fields one after the other. */
  predicate Before(a: DateTime, b: DateTime) {
    DateBefore(a.date, b.date)
    || (a.date == b.date
        && (a.hour < b.hour
            || (a.hour == b.hour
                && (a.minute < b.minute || (a.minute == b.minute && a.second < b.second)))))
  }

  predicate NotAfter(a: DateTime, b: DateTime) {
    Before(a, b) || a == b
  }

  lemma BeforeIsStrictTotal(a: DateTime, b: DateTime, c: DateTime)
    ensures !Before(a, a)
    ensures Before(a, b) && Before(b, c) ==> Before(a, c)
    ensures a == b || Before(a, b) || Before(b, a)
    ensures !(Before(a, b) && Before(b, a))
  {
  }

  /** Midnight at the start of a day. */
  function StartOfDay(d: Day): Instant {
    DateTime(d, 0, 0, 0)
  }
}
