/**
 * Proleptic Gregorian calendar arithmetic in one fixed zone (UTC): the conversions that
 * Python's `datetime.fromtimestamp` and `datetime(...).timestamp()` perform, written as
 * day counting relative to 1970-01-01, with both round trips proved.
 */
module Calendar {

  const SecondsPerDay := 86400

  /** Multiplying by a positive number keeps the order. */
  lemma {:induction false} MulMonotone(a: int, b: int, d: int)
    requires a <= b && 0 < d
    ensures a * d <= b * d
    decreases b - a
  {
    if a < b {
      MulMonotone(a, b - 1, d);
      assert b * d == (b - 1) * d + d;
    }
  }

  /** Quotient and remainder are unique: `n == q * d + r` with `0 <= r < d` fixes both. */
  lemma DivModUnique(n: int, d: int, q: int, r: int)
    requires 0 < d && 0 <= r < d && n == q * d + r
    ensures n / d == q && n % d == r
  {
    var q', r' := n / d, n % d;
    assert n == q' * d + r';
    if q' < q {
      MulMonotone(q' + 1, q, d);
    } else if q < q' {
      MulMonotone(q + 1, q', d);
    }
  }

  predicate IsLeapYear(y: int)
  {
    y % 4 == 0 && (y % 100 != 0 || y % 400 == 0)
  }

  function DaysInYear(y: int): nat
  {
    if IsLeapYear(y) then 366 else 365
  }

  function DaysInMonth(y: int, m: int): nat
    requires 1 <= m <= 12
  {
    if m == 2 then (if IsLeapYear(y) then 29 else 28)
    else if m == 4 || m == 6 || m == 9 || m == 11 then 30
    else 31
  }

  /** Days of year `y` that lie before the first of month `m`. */
  function DaysBeforeMonth(y: int, m: int): (n: nat)
    requires 1 <= m <= 12
    ensures m == 12 ==> n + DaysInMonth(y, m) == DaysInYear(y)
  {
    var leap := if IsLeapYear(y) && m > 2 then 1 else 0;
    leap + (if m == 1 then 0 else if m == 2 then 31 else if m == 3 then 59
            else if m == 4 then 90 else if m == 5 then 120 else if m == 6 then 151
            else if m == 7 then 181 else if m == 8 then 212 else if m == 9 then 243
            else if m == 10 then 273 else if m == 11 then 304 else 334)
  }

  lemma DaysBeforeNextMonth(y: int, m: int)
    requires 1 <= m < 12
    ensures DaysBeforeMonth(y, m + 1) == DaysBeforeMonth(y, m) + DaysInMonth(y, m)
  {
  }

  /** Days from 1970-01-01 to the first of January of year `y` (negative before 1970). */
  function DaysBeforeYear(y: int): int
    decreases if y >= 1970 then y - 1970 else 1970 - y
  {
    if y == 1970 then 0
    else if y > 1970 then DaysBeforeYear(y - 1) + DaysInYear(y - 1)
    else DaysBeforeYear(y + 1) - DaysInYear(y)
  }

  lemma DaysBeforeNextYear(y: int)
    ensures DaysBeforeYear(y + 1) == DaysBeforeYear(y) + DaysInYear(y)
  {
  }

  /** Years are laid end to end: a later year starts after the whole of an earlier one. */
  lemma {:induction false} DaysBeforeYearMonotone(a: int, b: int)
    requires a < b
    ensures DaysBeforeYear(a) + DaysInYear(a) <= DaysBeforeYear(b)
    decreases b - a
  {
    DaysBeforeNextYear(a);
    if a + 1 < b {
      DaysBeforeYearMonotone(a + 1, b);
    }
  }

  datatype Date = Date(year: int, month: int, day: int)

  predicate ValidDate(d: Date)
  {
    1 <= d.month <= 12 && 1 <= d.day <= DaysInMonth(d.year, d.month)
  }

  /** Days since 1970-01-01 of a calendar date. */
  function DaysFromCivil(d: Date): int
    requires ValidDate(d)
  {
    DaysBeforeYear(d.year) + DaysBeforeMonth(d.year, d.month) + d.day - 1
  }

  /** The year holding day `n` counted from the first of January of year `y`, and the day within it. */
  function YearForward(n: nat, y: int): (r: (int, nat))
    ensures r.1 < DaysInYear(r.0)
    ensures DaysBeforeYear(r.0) + r.1 == DaysBeforeYear(y) + n
    decreases n
  {
    DaysBeforeNextYear(y);
    if n < DaysInYear(y) then (y, n) else YearForward(n - DaysInYear(y), y + 1)
  }

  /** As `YearForward`, for a day `n < 0` that lies before the first of January of year `y`. */
  function YearBackward(n: int, y: int): (r: (int, nat))
    requires n < 0
    ensures r.1 < DaysInYear(r.0)
    ensures DaysBeforeYear(r.0) + r.1 == DaysBeforeYear(y) + n
    decreases -n
  {
    DaysBeforeNextYear(y - 1);
    var m := n + DaysInYear(y - 1);
    if m >= 0 then (y - 1, m) else YearBackward(m, y - 1)
  }

  /** The month, from `m` on, that holds day `doy` (counted from 0) of year `y`. */
  function MonthOf(y: int, doy: nat, m: int): (r: int)
    requires 1 <= m <= 12 && DaysBeforeMonth(y, m) <= doy < DaysInYear(y)
    ensures m <= r <= 12
    ensures DaysBeforeMonth(y, r) <= doy < DaysBeforeMonth(y, r) + DaysInMonth(y, r)
    decreases 12 - m
  {
    if doy < DaysBeforeMonth(y, m) + DaysInMonth(y, m) then m
    else DaysBeforeNextMonth(y, m); MonthOf(y, doy, m + 1)
  }

  /** The calendar date of day `n` since 1970-01-01; the inverse of `DaysFromCivil`. */
  function CivilFromDays(n: int): (d: Date)
    ensures ValidDate(d) && DaysFromCivil(d) == n
  {
    var (y, doy) := if n >= 0 then YearForward(n, 1970) else YearBackward(n, 1970);
    var m := MonthOf(y, doy, 1);
    Date(y, m, doy - DaysBeforeMonth(y, m) + 1)
  }

  /** A day number has exactly one (year, day of year) decomposition. */
  lemma YearDecompositionUnique(y1: int, d1: nat, y2: int, d2: nat)
    requires d1 < DaysInYear(y1) && d2 < DaysInYear(y2)
    requires DaysBeforeYear(y1) + d1 == DaysBeforeYear(y2) + d2
    ensures y1 == y2 && d1 == d2
  {
    if y1 < y2 {
      DaysBeforeYearMonotone(y1, y2);
    } else if y2 < y1 {
      DaysBeforeYearMonotone(y2, y1);
    }
  }

  /** Months are laid end to end within a year. */
  lemma {:induction false} DaysBeforeMonthMonotone(y: int, a: int, b: int)
    requires 1 <= a < b <= 12
    ensures DaysBeforeMonth(y, a) + DaysInMonth(y, a) <= DaysBeforeMonth(y, b)
    decreases b - a
  {
    DaysBeforeNextMonth(y, a);
    if a + 1 < b {
      DaysBeforeMonthMonotone(y, a + 1, b);
    }
  }

  lemma {:induction false} CivilFromDaysFromCivil(d: Date)
    requires ValidDate(d)
    ensures CivilFromDays(DaysFromCivil(d)) == d
  {
    var n := DaysFromCivil(d);
    var e := CivilFromDays(n);
    YearDecompositionUnique(e.year, DaysBeforeMonth(e.year, e.month) + e.day - 1,
                            d.year, DaysBeforeMonth(d.year, d.month) + d.day - 1);
    if e.month < d.month {
      DaysBeforeMonthMonotone(d.year, e.month, d.month);
    } else if d.month < e.month {
      DaysBeforeMonthMonotone(d.year, d.month, e.month);
    }
  }

  /** A broken-down UTC date and time, the fields of a Python `datetime` (whole seconds). */
  datatype DateTime = DateTime(date: Date, hour: int, minute: int, second: int)

  /** The field ranges that Python's `datetime(...)` constructor accepts. */
  predicate ValidDateTime(t: DateTime)
  {
    1 <= t.date.year <= 9999 && ValidDate(t.date)
    && 0 <= t.hour < 24 && 0 <= t.minute < 60 && 0 <= t.second < 60
  }

  /** Seconds since the epoch of a UTC date and time (`datetime(...).timestamp()` in UTC). */
  function EpochOf(t: DateTime): int
    requires ValidDate(t.date)
  {
    DaysFromCivil(t.date) * SecondsPerDay + t.hour * 3600 + t.minute * 60 + t.second
  }

  /** The UTC date and time of an epoch second (`datetime.fromtimestamp` in UTC). */
  function DateTimeOf(s: int): (t: DateTime)
    ensures ValidDate(t.date)
    ensures 0 <= t.hour < 24 && 0 <= t.minute < 60 && 0 <= t.second < 60
    ensures EpochOf(t) == s
  {
    var secs := s % SecondsPerDay;
    DateTime(CivilFromDays(s / SecondsPerDay), secs / 3600, secs % 3600 / 60, secs % 60)
  }

  lemma DateTimeOfEpochOf(t: DateTime)
    requires ValidDate(t.date) && 0 <= t.hour < 24 && 0 <= t.minute < 60 && 0 <= t.second < 60
    ensures DateTimeOf(EpochOf(t)) == t
  {
    var days := DaysFromCivil(t.date);
    var secs := t.hour * 3600 + t.minute * 60 + t.second;
    var below := t.minute * 60 + t.second;
    DivModUnique(EpochOf(t), SecondsPerDay, days, secs);
    DivModUnique(secs, 3600, t.hour, below);
    DivModUnique(below, 60, t.minute, t.second);
    CivilFromDaysFromCivil(t.date);
  }

  /** Different valid date-times are different instants. */
  lemma EpochOfInjective(a: DateTime, b: DateTime)
    requires ValidDate(a.date) && 0 <= a.hour < 24 && 0 <= a.minute < 60 && 0 <= a.second < 60
    requires ValidDate(b.date) && 0 <= b.hour < 24 && 0 <= b.minute < 60 && 0 <= b.second < 60
    requires EpochOf(a) == EpochOf(b)
    ensures a == b
  {
    DateTimeOfEpochOf(a);
    DateTimeOfEpochOf(b);
  }
}
