/**
 * The civil date and time that `strftime` reads from a timestamp: the
 * proleptic Gregorian calendar of Python's `datetime`, on the fixed UTC+8
 * wall clock. An instant is the number of seconds since 0001-01-01 00:00
 * local time (the smallest `datetime`); there are no leap seconds and no
 * daylight saving.
 */
module Calendar {

  datatype DateTime = DateTime(year: int, month: int, day: int, hour: int, minute: int, second: int)

  const SecondsPerDay: nat := 86400

  predicate IsLeapYear(y: int)
  {
    y % 4 == 0 && (y % 100 != 0 || y % 400 == 0)
  }

  function DaysInYear(y: int): nat
  {
    if IsLeapYear(y) then 366 else 365
  }

  function DaysInMonth(y: int, m: int): nat
    requires 1 <= m <= 12
  {
    if m == 2 then (if IsLeapYear(y) then 29 else 28)
    else if m == 4 || m == 6 || m == 9 || m == 11 then 30
    else 31
  }

  /** Days from 0001-01-01 to January 1 of year `y`. */
  function DaysBeforeYear(y: int): nat
    requires y >= 1
  {
    if y == 1 then 0 else DaysBeforeYear(y - 1) + DaysInYear(y - 1)
  }

  /** Days from January 1 to the first day of month `m` of year `y`. */
  function DaysBeforeMonth(y: int, m: int): nat
    requires 1 <= m <= 12
  {
    if m == 1 then 0 else DaysBeforeMonth(y, m - 1) + DaysInMonth(y, m - 1)
  }

  /** The twelve months add up to the year. */
  lemma MonthsFillYear(y: int)
    ensures DaysBeforeMonth(y, 12) + DaysInMonth(y, 12) == DaysInYear(y)
  {
    assert DaysBeforeMonth(y, 2) == 31;
    assert DaysBeforeMonth(y, 3) == 31 + DaysInMonth(y, 2);
    assert DaysBeforeMonth(y, 4) == 62 + DaysInMonth(y, 2);
    assert DaysBeforeMonth(y, 5) == 92 + DaysInMonth(y, 2);
    assert DaysBeforeMonth(y, 6) == 123 + DaysInMonth(y, 2);
    assert DaysBeforeMonth(y, 7) == 153 + DaysInMonth(y, 2);
    assert DaysBeforeMonth(y, 8) == 184 + DaysInMonth(y, 2);
    assert DaysBeforeMonth(y, 9) == 215 + DaysInMonth(y, 2);
    assert DaysBeforeMonth(y, 10) == 245 + DaysInMonth(y, 2);
    assert DaysBeforeMonth(y, 11) == 276 + DaysInMonth(y, 2);
    assert DaysBeforeMonth(y, 12) == 306 + DaysInMonth(y, 2);
  }

  /**
   * The year and the zero-based day of that year that lie `days` days after
   * January 1 of year `y`.
   */
  function YearOf(days: nat, y: int): (r: (int, nat))
    requires y >= 1
    ensures r.0 >= y && r.1 < DaysInYear(r.0)
    ensures DaysBeforeYear(r.0) + r.1 == DaysBeforeYear(y) + days
    decreases days
  {
    if days < DaysInYear(y) then (y, days) else YearOf(days - DaysInYear(y), y + 1)
  }

  /**
   * The month and the zero-based day of that month for day `doy` counted from
   * the first of month `m` of year `y`.
   */
  function MonthOf(y: int, doy: nat, m: int): (r: (int, nat))
    requires 1 <= m <= 12
    requires DaysBeforeMonth(y, m) + doy < DaysInYear(y)
    ensures m <= r.0 <= 12 && r.1 < DaysInMonth(y, r.0)
    ensures DaysBeforeMonth(y, r.0) + r.1 == DaysBeforeMonth(y, m) + doy
    decreases 12 - m
  {
    MonthsFillYear(y);
    if m == 12 || doy < DaysInMonth(y, m) then (m, doy)
    else MonthOf(y, doy - DaysInMonth(y, m), m + 1)
  }

  /** The local civil date and time of an instant. */
  function FromInstant(t: nat): (d: DateTime)
    ensures d.year >= 1 && 1 <= d.month <= 12 && 1 <= d.day <= DaysInMonth(d.year, d.month)
    ensures 0 <= d.hour < 24 && 0 <= d.minute < 60 && 0 <= d.second < 60
    ensures d.second == t % 60
  {
    var (y, doy) := YearOf(t / SecondsPerDay, 1);
    var (m, dom) := MonthOf(y, doy, 1);
    DateTime(y, m, dom + 1, (t % SecondsPerDay) / 3600, (t % 3600) / 60, t % 60)
  }

  /** The instant of a civil date and time: the inverse of FromInstant. */
  function ToInstant(d: DateTime): int
    requires d.year >= 1 && 1 <= d.month <= 12
  {
    (DaysBeforeYear(d.year) + DaysBeforeMonth(d.year, d.month) + d.day - 1) * SecondsPerDay
      + d.hour * 3600 + d.minute * 60 + d.second
  }

  lemma SplitSecondsOfDay(t: nat)
    ensures t == (t / SecondsPerDay) * SecondsPerDay + ((t % SecondsPerDay) / 3600) * 3600 + ((t % 3600) / 60) * 60 + t % 60
  {
    var a, b, c, e := t / 86400, (t % 86400) / 3600, (t % 3600) / 60, t % 60;
    assert t % 86400 == 3600 * b + (t % 86400) % 3600;
    assert t == 3600 * (24 * a + b) + (t % 86400) % 3600;
    assert (t % 86400) % 3600 == t % 3600;
    assert t % 3600 == 60 * c + (t % 3600) % 60;
    assert t == 60 * (60 * (24 * a + b) + c) + (t % 3600) % 60;
    assert (t % 3600) % 60 == e;
  }

  /** Converting an instant to civil time and back gives the instant. */
  lemma InstantRoundTrip(t: nat)
    ensures ToInstant(FromInstant(t)) == t
  {
    SplitSecondsOfDay(t);
  }

  /** Distinct instants have distinct civil times. */
  lemma FromInstantInjective(t: nat, u: nat)
    requires FromInstant(t) == FromInstant(u)
    ensures t == u
  {
    InstantRoundTrip(t);
    InstantRoundTrip(u);
  }

  lemma {:induction false} YearOfMonotone(d: nat, e: nat, y: int)
    requires y >= 1 && d <= e
    ensures YearOf(d, y).0 <= YearOf(e, y).0
    decreases d
  {
    if d >= DaysInYear(y) {
      YearOfMonotone(d - DaysInYear(y), e - DaysInYear(y), y + 1);
    }
  }

  /** A later instant is never in an earlier year. */
  lemma YearMonotone(t: nat, u: nat)
    requires t <= u
    ensures FromInstant(t).year <= FromInstant(u).year
  {
    YearOfMonotone(t / SecondsPerDay, u / SecondsPerDay, 1);
  }
}
