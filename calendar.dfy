/** The proleptic Gregorian calendar of Python's `datetime`, on integer seconds.

    A naive wall-clock time is the number of seconds since 0001-01-01 00:00:00
    (Python's ordinal 1), so `datetime` values are exactly the wall clocks in
    `InRange` (years 1 through 9999). This module gives the conversions between
    that count and year/month/day/hour/minute/second, and the fixed-width
    `strftime("%Y<sep>%m<sep>%d %H:%M:%S")` rendering and its `strptime` inverse
    that exif_updater.py and compare_exif.py rely on. */
module Calendar {
  import opened Wrappers

  predicate IsLeap(y: int) {
    y % 4 == 0 && (y % 100 != 0 || y % 400 == 0)
  }

  function YearLength(y: int): int {
    if IsLeap(y) then 366 else 365
  }

  /** Days from 0001-01-01 to the first day of year y. */
  function DaysBefore(y: int): int
    requires y >= 1
  {
    var k := y - 1;
    365 * k + k / 4 - k / 100 + k / 400
  }

  /** Moving from k to k + 1 raises the quotient by d exactly when k + 1 is a multiple of d
      (stated for the three divisors of the leap-year rule). */
  lemma NextQuotients(k: int)
    requires k >= 0
    ensures (k + 1) % 4 == 0 ==> (k + 1) / 4 == k / 4 + 1
    ensures (k + 1) % 4 != 0 ==> (k + 1) / 4 == k / 4
    ensures (k + 1) % 100 == 0 ==> (k + 1) / 100 == k / 100 + 1
    ensures (k + 1) % 100 != 0 ==> (k + 1) / 100 == k / 100
    ensures (k + 1) % 400 == 0 ==> (k + 1) / 400 == k / 400 + 1
    ensures (k + 1) % 400 != 0 ==> (k + 1) / 400 == k / 400
  {
    assert k == 4 * (k / 4) + k % 4;
    assert k == 100 * (k / 100) + k % 100;
    assert k == 400 * (k / 400) + k % 400;
  }

  /** A multiple of 400 is a multiple of 100. */
  lemma MultipleOf400(y: int)
    requires y % 400 == 0
    ensures y % 100 == 0
  {
    var q := y / 400;
    assert y == 100 * (4 * q);
  }

  /** A multiple of 100 is a multiple of 4. */
  lemma MultipleOf100(y: int)
    requires y % 100 == 0
    ensures y % 4 == 0
  {
    var q := y / 100;
    assert y == 4 * (25 * q);
  }

  /** One more year adds exactly that year's length. */
  lemma DaysBeforeNext(y: int)
    requires y >= 1
    ensures DaysBefore(y + 1) == DaysBefore(y) + YearLength(y)
  {
    NextQuotients(y - 1);
    if y % 400 == 0 {
      MultipleOf400(y);
    }
    if y % 100 == 0 {
      MultipleOf100(y);
    }
  }

  /** DaysBefore stays within two days of the 400-year average of 365.2425 days. */
  lemma DaysBeforeBounds(y: int)
    requires y >= 1
    ensures 146097 * (y - 1) - 699 <= 400 * DaysBefore(y) <= 146097 * (y - 1) + 399
  {
    var k := y - 1;
    assert 4 * (k / 4) <= k < 4 * (k / 4) + 4;
    assert 100 * (k / 100) <= k < 100 * (k / 100) + 100;
    assert 400 * (k / 400) <= k < 400 * (k / 400) + 400;
  }

  lemma {:induction false} DaysBeforeMonotone(a: int, b: int)
    requires 1 <= a <= b
    ensures DaysBefore(a) <= DaysBefore(b)
    decreases b - a
  {
    if a < b {
      DaysBeforeNext(a);
      DaysBeforeMonotone(a + 1, b);
    }
  }

  /** The year that day number n (0 is 0001-01-01) falls in. */
  function YearOf(n: int): (y: int)
    requires n >= 0
    ensures y >= 1 && DaysBefore(y) <= n < DaysBefore(y + 1)
  {
    var k := (400 * n + 699) / 146097;
    DaysBeforeBounds(k + 2);
    DaysBeforeBounds(k + 1);
    if DaysBefore(k + 1) <= n then k + 1 else DaysBeforeBounds(k); k
  }

  /** A year is determined by any of its days. */
  lemma YearOfUnique(n: int, y: int)
    requires n >= 0 && y >= 1 && DaysBefore(y) <= n < DaysBefore(y + 1)
    ensures YearOf(n) == y
  {
    var r := YearOf(n);
    if r < y {
      DaysBeforeMonotone(r + 1, y);
    } else if y < r {
      DaysBeforeMonotone(y + 1, r);
    }
  }

  /** Days in the months before month m of a common year (m = 13 gives the whole year). */
  function CommonDaysBeforeMonth(m: int): int
    requires 1 <= m <= 13
  {
    if m == 1 then 0 else if m == 2 then 31 else if m == 3 then 59
    else if m == 4 then 90 else if m == 5 then 120 else if m == 6 then 151
    else if m == 7 then 181 else if m == 8 then 212 else if m == 9 then 243
    else if m == 10 then 273 else if m == 11 then 304 else if m == 12 then 334
    else 365
  }

  function DaysBeforeMonth(y: int, m: int): int
    requires 1 <= m <= 13
  {
    CommonDaysBeforeMonth(m) + (if m > 2 && IsLeap(y) then 1 else 0)
  }

  function DaysInMonth(y: int, m: int): (d: int)
    requires 1 <= m <= 12
    ensures 28 <= d <= 31
  {
    DaysBeforeMonth(y, m + 1) - DaysBeforeMonth(y, m)
  }

  lemma {:induction false} DaysBeforeMonthMonotone(y: int, a: int, b: int)
    requires 1 <= a <= b <= 13
    ensures DaysBeforeMonth(y, a) <= DaysBeforeMonth(y, b)
    decreases b - a
  {
    if a < b {
      assert DaysInMonth(y, a) > 0;
      DaysBeforeMonthMonotone(y, a + 1, b);
    }
  }

  /** The month (searched from m upward) that day-of-year doy falls in. */
  function FindMonth(y: int, doy: int, m: int): (r: int)
    requires 1 <= m <= 12
    requires DaysBeforeMonth(y, m) <= doy < YearLength(y)
    ensures m <= r <= 12 && DaysBeforeMonth(y, r) <= doy < DaysBeforeMonth(y, r + 1)
    decreases 12 - m
  {
    if doy < DaysBeforeMonth(y, m + 1) then m else FindMonth(y, doy, m + 1)
  }

  lemma FindMonthUnique(y: int, doy: int, m: int)
    requires 1 <= m <= 12
    requires DaysBeforeMonth(y, m) <= doy < DaysBeforeMonth(y, m + 1)
    ensures FindMonth(y, doy, 1) == m
  {
    var r := FindMonth(y, doy, 1);
    if r < m {
      DaysBeforeMonthMonotone(y, r + 1, m);
    } else if m < r {
      DaysBeforeMonthMonotone(y, m + 1, r);
    }
  }

  /** A broken-down `datetime` without tzinfo and without microseconds. */
  datatype DateTime = DateTime(year: int, month: int, day: int, hour: int, minute: int, second: int)

  predicate ValidDate(year: int, month: int, day: int) {
    1 <= year <= 9999 && 1 <= month <= 12 && 1 <= day <= DaysInMonth(year, month)
  }

  predicate Valid(dt: DateTime) {
    && ValidDate(dt.year, dt.month, dt.day)
    && 0 <= dt.hour < 24 && 0 <= dt.minute < 60 && 0 <= dt.second < 60
  }

  /** Day number (0 is 0001-01-01) of a calendar date: Python's `toordinal() - 1`. */
  function DayNumber(year: int, month: int, day: int): int
    requires ValidDate(year, month, day)
  {
    DaysBefore(year) + DaysBeforeMonth(year, month) + day - 1
  }

  /** The largest wall clock Python can represent is 9999-12-31 23:59:59, the last second of
      day 3652058: in range means below 3652059 days of 86400 seconds. */
  predicate InRange(w: int) {
    0 <= w < 315537897600
  }

  /** Calendar date of day number n: Python's `date.fromordinal(n + 1)`. */
  function DateOf(n: int): (r: (int, int, int))
    requires 0 <= n < 3652059
    ensures ValidDate(r.0, r.1, r.2) && DayNumber(r.0, r.1, r.2) == n
  {
    var y := YearOf(n);
    DaysBeforeNext(y);
    DaysBeforeBounds(y);
    DaysBeforeBounds(10000);
    var doy := n - DaysBefore(y);
    var m := FindMonth(y, doy, 1);
    (y, m, doy - DaysBeforeMonth(y, m) + 1)
  }

  /** A date's day number lies within its year, and so below day 3652059. */
  lemma DayNumberInYear(year: int, month: int, day: int)
    requires ValidDate(year, month, day)
    ensures DaysBefore(year) <= DayNumber(year, month, day) < DaysBefore(year + 1)
    ensures 0 <= DayNumber(year, month, day) < 3652059
  {
    DaysBeforeMonthMonotone(year, month + 1, 13);
    DaysBeforeNext(year);
    DaysBeforeMonotone(year + 1, 10000);
    assert DaysBefore(10000) == 3652059;
  }

  /** Within one year, different valid dates have different day-of-year numbers. */
  lemma DayOfYearInjective(y: int, m1: int, d1: int, m2: int, d2: int)
    requires ValidDate(y, m1, d1) && ValidDate(y, m2, d2)
    requires DaysBeforeMonth(y, m1) + d1 == DaysBeforeMonth(y, m2) + d2
    ensures m1 == m2 && d1 == d2
  {
    var doy := DaysBeforeMonth(y, m1) + d1 - 1;
    FindMonthUnique(y, doy, m1);
    FindMonthUnique(y, doy, m2);
  }

  /** Different valid dates have different day numbers. */
  lemma DayNumberInjective(y1: int, m1: int, d1: int, y2: int, m2: int, d2: int)
    requires ValidDate(y1, m1, d1) && ValidDate(y2, m2, d2)
    requires DayNumber(y1, m1, d1) == DayNumber(y2, m2, d2)
    ensures (y1, m1, d1) == (y2, m2, d2)
  {
    var n := DayNumber(y1, m1, d1);
    DayNumberInYear(y1, m1, d1);
    DayNumberInYear(y2, m2, d2);
    YearOfUnique(n, y1);
    YearOfUnique(n, y2);
    DayOfYearInjective(y1, m1, d1, m2, d2);
  }

  lemma DateOfDayNumber(year: int, month: int, day: int)
    requires ValidDate(year, month, day)
    ensures 0 <= DayNumber(year, month, day) < 3652059
    ensures DateOf(DayNumber(year, month, day)) == (year, month, day)
  {
    var n := DayNumber(year, month, day);
    DayNumberInYear(year, month, day);
    var r := DateOf(n);
    DayNumberInjective(r.0, r.1, r.2, year, month, day);
  }

  /** Broken-down form of wall clock w: `datetime.min + timedelta(seconds=w)`. */
  function FromWall(w: int): (dt: DateTime)
    requires InRange(w)
  {
    var s := w % 86400;
    var (y, m, d) := DateOf(w / 86400);
    DateTime(y, m, d, s / 3600, s % 3600 / 60, s % 60)
  }

  /** Wall clock (seconds since 0001-01-01 00:00:00) of a broken-down time. */
  function ToWall(dt: DateTime): (w: int)
    requires Valid(dt)
  {
    DayNumber(dt.year, dt.month, dt.day) * 86400 + dt.hour * 3600 + dt.minute * 60 + dt.second
  }

  /** Splitting seconds-of-day into hours, minutes and seconds loses nothing. */
  lemma SecondsOfDaySplit(s: int)
    requires 0 <= s < 86400
    ensures s / 3600 * 3600 + s % 3600 / 60 * 60 + s % 60 == s
  {
    var h, r := s / 3600, s % 3600;
    assert s == h * 3600 + r;
    assert r == r / 60 * 60 + r % 60;
    assert s % 60 == r % 60;
  }

  lemma HourMinuteSecond(h: int, mi: int, sec: int)
    requires 0 <= h < 24 && 0 <= mi < 60 && 0 <= sec < 60
    ensures var s := h * 3600 + mi * 60 + sec;
      0 <= s < 86400 && s / 3600 == h && s % 3600 / 60 == mi && s % 60 == sec
  {
    var s := h * 3600 + mi * 60 + sec;
    assert s % 3600 == mi * 60 + sec;
  }

  lemma DaySplit(n: int, s: int)
    requires 0 <= s < 86400
    ensures (n * 86400 + s) / 86400 == n
    ensures (n * 86400 + s) % 86400 == s
  {
  }

  /** Breaking a wall clock down and reassembling it gives it back. */
  lemma ToWallFromWall(w: int)
    requires InRange(w)
    ensures ToWall(FromWall(w)) == w
  {
    var dt := FromWall(w);
    var n, s := w / 86400, w % 86400;
    SecondsOfDaySplit(s);
    assert DayNumber(dt.year, dt.month, dt.day) == n;
    assert dt.hour * 3600 + dt.minute * 60 + dt.second == s;
    assert w == n * 86400 + s;
  }

  /** A day number below 3652059 and a second of that day make a wall clock in range. */
  lemma DayAndSecondInRange(n: int, s: int)
    requires 0 <= n < 3652059 && 0 <= s < 86400
    ensures InRange(n * 86400 + s)
  {
    assert n * 86400 <= 315537811200;
  }

  /** Every valid broken-down time is a wall clock in range, and breaking that down gives it back. */
  lemma FromWallToWall(dt: DateTime)
    requires Valid(dt)
    ensures InRange(ToWall(dt)) && FromWall(ToWall(dt)) == dt
  {
    DateOfDayNumber(dt.year, dt.month, dt.day);
    var n := DayNumber(dt.year, dt.month, dt.day);
    var s := dt.hour * 3600 + dt.minute * 60 + dt.second;
    HourMinuteSecond(dt.hour, dt.minute, dt.second);
    var w := ToWall(dt);
    assert w == n * 86400 + s;
    DayAndSecondInRange(n, s);
    DaySplit(n, s);
    assert w / 86400 == n && w % 86400 == s;
    assert DateOf(n) == (dt.year, dt.month, dt.day);
  }
}
