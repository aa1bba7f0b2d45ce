/**
  Proleptic Gregorian calendar arithmetic on unbounded integers. Days are
  counted from 1970-01-01 (day 0), the epoch of JavaScript time values.
*/
module Civil {
  /** A calendar date; `month` runs from 1 to 12. */
  datatype Date = Date(year: int, month: int, day: int)

  predicate IsLeapYear(y: int) {
    y % 4 == 0 && (y % 100 != 0 || y % 400 == 0)
  }

  function DaysInYear(y: int): int {
    if IsLeapYear(y) then 366 else 365
  }

  function DaysInMonth(y: int, m: int): int
    requires 1 <= m <= 12
  {
    if m == 2 then (if IsLeapYear(y) then 29 else 28)
    else if m == 4 || m == 6 || m == 9 || m == 11 then 30
    else 31
  }

  predicate ValidDate(d: Date) {
    1 <= d.month <= 12 && 1 <= d.day <= DaysInMonth(d.year, d.month)
  }

  /** Number of leap years in [1, y); negative for y < 1. */
  function LeapYearsBefore(y: int): int {
    (y - 1) / 4 - (y - 1) / 100 + (y - 1) / 400
  }

  /** Number of days from 1970-01-01 to y-01-01 (negative before 1970). */
  function DaysBeforeYear(y: int): int {
    365 * (y - 1970) + LeapYearsBefore(y) - LeapYearsBefore(1970)
  }

  /** Number of days from y-01-01 to the first day of month m of year y. */
  function DaysBeforeMonth(y: int, m: int): int
    requires 1 <= m <= 12
  {
    var common :=
      if m == 1 then 0 else if m == 2 then 31 else if m == 3 then 59
      else if m == 4 then 90 else if m == 5 then 120 else if m == 6 then 151
      else if m == 7 then 181 else if m == 8 then 212 else if m == 9 then 243
      else if m == 10 then 273 else if m == 11 then 304 else 334;
    if m > 2 && IsLeapYear(y) then common + 1 else common
  }

  /** Days since 1970-01-01 of a date whose month is in range. */
  function DaysFromCivil(d: Date): int
    requires 1 <= d.month <= 12
  {
    DaysBeforeYear(d.year) + DaysBeforeMonth(d.year, d.month) + d.day - 1
  }

  /** Floor division by 4, 100 and 400 steps up by one exactly at the multiples. */
  lemma DivSteps(x: int)
    ensures (x + 1) / 4 == x / 4 + (if (x + 1) % 4 == 0 then 1 else 0)
    ensures (x + 1) / 100 == x / 100 + (if (x + 1) % 100 == 0 then 1 else 0)
    ensures (x + 1) / 400 == x / 400 + (if (x + 1) % 400 == 0 then 1 else 0)
  {
  }

  /** A multiple of 400 is one of 100, and a multiple of 100 one of 4. */
  lemma DivisorChain(y: int)
    ensures y % 400 == 0 ==> y % 100 == 0
    ensures y % 100 == 0 ==> y % 4 == 0
  {
    if y % 400 == 0 {
      var q := y / 400;
      assert y == 400 * q;
      assert y / 100 == 4 * q;
    }
    if y % 100 == 0 {
      var q := y / 100;
      assert y == 100 * q;
      assert y / 4 == 25 * q;
    }
  }

  lemma YearLength(y: int)
    ensures DaysBeforeYear(y + 1) == DaysBeforeYear(y) + DaysInYear(y)
  {
    DivSteps(y - 1);
    DivisorChain(y);
    var step := (if y % 4 == 0 then 1 else 0) - (if y % 100 == 0 then 1 else 0) + (if y % 400 == 0 then 1 else 0);
    assert LeapYearsBefore(y + 1) == LeapYearsBefore(y) + step;
    assert step == (if IsLeapYear(y) then 1 else 0);
  }

  lemma MonthLength(y: int, m: int)
    requires 1 <= m <= 12
    ensures m < 12 ==> DaysBeforeMonth(y, m + 1) == DaysBeforeMonth(y, m) + DaysInMonth(y, m)
    ensures m == 12 ==> DaysBeforeMonth(y, m) + DaysInMonth(y, m) == DaysInYear(y)
  {
  }

  /** Every 400 years the calendar repeats, after 146097 days. */
  lemma CycleLength(y: int)
    ensures DaysBeforeYear(y + 400) == DaysBeforeYear(y) + 146097
  {
    var x := y - 1;
    assert (x + 400) / 4 == x / 4 + 100;
    assert (x + 400) / 100 == x / 100 + 4;
    assert (x + 400) / 400 == x / 400 + 1;
  }

  lemma CycleStart(q: int)
    ensures DaysBeforeYear(1970 + 400 * q) == 146097 * q
  {
    var x := 1969 + 400 * q;
    assert x / 4 == 492 + 100 * q;
    assert x / 100 == 19 + 4 * q;
    assert x / 400 == 4 + q;
    assert LeapYearsBefore(1970 + 400 * q) == 477 + 97 * q;
  }

  /** Later years start later: at least 365 days per year in between. */
  lemma {:induction false} DaysBeforeYearGrows(a: int, b: int)
    requires a <= b
    ensures DaysBeforeYear(b) - DaysBeforeYear(a) >= 365 * (b - a)
    decreases b - a
  {
    if a < b {
      DaysBeforeYearGrows(a, b - 1);
      YearLength(b - 1);
    }
  }

  /** The year offset k in [0, 400) from `base` whose days contain day z. */
  function FindYear(base: int, z: int, k: int): (y: int)
    requires 0 <= k < 400
    requires DaysBeforeYear(base + k) <= z < DaysBeforeYear(base + 400)
    ensures DaysBeforeYear(y) <= z < DaysBeforeYear(y + 1)
    decreases 400 - k
  {
    if z < DaysBeforeYear(base + k + 1) then base + k else FindYear(base, z, k + 1)
  }

  /** The month of year y containing day-of-year doy, searching from month m on. */
  function FindMonth(y: int, doy: int, m: int): (r: int)
    requires 1 <= m <= 12
    requires DaysBeforeMonth(y, m) <= doy < DaysInYear(y)
    ensures m <= r <= 12
    ensures DaysBeforeMonth(y, r) <= doy < DaysBeforeMonth(y, r) + DaysInMonth(y, r)
    decreases 12 - m
  {
    MonthLength(y, m);
    if doy < DaysBeforeMonth(y, m) + DaysInMonth(y, m) then m else FindMonth(y, doy, m + 1)
  }

  /** The calendar date of day z (days since 1970-01-01): the inverse of DaysFromCivil. */
  function CivilFromDays(z: int): (d: Date)
    ensures ValidDate(d) && DaysFromCivil(d) == z
  {
    var q := z / 146097;
    var base := 1970 + 400 * q;
    CycleStart(q);
    CycleLength(base);
    var y := FindYear(base, z, 0);
    YearLength(y);
    var doy := z - DaysBeforeYear(y);
    var m := FindMonth(y, doy, 1);
    Date(y, m, doy - DaysBeforeMonth(y, m) + 1)
  }

  /** Lexicographic order of dates. */
  predicate Before(a: Date, b: Date) {
    a.year < b.year || (a.year == b.year && (a.month < b.month || (a.month == b.month && a.day < b.day)))
  }

  lemma MonthsAdvance(y: int, m: int, n: int)
    requires 1 <= m < n <= 12
    ensures DaysBeforeMonth(y, m) + DaysInMonth(y, m) <= DaysBeforeMonth(y, n)
  {
  }

  /** DaysFromCivil is strictly increasing on valid dates. */
  lemma DaysFromCivilIncreasing(a: Date, b: Date)
    requires ValidDate(a) && ValidDate(b) && Before(a, b)
    ensures DaysFromCivil(a) < DaysFromCivil(b)
  {
    if a.year < b.year {
      MonthLength(a.year, 12);
      if a.month < 12 {
        MonthsAdvance(a.year, a.month, 12);
      }
      assert DaysBeforeMonth(a.year, a.month) + a.day <= DaysInYear(a.year);
      YearLength(a.year);
      DaysBeforeYearGrows(a.year + 1, b.year);
      assert DaysFromCivil(a) < DaysBeforeYear(a.year + 1);
      assert DaysBeforeYear(b.year) <= DaysFromCivil(b);
    } else if a.month < b.month {
      MonthsAdvance(a.year, a.month, b.month);
    }
  }

  /** Valid dates and day numbers correspond one to one. */
  lemma CivilRoundTrip(d: Date)
    requires ValidDate(d)
    ensures CivilFromDays(DaysFromCivil(d)) == d
  {
    var e := CivilFromDays(DaysFromCivil(d));
    if Before(d, e) {
      DaysFromCivilIncreasing(d, e);
    } else if Before(e, d) {
      DaysFromCivilIncreasing(e, d);
    }
  }
}
