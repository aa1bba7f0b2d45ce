/**
  The "next calendar month" release window: `getDateRangeUnixForNextMonth`
  in server.js and `getDateRangeUnix` in next-month.js compute the same two
  Dates and the same two second counts; only the server version also
  returns the Dates. Both ask the catalog for releases with
  `fromUnix <= first_release_date < toUnix`.
*/
module ReleaseWindow {
  import opened Civil
  import opened JsDate

  /** The values server.js returns; next-month.js returns only fromUnix and toUnix. */
  datatype Range = Range(fromUnix: Num, toUnix: Num, startOfNextMonth: Num, startOfFollowingMonth: Num)

  /** The window computed when the clock reads the (valid) time value `now`. */
  function NextMonthRange(now: int): Range
    requires IsValidTime(now)
  {
    var clock := Finite(now);
    var start := NewDate(GetFullYear(clock), Plus(GetMonth(clock), 1), 1);
    var following := NewDate(GetFullYear(start), Plus(GetMonth(start), 1), 1);
    Range(UnixSeconds(start), UnixSeconds(following), start, following)
  }

  /** Day 1 of the month after the month of d; December rolls over to January. */
  function FirstOfNextMonth(d: Date): (r: Date)
    requires 1 <= d.month <= 12
    ensures ValidDate(r) && r.day == 1
  {
    if d.month == 12 then Date(d.year + 1, 1, 1) else Date(d.year, d.month + 1, 1)
  }

  /**
    The date that `new Date(d.year, (d.month - 1) + 1, 1)` denotes: day 1 of
    the next month, after the constructor's two-digit-year rule.
  */
  function ConstructedNextMonth(d: Date): (r: Date)
    requires 1 <= d.month <= 12
    ensures ValidDate(r) && r.day == 1
  {
    FirstOfNextMonth(Date(ConstructorYear(d.year), d.month, 1))
  }

  /** The time value of 00:00:00 UTC on d. */
  function Midnight(d: Date): Num
    requires 1 <= d.month <= 12
  {
    TimeClip(DaysFromCivil(d) * 86_400_000)
  }

  /** For m = getMonth() + 1 (1..12), `new Date(y, m, 1)` is midnight of day 1 of the month after the 1-based month m of year y. */
  lemma NewDateOfNextMonth(y: int, m: int)
    requires 1 <= m <= 12
    ensures NewDate(Finite(y), Finite(m), 1) == Midnight(FirstOfNextMonth(Date(ConstructorYear(y), m, 1)))
  {
    var year := ConstructorYear(y);
    var next := FirstOfNextMonth(Date(year, m, 1));
    if m == 12 {
      assert MonthStart(year, m) == Date(year + 1, 1, 1);
    } else {
      assert MonthStart(year, m) == Date(year, m + 1, 1);
    }
    assert MonthStart(year, m) == next;
  }

  lemma ReadBack(d: Date)
    requires ValidDate(d) && Midnight(d).Finite?
    ensures GetFullYear(Midnight(d)) == Finite(d.year)
    ensures GetMonth(Midnight(d)) == Finite(d.month - 1)
  {
    DayOfDateStart(d);
  }

  /**
    The window for any clock reading: it starts on day 1 of the month after
    the current month, and ends on day 1 of the month after that, where each
    `new Date` call applies its two-digit-year rule to the year it is given.
  */
  lemma {:induction false} WindowBounds(now: int)
    requires IsValidTime(now)
    ensures var r := NextMonthRange(now);
      var s := ConstructedNextMonth(DateOf(now));
      r.startOfNextMonth == Midnight(s)
      && (r.startOfNextMonth.Finite? ==> r.startOfFollowingMonth == Midnight(ConstructedNextMonth(s)))
      && (r.startOfNextMonth.NaN? ==> r.startOfFollowingMonth.NaN?)
  {
    var d := DateOf(now);
    var clock := Finite(now);
    assert GetFullYear(clock) == Finite(d.year);
    assert Plus(GetMonth(clock), 1) == Finite(d.month);
    NewDateOfNextMonth(d.year, d.month);
    var s := ConstructedNextMonth(d);
    var start := NewDate(Finite(d.year), Finite(d.month), 1);
    assert start == Midnight(s);
    if start.Finite? {
      ReadBack(s);
      NewDateOfNextMonth(s.year, s.month);
      assert NewDate(GetFullYear(start), Plus(GetMonth(start), 1), 1) == Midnight(ConstructedNextMonth(s));
    }
  }

  /**
    For every clock reading outside the years -1..99 (where the Date
    constructor's two-digit-year rule plays no part) the window is exactly
    the next calendar month: from day 1 of month M + 1 to day 1 of month
    M + 2, with December rolling over into the next year.
  */
  lemma NextCalendarMonth(now: int)
    requires IsValidTime(now)
    requires DateOf(now).year >= 100 || DateOf(now).year < -1
    ensures var r := NextMonthRange(now); var s := FirstOfNextMonth(DateOf(now));
      r.startOfNextMonth == Midnight(s)
      && (r.startOfNextMonth.Finite? ==> r.startOfFollowingMonth == Midnight(FirstOfNextMonth(s)))
  {
    WindowBounds(now);
    var d := DateOf(now);
    assert ConstructorYear(d.year) == d.year;
    var s := FirstOfNextMonth(d);
    assert ConstructedNextMonth(d) == s;
    assert ConstructorYear(s.year) == s.year;
    assert ConstructedNextMonth(s) == FirstOfNextMonth(s);
  }

  /** In December of year y the window is January 1 to February 1 of year y + 1. */
  lemma DecemberRollsOver(now: int)
    requires IsValidTime(now) && DateOf(now).month == 12
    requires DateOf(now).year >= 100 || DateOf(now).year < -1
    ensures var r := NextMonthRange(now); var y := DateOf(now).year;
      r.startOfNextMonth == Midnight(Date(y + 1, 1, 1))
      && (r.startOfNextMonth.Finite? ==> r.startOfFollowingMonth == Midnight(Date(y + 1, 2, 1)))
  {
    var r := NextMonthRange(now);
    var d := DateOf(now);
    NextCalendarMonth(now);
    DecemberSuccessors(d);
    var s := FirstOfNextMonth(d);
    assert s == Date(d.year + 1, 1, 1);
    assert r.startOfNextMonth == Midnight(s);
    if r.startOfNextMonth.Finite? {
      assert FirstOfNextMonth(s) == Date(d.year + 1, 2, 1);
      assert r.startOfFollowingMonth == Midnight(FirstOfNextMonth(s));
    }
  }

  lemma DecemberSuccessors(d: Date)
    requires d.month == 12
    ensures FirstOfNextMonth(d) == Date(d.year + 1, 1, 1)
    ensures FirstOfNextMonth(FirstOfNextMonth(d)) == Date(d.year + 1, 2, 1)
  {
  }

  /**
    The two numbers the function returns, in closed form: fromUnix is the
    day number of the first day of the next month times 86400, and toUnix
    that of the first day of the month after it; an Invalid Date start
    makes both NaN.
  */
  lemma WindowSeconds(now: int)
    requires IsValidTime(now)
    ensures var r := NextMonthRange(now);
      var s := ConstructedNextMonth(DateOf(now)); var f := ConstructedNextMonth(s);
      (r.fromUnix.Finite? <==> Midnight(s).Finite?)
      && (r.fromUnix.Finite? ==> r.fromUnix == Finite(DaysFromCivil(s) * 86400))
      && (r.fromUnix.NaN? ==> r.toUnix.NaN?)
      && (r.fromUnix.Finite? ==> (r.toUnix.Finite? <==> Midnight(f).Finite?))
      && (r.toUnix.Finite? ==> r.toUnix == Finite(DaysFromCivil(f) * 86400))
  {
    WindowBounds(now);
    var r := NextMonthRange(now);
    var s := ConstructedNextMonth(DateOf(now));
    if Midnight(s).Finite? {
      MidnightSeconds(s);
      var f := ConstructedNextMonth(s);
      if Midnight(f).Finite? {
        MidnightSeconds(f);
      }
    }
  }

  /** The Unix time of a midnight is a whole number of days of 86400 seconds. */
  lemma MidnightSeconds(d: Date)
    requires 1 <= d.month <= 12 && Midnight(d).Finite?
    ensures UnixSeconds(Midnight(d)) == Finite(DaysFromCivil(d) * 86400)
    ensures DaysFromCivil(d) * 86400 * 1000 == Midnight(d).value
    ensures (DaysFromCivil(d) * 86400) % 86400 == 0
  {
    var z := DaysFromCivil(d);
    assert Midnight(d).value == z * 86_400_000;
    assert (z * 86_400_000) / 1000 == z * 86400;
  }

  /** The month a `new Date` call lands on lies after the date it started from. */
  lemma ConstructedLater(d: Date)
    requires 1 <= d.month <= 12
    ensures Before(d, ConstructedNextMonth(d))
  {
  }

  /** Two finite midnights, the first on the earlier date, are whole days of seconds apart in order. */
  lemma MidnightsOrdered(s: Date, f: Date)
    requires ValidDate(s) && ValidDate(f) && Before(s, f)
    requires Midnight(s).Finite? && Midnight(f).Finite?
    ensures UnixSeconds(Midnight(s)).value < UnixSeconds(Midnight(f)).value
    ensures UnixSeconds(Midnight(s)).value * 1000 == Midnight(s).value
    ensures UnixSeconds(Midnight(f)).value * 1000 == Midnight(f).value
    ensures UnixSeconds(Midnight(s)).value % 86400 == 0 && UnixSeconds(Midnight(f)).value % 86400 == 0
  {
    MidnightSeconds(s);
    MidnightSeconds(f);
    DaysFromCivilIncreasing(s, f);
  }

  /**
    The window is a non-empty half-open interval of whole seconds: both
    bounds are exact (the instants are whole days) and fromUnix < toUnix.
  */
  lemma WindowOrdered(now: int)
    requires IsValidTime(now)
    ensures var r := NextMonthRange(now);
      r.fromUnix.Finite? && r.toUnix.Finite? ==>
        r.fromUnix.value < r.toUnix.value
        && r.fromUnix.value * 1000 == r.startOfNextMonth.value
        && r.toUnix.value * 1000 == r.startOfFollowingMonth.value
        && r.fromUnix.value % 86400 == 0 && r.toUnix.value % 86400 == 0
  {
    WindowBounds(now);
    WindowSeconds(now);
    var r := NextMonthRange(now);
    if r.fromUnix.Finite? && r.toUnix.Finite? {
      var s := ConstructedNextMonth(DateOf(now));
      ConstructedLater(s);
      MidnightsOrdered(s, ConstructedNextMonth(s));
    }
  }

  lemma MidnightFinite(d: Date)
    requires 1 <= d.month <= 12 && -100_000_000 <= DaysFromCivil(d) <= 100_000_000
    ensures Midnight(d).Finite?
  {
  }

  /** The day number of a valid time value is within 10^8 days of the epoch. */
  lemma DayOfValidTime(now: int)
    requires IsValidTime(now)
    ensures -100_000_000 <= DaysFromCivil(DateOf(now)) <= 100_000_000
  {
    assert DaysFromCivil(DateOf(now)) == now / 86_400_000;
    assert now / 86_400_000 >= -100_000_000 && now / 86_400_000 <= 100_000_000;
  }

  /** From a date up to year 275759, the next two months start no later than 275760-02-01. */
  lemma SuccessorsBounded(d: Date)
    requires ValidDate(d) && d.year <= 275759
    ensures var s := ConstructedNextMonth(d); var f := ConstructedNextMonth(s);
      DaysFromCivil(d) < DaysFromCivil(s) < DaysFromCivil(f) <= DaysFromCivil(Date(275760, 2, 1))
  {
    var s := ConstructedNextMonth(d);
    var f := ConstructedNextMonth(s);
    var last := Date(275760, 2, 1);
    ConstructedLater(d);
    ConstructedLater(s);
    DaysFromCivilIncreasing(d, s);
    DaysFromCivilIncreasing(s, f);
    assert f == last || Before(f, last);
    if f != last {
      DaysFromCivilIncreasing(f, last);
    }
  }

  lemma LastWindowDay()
    ensures DaysFromCivil(Date(275760, 2, 1)) <= 100_000_000
  {
  }

  /** Both window dates of a clock reading up to year 275759 are within JavaScript time. */
  lemma WindowDatesInRange(now: int)
    requires IsValidTime(now) && DateOf(now).year <= 275759
    ensures var s := ConstructedNextMonth(DateOf(now));
      -100_000_000 <= DaysFromCivil(s) < DaysFromCivil(ConstructedNextMonth(s)) <= 100_000_000
  {
    DayOfValidTime(now);
    SuccessorsBounded(DateOf(now));
    LastWindowDay();
  }

  /**
    From any clock reading up to the end of year 275759 both bounds are
    numbers; later readings run into the end of JavaScript time
    (275760-09-13) and give NaN.
  */
  lemma WindowFinite(now: int)
    requires IsValidTime(now) && DateOf(now).year <= 275759
    ensures NextMonthRange(now).fromUnix.Finite? && NextMonthRange(now).toUnix.Finite?
  {
    WindowBounds(now);
    WindowSeconds(now);
    WindowDatesInRange(now);
    var s := ConstructedNextMonth(DateOf(now));
    MidnightFinite(s);
    MidnightFinite(ConstructedNextMonth(s));
  }
}
