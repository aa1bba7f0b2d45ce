/**
  The parts of JavaScript's `Date` that the core relies on, for a host
  whose local time zone is UTC: time values (milliseconds since the epoch,
  or NaN for an "Invalid Date"), the multi-argument constructor,
  `getFullYear`, `getMonth`, `getTime` and `toISOString().slice(0, 10)`.
  Section numbers refer to ECMA-262 (ECMAScript 2024).
*/
module JsDate {
  import opened Civil
  import opened Text

  /** The largest magnitude of a time value (section 21.4.1.1): 10^8 days. */
  const MaxTime: int := 8_640_000_000_000_000

  /** An integral JavaScript number or NaN. */
  datatype Num = Finite(value: int) | NaN

  predicate IsValidTime(ms: int) {
    -MaxTime <= ms <= MaxTime
  }

  /** TimeClip (section 21.4.1.31): out-of-range instants become NaN. */
  function TimeClip(t: int): (r: Num)
    ensures r.Finite? <==> IsValidTime(t)
    ensures r.Finite? ==> r.value == t
  {
    if IsValidTime(t) then Finite(t) else NaN
  }

  /** The UTC calendar date of an instant: floor division by the 86 400 000 ms of a day gives the day number. */
  function DateOf(ms: int): Date {
    CivilFromDays(ms / 86_400_000)
  }

  /** MakeFullYear (section 21.4.2.1): a year from 0 to 99 means 1900 to 1999. */
  function ConstructorYear(y: int): int {
    if 0 <= y <= 99 then 1900 + y else y
  }

  /** The first day of month `month0` (0-based, any integer) of `year`, after MakeDay's overflow normalisation. */
  function MonthStart(year: int, month0: int): (d: Date)
    ensures ValidDate(d) && d.day == 1
  {
    Date(year + month0 / 12, month0 % 12 + 1, 1)
  }

  /** `new Date(y, m0, d, 0, 0, 0, 0)` (section 21.4.2.1), local time taken as UTC. */
  function NewDate(y: Num, m0: Num, d: int): Num {
    if y.NaN? || m0.NaN? then NaN
    else TimeClip((DaysFromCivil(MonthStart(ConstructorYear(y.value), m0.value)) + d - 1) * 86_400_000)
  }

  function GetFullYear(t: Num): Num {
    if t.NaN? then NaN else Finite(DateOf(t.value).year)
  }

  /** The 0-based month. */
  function GetMonth(t: Num): Num {
    if t.NaN? then NaN else Finite(DateOf(t.value).month - 1)
  }

  function Plus(a: Num, k: int): Num {
    if a.NaN? then NaN else Finite(a.value + k)
  }

  /** `Math.floor(t.getTime() / 1000)`. */
  function UnixSeconds(t: Num): Num {
    if t.NaN? then NaN else Finite(t.value / 1000)
  }

  function Abs(x: int): nat {
    if x < 0 then -x else x
  }

  /** True when toISOString writes the year with four digits (section 21.4.1.32). */
  predicate FourDigitYear(d: Date) {
    0 <= d.year <= 9999
  }

  /**
    `new Date(ms).toISOString().slice(0, 10)` for a valid time value ms:
    `YYYY-MM-DD` of the UTC day, or, for a year outside 0..9999, which
    toISOString writes as a sign and six digits (section 21.4.1.32.2),
    `±YYYYYY-MM`.
  */
  function IsoDayKey(ms: int): string {
    var d := DateOf(ms);
    if FourDigitYear(d) then Pad(d.year, 4) + "-" + Pad(d.month, 2) + "-" + Pad(d.day, 2)
    else (if d.year < 0 then "-" else "+") + Pad(Abs(d.year), 6) + "-" + Pad(d.month, 2)
  }

  lemma DayOfDateStart(d: Date)
    requires ValidDate(d)
    ensures (DaysFromCivil(d) * 86_400_000) / 86_400_000 == DaysFromCivil(d)
    ensures DateOf(DaysFromCivil(d) * 86_400_000) == d
  {
    CivilRoundTrip(d);
  }

  /** Valid time values lie between -271821-04-20 and 275760-09-13. */
  lemma ValidTimeYears(ms: int)
    requires IsValidTime(ms)
    ensures -271821 <= DateOf(ms).year <= 275760
  {
    var z := ms / 86_400_000;
    assert -100_000_000 <= z <= 100_000_000;
    var y := DateOf(ms).year;
    assert DaysBeforeYear(y) <= z < DaysBeforeYear(y + 1);
    assert DaysBeforeYear(275761) > 100_000_000;
    assert DaysBeforeYear(-271821) < -100_000_000;
    if y > 275760 {
      DaysBeforeYearGrows(275761, y);
      assert false;
    }
    if y < -271821 {
      DaysBeforeYearGrows(y + 1, -271821);
      assert false;
    }
  }

  lemma Pow10Values()
    ensures Pow10(2) == 100 && Pow10(4) == 10_000 && Pow10(6) == 1_000_000
  {
  }

  /** The key of a four-digit year reads back as the UTC date: Y, M and D parse to year, month and day. */
  lemma IsoDayKeyParses(ms: int)
    requires FourDigitYear(DateOf(ms))
    ensures var k := IsoDayKey(ms); var d := DateOf(ms);
      |k| == 10 && k[4] == '-' && k[7] == '-'
      && (forall i :: 0 <= i < 10 && i != 4 && i != 7 ==> IsDigit(k[i]))
      && ParseDecimal(k[..4]) == d.year
      && ParseDecimal(k[5..7]) == d.month
      && ParseDecimal(k[8..]) == d.day
  {
    var d := DateOf(ms);
    Pow10Values();
    var year, month, day := Pad(d.year, 4), Pad(d.month, 2), Pad(d.day, 2);
    PadLength(d.year, 4);
    PadLength(d.month, 2);
    PadLength(d.day, 2);
    PadRoundTrip(d.year, 4);
    PadRoundTrip(d.month, 2);
    PadRoundTrip(d.day, 2);
    assert IsoDayKey(ms) == year + "-" + month + "-" + day;
    DashedFields(year, month, day);
  }

  /** The fields of `a-b-c` for fields of widths 4, 2 and 2 sit at fixed offsets. */
  lemma DashedFields(a: string, b: string, c: string)
    requires |a| == 4 && |b| == 2 && |c| == 2
    ensures var k := a + "-" + b + "-" + c;
      |k| == 10 && k[4] == '-' && k[7] == '-' && k[..4] == a && k[5..7] == b && k[8..] == c
      && (forall i :: 0 <= i < 4 ==> k[i] == a[i])
      && (forall i :: 0 <= i < 2 ==> k[5 + i] == b[i] && k[8 + i] == c[i])
  {
  }

  /** The key of a year outside 0..9999 reads back as its sign, its magnitude and the month. */
  lemma ExpandedKeyParses(ms: int)
    requires IsValidTime(ms) && !FourDigitYear(DateOf(ms))
    ensures var k := IsoDayKey(ms); var d := DateOf(ms);
      |k| == 10 && (k[0] == '-' <==> d.year < 0) && (k[0] == '+' <==> d.year >= 0)
      && (forall i :: 1 <= i < 10 && i != 7 ==> IsDigit(k[i]))
      && ParseDecimal(k[1..7]) == Abs(d.year)
      && ParseDecimal(k[8..]) == d.month
  {
    var d := DateOf(ms);
    ValidTimeYears(ms);
    Pow10Values();
    var sign: string := if d.year < 0 then "-" else "+";
    var year, month := Pad(Abs(d.year), 6), Pad(d.month, 2);
    PadLength(Abs(d.year), 6);
    PadLength(d.month, 2);
    PadRoundTrip(Abs(d.year), 6);
    PadRoundTrip(d.month, 2);
    assert IsoDayKey(ms) == sign + year + "-" + month;
    SignedFields(sign, year, month);
  }

  /** The fields of `s y-m` for a one-character sign and fields of widths 6 and 2 sit at fixed offsets. */
  lemma SignedFields(sign: string, a: string, b: string)
    requires |sign| == 1 && |a| == 6 && |b| == 2
    ensures var k := sign + a + "-" + b;
      |k| == 10 && k[0] == sign[0] && k[7] == '-' && k[1..7] == a && k[8..] == b
      && (forall i :: 0 <= i < 6 ==> k[1 + i] == a[i])
      && (forall i :: 0 <= i < 2 ==> k[8 + i] == b[i])
  {
  }

  /** The key starts with a digit exactly when the year has four digits. */
  lemma IsoDayKeyKind(ms: int)
    ensures |IsoDayKey(ms)| > 0 && (IsDigit(IsoDayKey(ms)[0]) <==> FourDigitYear(DateOf(ms)))
  {
    var d := DateOf(ms);
    if FourDigitYear(d) {
      var p := Pad(d.year, 4);
      assert |p| > 0;
      assert IsoDayKey(ms)[0] == p[0];
    }
  }

  /** What a key determines: the year and month always, the day when the year has four digits. */
  lemma IsoDayKeyInjective(a: int, b: int)
    requires IsValidTime(a) && IsValidTime(b) && IsoDayKey(a) == IsoDayKey(b)
    ensures var da, db := DateOf(a), DateOf(b);
      da.year == db.year && da.month == db.month && (FourDigitYear(da) ==> da.day == db.day)
  {
    var da, db := DateOf(a), DateOf(b);
    IsoDayKeyKind(a);
    IsoDayKeyKind(b);
    if FourDigitYear(da) {
      IsoDayKeyParses(a);
      IsoDayKeyParses(b);
    } else {
      ExpandedKeyParses(a);
      ExpandedKeyParses(b);
    }
  }

  lemma DayMonotone(a: int, b: int)
    requires a <= b
    ensures a / 86_400_000 <= b / 86_400_000
  {
  }

  lemma SameDateSameKey(a: int, b: int)
    requires DateOf(a) == DateOf(b)
    ensures IsoDayKey(a) == IsoDayKey(b)
  {
  }

  /** Outside four-digit years the key depends on the year and the month only. */
  lemma ExpandedKeySameMonth(a: int, b: int)
    requires !FourDigitYear(DateOf(a))
    requires DateOf(a).year == DateOf(b).year && DateOf(a).month == DateOf(b).month
    ensures IsoDayKey(a) == IsoDayKey(b)
  {
  }

  /** A date lying between two dates of the same month is in that month. */
  lemma SameMonthBetween(da: Date, db: Date, dc: Date)
    requires ValidDate(da) && ValidDate(db) && ValidDate(dc)
    requires da.year == dc.year && da.month == dc.month
    requires DaysFromCivil(da) <= DaysFromCivil(db) <= DaysFromCivil(dc)
    ensures db.year == da.year && db.month == da.month
  {
    if db.year < da.year || (db.year == da.year && db.month < da.month) {
      DaysFromCivilIncreasing(db, da);
    } else if db.year > dc.year || (db.year == dc.year && db.month > dc.month) {
      DaysFromCivilIncreasing(dc, db);
    }
  }

  /**
    Instants between two instants with the same key have that key too: the
    key cuts time into consecutive intervals (days, or months for years that
    are not written with four digits).
  */
  lemma IsoDayKeyConvex(a: int, b: int, c: int)
    requires IsValidTime(a) && IsValidTime(c) && a <= b <= c
    requires IsoDayKey(a) == IsoDayKey(c)
    ensures IsoDayKey(b) == IsoDayKey(a)
  {
    DayMonotone(a, b);
    DayMonotone(b, c);
    var da, db, dc := DateOf(a), DateOf(b), DateOf(c);
    IsoDayKeyInjective(a, c);
    assert DaysFromCivil(da) == a / 86_400_000 && DaysFromCivil(db) == b / 86_400_000;
    assert DaysFromCivil(dc) == c / 86_400_000;
    if FourDigitYear(da) {
      assert da == dc;
      assert b / 86_400_000 == a / 86_400_000;
      SameDateSameKey(a, b);
    } else {
      SameMonthBetween(da, db, dc);
      ExpandedKeySameMonth(a, b);
    }
  }
}
