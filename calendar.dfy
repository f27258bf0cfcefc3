/**
 * The local proleptic Gregorian calendar that JavaScript `Date` objects use,
 * written after the ECMAScript definitions (Day, TimeWithinDay, DayFromYear,
 * YearFromTime, MonthFromTime, DateFromTime, WeekDay, MakeTime, MakeDay,
 * MakeDate). A time value is an integer number of milliseconds on the local
 * time scale; day 0 is Thursday 1 January 1970. Months are numbered 0..11 as
 * `getMonth` returns them, dates of the month 1..31 as `getDate` returns them.
 */
module Calendar {

  const MsPerSecond: int := 1000
  const MsPerMinute: int := 60000
  const MsPerHour: int := 3600000
  const MsPerDay: int := 86400000

  /** The day number of a time value (floor division). */
  function Day(t: int): int {
    t / MsPerDay
  }

  function TimeWithinDay(t: int): (r: int)
    ensures 0 <= r < MsPerDay
    ensures t == Day(t) * MsPerDay + r
  {
    t % MsPerDay
  }

  /** Day of the week, Sunday = 0 (as `getDay` returns it). */
  function WeekDay(day: int): (w: int)
    ensures 0 <= w < 7
  {
    (day + 4) % 7
  }

  predicate IsLeapYear(y: int) {
    y % 4 == 0 && (y % 100 != 0 || y % 400 == 0)
  }

  function DaysInYear(y: int): int {
    if IsLeapYear(y) then 366 else 365
  }

  function DaysInMonth(y: int, m: int): (n: int)
    requires 0 <= m < 12
    ensures 28 <= n <= 31
  {
    if m == 1 then (if IsLeapYear(y) then 29 else 28)
    else if m == 3 || m == 5 || m == 8 || m == 10 then 30
    else 31
  }

  /** Days of year `y` that come before month `m`; month 12 stands for the end of the year. */
  function DaysBeforeMonth(y: int, m: int): int
    requires 0 <= m <= 12
  {
    var leap := if IsLeapYear(y) && m >= 2 then 1 else 0;
    [0, 31, 59, 90, 120, 151, 181, 212, 243, 273, 304, 334, 365][m] + leap
  }

  lemma DaysBeforeMonthStep(y: int, m: int)
    requires 0 <= m < 12
    ensures DaysBeforeMonth(y, m + 1) == DaysBeforeMonth(y, m) + DaysInMonth(y, m)
    ensures DaysBeforeMonth(y, 0) == 0 && DaysBeforeMonth(y, 12) == DaysInYear(y)
  {
  }

  lemma DaysBeforeMonthMonotone(y: int, m: int, n: int)
    requires 0 <= m <= n <= 12
    ensures DaysBeforeMonth(y, m) <= DaysBeforeMonth(y, n)
  {
  }

  /** Day number of 1 January of year `y` (ECMAScript DayFromYear). */
  function DayFromYear(y: int): int {
    365 * (y - 1970) + (y - 1969) / 4 - (y - 1901) / 100 + (y - 1601) / 400
  }

  /** Floor division by 4, 100 or 400 steps up by one exactly when the numerator reaches a multiple. */
  lemma FloorDivStep(x: int, c: int)
    requires c == 4 || c == 100 || c == 400
    ensures (x + 1) / c - x / c == (if (x + 1) % c == 0 then 1 else 0)
  {
    if c == 4 {
      var q, r := x / 4, x % 4;
      assert x == 4 * q + r;
    } else if c == 100 {
      var q, r := x / 100, x % 100;
      assert x == 100 * q + r;
    } else {
      var q, r := x / 400, x % 400;
      assert x == 400 * q + r;
    }
  }

  lemma DayFromYearStep(y: int)
    ensures DayFromYear(y + 1) == DayFromYear(y) + DaysInYear(y)
  {
    FloorDivStep(y - 1969, 4);
    FloorDivStep(y - 1901, 100);
    FloorDivStep(y - 1601, 400);
    assert (y - 1968) % 4 == 0 <==> y % 4 == 0;
    assert (y - 1900) % 100 == 0 <==> y % 100 == 0;
    assert (y - 1600) % 400 == 0 <==> y % 400 == 0;
  }

  lemma {:induction false} DayFromYearMonotone(a: int, b: int)
    requires a < b
    ensures DayFromYear(a + 1) <= DayFromYear(b)
    decreases b - a
  {
    DayFromYearStep(b - 1);
    if a + 1 < b {
      DayFromYearMonotone(a, b - 1);
    }
  }

  /**
   * The year containing `day`, searched from year `y` (ECMAScript YearFromTime:
   * the year whose first day is the last one not after `day`).
   */
  function YearFrom(day: int, y: int): (r: int)
    ensures DayFromYear(r) <= day < DayFromYear(r + 1)
    decreases (if day < DayFromYear(y) then 1 else 0),
              (if day < DayFromYear(y) then DayFromYear(y) - day else day - DayFromYear(y))
  {
    DayFromYearStep(y - 1);
    DayFromYearStep(y);
    if day < DayFromYear(y) then YearFrom(day, y - 1)
    else if day >= DayFromYear(y + 1) then YearFrom(day, y + 1)
    else y
  }

  function YearOf(day: int): int {
    YearFrom(day, 1970)
  }

  function DayWithinYear(day: int): (r: int)
    ensures 0 <= r < DaysInYear(YearOf(day))
  {
    DayFromYearStep(YearOf(day));
    day - DayFromYear(YearOf(day))
  }

  /** The month containing day `doy` of year `y`, searched upwards from month `m`. */
  function MonthFrom(y: int, doy: int, m: int): (r: int)
    requires 0 <= m < 12 && DaysBeforeMonth(y, m) <= doy < DaysInYear(y)
    ensures m <= r < 12
    ensures DaysBeforeMonth(y, r) <= doy < DaysBeforeMonth(y, r + 1)
    decreases 12 - m
  {
    DaysBeforeMonthStep(y, m);
    if doy < DaysBeforeMonth(y, m + 1) then m else MonthFrom(y, doy, m + 1)
  }

  /** `getMonth`: 0 for January up to 11 for December. */
  function MonthOf(day: int): (m: int)
    ensures 0 <= m < 12
  {
    MonthFrom(YearOf(day), DayWithinYear(day), 0)
  }

  /** `getDate`: the day of the month, from 1. */
  function DateOf(day: int): int {
    DayWithinYear(day) - DaysBeforeMonth(YearOf(day), MonthOf(day)) + 1
  }

  /** Years 0 to 99, which the `Date` constructor reads as 1900 to 1999. */
  predicate TwoDigitYear(year: int) {
    0 <= year <= 99
  }

  /** MakeFullYear: the year `new Date(year, month, ...)` builds its date in. */
  function MakeFullYear(year: int): int {
    if TwoDigitYear(year) then 1900 + year else year
  }

  /** ECMAScript MakeDay: month overflow rolls into the year (floor division and modulo). */
  function MakeDay(year: int, month: int, date: int): int {
    var y := year + month / 12;
    var m := month % 12;
    DayFromYear(y) + DaysBeforeMonth(y, m) + date - 1
  }

  function MakeTime(hour: int, min: int, sec: int, ms: int): int {
    hour * MsPerHour + min * MsPerMinute + sec * MsPerSecond + ms
  }

  function MakeDate(day: int, time: int): int {
    day * MsPerDay + time
  }

  /** The time value after `setHours(hour, min, sec, ms)` on local time `t`. */
  function SetHoursTime(t: int, hour: int, min: int, sec: int, ms: int): int {
    MakeDate(Day(t), MakeTime(hour, min, sec, ms))
  }

  /** The time value after `setDate(date)` on local time `t`. */
  function SetDateTime(t: int, date: int): int {
    MakeDate(MakeDay(YearOf(Day(t)), MonthOf(Day(t)), date), TimeWithinDay(t))
  }

  /** Year, month and date of a day give the day back, and are in range. */
  lemma CivilRoundTrip(day: int)
    ensures 1 <= DateOf(day) <= DaysInMonth(YearOf(day), MonthOf(day))
    ensures MakeDay(YearOf(day), MonthOf(day), DateOf(day)) == day
  {
    var y, m := YearOf(day), MonthOf(day);
    DaysBeforeMonthStep(y, m);
    MakeDayInRange(y, m, DateOf(day));
  }

  /** `getFullYear` is determined by the first days of consecutive years. */
  lemma YearOfUnique(day: int, y: int)
    requires DayFromYear(y) <= day < DayFromYear(y + 1)
    ensures YearOf(day) == y
  {
    var r := YearOf(day);
    if r < y {
      DayFromYearMonotone(r, y);
    } else if y < r {
      DayFromYearMonotone(y, r);
    }
  }

  /** `getMonth` is determined by the month boundaries of the year. */
  lemma MonthOfUnique(day: int, m: int)
    requires 0 <= m < 12
    requires DaysBeforeMonth(YearOf(day), m) <= DayWithinYear(day) < DaysBeforeMonth(YearOf(day), m + 1)
    ensures MonthOf(day) == m
  {
    var y, r := YearOf(day), MonthOf(day);
    if r < m {
      DaysBeforeMonthMonotone(y, r + 1, m);
    } else if m < r {
      DaysBeforeMonthMonotone(y, m + 1, r);
    }
  }

  /** Within the year's months MakeDay does not roll over. */
  lemma MakeDayInRange(y: int, m: int, d: int)
    requires 0 <= m < 12
    ensures MakeDay(y, m, d) == DayFromYear(y) + DaysBeforeMonth(y, m) + d - 1
  {
    assert m / 12 == 0 && m % 12 == m;
  }

  /** The converse round trip: a valid year, month and date come back from their day number. */
  lemma FieldsOfMakeDay(y: int, m: int, d: int)
    requires 0 <= m < 12 && 1 <= d <= DaysInMonth(y, m)
    ensures YearOf(MakeDay(y, m, d)) == y
    ensures MonthOf(MakeDay(y, m, d)) == m
    ensures DateOf(MakeDay(y, m, d)) == d
  {
    var day := MakeDay(y, m, d);
    MakeDayInRange(y, m, d);
    DaysBeforeMonthStep(y, m);
    DaysBeforeMonthMonotone(y, m + 1, 12);
    DayFromYearStep(y);
    YearOfUnique(day, y);
    assert DayWithinYear(day) == DaysBeforeMonth(y, m) + d - 1;
    MonthOfUnique(day, m);
  }

  /** The first day of the month after month `m` of year `y` is that month's length later. */
  lemma NextMonthStart(y: int, m: int)
    requires 0 <= m < 12
    ensures MakeDay(y, m + 1, 1) == MakeDay(y, m, 1) + DaysInMonth(y, m)
  {
    MakeDayInRange(y, m, 1);
    DaysBeforeMonthStep(y, m);
    if m < 11 {
      MakeDayInRange(y, m + 1, 1);
    } else {
      assert MakeDay(y, m + 1, 1) == DayFromYear(y + 1) + DaysBeforeMonth(y + 1, 0);
      DayFromYearStep(y);
    }
  }

  /**
   * `d.setDate(date)` moves a local time by as many whole days as `date`
   * differs from `d.getDate()`, keeping the time of day, across month and
   * year ends.
   */
  lemma SetDateShift(t: int, date: int)
    ensures SetDateTime(t, date) == t + (date - DateOf(Day(t))) * MsPerDay
  {
    var day := Day(t);
    var k := date - DateOf(day);
    CivilRoundTrip(day);
    MakeDayInRange(YearOf(day), MonthOf(day), date);
    MakeDayInRange(YearOf(day), MonthOf(day), DateOf(day));
    assert MakeDay(YearOf(day), MonthOf(day), date) == day + k;
    assert (day + k) * MsPerDay == day * MsPerDay + k * MsPerDay;
  }

  /** `setHours(h, m, s, ms)` keeps the day and sets the time within it. */
  lemma SetHoursKeepsDay(t: int, hour: int, min: int, sec: int, ms: int)
    requires 0 <= MakeTime(hour, min, sec, ms) < MsPerDay
    ensures Day(SetHoursTime(t, hour, min, sec, ms)) == Day(t)
    ensures TimeWithinDay(SetHoursTime(t, hour, min, sec, ms)) == MakeTime(hour, min, sec, ms)
  {
    var u := SetHoursTime(t, hour, min, sec, ms);
    DayOfMidnightPlus(Day(t), MakeTime(hour, min, sec, ms));
  }

  /** A time `r` into day `day` lies on that day. */
  lemma DayOfMidnightPlus(day: int, r: int)
    requires 0 <= r < MsPerDay
    ensures Day(day * MsPerDay + r) == day
    ensures TimeWithinDay(day * MsPerDay + r) == r
  {
  }

  /** `setHours(0, 0, 0, 0)` on `t` gives the midnight that starts `t`'s day. */
  lemma MidnightOf(t: int, u: int)
    requires u == Day(t) * MsPerDay + MakeTime(0, 0, 0, 0)
    ensures Day(u) == Day(t) && TimeWithinDay(u) == 0
  {
    DayOfMidnightPlus(Day(t), 0);
  }

  /** A time lies in days `lo` up to, not including, `hi` exactly when it is in their half-open window. */
  lemma DaysWindowExact(t: int, lo: int, hi: int)
    ensures lo * MsPerDay <= t < hi * MsPerDay <==> lo <= Day(t) < hi
  {
    var q := Day(t);
    assert t == q * MsPerDay + TimeWithinDay(t);
    if q < lo {
      assert (q + 1) * MsPerDay <= lo * MsPerDay;
    }
    if q >= hi {
      assert hi * MsPerDay <= q * MsPerDay;
    }
  }

  /** The month window of day `a` runs from its first day for that month's length, and holds `a`. */
  lemma MonthWindowBounds(a: int)
    ensures MakeDay(YearOf(a), MonthOf(a), 1) == DayFromYear(YearOf(a)) + DaysBeforeMonth(YearOf(a), MonthOf(a))
    ensures MakeDay(YearOf(a), MonthOf(a) + 1, 1) == MakeDay(YearOf(a), MonthOf(a), 1) + DaysInMonth(YearOf(a), MonthOf(a))
    ensures MakeDay(YearOf(a), MonthOf(a), 1) <= a < MakeDay(YearOf(a), MonthOf(a) + 1, 1)
  {
    NextMonthStart(YearOf(a), MonthOf(a));
    CivilRoundTrip(a);
  }

  /** Day `b` lies in the window of month `m` of year `y` exactly when it has that year and month. */
  lemma MonthWindowExact(y: int, m: int, b: int)
    requires 0 <= m < 12
    ensures MakeDay(y, m, 1) <= b < MakeDay(y, m + 1, 1) <==> YearOf(b) == y && MonthOf(b) == m
  {
    var lo, hi := MakeDay(y, m, 1), MakeDay(y, m + 1, 1);
    MakeDayInRange(y, m, 1);
    NextMonthStart(y, m);
    DaysBeforeMonthStep(y, m);
    assert hi == DayFromYear(y) + DaysBeforeMonth(y, m + 1);
    if YearOf(b) == y && MonthOf(b) == m {
      MonthWindowBounds(b);
    }
    if lo <= b < hi {
      InMonthWindow(y, m, b);
    }
  }

  /** A day inside the window of month `m` of year `y` has that year and month. */
  lemma InMonthWindow(y: int, m: int, b: int)
    requires 0 <= m < 12
    requires DayFromYear(y) + DaysBeforeMonth(y, m) <= b < DayFromYear(y) + DaysBeforeMonth(y, m + 1)
    ensures YearOf(b) == y && MonthOf(b) == m
  {
    DaysBeforeMonthMonotone(y, m + 1, 12);
    DaysBeforeMonthStep(y, m);
    DayFromYearStep(y);
    YearOfUnique(b, y);
    MonthOfUnique(b, m);
  }

  /** The Sunday that starts the (Sunday-first) week containing `day`. */
  function SundayOf(day: int): (s: int)
    ensures WeekDay(s) == 0 && s <= day < s + 7
  {
    day - WeekDay(day)
  }

  /** Day `b` lies in the seven days from `a`'s Sunday exactly when it has the same Sunday. */
  lemma WeekWindowExact(a: int, b: int)
    ensures SundayOf(a) <= b < SundayOf(a) + 7 <==> SundayOf(b) == SundayOf(a)
  {
    var s := SundayOf(a);
    assert (s + 4) % 7 == 0;
    if s <= b < s + 7 {
      assert (b + 4) % 7 == b - s;
    }
  }
}
