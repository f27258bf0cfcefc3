/**
 * A JavaScript `Date` object as the statistics code uses it: a mutable time
 * value read through the local-time getters and changed in place by
 * `setHours` and `setDate`. The time zone is the local one throughout; see
 * module Calendar.
 */
module LocalDates {
  import opened Calendar

  class LocalDate {
    var time: int

    /** `new Date(t)`, and `new Date(other)`, which copies the other's time value. */
    constructor (t: int)
      ensures time == t
    {
      time := t;
    }

    /**
     * `new Date(year, month, date)`: local midnight of that calendar day,
     * months rolling over, and a year 0 to 99 read as 1900 to 1999.
     */
    constructor FromFields(year: int, month: int, date: int)
      ensures time == MakeDate(MakeDay(MakeFullYear(year), month, date), 0)
      ensures Day(time) == MakeDay(MakeFullYear(year), month, date) && TimeWithinDay(time) == 0
    {
      time := MakeDate(MakeDay(MakeFullYear(year), month, date), 0);
      DayOfMidnightPlus(MakeDay(MakeFullYear(year), month, date), 0);
    }

    function GetFullYear(): int
      reads this
    {
      YearOf(Day(time))
    }

    function GetMonth(): (m: int)
      reads this
      ensures 0 <= m < 12
    {
      MonthOf(Day(time))
    }

    function GetDate(): (d: int)
      reads this
      ensures 1 <= d <= 31
    {
      CivilRoundTrip(Day(time));
      DateOf(Day(time))
    }

    function GetDay(): (w: int)
      reads this
      ensures 0 <= w < 7
    {
      WeekDay(Day(time))
    }

    /** Keeps the day and sets the time within it. */
    method SetHours(hour: int, min: int, sec: int, ms: int)
      modifies this
      ensures time == SetHoursTime(old(time), hour, min, sec, ms)
      ensures time == Day(old(time)) * MsPerDay + MakeTime(hour, min, sec, ms)
    {
      time := MakeDate(Day(time), MakeTime(hour, min, sec, ms));
    }

    /**
     * Sets the day of the month, keeping the time of day; a date outside the
     * month rolls into the neighbouring months, so the time value moves by as
     * many days as the date changes.
     */
    method SetDate(date: int)
      modifies this
      ensures time == SetDateTime(old(time), date)
      ensures time == old(time) + (date - DateOf(Day(old(time)))) * MsPerDay
    {
      SetDateShift(time, date);
      time := MakeDate(MakeDay(GetFullYear(), GetMonth(), date), TimeWithinDay(time));
    }
  }
}
