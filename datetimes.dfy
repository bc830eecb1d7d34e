/**
 * The calendar value an analysis period is built from.
 *
 * The library's own DateTime class (ladybug/dt.py) is not part of this model. This module states
 * what the analysis period relies on it for: a fixed non-leap year of 365 days, 8760 hours and
 * 525600 minutes; a month/day/hour/minute value that the constructor rejects when a field is out
 * of range (the class is a Python `datetime`); its minute of year
 *   moy(m, d, h, min) = (days before month m + d - 1) * 1440 + h * 60 + min
 * and its hour of year moy / 60.0; and the inverse conversions fromMoy and fromHoy.
 */
module DateTimes {

  /** Month lengths of the non-leap year, January first. */
  const NumOfDaysEachMonth: seq<int> := [31, 28, 31, 30, 31, 30, 31, 31, 30, 31, 30, 31]

  const MinutesPerDay := 1440
  const HoursPerYear := 8760
  const MinutesPerYear := 525600

  datatype DateTime = DateTime(month: int, day: int, hour: int, minute: int)

  function DaysInMonth(month: int): int
    requires 1 <= month <= 12
  {
    NumOfDaysEachMonth[month - 1]
  }

  /** The number of days of the year before the first day of `month`; month 13 is the year's end. */
  function DaysBefore(month: int): int
    requires 1 <= month <= 13
  {
    if month == 1 then 0 else DaysBefore(month - 1) + NumOfDaysEachMonth[month - 2]
  }

  /** The fields a DateTime accepts: anything else makes the constructor raise. */
  predicate IsValid(t: DateTime) {
    && 1 <= t.month <= 12
    && 1 <= t.day <= DaysInMonth(t.month)
    && 0 <= t.hour <= 23
    && 0 <= t.minute <= 59
  }

  /** Every month starts after the whole of each earlier month. */
  lemma {:induction false} DaysBeforeOrder(a: int, b: int)
    requires 1 <= a < b <= 13
    ensures DaysBefore(a) + DaysInMonth(a) <= DaysBefore(b)
    decreases b - a
  {
    if a + 1 < b {
      DaysBeforeOrder(a + 1, b);
    }
  }

  /** The year has 365 days. */
  lemma YearLength(month: int)
    requires 1 <= month <= 12
    ensures DaysBefore(month) + DaysInMonth(month) <= DaysBefore(13) == 365
  {
    if month < 12 {
      DaysBeforeOrder(month, 13);
    }
  }

  /** The index of `t`'s day in the year, from 0 for 1 January to 364 for 31 December. */
  function DayOfYear(t: DateTime): (r: int)
    requires IsValid(t)
    ensures 0 <= r < 365
  {
    YearLength(t.month);
    DaysBefore(t.month) + t.day - 1
  }

  /** 1 January 00:00 is minute 0 of the year and 31 December 23:00 is minute 525540. */
  lemma YearEnds()
    ensures IsValid(DateTime(1, 1, 0, 0)) && IsValid(DateTime(12, 31, 23, 0))
    ensures Moy(DateTime(1, 1, 0, 0)) == 0 && Moy(DateTime(12, 31, 23, 0)) == 525540
  {
    YearLength(12);
    assert DaysBefore(13) == DaysBefore(12) + 31;
  }

  /** Minute of year: the number of minutes from 1 January 00:00 to `t`. */
  function Moy(t: DateTime): (r: int)
    requires IsValid(t)
    ensures 0 <= r < MinutesPerYear
    ensures r / MinutesPerDay == DayOfYear(t)
    ensures r % MinutesPerDay == t.hour * 60 + t.minute
  {
    DayOfYear(t) * MinutesPerDay + t.hour * 60 + t.minute
  }

  /** Hour of year, fractional when the minute is not zero. */
  function Hoy(t: DateTime): real
    requires IsValid(t)
  {
    Moy(t) as real / 60.0
  }

  /** `a` comes strictly before `b`, comparing month, then day, then hour, then minute. */
  predicate Before(a: DateTime, b: DateTime) {
    || a.month < b.month
    || (a.month == b.month && a.day < b.day)
    || (a.month == b.month && a.day == b.day && a.hour < b.hour)
    || (a.month == b.month && a.day == b.day && a.hour == b.hour && a.minute < b.minute)
  }

  lemma MoyEarlierMonth(a: DateTime, b: DateTime)
    requires IsValid(a) && IsValid(b) && a.month < b.month
    ensures Moy(a) < Moy(b)
  {
    DaysBeforeOrder(a.month, b.month);
    assert DayOfYear(a) < DayOfYear(b);
  }

  /** Minute of year orders calendar values chronologically. */
  lemma MoyOrder(a: DateTime, b: DateTime)
    requires IsValid(a) && IsValid(b)
    ensures Moy(a) < Moy(b) <==> Before(a, b)
  {
    if a.month < b.month {
      MoyEarlierMonth(a, b);
    } else if b.month < a.month {
      MoyEarlierMonth(b, a);
    }
  }

  /** The month holding day `dayOfYear` of the year, searched from `month` on. */
  function MonthOfDay(dayOfYear: int, month: int): (m: int)
    requires 1 <= month <= 12 && DaysBefore(month) <= dayOfYear < 365
    ensures month <= m <= 12
    ensures DaysBefore(m) <= dayOfYear < DaysBefore(m) + DaysInMonth(m)
    decreases 12 - month
  {
    if dayOfYear < DaysBefore(month) + DaysInMonth(month) then month
    else MonthOfDay(dayOfYear, month + 1)
  }

  /** The calendar value at minute of year `moy`. */
  function FromMoy(moy: int): (t: DateTime)
    requires 0 <= moy < MinutesPerYear
    ensures IsValid(t) && Moy(t) == moy
  {
    var day := moy / MinutesPerDay;
    var month := MonthOfDay(day, 1);
    DateTime(month, day - DaysBefore(month) + 1, moy % MinutesPerDay / 60, moy % 60)
  }

  /** The calendar value at the start of hour of year `hoy`. */
  function FromHoy(hoy: int): (t: DateTime)
    requires 0 <= hoy < HoursPerYear
    ensures IsValid(t) && Moy(t) == hoy * 60
  {
    FromMoy(hoy * 60)
  }

  /** Converting to minute of year and back gives the same calendar value. */
  lemma FromMoyMoy(t: DateTime)
    requires IsValid(t)
    ensures FromMoy(Moy(t)) == t
  {
    var u := FromMoy(Moy(t));
    MoyOrder(t, u);
    MoyOrder(u, t);
  }
}
