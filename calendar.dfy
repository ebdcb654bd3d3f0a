/**
 * Proleptic Gregorian calendar arithmetic on days counted from 1970-01-01
 * (day 0) and on instants counted in milliseconds from the Unix epoch, UTC.
 * These are the calendar functions the time dimension applies to each
 * start_time: `hour`, `dayofmonth`, `weekofyear` (ISO 8601), `month`, `year`
 * and `dayofweek` (1 = Sunday .. 7 = Saturday).
 */
module Calendar {

  datatype Date = Date(year: int, month: int, day: int)

  predicate IsLeapYear(y: int) {
    (y % 4 == 0 && y % 100 != 0) || y % 400 == 0
  }

  function DaysInYear(y: int): int {
    if IsLeapYear(y) then 366 else 365
  }

  /** Days of year `y` that come before the first of month `m`. */
  function DaysBeforeMonth(y: int, m: int): int
    requires 1 <= m <= 12
  {
    (match m
     case 1 => 0   case 2 => 31  case 3 => 59   case 4 => 90
     case 5 => 120 case 6 => 151 case 7 => 181  case 8 => 212
     case 9 => 243 case 10 => 273 case 11 => 304 case _ => 334)
    + (if m > 2 && IsLeapYear(y) then 1 else 0)
  }

  /** The length of month `m`; it agrees with the cumulative table above. */
  function DaysInMonth(y: int, m: int): (n: int)
    requires 1 <= m <= 12
    ensures 28 <= n <= 31
    ensures n == (if m < 12 then DaysBeforeMonth(y, m + 1) else DaysInYear(y)) - DaysBeforeMonth(y, m)
  {
    match m
    case 2 => if IsLeapYear(y) then 29 else 28
    case 4 => 30
    case 6 => 30
    case 9 => 30
    case 11 => 30
    case _ => 31
  }

  predicate ValidDate(d: Date) {
    1 <= d.month <= 12 && 1 <= d.day <= DaysInMonth(d.year, d.month)
  }

  /** Leap years among 1..n (extended to n <= 0 by the same floor formula). */
  function LeapYearsThrough(n: int): int {
    n / 4 - n / 100 + n / 400
  }

  /** Days from 1970-01-01 to the first of January of year `y` (negative before 1970). */
  function DaysBeforeYear(y: int): int {
    365 * (y - 1970) + LeapYearsThrough(y - 1) - LeapYearsThrough(1969)
  }

  /** Day number of a calendar date: the reference definition of the calendar. */
  function DaysFromCivil(d: Date): int
    requires ValidDate(d)
  {
    DaysBeforeYear(d.year) + DaysBeforeMonth(d.year, d.month) + d.day - 1
  }

  /** Consecutive years differ by the length of the earlier one. */
  lemma YearStep(y: int)
    ensures DaysBeforeYear(y + 1) == DaysBeforeYear(y) + DaysInYear(y)
  {
    LeapCountStep(y);
  }

  /** Year `y` adds one to the leap count iff it is a leap year. */
  lemma LeapCountStep(y: int)
    ensures LeapYearsThrough(y) - LeapYearsThrough(y - 1) == if IsLeapYear(y) then 1 else 0
  {
    var a := y / 4 - (y - 1) / 4;
    var b := y / 100 - (y - 1) / 100;
    var c := y / 400 - (y - 1) / 400;
    assert a == if y % 4 == 0 then 1 else 0;
    assert b == if y % 100 == 0 then 1 else 0;
    assert c == if y % 400 == 0 then 1 else 0;
    assert y % 400 == 0 ==> y % 100 == 0 && y % 4 == 0;
    assert y % 100 == 0 ==> y % 4 == 0;
  }

  /** Between two year starts lie 365 to 366 days per year. */
  lemma {:induction false} YearsBetween(a: int, b: int)
    requires a <= b
    ensures 365 * (b - a) <= DaysBeforeYear(b) - DaysBeforeYear(a) <= 366 * (b - a)
    decreases b - a
  {
    if a < b {
      YearsBetween(a, b - 1);
      YearStep(b - 1);
    }
  }

  /** A year not after the one holding day `z`. */
  function YearGuess(z: int): (y: int)
    ensures DaysBeforeYear(y) <= z
  {
    var y := if z >= 0 then 1970 + z / 366 else 1970 + z / 365;
    YearsFromEpoch(y);
    y
  }

  /** Year starts lie within 365 to 366 days per year of 1970-01-01. */
  lemma YearsFromEpoch(y: int)
    ensures y >= 1970 ==> DaysBeforeYear(y) <= 366 * (y - 1970)
    ensures y <= 1970 ==> DaysBeforeYear(y) <= 365 * (y - 1970)
  {
    if y >= 1970 { YearsBetween(1970, y); } else { YearsBetween(y, 1970); }
  }

  /** The year holding day `z`, searched upwards from year `y`. */
  function YearFrom(z: int, y: int): (r: int)
    requires DaysBeforeYear(y) <= z
    ensures y <= r
    ensures DaysBeforeYear(r) <= z < DaysBeforeYear(r + 1)
    decreases z - DaysBeforeYear(y)
  {
    YearStep(y);
    if z < DaysBeforeYear(y + 1) then y else YearFrom(z, y + 1)
  }

  /** The month holding day `doy` (counted from 0) of year `y`. */
  function MonthOf(y: int, doy: int): (m: int)
    requires 0 <= doy < DaysInYear(y)
    ensures 1 <= m <= 12
    ensures DaysBeforeMonth(y, m) <= doy < DaysBeforeMonth(y, m) + DaysInMonth(y, m)
  {
    if doy < DaysBeforeMonth(y, 2) then 1
    else if doy < DaysBeforeMonth(y, 3) then 2
    else if doy < DaysBeforeMonth(y, 4) then 3
    else if doy < DaysBeforeMonth(y, 5) then 4
    else if doy < DaysBeforeMonth(y, 6) then 5
    else if doy < DaysBeforeMonth(y, 7) then 6
    else if doy < DaysBeforeMonth(y, 8) then 7
    else if doy < DaysBeforeMonth(y, 9) then 8
    else if doy < DaysBeforeMonth(y, 10) then 9
    else if doy < DaysBeforeMonth(y, 11) then 10
    else if doy < DaysBeforeMonth(y, 12) then 11
    else 12
  }

  /** The year whose span holds day `z`. */
  function YearOf(z: int): (y: int)
    ensures DaysBeforeYear(y) <= z < DaysBeforeYear(y + 1)
  {
    YearFrom(z, YearGuess(z))
  }

  /** The calendar date of day `z`: a valid date whose day number is `z`. */
  function CivilFromDays(z: int): (d: Date)
    ensures ValidDate(d)
    ensures d.year == YearOf(z)
    ensures DaysFromCivil(d) == z
  {
    var y := YearOf(z);
    YearStep(y);
    var doy := z - DaysBeforeYear(y);
    var m := MonthOf(y, doy);
    Date(y, m, doy - DaysBeforeMonth(y, m) + 1)
  }

  /** A valid date lies between the start of its year and the start of the next. */
  lemma DateWithinYear(d: Date)
    requires ValidDate(d)
    ensures DaysBeforeYear(d.year) <= DaysFromCivil(d) < DaysBeforeYear(d.year + 1)
  {
    YearStep(d.year);
  }

  /** Year starts strictly increase. */
  lemma YearStartsIncrease(a: int, b: int)
    requires a < b
    ensures DaysBeforeYear(a + 1) <= DaysBeforeYear(b)
  {
    YearsBetween(a + 1, b);
  }

  /** The year holding a day is unique. */
  lemma YearOfDayUnique(z: int, a: int, b: int)
    requires DaysBeforeYear(a) <= z < DaysBeforeYear(a + 1)
    requires DaysBeforeYear(b) <= z < DaysBeforeYear(b + 1)
    ensures a == b
  {
    if a < b { YearStartsIncrease(a, b); }
    if b < a { YearStartsIncrease(b, a); }
  }

  /** Distinct valid dates have distinct day numbers. */
  lemma DaysFromCivilInjective(a: Date, b: Date)
    requires ValidDate(a) && ValidDate(b)
    requires DaysFromCivil(a) == DaysFromCivil(b)
    ensures a == b
  {
    DateWithinYear(a);
    DateWithinYear(b);
    YearOfDayUnique(DaysFromCivil(a), a.year, b.year);
    var y := a.year;
    if a.month < b.month {
      MonthsIncrease(y, a.month, b.month);
    } else if b.month < a.month {
      MonthsIncrease(y, b.month, a.month);
    }
  }

  /** Each month ends no later than a later month begins. */
  lemma MonthsIncrease(y: int, m1: int, m2: int)
    requires 1 <= m1 < m2 <= 12
    ensures DaysBeforeMonth(y, m1) + DaysInMonth(y, m1) <= DaysBeforeMonth(y, m2)
  {
  }

  /** CivilFromDays inverts DaysFromCivil on valid dates. */
  lemma CivilFromDaysOfDate(d: Date)
    requires ValidDate(d)
    ensures CivilFromDays(DaysFromCivil(d)) == d
  {
    DaysFromCivilInjective(CivilFromDays(DaysFromCivil(d)), d);
  }

  // ---- Instants and their calendar fields ----

  /** Whole seconds since the epoch, rounded down (towards the past). */
  function EpochSeconds(millis: int): (s: int)
    ensures s * 1000 <= millis < (s + 1) * 1000
  {
    millis / 1000
  }

  /** Day number of an instant: the day, counted from 1970-01-01, holding its second. */
  function EpochDay(millis: int): (z: int)
    ensures z * 86400 <= EpochSeconds(millis) < (z + 1) * 86400
  {
    EpochSeconds(millis) / 86400
  }

  /** Hour of the day of an instant. */
  function HourOf(millis: int): (h: int)
    ensures 0 <= h <= 23
    ensures EpochDay(millis) * 86400 + h * 3600 <= EpochSeconds(millis) < EpochDay(millis) * 86400 + (h + 1) * 3600
  {
    (EpochSeconds(millis) % 86400) / 3600
  }

  /** Spark's `dayofweek` numbering of day `z`: 1 = Sunday .. 7 = Saturday. */
  function DayOfWeek(z: int): (w: int)
    ensures 1 <= w <= 7
  {
    (z + 4) % 7 + 1
  }

  /** ISO 8601 weekday of day `z`: 1 = Monday .. 7 = Sunday. */
  function IsoWeekday(z: int): (w: int)
    ensures 1 <= w <= 7
    ensures w == DayOfWeek(z) - 1 || (w == 7 && DayOfWeek(z) == 1)
  {
    (z + 3) % 7 + 1
  }

  /** The Thursday of the Monday-to-Sunday week holding day `z`. */
  function WeekThursday(z: int): (t: int)
    ensures z - 3 <= t <= z + 3
    ensures IsoWeekday(t) == 4
  {
    z - IsoWeekday(z) + 4
  }

  /**
   * ISO 8601 week of year: weeks run Monday to Sunday, and a week belongs to
   * the year that holds its Thursday, so week 1 is the week with at least
   * four days in January.
   */
  function WeekOfYear(z: int): (w: int)
    ensures 1 <= w <= 53
  {
    var t := WeekThursday(z);
    YearStep(YearOf(t));
    (t - DaysBeforeYear(YearOf(t))) / 7 + 1
  }

  /** The calendar fields of the instant 1541121934796 ms: 2018-11-02 01:25:34 UTC. */
  lemma InstantExample()
    ensures EpochDay(1541121934796) == 17837
    ensures HourOf(1541121934796) == 1
    ensures CivilFromDays(17837) == Date(2018, 11, 2)
    ensures WeekOfYear(17837) == 44
    ensures DayOfWeek(17837) == 6
  {
    ExampleClock();
    ExampleDate();
    ExampleWeek();
  }

  lemma ExampleClock()
    ensures EpochDay(1541121934796) == 17837
    ensures HourOf(1541121934796) == 1
    ensures DayOfWeek(17837) == 6
  {
  }

  lemma ExampleDate()
    ensures CivilFromDays(17837) == Date(2018, 11, 2)
  {
    assert DaysFromCivil(Date(2018, 11, 2)) == 17837;
    CivilFromDaysOfDate(Date(2018, 11, 2));
  }

  /** Day 17837 is the Friday after Thursday 2018-11-01, day 304 of 2018. */
  lemma ExampleWeek()
    ensures WeekOfYear(17837) == 44
  {
    assert WeekThursday(17837) == 17836;
    assert DaysBeforeYear(2018) == 17532 && DaysBeforeYear(2019) == 17897;
    YearOfDay(17836, 2018);
  }

  /** Only one year's span holds a given day. */
  lemma YearOfDay(z: int, y: int)
    requires DaysBeforeYear(y) <= z < DaysBeforeYear(y + 1)
    ensures YearOf(z) == y
  {
    YearOfDayUnique(z, YearOf(z), y);
  }

  /** Successive days run through the weekdays in order; the epoch was a Thursday. */
  lemma WeekdaysCycle(z: int)
    ensures DayOfWeek(0) == 5
    ensures DayOfWeek(z + 1) == DayOfWeek(z) % 7 + 1
  {
  }

  /** The week holding the fourth of January is week 1 of that year. */
  lemma JanuaryFourthInWeekOne(y: int)
    ensures WeekOfYear(DaysFromCivil(Date(y, 1, 4))) == 1
  {
    var z := DaysFromCivil(Date(y, 1, 4));
    var t := WeekThursday(z);
    YearStep(y);
    YearOfDay(t, y);
  }

  /** Monday to Sunday share one week number. */
  lemma WeekConstantWithinWeek(z: int)
    requires IsoWeekday(z) < 7
    ensures WeekOfYear(z + 1) == WeekOfYear(z)
  {
    assert WeekThursday(z + 1) == WeekThursday(z);
  }

  /** A day has the week number of its week's Thursday. */
  lemma WeekOfThursday(z: int)
    ensures WeekOfYear(z) == WeekOfYear(WeekThursday(z))
  {
    assert WeekThursday(WeekThursday(z)) == WeekThursday(z);
  }

  /** From a Thursday to the next one in the same year, the week number grows by one. */
  lemma NextThursdaySameYear(t: int, y: int)
    requires IsoWeekday(t) == 4
    requires DaysBeforeYear(y) <= t && t + 7 < DaysBeforeYear(y + 1)
    ensures WeekOfYear(t + 7) == WeekOfYear(t) + 1
  {
    YearOfDay(t, y);
    YearOfDay(t + 7, y);
    assert WeekThursday(t) == t;
    assert WeekThursday(t + 7) == t + 7;
  }

  /** The first Thursday of a year is in week 1. */
  lemma FirstThursdayOfYear(t: int, y: int)
    requires IsoWeekday(t) == 4
    requires DaysBeforeYear(y) <= t < DaysBeforeYear(y) + 7
    ensures WeekOfYear(t) == 1
  {
    YearStep(y);
    YearOfDay(t, y);
    assert WeekThursday(t) == t;
  }

  /** From Sunday to Monday the week's Thursday moves on by seven days. */
  lemma SundayToMonday(z: int)
    requires IsoWeekday(z) == 7
    ensures WeekThursday(z + 1) == WeekThursday(z) + 7
    ensures IsoWeekday(WeekThursday(z) + 7) == 4
  {
  }

  /** Each Monday starts the next week, or week 1 of the next year. */
  lemma WeekAdvancesOnMonday(z: int)
    requires IsoWeekday(z) == 7
    ensures WeekOfYear(z + 1) == WeekOfYear(z) + 1 || WeekOfYear(z + 1) == 1
  {
    var t := WeekThursday(z);
    if t + 7 < DaysBeforeYear(YearOf(t) + 1) {
      MondaySameYear(z);
    } else {
      MondayNewYear(z);
    }
  }

  lemma MondaySameYear(z: int)
    requires IsoWeekday(z) == 7
    requires WeekThursday(z) + 7 < DaysBeforeYear(YearOf(WeekThursday(z)) + 1)
    ensures WeekOfYear(z + 1) == WeekOfYear(z) + 1
  {
    var t := WeekThursday(z);
    SundayToMonday(z);
    WeekOfThursday(z);
    WeekOfThursday(z + 1);
    NextThursdaySameYear(t, YearOf(t));
  }

  lemma MondayNewYear(z: int)
    requires IsoWeekday(z) == 7
    requires WeekThursday(z) + 7 >= DaysBeforeYear(YearOf(WeekThursday(z)) + 1)
    ensures WeekOfYear(z + 1) == 1
  {
    var t := WeekThursday(z);
    SundayToMonday(z);
    WeekOfThursday(z + 1);
    ThursdayIntoNewYear(t, YearOf(t));
  }

  /** A Thursday a week after a Thursday of the previous year is in week 1. */
  lemma ThursdayIntoNewYear(t: int, y: int)
    requires IsoWeekday(t + 7) == 4
    requires t < DaysBeforeYear(y + 1) <= t + 7
    ensures WeekOfYear(t + 7) == 1
  {
    FirstThursdayOfYear(t + 7, y + 1);
  }
}
