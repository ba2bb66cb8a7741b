/** The proleptic Gregorian calendar in UTC, as `time.Time` reports it.
    Days are counted from 1970-01-01, minutes from that day's midnight. */
module Calendar {

  const MINUTES_PER_DAY := 1440
  const NANOS_PER_SECOND := 1_000_000_000

  datatype Date = Date(year: int, month: int, day: int)

  predicate Leap(year: int) {
    year % 4 == 0 && (year % 100 != 0 || year % 400 == 0)
  }

  function DaysIn(leap: bool, month: int): (n: int)
    requires 1 <= month <= 12
    ensures 28 <= n <= 31
  {
    if month == 2 then (if leap then 29 else 28)
    else if month == 4 || month == 6 || month == 9 || month == 11 then 30
    else 31
  }

  const CUMULATIVE_DAYS: seq<int> := [0, 31, 59, 90, 120, 151, 181, 212, 243, 273, 304, 334, 365]

  /** Days of a year before the given month; month 13 stands for the year's end. */
  function DaysBeforeMonth(leap: bool, month: int): (n: int)
    requires 1 <= month <= 13
    ensures 0 <= n <= 366
    ensures month <= 12 ==> n + DaysIn(leap, month) <= 365 + (if leap then 1 else 0)
  {
    CUMULATIVE_DAYS[month - 1] + (if leap && month > 2 then 1 else 0)
  }

  lemma MonthLength(leap: bool, month: int)
    requires 1 <= month <= 12
    ensures DaysBeforeMonth(leap, month + 1) == DaysBeforeMonth(leap, month) + DaysIn(leap, month)
  {
  }

  /** The number of the first day of a year. */
  function DaysBeforeYear(year: int): int {
    var p := year - 1;
    365 * p + p / 4 - p / 100 + p / 400 - 719162
  }

  function DaysInYear(year: int): int {
    if Leap(year) then 366 else 365
  }

  lemma YearLength(year: int)
    ensures DaysBeforeYear(year + 1) == DaysBeforeYear(year) + DaysInYear(year)
  {
    CountMultiples(year, 4);
    CountMultiples(year, 100);
    CountMultiples(year, 400);
    NestedMultiples(year);
  }

  lemma MultipleOf(n: int, k: int, q: int)
    requires (k == 4 || k == 100) && n == k * q
    ensures n % k == 0
  {
  }

  lemma NestedMultiples(n: int)
    ensures n % 400 == 0 ==> n % 100 == 0
    ensures n % 100 == 0 ==> n % 4 == 0
  {
    if n % 400 == 0 {
      MultipleOf(n, 100, 4 * (n / 400));
    }
    if n % 100 == 0 {
      MultipleOf(n, 4, 25 * (n / 100));
    }
  }

  lemma CountMultiples(n: int, k: int)
    requires k == 4 || k == 100 || k == 400
    ensures n / k == (n - 1) / k + (if n % k == 0 then 1 else 0)
  {
  }

  predicate ValidDate(date: Date) {
    1 <= date.month <= 12 && 1 <= date.day <= DaysIn(Leap(date.year), date.month)
  }

  function DayNumber(date: Date): (d: int)
    requires ValidDate(date)
    ensures DaysBeforeYear(date.year) <= d < DaysBeforeYear(date.year + 1)
  {
    YearLength(date.year);
    DaysBeforeYear(date.year) + DaysBeforeMonth(Leap(date.year), date.month) + date.day - 1
  }

  // ----- from a day number to a date

  function YearFrom(d: int, year: int): (y: int)
    requires DaysBeforeYear(year) <= d
    ensures DaysBeforeYear(y) <= d < DaysBeforeYear(y + 1)
    decreases d - DaysBeforeYear(year)
  {
    YearLength(year);
    if d < DaysBeforeYear(year + 1) then year else YearFrom(d, year + 1)
  }

  /** Every 400 years have 146097 days, so the search starts at a multiple of 400 years. */
  function YearOf(d: int): (y: int)
    ensures DaysBeforeYear(y) <= d < DaysBeforeYear(y + 1)
  {
    YearFrom(d, 400 * ((d + 719162) / 146097) + 1)
  }

  function MonthFrom(leap: bool, dayOfYear: int, month: int): (m: int)
    requires 1 <= month <= 12
    requires DaysBeforeMonth(leap, month) <= dayOfYear < DaysBeforeMonth(leap, 13)
    ensures 1 <= m <= 12
    ensures DaysBeforeMonth(leap, m) <= dayOfYear < DaysBeforeMonth(leap, m + 1)
    decreases 12 - month
  {
    if dayOfYear < DaysBeforeMonth(leap, month + 1) then month else MonthFrom(leap, dayOfYear, month + 1)
  }

  function DateOf(d: int): (date: Date)
    ensures ValidDate(date) && DayNumber(date) == d
  {
    var y := YearOf(d);
    var dayOfYear := d - DaysBeforeYear(y);
    YearLength(y);
    var m := MonthFrom(Leap(y), dayOfYear, 1);
    MonthLength(Leap(y), m);
    Date(y, m, dayOfYear - DaysBeforeMonth(Leap(y), m) + 1)
  }

  lemma {:induction false} YearsAreOrdered(y: int, z: int)
    requires y <= z
    ensures DaysBeforeYear(y) + 365 * (z - y) <= DaysBeforeYear(z) <= DaysBeforeYear(y) + 366 * (z - y)
    decreases z - y
  {
    if y < z {
      YearLength(y);
      YearsAreOrdered(y + 1, z);
    }
  }

  lemma MonthsAreOrdered(leap: bool, m: int, n: int)
    requires 1 <= m < n <= 12
    ensures DaysBeforeMonth(leap, m) + DaysIn(leap, m) <= DaysBeforeMonth(leap, n)
  {
  }

  lemma EarlierYear(a: Date, b: Date)
    requires ValidDate(a) && ValidDate(b) && a.year < b.year
    ensures DayNumber(a) < DayNumber(b)
  {
    YearsAreOrdered(a.year + 1, b.year);
  }

  lemma EarlierMonth(a: Date, b: Date)
    requires ValidDate(a) && ValidDate(b) && a.year == b.year && a.month < b.month
    ensures DayNumber(a) < DayNumber(b)
  {
    MonthsAreOrdered(Leap(a.year), a.month, b.month);
  }

  /** Day numbers name dates uniquely. */
  lemma DayNumberIsInjective(a: Date, b: Date)
    requires ValidDate(a) && ValidDate(b) && DayNumber(a) == DayNumber(b)
    ensures a == b
  {
    if a.year < b.year {
      EarlierYear(a, b);
    } else if b.year < a.year {
      EarlierYear(b, a);
    } else if a.month < b.month {
      EarlierMonth(a, b);
    } else if b.month < a.month {
      EarlierMonth(b, a);
    }
  }

  lemma DateOfDayNumber(date: Date)
    requires ValidDate(date)
    ensures DateOf(DayNumber(date)) == date
  {
    DayNumberIsInjective(DateOf(DayNumber(date)), date);
  }

  /** The day after: the calendar rule a reader knows, which `DateOf` is checked against. */
  function Tomorrow(date: Date): Date
    requires ValidDate(date)
  {
    if date.day < DaysIn(Leap(date.year), date.month) then date.(day := date.day + 1)
    else if date.month < 12 then Date(date.year, date.month + 1, 1)
    else Date(date.year + 1, 1, 1)
  }

  lemma TomorrowIsNextDay(date: Date)
    requires ValidDate(date)
    ensures ValidDate(Tomorrow(date)) && DayNumber(Tomorrow(date)) == DayNumber(date) + 1
  {
    var leap := Leap(date.year);
    if date.day == DaysIn(leap, date.month) {
      if date.month < 12 {
        MonthLength(leap, date.month);
      } else {
        YearLength(date.year);
        assert DayNumber(Date(date.year + 1, 1, 1)) == DaysBeforeYear(date.year + 1);
      }
    }
  }

  lemma NextDayIsTomorrow(today: Date, next: Date)
    requires ValidDate(today) && ValidDate(next) && DayNumber(next) == DayNumber(today) + 1
    ensures next == Tomorrow(today)
  {
    TomorrowIsNextDay(today);
    DayNumberIsInjective(next, Tomorrow(today));
  }

  lemma EpochIsDayZero(date: Date)
    requires ValidDate(date) && DayNumber(date) == 0
    ensures date == Date(1970, 1, 1)
  {
    DayNumberIsInjective(date, Date(1970, 1, 1));
  }

  /** `DateOf` is the calendar: it is 1970-01-01 at day 0 and advances by the day-after rule. */
  lemma DateOfIsTheCalendar(d: int)
    ensures d == 0 ==> DateOf(d) == Date(1970, 1, 1)
    ensures DateOf(d + 1) == Tomorrow(DateOf(d))
  {
    NextDayIsTomorrow(DateOf(d), DateOf(d + 1));
    if d == 0 {
      EpochIsDayZero(DateOf(d));
    }
  }

  /** 1970-01-01 was a Thursday; Sunday is 0. */
  function Weekday(d: int): (w: int)
    ensures 0 <= w <= 6
  {
    (d + 4) % 7
  }

  /** The day of the week is Thursday on 1970-01-01, and goes round day by day, Sunday after Saturday. */
  lemma WeekdayGoesRound(d: int)
    ensures Weekday(0) == 4
    ensures Weekday(d + 1) == if Weekday(d) == 6 then 0 else Weekday(d) + 1
  {
  }

  // ----- instants

  function DayOf(minute: int): int { minute / MINUTES_PER_DAY }

  function HourOf(minute: int): (h: int)
    ensures 0 <= h <= 23
  {
    (minute - DayOf(minute) * MINUTES_PER_DAY) / 60
  }

  function MinuteOf(minute: int): (m: int)
    ensures 0 <= m <= 59
  {
    minute - DayOf(minute) * MINUTES_PER_DAY - HourOf(minute) * 60
  }

  function InstantAt(d: int, hour: int, minute: int): (t: int)
    requires 0 <= hour <= 23 && 0 <= minute <= 59
    ensures DayOf(t) == d && HourOf(t) == hour && MinuteOf(t) == minute
    ensures d * MINUTES_PER_DAY <= t < (d + 1) * MINUTES_PER_DAY
  {
    d * MINUTES_PER_DAY + hour * 60 + minute
  }

  /** A day of each weekday lies in every seven days. */
  lemma WeekdayWithinSeven(first: int, w: int) returns (d: int)
    requires 0 <= w <= 6
    ensures first <= d < first + 7 && Weekday(d) == w
  {
    d := first + (w - Weekday(first)) % 7;
  }
}
