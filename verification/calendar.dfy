/** Dates, times of day and the clock.  A date (`LocalDate`) is the number of
    days since 1970-01-01, which was a Thursday; a time of day (`LocalTime`) is
    a whole number of minutes since midnight; an instant is a number of
    milliseconds since 1970-01-01T00:00 in the server's zone. */
module Calendar {

  type Day = int

  const MinutesPerDay: int := 1440
  const MillisPerMinute: int := 60000
  const MillisPerDay: int := 86400000

  /** A `LocalTime`: it cannot leave the day. */
  type TimeOfDay = m: int | 0 <= m < MinutesPerDay

  /** `java.time.DayOfWeek`, whose `getValue()` runs from Monday = 1 to Sunday = 7. */
  datatype DayOfWeek = Monday | Tuesday | Wednesday | Thursday | Friday | Saturday | Sunday

  function DayOfWeekValue(w: DayOfWeek): (n: int)
    ensures 1 <= n <= 7
  {
    match w
    case Monday => 1
    case Tuesday => 2
    case Wednesday => 3
    case Thursday => 4
    case Friday => 5
    case Saturday => 6
    case Sunday => 7
  }

  /** `DayOfWeek.of(n)`. */
  function DayOfWeekOf(n: int): (w: DayOfWeek)
    requires 1 <= n <= 7
    ensures DayOfWeekValue(w) == n
  {
    if n == 1 then Monday
    else if n == 2 then Tuesday
    else if n == 3 then Wednesday
    else if n == 4 then Thursday
    else if n == 5 then Friday
    else if n == 6 then Saturday
    else Sunday
  }

  lemma DayOfWeekValueInjective(a: DayOfWeek, b: DayOfWeek)
    ensures DayOfWeekValue(a) == DayOfWeekValue(b) ==> a == b
  {
  }

  /** `LocalDate.getDayOfWeek()`: day 0 is a Thursday (value 4). Dafny's `%`
      is never negative, so dates before 1970 are handled as `floorMod` does. */
  function WeekdayOf(d: Day): (w: DayOfWeek)
    ensures DayOfWeekValue(w) == (d + 3) % 7 + 1
  {
    DayOfWeekOf((d + 3) % 7 + 1)
  }

  /** The weekday repeats every seven days and changes every day. */
  lemma WeekdayPeriodic(d: Day)
    ensures WeekdayOf(d + 7) == WeekdayOf(d)
    ensures WeekdayOf(d + 1) != WeekdayOf(d)
  {
    DayOfWeekValueInjective(WeekdayOf(d + 7), WeekdayOf(d));
  }

  /** JavaScript's `Date.getDay()`: Sunday = 0 ... Saturday = 6. */
  function JsDay(d: Day): (r: int)
    ensures 0 <= r < 7
  {
    (d + 4) % 7
  }

  /** The browser's and the server's weekday numberings name the same day. */
  lemma JsDayAgreesWithWeekday(d: Day)
    ensures JsDay(d) == DayOfWeekValue(WeekdayOf(d)) % 7
  {
  }

  predicate IsLeapYear(y: int) {
    y % 4 == 0 && (y % 100 != 0 || y % 400 == 0)
  }

  function DaysInMonth(y: int, m: int): (n: int)
    requires 1 <= m <= 12
    ensures 28 <= n <= 31
  {
    if m == 2 then (if IsLeapYear(y) then 29 else 28)
    else if m == 4 || m == 6 || m == 9 || m == 11 then 30
    else 31
  }

  /** Day number of the proleptic Gregorian date y-m-d (H. Hinnant's
      `days_from_civil`); `/` rounds down for a positive divisor in Dafny. */
  function DaysFromCivil(y: int, m: int, d: int): Day
    requires 1 <= m <= 12
  {
    var y' := if m <= 2 then y - 1 else y;
    var era := y' / 400;
    var yoe := y' - era * 400;
    var mp := if m > 2 then m - 3 else m + 9;
    var doy := (153 * mp + 2) / 5 + d - 1;
    var doe := yoe * 365 + yoe / 4 - yoe / 100 + doy;
    era * 146097 + doe - 719468
  }

  /** Day 0 is 1970-01-01, a Thursday; 2024-12-16 is a Monday. */
  lemma CivilAnchors()
    ensures DaysFromCivil(1970, 1, 1) == 0
    ensures WeekdayOf(DaysFromCivil(1970, 1, 1)) == Thursday
    ensures DaysFromCivil(2024, 12, 16) == 20073
    ensures WeekdayOf(DaysFromCivil(2024, 12, 16)) == Monday
  {
  }

  /** Consecutive days of a month have consecutive day numbers. */
  lemma DaysFromCivilNext(y: int, m: int, d: int)
    requires 1 <= m <= 12
    ensures DaysFromCivil(y, m, d + 1) == DaysFromCivil(y, m, d) + 1
  {
  }

  /** The server clock as `LocalDate.now()` plus `LocalTime.now()`, the latter
      in milliseconds since midnight. */
  datatype Clock = Clock(today: Day, millisOfDay: int) {
    ghost predicate Valid() { 0 <= millisOfDay < MillisPerDay }

    /** `LocalDateTime.now()` as an instant. */
    function Now(): int { today * MillisPerDay + millisOfDay }
  }

  /** The instant at which time `t` of date `d` starts. */
  function InstantOf(d: Day, t: TimeOfDay): int {
    d * MillisPerDay + t * MillisPerMinute
  }

  /** The services' past-date check: `date.isBefore(today) ||
      (date.isEqual(today) && startTime.isBefore(now))`. */
  predicate IsPast(c: Clock, d: Day, t: TimeOfDay) {
    d < c.today || (d == c.today && t * MillisPerMinute < c.millisOfDay)
  }

  /** The date-then-time test is exactly "the start instant lies before now". */
  lemma IsPastIffBeforeNow(c: Clock, d: Day, t: TimeOfDay)
    requires c.Valid()
    ensures IsPast(c, d, t) <==> InstantOf(d, t) < c.Now()
  {
    if d < c.today {
      assert d * MillisPerDay + MillisPerDay <= c.today * MillisPerDay;
    } else if d > c.today {
      assert c.today * MillisPerDay + MillisPerDay <= d * MillisPerDay;
    }
  }
}
