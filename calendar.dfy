/**
 * The proleptic Gregorian calendar of Python's `datetime`, on integers.
 * An instant is a count of microseconds since 0001-01-01T00:00:00, naive
 * (no time zone); a day number counts days since 0001-01-01, which is a
 * Monday, and is `date.toordinal() - 1`. Years before 1 continue the
 * calendar backwards (year 0 is a leap year).
 */
module Calendar {

  const MicrosPerSecond: int := 1_000_000
  const MicrosPerMinute: int := 60_000_000
  const MicrosPerHour: int := 3_600_000_000
  const MicrosPerDay: int := 86_400_000_000

  // ---------------------------------------------------------------------
  // Years and months

  predicate IsLeapYear(y: int) {
    y % 4 == 0 && (y % 100 != 0 || y % 400 == 0)
  }

  function YearLength(y: int): int {
    if IsLeapYear(y) then 366 else 365
  }

  predicate ValidMonth(m: int) {
    1 <= m <= 12
  }

  function DaysInMonth(y: int, m: int): (r: int)
    requires ValidMonth(m)
    ensures 28 <= r <= 31
  {
    if m == 2 then (if IsLeapYear(y) then 29 else 28)
    else if m == 4 || m == 6 || m == 9 || m == 11 then 30
    else 31
  }

  /** The days of year `y` before the first of month `m`. */
  function DaysBeforeMonth(y: int, m: int): int
    requires ValidMonth(m)
  {
    [0, 31, 59, 90, 120, 151, 181, 212, 243, 273, 304, 334][m - 1] + (if m > 2 && IsLeapYear(y) then 1 else 0)
  }

  /** Each month starts where the one before it ends, and December ends the year. */
  lemma DaysBeforeMonthStep(y: int, m: int)
    requires ValidMonth(m)
    ensures m < 12 ==> DaysBeforeMonth(y, m + 1) == DaysBeforeMonth(y, m) + DaysInMonth(y, m)
    ensures m == 12 ==> DaysBeforeMonth(y, m) + DaysInMonth(y, m) == YearLength(y)
  {
  }

  /** Months later in the year start later. */
  lemma {:induction false} DaysBeforeMonthMonotone(y: int, a: int, b: int)
    requires ValidMonth(a) && ValidMonth(b) && a < b
    ensures DaysBeforeMonth(y, a) + DaysInMonth(y, a) <= DaysBeforeMonth(y, b)
    decreases b - a
  {
    DaysBeforeMonthStep(y, a);
    if a + 1 < b {
      DaysBeforeMonthMonotone(y, a + 1, b);
      DaysBeforeMonthStep(y, a + 1);
    }
  }

  /** The days before January 1 of year `y`, counted from 0001-01-01. */
  function DaysBeforeYear(y: int): int {
    var p := y - 1;
    p * 365 + p / 4 - p / 100 + p / 400
  }

  /** The leap-rule quotients step up exactly at multiples of their divisors. */
  lemma LeapQuotientsStep(y: int)
    ensures y / 4 == (y - 1) / 4 + (if y % 4 == 0 then 1 else 0)
    ensures y / 100 == (y - 1) / 100 + (if y % 100 == 0 then 1 else 0)
    ensures y / 400 == (y - 1) / 400 + (if y % 400 == 0 then 1 else 0)
  {
  }

  /** Each year starts where the one before it ends. */
  lemma DaysBeforeYearStep(y: int)
    ensures DaysBeforeYear(y + 1) == DaysBeforeYear(y) + YearLength(y)
  {
    LeapQuotientsStep(y);
    var p := y - 1;
    assert DaysBeforeYear(y + 1) == y * 365 + y / 4 - y / 100 + y / 400;
    assert DaysBeforeYear(y) == p * 365 + p / 4 - p / 100 + p / 400;
  }

  /** Later years start later. */
  lemma {:induction false} DaysBeforeYearMonotone(a: int, b: int)
    requires a < b
    ensures DaysBeforeYear(a + 1) <= DaysBeforeYear(b)
    decreases b - a
  {
    DaysBeforeYearStep(a);
    if a + 1 < b {
      DaysBeforeYearMonotone(a + 1, b);
      DaysBeforeYearStep(a + 1);
    }
  }

  /** The year holding day number `d`. */
  function YearOf(d: int): (y: int)
    ensures DaysBeforeYear(y) <= d < DaysBeforeYear(y + 1)
  {
    if d >= 0 then YearAtOrAfter(d, 1) else YearAtOrBefore(d, 0)
  }

  function YearAtOrAfter(d: int, y: int): (r: int)
    requires DaysBeforeYear(y) <= d
    ensures DaysBeforeYear(r) <= d < DaysBeforeYear(r + 1)
    decreases d - DaysBeforeYear(y)
  {
    DaysBeforeYearStep(y);
    if d < DaysBeforeYear(y + 1) then y else YearAtOrAfter(d, y + 1)
  }

  function YearAtOrBefore(d: int, y: int): (r: int)
    requires d < DaysBeforeYear(y + 1)
    ensures DaysBeforeYear(r) <= d < DaysBeforeYear(r + 1)
    decreases DaysBeforeYear(y + 1) - d
  {
    DaysBeforeYearStep(y - 1);
    if DaysBeforeYear(y) <= d then y else YearAtOrBefore(d, y - 1)
  }

  /** The month holding day `doy` (from 0) of year `y`. */
  function MonthOf(y: int, doy: int): (m: int)
    requires 0 <= doy < YearLength(y)
    ensures ValidMonth(m) && DaysBeforeMonth(y, m) <= doy < DaysBeforeMonth(y, m) + DaysInMonth(y, m)
  {
    MonthAtOrAfter(y, doy, 1)
  }

  function MonthAtOrAfter(y: int, doy: int, m: int): (r: int)
    requires ValidMonth(m) && DaysBeforeMonth(y, m) <= doy < YearLength(y)
    ensures ValidMonth(r) && DaysBeforeMonth(y, r) <= doy < DaysBeforeMonth(y, r) + DaysInMonth(y, r)
    decreases 12 - m
  {
    DaysBeforeMonthStep(y, m);
    if doy < DaysBeforeMonth(y, m) + DaysInMonth(y, m) then m else MonthAtOrAfter(y, doy, m + 1)
  }

  // ---------------------------------------------------------------------
  // Dates and day numbers

  datatype Date = Date(year: int, month: int, day: int)

  predicate ValidDate(dt: Date) {
    ValidMonth(dt.month) && 1 <= dt.day <= DaysInMonth(dt.year, dt.month)
  }

  /** `date.toordinal() - 1`. */
  function DayNumber(dt: Date): int
    requires ValidDate(dt)
  {
    DaysBeforeYear(dt.year) + DaysBeforeMonth(dt.year, dt.month) + dt.day - 1
  }

  /** `date.fromordinal(d + 1)`: the date of day number `d`. */
  function DateOfDay(d: int): (dt: Date)
    ensures ValidDate(dt) && DayNumber(dt) == d
  {
    var y := YearOf(d);
    DaysBeforeYearStep(y);
    var doy := d - DaysBeforeYear(y);
    var m := MonthOf(y, doy);
    Date(y, m, doy - DaysBeforeMonth(y, m) + 1)
  }

  /** A valid date's day number falls within its year and month. */
  lemma DayNumberBounds(dt: Date)
    requires ValidDate(dt)
    ensures DaysBeforeYear(dt.year) <= DayNumber(dt) < DaysBeforeYear(dt.year + 1)
  {
    DaysBeforeYearStep(dt.year);
    if dt.month < 12 {
      DaysBeforeMonthMonotone(dt.year, dt.month, 12);
    }
    DaysBeforeMonthStep(dt.year, 12);
  }

  /** Distinct valid dates have distinct day numbers. */
  lemma DayNumberInjective(a: Date, b: Date)
    requires ValidDate(a) && ValidDate(b) && DayNumber(a) == DayNumber(b)
    ensures a == b
  {
    DayNumberBounds(a);
    DayNumberBounds(b);
    if a.year < b.year {
      DaysBeforeYearMonotone(a.year, b.year);
    } else if b.year < a.year {
      DaysBeforeYearMonotone(b.year, a.year);
    }
    assert a.year == b.year;
    if a.month < b.month {
      DaysBeforeMonthMonotone(a.year, a.month, b.month);
    } else if b.month < a.month {
      DaysBeforeMonthMonotone(a.year, b.month, a.month);
    }
  }

  /** Every valid date is the date of its own day number. */
  lemma DateOfDayNumber(dt: Date)
    requires ValidDate(dt)
    ensures DateOfDay(DayNumber(dt)) == dt
  {
    DayNumberInjective(DateOfDay(DayNumber(dt)), dt);
  }

  /** `date.weekday()` of a day number: 0 for Monday through 6 for Sunday. */
  function Weekday(d: int): (w: int)
    ensures 0 <= w < 7
  {
    d % 7
  }

  /** The day after a given day is one weekday further on, Sunday wrapping to Monday. */
  lemma WeekdayNext(d: int)
    ensures Weekday(d + 1) == (Weekday(d) + 1) % 7
  {
  }

  /** The first day of the month after the given one: December is followed by January of the next year. */
  function NextMonthStart(y: int, m: int): (dt: Date)
    requires ValidMonth(m)
    ensures ValidDate(dt)
  {
    if m < 12 then Date(y, m + 1, 1) else Date(y + 1, 1, 1)
  }

  /** The month after a month starts on the day after that month's last day. */
  lemma NextMonthStartFollows(y: int, m: int)
    requires ValidMonth(m)
    ensures DayNumber(NextMonthStart(y, m)) == DayNumber(Date(y, m, DaysInMonth(y, m))) + 1
  {
    DaysBeforeMonthStep(y, m);
    if m == 12 {
      DaysBeforeYearStep(y);
    }
  }

  /** The first day of the month before the given one: January is preceded by December of the previous year. */
  function PreviousMonthStart(y: int, m: int): (dt: Date)
    requires ValidMonth(m)
    ensures ValidDate(dt)
  {
    if m == 1 then Date(y - 1, 12, 1) else Date(y, m - 1, 1)
  }

  /** The month after the previous month is the month itself. */
  lemma PreviousMonthInverse(y: int, m: int)
    requires ValidMonth(m)
    ensures var p := PreviousMonthStart(y, m);
            NextMonthStart(p.year, p.month) == Date(y, m, 1)
  {
  }

  // ---------------------------------------------------------------------
  // Instants

  /** The day number of an instant. */
  function DayOf(t: int): int {
    t / MicrosPerDay
  }

  /** The microseconds since midnight of an instant. */
  function TimeOfDay(t: int): (r: int)
    ensures 0 <= r < MicrosPerDay
  {
    t % MicrosPerDay
  }

  /** Midnight of day number `d`. */
  function StartOfDay(d: int): int {
    d * MicrosPerDay
  }

  function DateOf(t: int): (dt: Date)
    ensures ValidDate(dt)
  {
    DateOfDay(DayOf(t))
  }

  function Hour(t: int): int {
    TimeOfDay(t) / MicrosPerHour
  }

  function Minute(t: int): int {
    TimeOfDay(t) % MicrosPerHour / MicrosPerMinute
  }

  function Second(t: int): int {
    TimeOfDay(t) % MicrosPerMinute / MicrosPerSecond
  }

  function Microsecond(t: int): int {
    TimeOfDay(t) % MicrosPerSecond
  }

  /** The instant `datetime(y, m, d, hh, mm, ss, us)`. */
  function MakeInstant(dt: Date, hour: int, minute: int, second: int, micro: int): (t: int)
    requires ValidDate(dt)
    requires 0 <= hour < 24 && 0 <= minute < 60 && 0 <= second < 60 && 0 <= micro < 1_000_000
    ensures DayOf(t) == DayNumber(dt)
    ensures TimeOfDay(t) == hour * MicrosPerHour + minute * MicrosPerMinute + second * MicrosPerSecond + micro
    ensures Hour(t) == hour && Minute(t) == minute && Second(t) == second && Microsecond(t) == micro
  {
    var time := hour * MicrosPerHour + minute * MicrosPerMinute + second * MicrosPerSecond + micro;
    var t := StartOfDay(DayNumber(dt)) + time;
    TimeFields(hour, minute, second, micro);
    t
  }

  /** An instant built on a date falls on that date. */
  lemma MakeInstantDate(dt: Date, hour: int, minute: int, second: int, micro: int)
    requires ValidDate(dt)
    requires 0 <= hour < 24 && 0 <= minute < 60 && 0 <= second < 60 && 0 <= micro < 1_000_000
    ensures DateOf(MakeInstant(dt, hour, minute, second, micro)) == dt
  {
    DateOfDayNumber(dt);
  }

  lemma TimeFields(hour: int, minute: int, second: int, micro: int)
    requires 0 <= hour < 24 && 0 <= minute < 60 && 0 <= second < 60 && 0 <= micro < 1_000_000
    ensures var time := hour * MicrosPerHour + minute * MicrosPerMinute + second * MicrosPerSecond + micro;
            && 0 <= time < MicrosPerDay
            && time / MicrosPerHour == hour
            && time % MicrosPerHour / MicrosPerMinute == minute
            && time % MicrosPerMinute / MicrosPerSecond == second
            && time % MicrosPerSecond == micro
  {
  }

  /** Adding whole days moves the day number and keeps the time of day. */
  lemma AddDays(t: int, n: int)
    ensures DayOf(t + n * MicrosPerDay) == DayOf(t) + n
    ensures TimeOfDay(t + n * MicrosPerDay) == TimeOfDay(t)
  {
  }

  /** An instant lies within its own day. */
  lemma InstantInDay(t: int)
    ensures StartOfDay(DayOf(t)) <= t < StartOfDay(DayOf(t)) + MicrosPerDay
    ensures t == StartOfDay(DayOf(t)) + TimeOfDay(t)
  {
  }

  // ---------------------------------------------------------------------
  // Month names

  const MonthNames: seq<string> :=
    ["January", "February", "March", "April", "May", "June",
     "July", "August", "September", "October", "November", "December"]
}
