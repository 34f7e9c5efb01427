/** UTC time arithmetic that replaces the moment library: instants as integer
    milliseconds since 1970-01-01T00:00:00.000Z, day numbers, weekday names,
    civil dates and times of day. */
module Calendar {

  /** Milliseconds since the Unix epoch, in UTC (negative before 1970). */
  type Instant = int

  const MsPerSecond: int := 1000
  const MsPerMinute: int := 60000
  const MsPerDay: int := 86400000
  /** Offset of 23:59:59.000 from midnight. */
  const EndOfDayOffset: int := 86399000
  /** Offset of 23:59:00.000, the latest time a `HH:mm` key can name. */
  const LastMinuteOffset: int := 86340000

  /** The UTC day an instant falls on; day 0 is 1970-01-01. */
  function DayOf(t: Instant): (day: int)
    ensures DayStart(day) <= t < DayStart(day + 1)
  {
    t / MsPerDay
  }

  /** Midnight (00:00:00.000 UTC) of a day. */
  function DayStart(day: int): Instant
  {
    day * MsPerDay
  }

  lemma DayOfUnique(t: Instant, day: int)
    requires DayStart(day) <= t < DayStart(day + 1)
    ensures DayOf(t) == day
  {
  }

  /** What `format('dddd')` prints for a UTC moment. */
  datatype DayName = Sunday | Monday | Tuesday | Wednesday | Thursday | Friday | Saturday

  /** Position in the week, counted from Sunday. */
  function DayIndex(name: DayName): (i: int)
    ensures 0 <= i < 7
  {
    match name
    case Sunday => 0
    case Monday => 1
    case Tuesday => 2
    case Wednesday => 3
    case Thursday => 4
    case Friday => 5
    case Saturday => 6
  }

  /** The weekday of a day number: 1970-01-01 (day 0) was a Thursday. */
  function WeekdayOf(day: int): (name: DayName)
    ensures DayIndex(name) == (day + 4) % 7
  {
    var i := (day + 4) % 7;
    if i == 0 then Sunday
    else if i == 1 then Monday
    else if i == 2 then Tuesday
    else if i == 3 then Wednesday
    else if i == 4 then Thursday
    else if i == 5 then Friday
    else Saturday
  }

  lemma DayIndexInjective(a: DayName, b: DayName)
    requires DayIndex(a) == DayIndex(b)
    ensures a == b
  {
  }

  /** Every weekday comes round again within the seven days from any day. */
  lemma WeekdayWithinAWeek(from: int, name: DayName) returns (day: int)
    ensures from <= day < from + 7
    ensures WeekdayOf(day) == name
  {
    day := from + (DayIndex(name) - (from + 4) % 7 + 7) % 7;
    DayIndexInjective(WeekdayOf(day), name);
  }

  type Year = y: int | 0 <= y <= 9999
  type Month = m: int | 1 <= m <= 12 witness 1
  type DayOfMonth = d: int | 1 <= d <= 31 witness 1

  /** A Gregorian calendar date, as the holiday table and `YYYY-MM-DD` strings name it. */
  datatype CalendarDate = CalendarDate(year: Year, month: Month, day: DayOfMonth)

  predicate IsLeapYear(y: int)
  {
    y % 4 == 0 && (y % 100 != 0 || y % 400 == 0)
  }

  function DaysInMonth(y: int, m: Month): (n: int)
    ensures 28 <= n <= 31
  {
    if m == 2 then (if IsLeapYear(y) then 29 else 28)
    else if m == 4 || m == 6 || m == 9 || m == 11 then 30
    else 31
  }

  /** A date that exists (not the 30th of February); others parse to an invalid moment. */
  predicate ValidDate(d: CalendarDate)
  {
    d.day <= DaysInMonth(d.year, d.month)
  }

  /** The day number of a date's midnight UTC (proleptic Gregorian calendar),
      counting years from March so that the leap day ends the counted year. */
  function EpochDay(d: CalendarDate): int
  {
    var y := if d.month <= 2 then d.year - 1 else d.year;
    MarchFirstDay(y) + DaysBeforeMonth(d.month) + d.day - 1
  }

  /** Day number of 1 March of year `y`. */
  function MarchFirstDay(y: int): int
  {
    var era := y / 400;
    var yearOfEra := y - era * 400;
    era * 146097 + yearOfEra * 365 + yearOfEra / 4 - yearOfEra / 100 - 719468
  }

  /** From 1 March of one year to the next there are 366 days when the later year is a leap year. */
  lemma MarchToMarch(y: int)
    ensures MarchFirstDay(y) - MarchFirstDay(y - 1) == if IsLeapYear(y) then 366 else 365
  {
    var e, r := y / 400, y % 400;
    assert y == 400 * e + r;
    if r == 0 {
      EraBoundary(y, e);
    } else {
      WithinEra(y, e, r);
    }
  }

  lemma EraBoundary(y: int, e: int)
    requires y == 400 * e
    ensures MarchFirstDay(y) - MarchFirstDay(y - 1) == 366 && IsLeapYear(y)
  {
    DivBy400(y, e, 0);
    DivBy400(y - 1, e - 1, 399);
    Remainders(y, e, 0);
  }

  lemma WithinEra(y: int, e: int, r: int)
    requires y == 400 * e + r && 0 < r < 400
    ensures MarchFirstDay(y) - MarchFirstDay(y - 1) == if IsLeapYear(y) then 366 else 365
  {
    DivBy400(y, e, r);
    DivBy400(y - 1, e, r - 1);
    Remainders(y, e, r);
    assert r / 4 - (r - 1) / 4 == if r % 4 == 0 then 1 else 0;
    assert r / 100 - (r - 1) / 100 == if r % 100 == 0 then 1 else 0;
  }

  lemma DivBy400(y: int, q: int, r: int)
    requires y == 400 * q + r && 0 <= r < 400
    ensures y / 400 == q && y % 400 == r
  {
  }

  /** A year's leap-ness depends only on its position in the 400-year cycle. */
  lemma Remainders(y: int, q: int, r: int)
    requires y == 400 * q + r && 0 <= r < 400
    ensures y % 4 == r % 4 && y % 100 == r % 100 && y % 400 == r
  {
    ModBy4(y, 100 * q + r / 4, r % 4);
    ModBy100(y, 4 * q + r / 100, r % 100);
  }

  lemma ModBy4(y: int, q: int, r: int)
    requires y == 4 * q + r && 0 <= r < 4
    ensures y % 4 == r
  {
  }

  lemma ModBy100(y: int, q: int, r: int)
    requires y == 100 * q + r && 0 <= r < 100
    ensures y % 100 == r
  {
  }

  /** Days from 1 March to the first of each month, counting from March. */
  function DaysBeforeMonth(m: Month): int
  {
    (153 * ((m + 9) % 12) + 2) / 5
  }

  lemma MonthLengths(m: Month)
    requires m != 2 && m != 12
    ensures DaysBeforeMonth(m + 1) - DaysBeforeMonth(m) == DaysInMonth(0, m)
  {
    if m == 1 { assert DaysBeforeMonth(1) == 306 && DaysBeforeMonth(2) == 337; }
    else if m == 3 { assert DaysBeforeMonth(3) == 0 && DaysBeforeMonth(4) == 31; }
    else if m == 4 { assert DaysBeforeMonth(4) == 31 && DaysBeforeMonth(5) == 61; }
    else if m == 5 { assert DaysBeforeMonth(5) == 61 && DaysBeforeMonth(6) == 92; }
    else if m == 6 { assert DaysBeforeMonth(6) == 92 && DaysBeforeMonth(7) == 122; }
    else if m == 7 { assert DaysBeforeMonth(7) == 122 && DaysBeforeMonth(8) == 153; }
    else if m == 8 { assert DaysBeforeMonth(8) == 153 && DaysBeforeMonth(9) == 184; }
    else if m == 9 { assert DaysBeforeMonth(9) == 184 && DaysBeforeMonth(10) == 214; }
    else if m == 10 { assert DaysBeforeMonth(10) == 214 && DaysBeforeMonth(11) == 245; }
    else { assert DaysBeforeMonth(11) == 245 && DaysBeforeMonth(12) == 275; }
  }

  /** The date after a valid date. */
  function NextDate(d: CalendarDate): (r: CalendarDate)
    requires ValidDate(d) && (d.year < 9999 || d.month < 12 || d.day < 31)
    ensures ValidDate(r)
  {
    if d.day < DaysInMonth(d.year, d.month) then CalendarDate(d.year, d.month, d.day + 1)
    else if d.month < 12 then CalendarDate(d.year, d.month + 1, 1)
    else CalendarDate(d.year + 1, 1, 1)
  }

  /** Consecutive dates have consecutive day numbers, so `EpochDay` counts days. */
  lemma EpochDayOfNextDate(d: CalendarDate)
    requires ValidDate(d) && (d.year < 9999 || d.month < 12 || d.day < 31)
    ensures EpochDay(NextDate(d)) == EpochDay(d) + 1
  {
    if d.day < DaysInMonth(d.year, d.month) {
      WithinMonth(d);
    } else if d.month == 2 {
      EndOfFebruary(d);
    } else if d.month < 12 {
      EndOfMonth(d);
    } else {
      EndOfYear(d);
    }
  }

  lemma WithinMonth(d: CalendarDate)
    requires ValidDate(d) && d.day < DaysInMonth(d.year, d.month)
    ensures EpochDay(NextDate(d)) == EpochDay(d) + 1
  {
    var next := CalendarDate(d.year, d.month, d.day + 1);
    assert NextDate(d) == next;
    assert EpochDay(next) == EpochDay(d) + 1;
  }

  lemma EndOfFebruary(d: CalendarDate)
    requires d.month == 2 && d.day == DaysInMonth(d.year, 2)
    ensures EpochDay(CalendarDate(d.year, 3, 1)) == EpochDay(d) + 1
  {
    MarchToMarch(d.year);
    assert DaysBeforeMonth(2) == 337 && DaysBeforeMonth(3) == 0;
  }

  lemma EndOfMonth(d: CalendarDate)
    requires d.month != 2 && d.month < 12 && d.day == DaysInMonth(d.year, d.month)
    ensures EpochDay(CalendarDate(d.year, d.month + 1, 1)) == EpochDay(d) + 1
  {
    MonthLengths(d.month);
    assert DaysInMonth(d.year, d.month) == DaysInMonth(0, d.month);
  }

  lemma EndOfYear(d: CalendarDate)
    requires d.month == 12 && d.day == 31 && d.year < 9999
    ensures EpochDay(CalendarDate(d.year + 1, 1, 1)) == EpochDay(d) + 1
  {
    assert DaysBeforeMonth(1) == 306 && DaysBeforeMonth(12) == 275;
  }

  type Hour = h: int | 0 <= h < 24
  type MinuteOfHour = m: int | 0 <= m < 60

  /** A `HH:mm` key of the weekly hours table. */
  datatype Clock = Clock(hour: Hour, minute: MinuteOfHour)

  function MinuteOfDay(c: Clock): (m: int)
    ensures 0 <= m < 1440
  {
    c.hour * 60 + c.minute
  }

  /** The instant that `<YYYY-MM-DD of day>T<HH:mm>:00.000Z` denotes. */
  function TimeOnDay(day: int, c: Clock): (t: Instant)
    ensures DayOf(t) == day
    ensures DayStart(day) <= t <= DayStart(day) + LastMinuteOffset
  {
    var t := DayStart(day) + MinuteOfDay(c) * MsPerMinute;
    DayOfUnique(t, day);
    t
  }

  /** Later keys name later instants on the same day. */
  lemma TimeOnDayMonotone(day: int, a: Clock, b: Clock)
    ensures MinuteOfDay(a) < MinuteOfDay(b) <==> TimeOnDay(day, a) < TimeOnDay(day, b)
    ensures MinuteOfDay(a) < MinuteOfDay(b) ==> TimeOnDay(day, a) + MsPerMinute <= TimeOnDay(day, b)
  {
  }

  /** `date.add(1, 'days'); date.set({ h: 0, m: 0 })` on a UTC moment: midnight of
      the next day, keeping the cursor's seconds and milliseconds. */
  function AdvanceDay(cursor: Instant): (r: Instant)
    ensures DayOf(r) == DayOf(cursor) + 1
    ensures r % MsPerMinute == cursor % MsPerMinute
    ensures DayStart(DayOf(r)) <= r < DayStart(DayOf(r)) + MsPerMinute
    ensures r > cursor
  {
    var day := DayOf(cursor) + 1;
    var r := DayStart(day) + cursor % MsPerMinute;
    DayOfUnique(r, day);
    WholeMinutes(day * 1440, cursor % MsPerMinute);
    r
  }

  /** Adding whole minutes leaves the milliseconds past the minute unchanged. */
  lemma WholeMinutes(m: int, x: int)
    requires 0 <= x < MsPerMinute
    ensures (m * MsPerMinute + x) % MsPerMinute == x
  {
  }
}
