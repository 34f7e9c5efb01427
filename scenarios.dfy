/** The behaviour the repository's tests describe, on a shop open Mondays and
    Thursdays 09:00-12:00 and 13:30-17:00, closed Sundays (an empty entry), and
    closed for New Year's Day 2020. */
module Scenarios {
  import opened Options
  import opened Calendar
  import opened OpeningHours
  import opened Transitions

  const Hours: seq<Clock> := [Clock(9, 0), Clock(12, 0), Clock(13, 30), Clock(17, 0)]
  const NewYear: Holiday := Holiday(CalendarDate(2020, 1, 1), CalendarDate(2020, 1, 1), "New Year")
  const Store: Shop := Shop(map[Monday := Hours, Thursday := Hours, Sunday := []], [NewYear])

  /** Day numbers of the dates the tests use. */
  const NewYearsDay: int := 18262
  const SundayFeb16: int := 18308
  const MondayFeb17: int := 18309

  /** The instant `hour:minute` UTC on a day. */
  function TimeOf(day: int, hour: Hour, minute: MinuteOfHour): Instant
  {
    TimeOnDay(day, Clock(hour, minute))
  }

  lemma DayNumbers()
    ensures EpochDay(CalendarDate(2020, 1, 1)) == NewYearsDay
    ensures EpochDay(CalendarDate(2020, 2, 16)) == SundayFeb16
    ensures EpochDay(CalendarDate(2020, 2, 17)) == MondayFeb17
  {
    assert MarchFirstDay(2019) == 17956;
    assert DaysBeforeMonth(1) == 306 && DaysBeforeMonth(2) == 337;
  }

  lemma Weekdays()
    ensures WeekdayOf(NewYearsDay) == Wednesday && WeekdayOf(NewYearsDay + 1) == Thursday
    ensures WeekdayOf(SundayFeb16) == Sunday && WeekdayOf(MondayFeb17) == Monday
  {
  }

  lemma StoreIsWellFormed()
    ensures WellFormed(Store.times)
  {
  }

  /** Away from New Year's Day nothing is on holiday. */
  lemma NoHolidayAfterNewYear(t: Instant)
    requires DayOf(t) > NewYearsDay
    ensures !OnHoliday(Store.holidays, t)
  {
    DayNumbers();
  }

  /** The pairs of a Monday or Thursday. */
  lemma OpenDayPairs(t: Instant)
    requires WeekdayOf(DayOf(t)) == Monday || WeekdayOf(DayOf(t)) == Thursday
    ensures DayPairs(Store.times, t) == [[Clock(9, 0), Clock(12, 0)], [Clock(13, 30), Clock(17, 0)]]
  {
    assert DayHasOpenHours(Store.times, t) == Some(Hours);
    var pairs := DayPairs(Store.times, t);
    assert |pairs| == 2;
    assert pairs[0] == Hours[0..2] == [Clock(9, 0), Clock(12, 0)];
    assert pairs[1] == Hours[2..4] == [Clock(13, 30), Clock(17, 0)];
    assert pairs == [pairs[0], pairs[1]];
  }

  /** Closed all Sunday, whose entry is empty: `nextClosed` is the instant itself. */
  lemma SundayClosed(hour: Hour, minute: MinuteOfHour, maxAdvances: nat)
    ensures !IsOpen(Store, TimeOf(SundayFeb16, hour, minute))
    ensures NextClosedResult(Store, TimeOf(SundayFeb16, hour, minute), maxAdvances) == At(TimeOf(SundayFeb16, hour, minute))
  {
    Weekdays();
    ClosedWithoutEntry(Store, TimeOf(SundayFeb16, hour, minute));
  }

  /** Closed on a Monday before 08:59:59; `nextOpen` is 09:00 the same day. */
  lemma MondayBeforeNine(t: Instant, maxAdvances: nat)
    requires DayOf(t) == MondayFeb17 && t <= TimeOf(MondayFeb17, 9, 0) - MsPerSecond
    ensures !IsOpen(Store, t)
    ensures NextOpenResult(Store, t, maxAdvances) == At(TimeOf(MondayFeb17, 9, 0))
  {
    Weekdays();
    OpenDayPairs(t);
    NoHolidayAfterNewYear(t);
    var pairs := DayPairs(Store.times, t);
    TimeOnDayMonotone(MondayFeb17, Clock(9, 0), Clock(13, 30));
    assert !WithinPair(t, pairs[0]) && !WithinPair(t, pairs[1]);
    assert OpensAfter(t, pairs[0]);
    NextOpenSameDay(Store, t, maxAdvances);
  }

  /** Closed at 08:00 on a Monday; opens at 09:00. */
  lemma MondayBeforeOpening(maxAdvances: nat)
    ensures !IsOpen(Store, TimeOf(MondayFeb17, 8, 0))
    ensures NextOpenResult(Store, TimeOf(MondayFeb17, 8, 0), maxAdvances) == At(TimeOf(MondayFeb17, 9, 0))
  {
    MondayBeforeNine(TimeOf(MondayFeb17, 8, 0), maxAdvances);
  }

  /** Closed at midnight on a Monday; opens at 09:00. */
  lemma MondayMidnightClosed(maxAdvances: nat)
    ensures !IsOpen(Store, TimeOf(MondayFeb17, 0, 0))
    ensures NextOpenResult(Store, TimeOf(MondayFeb17, 0, 0), maxAdvances) == At(TimeOf(MondayFeb17, 9, 0))
  {
    TimeOnDayMonotone(MondayFeb17, Clock(0, 0), Clock(9, 0));
    MondayBeforeNine(TimeOf(MondayFeb17, 0, 0), maxAdvances);
  }

  /** Open at 10:00 in the morning pair; `nextOpen` is the instant itself. */
  lemma MondayTenOpen(maxAdvances: nat)
    ensures IsOpen(Store, TimeOf(MondayFeb17, 10, 0))
    ensures NextOpenResult(Store, TimeOf(MondayFeb17, 10, 0), maxAdvances) == At(TimeOf(MondayFeb17, 10, 0))
  {
    var t := TimeOf(MondayFeb17, 10, 0);
    Weekdays();
    OpenDayPairs(t);
    NoHolidayAfterNewYear(t);
    assert WithinPair(t, DayPairs(Store.times, t)[0]);
  }

  /** Open inside the morning pair; `nextOpen` is then the instant itself, and
      `nextClosed` the end of the morning pair. */
  lemma MondayMorningOpen(maxAdvances: nat)
    ensures IsOpen(Store, TimeOf(MondayFeb17, 11, 0))
    ensures NextOpenResult(Store, TimeOf(MondayFeb17, 11, 0), maxAdvances) == At(TimeOf(MondayFeb17, 11, 0))
    ensures NextClosedResult(Store, TimeOf(MondayFeb17, 11, 0), maxAdvances) == At(TimeOf(MondayFeb17, 12, 0))
  {
    var t := TimeOf(MondayFeb17, 11, 0);
    Weekdays();
    OpenDayPairs(t);
    NoHolidayAfterNewYear(t);
    assert WithinPair(t, DayPairs(Store.times, t)[0]);
    NextClosedWhenOpen(Store, t, maxAdvances);
  }

  /** Closed over lunch; opens again at 13:30. */
  lemma MondayLunchClosed(maxAdvances: nat)
    ensures !IsOpen(Store, TimeOf(MondayFeb17, 13, 0))
    ensures NextOpenResult(Store, TimeOf(MondayFeb17, 13, 0), maxAdvances) == At(TimeOf(MondayFeb17, 13, 30))
  {
    var t := TimeOf(MondayFeb17, 13, 0);
    Weekdays();
    OpenDayPairs(t);
    NoHolidayAfterNewYear(t);
    var pairs := DayPairs(Store.times, t);
    assert !WithinPair(t, pairs[0]) && !WithinPair(t, pairs[1]);
    assert !OpensAfter(t, pairs[0]) && OpensAfter(t, pairs[1]);
    NextOpenSameDay(Store, t, maxAdvances);
  }

  /** Open in the afternoon pair; closes at 17:00. */
  lemma MondayAfternoonClose(maxAdvances: nat)
    ensures IsOpen(Store, TimeOf(MondayFeb17, 14, 0))
    ensures NextClosedResult(Store, TimeOf(MondayFeb17, 14, 0), maxAdvances) == At(TimeOf(MondayFeb17, 17, 0))
  {
    var t := TimeOf(MondayFeb17, 14, 0);
    Weekdays();
    OpenDayPairs(t);
    NoHolidayAfterNewYear(t);
    var pairs := DayPairs(Store.times, t);
    assert WithinPair(t, pairs[1]) && !ClosesAfter(t, pairs[0]);
    NextClosedWhenOpen(Store, t, maxAdvances);
  }

  /** Closed at 12:20, after the morning pair; opens again at 13:30. */
  lemma MondayAfterMorningClosed(maxAdvances: nat)
    ensures !IsOpen(Store, TimeOf(MondayFeb17, 12, 20))
    ensures NextOpenResult(Store, TimeOf(MondayFeb17, 12, 20), maxAdvances) == At(TimeOf(MondayFeb17, 13, 30))
  {
    var t := TimeOf(MondayFeb17, 12, 20);
    Weekdays();
    OpenDayPairs(t);
    NoHolidayAfterNewYear(t);
    var pairs := DayPairs(Store.times, t);
    assert !WithinPair(t, pairs[0]) && !WithinPair(t, pairs[1]);
    assert !OpensAfter(t, pairs[0]) && OpensAfter(t, pairs[1]);
    NextOpenSameDay(Store, t, maxAdvances);
  }

  /** Closed in the evening: `nextClosed` is the instant itself. */
  lemma MondayEveningClosed(maxAdvances: nat)
    ensures NextClosedResult(Store, TimeOf(MondayFeb17, 19, 0), maxAdvances) == At(TimeOf(MondayFeb17, 19, 0))
  {
    var t := TimeOf(MondayFeb17, 19, 0);
    Weekdays();
    OpenDayPairs(t);
    var pairs := DayPairs(Store.times, t);
    assert !WithinPair(t, pairs[0]) && !WithinPair(t, pairs[1]);
  }

  /** In the first minute of a Monday or Thursday after New Year's Day the search
      stops: the shop opens at 09:00. */
  lemma EarlyOnOpenDay(c: Instant)
    requires WeekdayOf(DayOf(c)) == Monday || WeekdayOf(DayOf(c)) == Thursday
    requires DayOf(c) > NewYearsDay && c - DayStart(DayOf(c)) < MsPerMinute
    ensures !SkipForOpen(Store, c)
    ensures DaysOpenHours(Store.times, c).value[0] == Clock(9, 0)
  {
    OpenDayPairs(c);
    NoHolidayAfterNewYear(c);
    var pairs := DayPairs(Store.times, c);
    assert OpensAfter(c, pairs[0]);
    assert !WithinPair(c, pairs[0]) && !WithinPair(c, pairs[1]);
  }

  /** From any instant of a Sunday the search moves one day, to Monday 09:00. */
  lemma SundayRollsToMonday(t: Instant, maxAdvances: nat)
    requires DayOf(t) == SundayFeb16 && maxAdvances >= 1
    ensures NextOpenResult(Store, t, maxAdvances) == At(TimeOf(MondayFeb17, 9, 0))
  {
    Weekdays();
    ClosedWithoutEntry(Store, t);
    EarlyOnOpenDay(AdvanceDay(t));
    NextOpenNextDay(Store, t, maxAdvances);
  }

  /** The New Year holiday runs from 1 second before midnight of 1 January 2020 to
      23:59:59.000 that day, both bounds excluded. */
  lemma NewYearBounds()
    ensures ValidDate(NewYear.start) && ValidDate(NewYear.end)
    ensures HolidayLowerBound(NewYear) == DayStart(NewYearsDay) - MsPerSecond
    ensures HolidayUpperBound(NewYear) == DayStart(NewYearsDay) + EndOfDayOffset
  {
    DayNumbers();
  }

  /** Up to 23:59:59 of New Year's Day the holiday is found. */
  lemma NewYearOnHoliday(t: Instant)
    requires DayOf(t) == NewYearsDay && t - DayStart(NewYearsDay) < EndOfDayOffset
    ensures ActiveHoliday(Store.holidays, t) == Some(NewYear)
  {
    NewYearBounds();
    assert Covers(Store.holidays[0], t);
    ActiveHolidayIsFirst(Store.holidays, t, 0);
  }

  /** So the shop is closed then, and `nextClosed` is the instant itself. */
  lemma NewYearClosed(t: Instant, maxAdvances: nat)
    requires DayOf(t) == NewYearsDay && t - DayStart(NewYearsDay) < EndOfDayOffset
    ensures !IsOpen(Store, t)
    ensures NextClosedResult(Store, t, maxAdvances) == At(t)
  {
    NewYearOnHoliday(t);
  }

  /** New Year's Day is skipped by the search: on holiday up to 23:59:59, and a
      Wednesday without hours after that. */
  lemma NewYearSkipped(t: Instant)
    requires DayOf(t) == NewYearsDay
    ensures SkipForOpen(Store, t) && !IsOpen(Store, t)
  {
    if t - DayStart(NewYearsDay) < EndOfDayOffset {
      NewYearOnHoliday(t);
    } else {
      Weekdays();
      ClosedWithoutEntry(Store, t);
    }
  }

  /** From any instant of New Year's Day `nextOpen` moves to Thursday 2 January, 09:00. */
  lemma NewYearRollsToThursday(t: Instant, maxAdvances: nat)
    requires DayOf(t) == NewYearsDay && maxAdvances >= 1
    ensures NextOpenResult(Store, t, maxAdvances) == At(TimeOf(NewYearsDay + 1, 9, 0))
  {
    NewYearSkipped(t);
    var next := AdvanceDay(t);
    Weekdays();
    EarlyOnOpenDay(next);
    NextOpenNextDay(Store, t, maxAdvances);
  }

  /** A holiday on a normally open weekday and time closes the shop and is the one reported. */
  lemma HolidayOverridesHours(maxAdvances: nat)
    ensures !IsOpen(Shop(Store.times, [Holiday(CalendarDate(2020, 2, 17), CalendarDate(2020, 2, 17), "Closed")]), TimeOf(MondayFeb17, 11, 0))
    ensures FindActiveHoliday([Holiday(CalendarDate(2020, 2, 17), CalendarDate(2020, 2, 17), "Closed")], Some(TimeOf(MondayFeb17, 11, 0)))
         == Ok(Some(Holiday(CalendarDate(2020, 2, 17), CalendarDate(2020, 2, 17), "Closed")))
  {
    var h := Holiday(CalendarDate(2020, 2, 17), CalendarDate(2020, 2, 17), "Closed");
    var t := TimeOf(MondayFeb17, 11, 0);
    DayNumbers();
    assert Covers(h, t);
    ActiveHolidayIsFirst([h], t, 0);
    ClosedOnHoliday(Shop(Store.times, [h]), t, 0);
  }
}
