/** The point-in-time queries of the `Shop` class: the holiday lookup, the weekly
    hours lookups for the day of an instant, `isOpen` and `isClosed`. All of them
    are pure: the class has no fields and the two tables are read-only. */
module OpeningHours {
  import opened Options
  import opened Calendar
  import opened Lists

  /** The weekly table: for each weekday, the keys of its config object in order,
      read as alternating opening and closing times. */
  type WeeklyHours = map<DayName, seq<Clock>>

  /** A whole-day closure from `start` to `end`; the table writes both as `DD-MM-YYYY`. */
  datatype Holiday = Holiday(start: CalendarDate, end: CalendarDate, description: string)

  /** The two configuration tables the class reads. */
  datatype Shop = Shop(times: WeeklyHours, holidays: seq<Holiday>)

  datatype ShopError = MissingDate

  // ---------------------------------------------------------------------------
  // Holidays

  /** `moment(parseDateString(start)).utc().subtract(1, 'seconds')`. */
  function HolidayLowerBound(h: Holiday): (lo: Instant)
    ensures DayOf(lo) == EpochDay(h.start) - 1 && lo - DayStart(DayOf(lo)) == EndOfDayOffset
  {
    var lo := DayStart(EpochDay(h.start)) - MsPerSecond;
    DayOfUnique(lo, EpochDay(h.start) - 1);
    lo
  }

  /** `moment(parseDateString(end, true)).utc()`: 23:59:59.000 of the last day. */
  function HolidayUpperBound(h: Holiday): (hi: Instant)
    ensures DayOf(hi) == EpochDay(h.end) && hi - DayStart(DayOf(hi)) == EndOfDayOffset
  {
    var hi := DayStart(EpochDay(h.end)) + EndOfDayOffset;
    DayOfUnique(hi, EpochDay(h.end));
    hi
  }

  /** `date.isBetween(start, end)`: both bounds exclusive. A date that does not
      exist parses to an invalid moment, and nothing lies between invalid bounds. */
  predicate Covers(h: Holiday, t: Instant)
  {
    ValidDate(h.start) && ValidDate(h.end) && HolidayLowerBound(h) < t < HolidayUpperBound(h)
  }

  /** Some holiday of the list covers `t`. */
  predicate OnHoliday(holidays: seq<Holiday>, t: Instant)
  {
    exists i | 0 <= i < |holidays| :: Covers(holidays[i], t)
  }

  /** The `holidays.find(...)` of `findActiveHoliday`, for a given instant. */
  function ActiveHoliday(holidays: seq<Holiday>, t: Instant): (r: Option<Holiday>)
    ensures r.Some? <==> OnHoliday(holidays, t)
    ensures r.Some? ==> r.value in holidays && Covers(r.value, t)
  {
    Find(holidays, h => Covers(h, t))
  }

  /** `findActiveHoliday(date)`: throws without a date, otherwise the first
      holiday in list order that covers it. */
  function FindActiveHoliday(holidays: seq<Holiday>, date: Option<Instant>): (r: Result<Option<Holiday>, ShopError>)
    ensures r.Err? <==> date.None?
    ensures r.Ok? ==> (r.value.Some? <==> OnHoliday(holidays, date.value))
    ensures r.Ok? && r.value.Some? ==> r.value.value in holidays && Covers(r.value.value, date.value)
  {
    match date
    case None => Err(MissingDate)
    case Some(t) => Ok(ActiveHoliday(holidays, t))
  }

  /** The holiday returned is the first that covers the instant. */
  lemma ActiveHolidayIsFirst(holidays: seq<Holiday>, t: Instant, i: int)
    requires 0 <= i < |holidays| && Covers(holidays[i], t)
    requires forall j | 0 <= j < i :: !Covers(holidays[j], t)
    ensures ActiveHoliday(holidays, t) == Some(holidays[i])
  {
    FindFirst(holidays, h => Covers(h, t), i);
  }

  /** A valid holiday covers every instant of its days up to 23:59:58.999 of the
      last one, and no instant of a day outside them before 23:59:59.001. */
  lemma CoversWholeDays(h: Holiday, t: Instant)
    requires ValidDate(h.start) && ValidDate(h.end)
    requires t - DayStart(DayOf(t)) < EndOfDayOffset
    ensures Covers(h, t) <==> EpochDay(h.start) <= DayOf(t) <= EpochDay(h.end)
  {
  }

  /** Boundary behaviour inherited from the one-second shift and the strict bounds:
      the last 999 ms before the first day already count as holiday, the final
      second of the last day (from 23:59:59.000) does not. */
  lemma HolidayEdges(h: Holiday)
    requires ValidDate(h.start) && ValidDate(h.end) && EpochDay(h.start) <= EpochDay(h.end)
    ensures Covers(h, DayStart(EpochDay(h.start)) - 999)
    ensures !Covers(h, DayStart(EpochDay(h.start)) - MsPerSecond)
    ensures Covers(h, DayStart(EpochDay(h.end)) + EndOfDayOffset - 1)
    ensures !Covers(h, DayStart(EpochDay(h.end)) + EndOfDayOffset)
  {
  }

  // ---------------------------------------------------------------------------
  // The weekly table for the day of an instant

  /** `dayHasOpenHours(date)`: the entry of the instant's weekday, or `false` when
      that weekday is missing from the table or has no keys. */
  function DayHasOpenHours(times: WeeklyHours, t: Instant): (r: Option<seq<Clock>>)
    ensures r.None? <==> WeekdayOf(DayOf(t)) !in times || times[WeekdayOf(DayOf(t))] == []
    ensures r.Some? ==> r.value == times[WeekdayOf(DayOf(t))]
  {
    var name := WeekdayOf(DayOf(t));
    if name !in times || times[name] == [] then None else Some(times[name])
  }

  /** `getStartEndTimePairs(dayObject)`: nothing for an absent entry, otherwise the
      keys cut into consecutive slices of two (the last one alone when their number is odd). */
  function StartEndTimePairs<T>(entry: Option<seq<T>>): (pairs: seq<seq<T>>)
    ensures entry.None? ==> pairs == []
    ensures entry.Some? ==> |pairs| == (|entry.value| + 1) / 2 && Flatten(pairs) == entry.value
    ensures entry.Some? ==> forall i | 0 <= i < |pairs| ::
      pairs[i] == entry.value[2 * i..SliceEnd(|entry.value|, i)]
      && (if 2 * i + 1 < |entry.value| then |pairs[i]| == 2 else |pairs[i]| == 1)
  {
    match entry
    case None => []
    case Some(keys) =>
      FlattenChunks(keys);
      Chunks(keys)
  }

  /** The time pairs of the instant's day. */
  function DayPairs(times: WeeklyHours, t: Instant): seq<seq<Clock>>
  {
    StartEndTimePairs(DayHasOpenHours(times, t))
  }

  /** `date.isBetween(open - 1s, close)` for a pair on the instant's day; a lone
      trailing key has no closing time, and an invalid bound contains nothing. */
  predicate WithinPair(t: Instant, pair: seq<Clock>)
  {
    |pair| == 2 && TimeOnDay(DayOf(t), pair[0]) - MsPerSecond < t < TimeOnDay(DayOf(t), pair[1])
  }

  /** `date.isBefore(open)`. */
  predicate OpensAfter(t: Instant, pair: seq<Clock>)
  {
    |pair| > 0 && t < TimeOnDay(DayOf(t), pair[0])
  }

  /** `date.isBefore(close)`, false for a lone trailing key. */
  predicate ClosesAfter(t: Instant, pair: seq<Clock>)
  {
    |pair| == 2 && t < TimeOnDay(DayOf(t), pair[1])
  }

  /** Some pair of the instant's day contains it. */
  predicate InsideSomePair(times: WeeklyHours, t: Instant)
  {
    exists i | 0 <= i < |DayPairs(times, t)| :: WithinPair(t, DayPairs(times, t)[i])
  }

  /** `getDaysCurrentOpenHours(date)`: the first pair of the day that contains the instant. */
  function DaysCurrentOpenHours(times: WeeklyHours, t: Instant): (r: Option<seq<Clock>>)
    ensures r.Some? <==> InsideSomePair(times, t)
    ensures r.Some? ==> r.value in DayPairs(times, t) && WithinPair(t, r.value)
  {
    if DayHasOpenHours(times, t).None? then None
    else Find(DayPairs(times, t), pair => WithinPair(t, pair))
  }

  /** `getDaysNextOpenHours(date)`: the first pair of the day that opens after the instant. */
  function DaysNextOpenHours(times: WeeklyHours, t: Instant): (r: Option<seq<Clock>>)
    ensures r.Some? <==> exists i | 0 <= i < |DayPairs(times, t)| :: OpensAfter(t, DayPairs(times, t)[i])
    ensures r.Some? ==> r.value in DayPairs(times, t) && OpensAfter(t, r.value)
  {
    if DayHasOpenHours(times, t).None? then None
    else Find(DayPairs(times, t), pair => OpensAfter(t, pair))
  }

  /** `getDaysOpenHours(date)`: the current pair if there is one, else the next one. */
  function DaysOpenHours(times: WeeklyHours, t: Instant): (r: Option<seq<Clock>>)
    ensures r.Some? <==> exists i | 0 <= i < |DayPairs(times, t)| ::
      WithinPair(t, DayPairs(times, t)[i]) || OpensAfter(t, DayPairs(times, t)[i])
    ensures r.Some? ==> r.value in DayPairs(times, t) && |r.value| > 0
    ensures InsideSomePair(times, t) ==> r.Some? && WithinPair(t, r.value)
    ensures !InsideSomePair(times, t) && r.Some? ==> OpensAfter(t, r.value)
  {
    var current := DaysCurrentOpenHours(times, t);
    if current.Some? then current else DaysNextOpenHours(times, t)
  }

  /** `getDaysNextClosedHours(date)`: the closing time of the first pair of the day
      that closes after the instant. */
  function DaysNextClosedHours(times: WeeklyHours, t: Instant): (r: Option<Clock>)
    ensures r.Some? <==> exists i | 0 <= i < |DayPairs(times, t)| :: ClosesAfter(t, DayPairs(times, t)[i])
    ensures r.Some? ==> t < TimeOnDay(DayOf(t), r.value)
    ensures r.Some? ==> exists pair | pair in DayPairs(times, t) :: ClosesAfter(t, pair) && pair[1] == r.value
  {
    if DayHasOpenHours(times, t).None? then None
    else
      var next := Find(DayPairs(times, t), pair => ClosesAfter(t, pair));
      if next.Some? then Some(next.value[1]) else None
  }

  /** The pair `getDaysCurrentOpenHours` returns is the first of the day, in list
      order, that contains the instant. */
  lemma CurrentOpenHoursIsFirst(times: WeeklyHours, t: Instant, i: int)
    requires 0 <= i < |DayPairs(times, t)| && WithinPair(t, DayPairs(times, t)[i])
    requires forall j | 0 <= j < i :: !WithinPair(t, DayPairs(times, t)[j])
    ensures DaysCurrentOpenHours(times, t) == Some(DayPairs(times, t)[i])
  {
    FindFirst(DayPairs(times, t), pair => WithinPair(t, pair), i);
  }

  /** The pair `getDaysNextOpenHours` returns is the first of the day, in list
      order, that opens after the instant. */
  lemma NextOpenHoursIsFirst(times: WeeklyHours, t: Instant, i: int)
    requires 0 <= i < |DayPairs(times, t)| && OpensAfter(t, DayPairs(times, t)[i])
    requires forall j | 0 <= j < i :: !OpensAfter(t, DayPairs(times, t)[j])
    ensures DaysNextOpenHours(times, t) == Some(DayPairs(times, t)[i])
  {
    FindFirst(DayPairs(times, t), pair => OpensAfter(t, pair), i);
  }

  /** `getDaysOpenHours` returns the first containing pair when there is one. */
  lemma OpenHoursIsFirstCurrent(times: WeeklyHours, t: Instant, i: int)
    requires 0 <= i < |DayPairs(times, t)| && WithinPair(t, DayPairs(times, t)[i])
    requires forall j | 0 <= j < i :: !WithinPair(t, DayPairs(times, t)[j])
    ensures DaysOpenHours(times, t) == Some(DayPairs(times, t)[i])
  {
    CurrentOpenHoursIsFirst(times, t, i);
  }

  /** With no containing pair, `getDaysOpenHours` returns the first pair that
      opens after the instant. */
  lemma OpenHoursIsFirstNext(times: WeeklyHours, t: Instant, i: int)
    requires !InsideSomePair(times, t)
    requires 0 <= i < |DayPairs(times, t)| && OpensAfter(t, DayPairs(times, t)[i])
    requires forall j | 0 <= j < i :: !OpensAfter(t, DayPairs(times, t)[j])
    ensures DaysOpenHours(times, t) == Some(DayPairs(times, t)[i])
  {
    NextOpenHoursIsFirst(times, t, i);
  }

  /** The key `getDaysNextClosedHours` returns is the closing key of the first
      pair of the day, in list order, that closes after the instant. */
  lemma NextClosedHoursIsFirst(times: WeeklyHours, t: Instant, i: int)
    requires 0 <= i < |DayPairs(times, t)| && ClosesAfter(t, DayPairs(times, t)[i])
    requires forall j | 0 <= j < i :: !ClosesAfter(t, DayPairs(times, t)[j])
    ensures DaysNextClosedHours(times, t) == Some(DayPairs(times, t)[i][1])
  {
    FindFirst(DayPairs(times, t), pair => ClosesAfter(t, pair), i);
  }

  /** The configuration invariant the weekly table is meant to keep: every entry
      has an even number of keys, in strictly increasing time order, so that the
      pairs are disjoint opening windows listed in the order of the day. */
  predicate Chronological(keys: seq<Clock>)
  {
    forall i, j | 0 <= i < j < |keys| :: MinuteOfDay(keys[i]) < MinuteOfDay(keys[j])
  }

  predicate WellFormed(times: WeeklyHours)
  {
    forall name | name in times :: |times[name]| % 2 == 0 && Chronological(times[name])
  }

  /** In an even key list the `i`-th slice is the keys at `2 * i` and `2 * i + 1`. */
  lemma EvenPair(keys: seq<Clock>, i: int)
    requires |keys| % 2 == 0 && 0 <= i < |Chunks(keys)|
    ensures 2 * i + 1 < |keys| && Chunks(keys)[i] == [keys[2 * i], keys[2 * i + 1]]
  {
    var m := |keys| / 2;
    assert |keys| == 2 * m && (|keys| + 1) / 2 == m;
    assert SliceEnd(|keys|, i) == 2 * i + 2;
  }

  /** The slices of an even, increasing key list are opening keys followed by
      later closing keys, each slice closing before the next one opens. */
  lemma ChronologicalPairs(keys: seq<Clock>, i: int)
    requires |keys| % 2 == 0 && Chronological(keys) && 0 <= i < |Chunks(keys)|
    ensures |Chunks(keys)[i]| == 2
    ensures MinuteOfDay(Chunks(keys)[i][0]) < MinuteOfDay(Chunks(keys)[i][1])
    ensures forall j | i < j < |Chunks(keys)| ::
      |Chunks(keys)[j]| == 2 && MinuteOfDay(Chunks(keys)[i][1]) < MinuteOfDay(Chunks(keys)[j][0])
  {
    var pairs := Chunks(keys);
    EvenPair(keys, i);
    forall j | i < j < |pairs|
      ensures |pairs[j]| == 2 && MinuteOfDay(pairs[i][1]) < MinuteOfDay(pairs[j][0])
    {
      EvenPair(keys, j);
      assert 2 * i + 1 < 2 * j;
    }
  }

  /** In a well-formed table every pair is an opening key followed by a later
      closing key, and each pair closes before the next one opens. */
  lemma WellFormedPairs(times: WeeklyHours, t: Instant, i: int)
    requires WellFormed(times) && 0 <= i < |DayPairs(times, t)|
    ensures |DayPairs(times, t)[i]| == 2
    ensures MinuteOfDay(DayPairs(times, t)[i][0]) < MinuteOfDay(DayPairs(times, t)[i][1])
    ensures forall j | i < j < |DayPairs(times, t)| ::
      |DayPairs(times, t)[j]| == 2 && MinuteOfDay(DayPairs(times, t)[i][1]) < MinuteOfDay(DayPairs(times, t)[j][0])
  {
    var keys := DayHasOpenHours(times, t).value;
    assert DayPairs(times, t) == Chunks(keys);
    ChronologicalPairs(keys, i);
  }

  /** Instants of the same day see the same pairs. */
  lemma SameDayPairs(times: WeeklyHours, u: Instant, v: Instant)
    requires DayOf(u) == DayOf(v)
    ensures DayPairs(times, u) == DayPairs(times, v)
    ensures DayHasOpenHours(times, u) == DayHasOpenHours(times, v)
  {
  }

  /** Two instants of the same day before 23:59:59.000 are on holiday together or not at all. */
  lemma SameDayHoliday(holidays: seq<Holiday>, u: Instant, v: Instant)
    requires DayOf(u) == DayOf(v)
    requires u - DayStart(DayOf(u)) < EndOfDayOffset && v - DayStart(DayOf(v)) < EndOfDayOffset
    ensures OnHoliday(holidays, u) <==> OnHoliday(holidays, v)
  {
    forall i | 0 <= i < |holidays| && ValidDate(holidays[i].start) && ValidDate(holidays[i].end)
      ensures Covers(holidays[i], u) <==> Covers(holidays[i], v)
    {
      CoversWholeDays(holidays[i], u);
      CoversWholeDays(holidays[i], v);
    }
  }

  // ---------------------------------------------------------------------------
  // isOpen and isClosed

  /** `isOpen(date)`: never during a holiday; otherwise exactly when a pair of the
      day contains the instant. (The source returns the pair, which is truthy.) */
  function IsOpen(shop: Shop, t: Instant): (open: bool)
    ensures open <==> !OnHoliday(shop.holidays, t) && InsideSomePair(shop.times, t)
  {
    if ActiveHoliday(shop.holidays, t).Some? then false
    else DaysCurrentOpenHours(shop.times, t).Some?
  }

  /** `isClosed(date)`: the negation of `isOpen`. */
  function IsClosed(shop: Shop, t: Instant): (closed: bool)
    ensures closed <==> OnHoliday(shop.holidays, t) || !InsideSomePair(shop.times, t)
    ensures closed != IsOpen(shop, t)
  {
    !IsOpen(shop, t)
  }

  /** Holidays override the weekly hours. */
  lemma ClosedOnHoliday(shop: Shop, t: Instant, i: int)
    requires 0 <= i < |shop.holidays| && Covers(shop.holidays[i], t)
    ensures !IsOpen(shop, t) && IsClosed(shop, t)
  {
  }

  /** Without any entry for the weekday the shop is closed all day. */
  lemma ClosedWithoutEntry(shop: Shop, t: Instant)
    requires DayHasOpenHours(shop.times, t).None?
    ensures !IsOpen(shop, t)
    ensures DaysCurrentOpenHours(shop.times, t).None? && DaysNextOpenHours(shop.times, t).None?
    ensures DaysOpenHours(shop.times, t).None? && DaysNextClosedHours(shop.times, t).None?
  {
  }

  /** The open side of `isBetween(open - 1s, close)` at millisecond resolution: the
      shop counts as open from 999 ms before an opening time that is not midnight,
      and no longer inside the pair at its closing time. */
  lemma OpeningEdges(shop: Shop, t: Instant, pair: seq<Clock>)
    requires pair in DayPairs(shop.times, t) && |pair| == 2
    requires 0 < MinuteOfDay(pair[0]) < MinuteOfDay(pair[1])
    requires !OnHoliday(shop.holidays, TimeOnDay(DayOf(t), pair[0]) - 999)
    ensures IsOpen(shop, TimeOnDay(DayOf(t), pair[0]) - 999)
    ensures !WithinPair(TimeOnDay(DayOf(t), pair[1]), pair)
  {
    var day := DayOf(t);
    var early := TimeOnDay(day, pair[0]) - 999;
    TimeOnDayMonotone(day, pair[0], pair[1]);
    DayOfUnique(early, day);
    assert DayPairs(shop.times, early) == DayPairs(shop.times, t);
    assert WithinPair(early, pair);
  }
}
