/** `nextOpen` and `nextClosed`: the forward searches of the `Shop` class. Each
    moves a moment cursor forward day by day in a `while` loop. The loop bound
    `maxAdvances` is added by the model: the source loops for as long as it
    takes, which is forever for some tables. */
module Transitions {
  import opened Options
  import opened Calendar
  import opened Lists
  import opened OpeningHours

  /** What a search gives back: an instant; the `Invalid Date` that `moment` builds
      from a missing time key; or no answer within the bound on day advances. */
  datatype Next = At(instant: Instant) | InvalidDate | BeyondLimit

  /** The cursor after `k` passes of the loop body. */
  function Cursor(start: Instant, k: nat): Instant
    decreases k
  {
    if k == 0 then start else Cursor(AdvanceDay(start), k - 1)
  }

  lemma {:induction false} CursorStep(start: Instant, k: nat)
    ensures Cursor(start, k + 1) == AdvanceDay(Cursor(start, k))
    decreases k
  {
    if k > 0 {
      CursorStep(AdvanceDay(start), k - 1);
    }
  }

  /** After `k` passes the cursor is on the `k`-th next day; once moved, it sits in
      that day's first minute, carrying the start's seconds and milliseconds. */
  lemma {:induction false} CursorDay(start: Instant, k: nat)
    ensures DayOf(Cursor(start, k)) == DayOf(start) + k
    ensures k > 0 ==> Cursor(start, k) - DayStart(DayOf(Cursor(start, k))) < MsPerMinute
    ensures Cursor(start, k) % MsPerMinute == start % MsPerMinute
    decreases k
  {
    if k > 0 {
      CursorDay(AdvanceDay(start), k - 1);
    }
  }

  /** The number of passes a day-advancing loop with guard `skip` makes from
      `start`, if it stops within `fuel` passes. */
  function SearchDays(skip: Instant -> bool, start: Instant, fuel: nat): (r: Option<nat>)
    ensures r.Some? ==> r.value <= fuel && !skip(Cursor(start, r.value))
    ensures r.Some? ==> forall j | 0 <= j < r.value :: skip(Cursor(start, j))
    ensures r.None? ==> forall j | 0 <= j <= fuel :: skip(Cursor(start, j))
    decreases fuel
  {
    if !skip(start) then Some(0)
    else if fuel == 0 then None
    else
      match SearchDays(skip, AdvanceDay(start), fuel - 1)
      case None => None
      case Some(k) => Some(k + 1)
  }

  /** The loop stops at the first cursor that fails the guard, whatever the bound
      beyond it. */
  lemma SearchDaysStopsAt(skip: Instant -> bool, start: Instant, fuel: nat, k: nat)
    requires k <= fuel && !skip(Cursor(start, k))
    requires forall j | 0 <= j < k :: skip(Cursor(start, j))
    ensures SearchDays(skip, start, fuel) == Some(k)
  {
  }

  /** The guard of the `nextOpen` loop: on holiday, or no current or later pair today. */
  predicate SkipForOpen(shop: Shop, cursor: Instant)
    ensures SkipForOpen(shop, cursor) <==> (
      OnHoliday(shop.holidays, cursor)
      || forall i | 0 <= i < |DayPairs(shop.times, cursor)| ::
           !WithinPair(cursor, DayPairs(shop.times, cursor)[i]) && !OpensAfter(cursor, DayPairs(shop.times, cursor)[i]))
  {
    ActiveHoliday(shop.holidays, cursor).Some? || DaysOpenHours(shop.times, cursor).None?
  }

  /** The guard of the `nextClosed` loop: not on holiday, and no pair closes later today. */
  predicate SkipForClose(shop: Shop, cursor: Instant)
    ensures SkipForClose(shop, cursor) <==> (
      !OnHoliday(shop.holidays, cursor)
      && forall i | 0 <= i < |DayPairs(shop.times, cursor)| :: !ClosesAfter(cursor, DayPairs(shop.times, cursor)[i]))
  {
    ActiveHoliday(shop.holidays, cursor).None? && DaysNextClosedHours(shop.times, cursor).None?
  }

  /** What `nextOpen(t)` returns, with at most `maxAdvances` day advances. */
  function NextOpenResult(shop: Shop, t: Instant, maxAdvances: nat): Next
  {
    if IsOpen(shop, t) then At(t)
    else
      match SearchDays(c => SkipForOpen(shop, c), t, maxAdvances)
      case None => BeyondLimit
      case Some(k) =>
        var cursor := Cursor(t, k);
        At(TimeOnDay(DayOf(cursor), DaysOpenHours(shop.times, cursor).value[0]))
  }

  /** What `nextClosed(t)` returns, with at most `maxAdvances` day advances. */
  function NextClosedResult(shop: Shop, t: Instant, maxAdvances: nat): Next
  {
    if !IsOpen(shop, t) then At(t)
    else
      match SearchDays(c => SkipForClose(shop, c), t, maxAdvances)
      case None => BeyondLimit
      case Some(k) =>
        var cursor := Cursor(t, k);
        match DaysNextClosedHours(shop.times, cursor)
        case None => InvalidDate
        case Some(close) => At(TimeOnDay(DayOf(cursor), close))
  }

  /** `nextOpen(date)`: the instant itself when open; otherwise advance to the next
      day's midnight (seconds and milliseconds kept) while the cursor's day is on
      holiday or has no current or later pair, then that pair's opening time. */
  method NextOpen(shop: Shop, t: Instant, maxAdvances: nat) returns (r: Next)
    ensures r == NextOpenResult(shop, t, maxAdvances)
    ensures IsOpen(shop, t) ==> r == At(t)
    ensures !IsOpen(shop, t) && r.At? ==> r.instant > t
    ensures !r.InvalidDate?
  {
    if IsOpen(shop, t) {
      return At(t);
    }
    var date := t;
    var advances: nat := 0;
    while SkipForOpen(shop, date)
      invariant advances <= maxAdvances
      invariant date == Cursor(t, advances)
      invariant SkippedForOpen(shop, t, advances)
      decreases maxAdvances - advances
    {
      SkipExtends(shop, t, advances);
      if advances == maxAdvances {
        NextOpenBeyond(shop, t, maxAdvances);
        return BeyondLimit;
      }
      CursorStep(t, advances);
      date := AdvanceDay(date);
      advances := advances + 1;
    }
    NextOpenStopsAt(shop, t, maxAdvances, advances);
    var pair := DaysOpenHours(shop.times, date).value;
    r := At(TimeOnDay(DayOf(date), pair[0]));
    NextOpenIsLater(shop, t, maxAdvances);
  }

  /** The loop that stops after `k` passes gives the opening time of the cursor's pair. */
  lemma NextOpenStopsAt(shop: Shop, t: Instant, maxAdvances: nat, k: nat)
    requires !IsOpen(shop, t) && k <= maxAdvances && !SkipForOpen(shop, Cursor(t, k))
    requires SkippedForOpen(shop, t, k)
    ensures NextOpenResult(shop, t, maxAdvances)
         == At(TimeOnDay(DayOf(Cursor(t, k)), DaysOpenHours(shop.times, Cursor(t, k)).value[0]))
  {
    SearchDaysStopsAt(c => SkipForOpen(shop, c), t, maxAdvances, k);
  }

  /** When the instant's day is skipped and the next one is not, the search
      takes one pass and gives the next day's opening time. */
  lemma NextOpenNextDay(shop: Shop, t: Instant, maxAdvances: nat)
    requires !IsOpen(shop, t) && SkipForOpen(shop, t) && maxAdvances >= 1
    requires !SkipForOpen(shop, AdvanceDay(t))
    ensures NextOpenResult(shop, t, maxAdvances)
         == At(TimeOnDay(DayOf(t) + 1, DaysOpenHours(shop.times, AdvanceDay(t)).value[0]))
  {
    FirstPass(shop, t);
    NextOpenStopsAt(shop, t, maxAdvances, 1);
  }

  /** One pass of the loop from a skipped instant lands on the next day. */
  lemma FirstPass(shop: Shop, t: Instant)
    requires SkipForOpen(shop, t)
    ensures Cursor(t, 1) == AdvanceDay(t) && SkippedForOpen(shop, t, 1)
  {
    assert Cursor(t, 0) == t;
    CursorStep(t, 0);
  }

  /** The first `k` cursors of the `nextOpen` loop all pass its guard. */
  predicate SkippedForOpen(shop: Shop, t: Instant, k: nat)
  {
    forall j | 0 <= j < k :: SkipForOpen(shop, Cursor(t, j))
  }

  /** A pass of the loop keeps the record of the days it skipped. */
  lemma SkipExtends(shop: Shop, t: Instant, k: nat)
    requires SkippedForOpen(shop, t, k) && SkipForOpen(shop, Cursor(t, k))
    ensures SkippedForOpen(shop, t, k + 1)
  {
  }

  /** A loop that would need more passes than allowed gives no answer. */
  lemma NextOpenBeyond(shop: Shop, t: Instant, maxAdvances: nat)
    requires !IsOpen(shop, t) && SkippedForOpen(shop, t, maxAdvances + 1)
    ensures NextOpenResult(shop, t, maxAdvances) == BeyondLimit
  {
  }

  /** `nextClosed(date)`: the instant itself when closed. Otherwise the shop is open,
      so a pair of the day closes later, and the day-advance loop (advance while not
      on holiday and without a later closing time) stops before its first pass
      (`NextClosedWhenOpen`): the answer is that closing time. */
  method NextClosed(shop: Shop, t: Instant, maxAdvances: nat) returns (r: Next)
    ensures r == NextClosedResult(shop, t, maxAdvances)
    ensures !IsOpen(shop, t) ==> r == At(t)
    ensures IsOpen(shop, t) ==> r.At? && r.instant > t && DayOf(r.instant) == DayOf(t)
  {
    if !IsOpen(shop, t) {
      return At(t);
    }
    NextClosedWhenOpen(shop, t, maxAdvances);
    // The guard of the day-advance loop already fails at `t`.
    assert ActiveHoliday(shop.holidays, t).Some? || DaysNextClosedHours(shop.times, t).Some?;
    var close := DaysNextClosedHours(shop.times, t).value;
    r := At(TimeOnDay(DayOf(t), close));
  }

  // ---------------------------------------------------------------------------
  // nextOpen

  /** When closed, the answer lies strictly after the instant: either later the
      same day or on a later day. */
  lemma NextOpenIsLater(shop: Shop, t: Instant, maxAdvances: nat)
    requires !IsOpen(shop, t) && NextOpenResult(shop, t, maxAdvances).At?
    ensures NextOpenResult(shop, t, maxAdvances).instant > t
  {
    var k := SearchDays(c => SkipForOpen(shop, c), t, maxAdvances).value;
    var cursor := Cursor(t, k);
    CursorDay(t, k);
    if k == 0 {
      assert !SkipForOpen(shop, t);
      assert !InsideSomePair(shop.times, t);
    }
  }

  /** When the instant is not on holiday and a pair opens later the same day, the
      loop does not run and the answer is that pair's opening time. */
  lemma NextOpenSameDay(shop: Shop, t: Instant, maxAdvances: nat)
    requires !IsOpen(shop, t) && !OnHoliday(shop.holidays, t)
    requires DaysNextOpenHours(shop.times, t).Some?
    ensures NextOpenResult(shop, t, maxAdvances)
         == At(TimeOnDay(DayOf(t), DaysNextOpenHours(shop.times, t).value[0]))
  {
    assert !SkipForOpen(shop, t);
    assert Cursor(t, 0) == t;
  }

  /** The bound only cuts the search short: an answer found within some bound is
      the answer for every larger bound. */
  lemma NextOpenBoundIrrelevant(shop: Shop, t: Instant, bound: nat, larger: nat)
    requires bound <= larger && !NextOpenResult(shop, t, bound).BeyondLimit?
    ensures NextOpenResult(shop, t, larger) == NextOpenResult(shop, t, bound)
  {
    if !IsOpen(shop, t) {
      var k := SearchDays(c => SkipForOpen(shop, c), t, bound).value;
      SearchDaysStopsAt(c => SkipForOpen(shop, c), t, larger, k);
    }
  }

  /** A cursor with a current or later pair today lies before 23:59 of its day. */
  lemma OpenHoursBeforeLastMinute(times: WeeklyHours, c: Instant)
    requires DaysOpenHours(times, c).Some?
    ensures c - DayStart(DayOf(c)) < LastMinuteOffset
  {
  }

  /** With a well-formed table, the shop is open at the instant `nextOpen` returns. */
  lemma NextOpenIsOpen(shop: Shop, t: Instant, maxAdvances: nat)
    requires WellFormed(shop.times)
    requires NextOpenResult(shop, t, maxAdvances).At?
    ensures IsOpen(shop, NextOpenResult(shop, t, maxAdvances).instant)
  {
    if !IsOpen(shop, t) {
      var k := SearchDays(c => SkipForOpen(shop, c), t, maxAdvances).value;
      var cursor := Cursor(t, k);
      assert !SkipForOpen(shop, cursor);
      var pair := DaysOpenHours(shop.times, cursor).value;
      var day := DayOf(cursor);
      var x := TimeOnDay(day, pair[0]);
      var i :| 0 <= i < |DayPairs(shop.times, cursor)| && DayPairs(shop.times, cursor)[i] == pair;
      WellFormedPairs(shop.times, cursor, i);
      TimeOnDayMonotone(day, pair[0], pair[1]);
      SameDayPairs(shop.times, cursor, x);
      assert WithinPair(x, DayPairs(shop.times, x)[i]);
      OpenHoursBeforeLastMinute(shop.times, cursor);
      SameDayHoliday(shop.holidays, cursor, x);
    }
  }

  /** With a well-formed table, when a pair opens later the same day the answer
      is its opening time and the shop stays closed from the instant to one
      second before it (in the last 999 ms before an opening time the shop
      already counts as open, see `OpeningEdges`). */
  lemma NextOpenEarliestSameDay(shop: Shop, t: Instant, maxAdvances: nat)
    requires WellFormed(shop.times)
    requires !IsOpen(shop, t) && !OnHoliday(shop.holidays, t)
    requires DaysNextOpenHours(shop.times, t).Some?
    ensures NextOpenResult(shop, t, maxAdvances).At?
    ensures forall u | t <= u <= NextOpenResult(shop, t, maxAdvances).instant - MsPerSecond :: !IsOpen(shop, u)
  {
    NextOpenSameDay(shop, t, maxAdvances);
    var pairs := DayPairs(shop.times, t);
    var day := DayOf(t);
    var i := FindPosition(pairs, pair => OpensAfter(t, pair));
    var x := TimeOnDay(day, pairs[i][0]);
    assert NextOpenResult(shop, t, maxAdvances).instant == x;
    forall u | t <= u <= x - MsPerSecond
      ensures !IsOpen(shop, u)
    {
      ClosedBeforeOpening(shop.times, t, i, u);
    }
  }

  /** Between a closed instant and one second before the first pair that opens
      after it, no pair of the day contains an instant. */
  lemma ClosedBeforeOpening(times: WeeklyHours, t: Instant, i: int, u: Instant)
    requires WellFormed(times) && !InsideSomePair(times, t)
    requires 0 <= i < |DayPairs(times, t)| && OpensAfter(t, DayPairs(times, t)[i])
    requires forall j | 0 <= j < i :: !OpensAfter(t, DayPairs(times, t)[j])
    requires t <= u <= TimeOnDay(DayOf(t), DayPairs(times, t)[i][0]) - MsPerSecond
    ensures !InsideSomePair(times, u)
  {
    var pairs := DayPairs(times, t);
    var day := DayOf(t);
    DayOfUnique(u, day);
    SameDayPairs(times, t, u);
    forall j | 0 <= j < |pairs|
      ensures !WithinPair(u, pairs[j])
    {
      WellFormedPairs(times, t, j);
      if j < i {
        assert !WithinPair(t, pairs[j]);
        TimeOnDayMonotone(day, pairs[j][0], pairs[j][1]);
      } else if j > i {
        WellFormedPairs(times, t, i);
        TimeOnDayMonotone(day, pairs[i][0], pairs[j][0]);
      }
    }
  }

  /** In the first minute of a day with hours, the first pair of a well-formed
      entry contains the instant or opens after it. */
  lemma FirstMinuteHasHours(times: WeeklyHours, c: Instant)
    requires WellFormed(times) && DayHasOpenHours(times, c).Some?
    requires c - DayStart(DayOf(c)) < MsPerMinute
    ensures DaysOpenHours(times, c).Some?
  {
    WellFormedPairs(times, c, 0);
    var pair := DayPairs(times, c)[0];
    TimeOnDayMonotone(DayOf(c), pair[0], pair[1]);
    assert WithinPair(c, pair) || OpensAfter(c, pair);
  }

  /** No holiday covers an instant on a day after every holiday's last day. */
  lemma AfterAllHolidays(holidays: seq<Holiday>, c: Instant)
    requires forall i | 0 <= i < |holidays| :: EpochDay(holidays[i].end) < DayOf(c)
    ensures ActiveHoliday(holidays, c).None?
  {
  }

  /** The search ends: with a well-formed table in which some weekday has hours,
      and no holiday reaching day `clearFrom`, `nextOpen` answers within the
      stated number of day advances. */
  lemma NextOpenFound(shop: Shop, t: Instant, maxAdvances: nat, name: DayName, clearFrom: int)
    requires WellFormed(shop.times)
    requires name in shop.times && shop.times[name] != []
    requires forall i | 0 <= i < |shop.holidays| :: EpochDay(shop.holidays[i].end) < clearFrom
    requires maxAdvances >= (if clearFrom - DayOf(t) > 1 then clearFrom - DayOf(t) else 1) + 6
    ensures NextOpenResult(shop, t, maxAdvances).At?
  {
    if !IsOpen(shop, t) {
      var first := if clearFrom - DayOf(t) > 1 then clearFrom - DayOf(t) else 1;
      var day := WeekdayWithinAWeek(DayOf(t) + first, name);
      var k: nat := day - DayOf(t);
      var c := Cursor(t, k);
      CursorDay(t, k);
      assert DayOf(c) == day && 0 < k <= maxAdvances;
      StopsOnClearDay(shop, c, name, clearFrom);
      NextOpenAnswersBy(shop, t, maxAdvances, k);
    }
  }

  /** In the first minute of a `name` day past every holiday the search stops. */
  lemma StopsOnClearDay(shop: Shop, c: Instant, name: DayName, clearFrom: int)
    requires WellFormed(shop.times)
    requires name in shop.times && shop.times[name] != [] && WeekdayOf(DayOf(c)) == name
    requires forall i | 0 <= i < |shop.holidays| :: EpochDay(shop.holidays[i].end) < clearFrom
    requires clearFrom <= DayOf(c) && c - DayStart(DayOf(c)) < MsPerMinute
    ensures !SkipForOpen(shop, c)
  {
    FirstMinuteHasHours(shop.times, c);
    AfterAllHolidays(shop.holidays, c);
  }

  /** A cursor within the bound that the loop stops at guarantees an answer. */
  lemma NextOpenAnswersBy(shop: Shop, t: Instant, maxAdvances: nat, k: nat)
    requires k <= maxAdvances && !SkipForOpen(shop, Cursor(t, k))
    ensures NextOpenResult(shop, t, maxAdvances).At?
  {
  }

  // ---------------------------------------------------------------------------
  // nextClosed

  /** When open, the loop body never runs: the answer is the closing time of the
      first pair of the day that closes later, whatever the bound, and it lies
      later the same day. */
  lemma NextClosedWhenOpen(shop: Shop, t: Instant, maxAdvances: nat)
    requires IsOpen(shop, t)
    ensures DaysNextClosedHours(shop.times, t).Some?
    ensures NextClosedResult(shop, t, maxAdvances) == At(TimeOnDay(DayOf(t), DaysNextClosedHours(shop.times, t).value))
    ensures t < NextClosedResult(shop, t, maxAdvances).instant
    ensures DayOf(NextClosedResult(shop, t, maxAdvances).instant) == DayOf(t)
  {
    var pairs := DayPairs(shop.times, t);
    var i :| 0 <= i < |pairs| && WithinPair(t, pairs[i]);
    assert ClosesAfter(t, pairs[i]);
    assert !SkipForClose(shop, t);
    assert Cursor(t, 0) == t;
  }

  /** With a well-formed table, the first pair that closes after an instant is
      the pair that contains it. */
  lemma ClosingOfWindow(times: WeeklyHours, t: Instant, i: int)
    requires WellFormed(times) && 0 <= i < |DayPairs(times, t)| && WithinPair(t, DayPairs(times, t)[i])
    ensures DaysNextClosedHours(times, t) == Some(DayPairs(times, t)[i][1])
  {
    var pairs := DayPairs(times, t);
    var day := DayOf(t);
    WellFormedPairs(times, t, i);
    forall j | 0 <= j < i
      ensures !ClosesAfter(t, pairs[j])
    {
      WellFormedPairs(times, t, j);
      TimeOnDayMonotone(day, pairs[j][1], pairs[i][0]);
    }
    FindFirst(pairs, pair => ClosesAfter(t, pair), i);
  }

  /** No pair of a well-formed day contains the closing time of one of its pairs. */
  lemma NoPairAtClose(times: WeeklyHours, t: Instant, i: int)
    requires WellFormed(times) && 0 <= i < |DayPairs(times, t)|
    ensures !InsideSomePair(times, TimeOnDay(DayOf(t), DayPairs(times, t)[i][1]))
  {
    var pairs := DayPairs(times, t);
    var day := DayOf(t);
    var x := TimeOnDay(day, pairs[i][1]);
    WellFormedPairs(times, t, i);
    SameDayPairs(times, t, x);
    forall j | 0 <= j < |pairs|
      ensures !WithinPair(x, pairs[j])
    {
      ClosePastPair(times, t, i, j);
    }
  }

  /** The closing time of pair `i` is outside pair `j` of the same day. */
  lemma ClosePastPair(times: WeeklyHours, t: Instant, i: int, j: int)
    requires WellFormed(times) && 0 <= i < |DayPairs(times, t)| && 0 <= j < |DayPairs(times, t)|
    ensures !WithinPair(TimeOnDay(DayOf(t), DayPairs(times, t)[i][1]), DayPairs(times, t)[j])
  {
    var pairs := DayPairs(times, t);
    var day := DayOf(t);
    WellFormedPairs(times, t, i);
    WellFormedPairs(times, t, j);
    if j < i {
      TimeOnDayMonotone(day, pairs[j][1], pairs[i][0]);
      TimeOnDayMonotone(day, pairs[i][0], pairs[i][1]);
    } else if j > i {
      TimeOnDayMonotone(day, pairs[i][1], pairs[j][0]);
    }
  }

  /** Within one day, an open instant stays open until the end of its pair. */
  lemma OpenThroughWindow(shop: Shop, t: Instant, i: int, u: Instant)
    requires IsOpen(shop, t) && 0 <= i < |DayPairs(shop.times, t)| && WithinPair(t, DayPairs(shop.times, t)[i])
    requires t <= u < TimeOnDay(DayOf(t), DayPairs(shop.times, t)[i][1])
    ensures IsOpen(shop, u)
  {
    var day := DayOf(t);
    DayOfUnique(u, day);
    SameDayPairs(shop.times, t, u);
    assert WithinPair(u, DayPairs(shop.times, u)[i]);
    SameDayHoliday(shop.holidays, t, u);
  }

  /** With a well-formed table, `nextClosed` of an open instant is the end of the
      opening window: the shop is open from the instant up to it, and closed at it. */
  lemma NextClosedIsNext(shop: Shop, t: Instant, maxAdvances: nat)
    requires WellFormed(shop.times) && IsOpen(shop, t)
    ensures NextClosedResult(shop, t, maxAdvances).At?
    ensures forall u | t <= u < NextClosedResult(shop, t, maxAdvances).instant :: IsOpen(shop, u)
    ensures !IsOpen(shop, NextClosedResult(shop, t, maxAdvances).instant)
  {
    NextClosedWhenOpen(shop, t, maxAdvances);
    var pairs := DayPairs(shop.times, t);
    var i :| 0 <= i < |pairs| && WithinPair(t, pairs[i]);
    ClosingOfWindow(shop.times, t, i);
    var x := TimeOnDay(DayOf(t), pairs[i][1]);
    assert NextClosedResult(shop, t, maxAdvances) == At(x);
    forall u | t <= u < x
      ensures IsOpen(shop, u)
    {
      OpenThroughWindow(shop, t, i, u);
    }
    NoPairAtClose(shop.times, t, i);
  }
}
