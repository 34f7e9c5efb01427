# Opening hours: a verified model of the `Shop` class

The `Shop` class of `shop.js` answers four questions about a moment in time:
- is the shop open (`isOpen`) or closed (`isClosed`);
- when does it next open (`nextOpen`);
- when does it next close (`nextClosed`).

It answers them from two tables:
- a weekly table, which for each weekday lists its opening and closing times as `HH:mm` keys, read in pairs;
- a list of whole-day holidays, each from a `DD-MM-YYYY` start date to a `DD-MM-YYYY` end date.

This project models that class in Dafny and proves what its operations promise.

Modules:
- `Calendar` (`calendar.dfy`) replaces the moment library with integer arithmetic. It covers instants in UTC milliseconds, day numbers, weekday names, Gregorian dates, `HH:mm` times of day, and the day advance of the two search loops.
- `Lists` (`lists.dfy`) holds `Array.prototype.find` with its first-match property, and the `reduce` that cuts a key list into slices of two.
- `DateStrings` (`date_strings.dfy`) holds the two string helpers, `parseDateString` and `makeISOStringFromTime`. It also holds the text forms they handle: `split('-')`, `reverse`, `join('-')`, zero-padded fields, and `YYYY-MM-DD` and `HH:mm` with their readers.
- `OpeningHours` (`shop.dfy`) holds the point-in-time queries: the holiday lookup, the per-day pair lookups, `isOpen` and `isClosed`.
- `Transitions` (`transitions.dfy`) holds `nextOpen` and `nextClosed`.
  - Both are methods, each proved equal to a specification function whose properties are proved as lemmas.
  - `NextOpen` keeps the source's day-advance loop. In `NextClosed` that loop never runs, so the method checks its guard once (see "Left out").
- `Scenarios` (`scenarios.dfy`) restates the thirteen cases of `shop.test.js` on a concrete table, reading their times as UTC. The table is chosen so that every one of them holds: the shop is open Mondays and Thursdays 09:00–12:00 and 13:30–17:00, has an empty Sunday, and closes for a holiday on 1 January 2020.

Conventions of the model:
- An instant is an integer count of milliseconds since 1970-01-01T00:00:00.000Z.
- Its day is `t / 86400000`, and its weekday is `(day + 4) % 7` counted from Sunday.
- The two tables are parameters (`Shop(times, holidays)`).
- A day's entry is the ordered sequence of its keys, as structured `Clock` values.
- Holiday dates are `CalendarDate` values. `DateStrings.ParseDayFirstDate` links them to the `DD-MM-YYYY` text.
- Truthy and falsy returns (a pair or `false`, a key or `false`, a holiday or `undefined`) become `Option`s. The result of `isOpen` becomes a `bool`.
- The searches take a bound `maxAdvances` on the number of day advances. Their result is `At(instant)`, `InvalidDate` or `BeyondLimit`. `InvalidDate` stands for the moment built from a missing key, which cannot be reached.

The code is followed where its text and its documentation differ:
- `isBetween` is strict at both ends, so a pair contains `t` exactly when `open − 1 s < t < close`. The shop is therefore open from 999 ms before an opening time that is not midnight (off holiday), and no longer inside the pair at its closing instant (`OpeningEdges`). It is closed there when the table is well formed (`NoPairAtClose`).
- A holiday covers `t` exactly when `start-day 00:00:00.000 − 1 s < t < end-day 23:59:59.000`. So the last second of the end day is not covered, while the last 999 ms before the start day are (`HolidayEdges`).
- An odd-length day entry leaves a last pair with a single key. That pair never contains an instant and never closes after one, because its missing closing time builds an invalid moment. It can still open after one.
- The day advance resets only the hour and minute (`date.set({ h: 0, m: 0 })`), so the seconds and milliseconds of the starting instant carry over (`Calendar.AdvanceDay`).

## Model

| member | source | states |
|---|---|---|
| Calendar.DayOf | shop.js:85 | the UTC day of an instant is the one whose midnight-to-midnight span contains it |
| Calendar.WeekdayOf | shop.js:85-86 | `format('dddd')`: the weekday of a day number, with index `(day + 4) % 7` from Sunday (1970-01-01 was a Thursday) |
| Calendar.WeekdayWithinAWeek | shop.js:234-237 | every weekday comes round within the seven days from any day |
| Calendar.EpochDayOfNextDate | shop.js:47-48 | the day numbers of consecutive valid dates are consecutive, so a date names its day |
| Calendar.MonthLengths | shop.js:47-48 | the day counts before consecutive months differ by the length of the earlier month (March to January) |
| Calendar.MarchToMarch | shop.js:47-48 | a year from 1 March has 366 days exactly when the later year is a Gregorian leap year |
| Calendar.TimeOnDay | shop.js:112 | the instant of `<date>T<HH:mm>:00.000Z` lies on that date's day, between 00:00 and 23:59 |
| Calendar.TimeOnDayMonotone | shop.js:136-141 | a later key names a later instant on the same day, by at least a minute, and conversely |
| Calendar.AdvanceDay | shop.js:235-236 | one day advance lands in the first minute of the next day, keeps seconds and milliseconds, and moves strictly forward |
| Lists.Find | shop.js:46-53 | `find` gives none exactly when no element matches, and otherwise a matching element of the list |
| Lists.FindFirst | shop.js:111-115 | `find` returns the first matching element in list order |
| Lists.FindPosition | shop.js:136-141 | the element `find` returns sits at an index before which nothing matches |
| Lists.Chunks | shop.js:68-74 | the `reduce` gives ceil(n/2) slices; slice i is keys[2i .. min(2i+2, n)] |
| Lists.FlattenChunks | shop.js:68-74 | concatenating the slices gives back the key list |
| DateStrings.Split | shop.js:31 | `split('-')` gives at least one part and no part holds a dash |
| DateStrings.JoinSplit | shop.js:31 | `join('-')` undoes `split('-')` |
| DateStrings.SplitJoin | shop.js:31 | `split('-')` undoes `join('-')` on dash-free parts |
| DateStrings.Reverse | shop.js:31 | `reverse` keeps the length and puts element i at position n-1-i |
| DateStrings.ReverseReverse | shop.js:31 | reversing twice is the identity |
| DateStrings.ReverseFieldsInvolution | shop.js:31 | reversing the dash-separated fields keeps the length, and doing it twice gives back the string |
| DateStrings.Join | shop.js:31 | `join('-')`; with `JoinSplit` and `SplitJoin` it is the inverse of `split('-')` |
| DateStrings.ReverseFields | shop.js:31 | `split('-').reverse().join('-')`; `ReverseFieldsInvolution` states its properties |
| DateStrings.ParseDateString | shop.js:30-32 | the result is the input with its fields reversed, then `T23:59:59.000Z` when `end` is set, else `T00:00:00.000Z` |
| DateStrings.ParseDayFirstDate | shop.js:30-32 | on a `DD-MM-YYYY` date the result is the same date as `YYYY-MM-DD` followed by the suffix |
| DateStrings.PaddedValue | shop.js:17 | a zero-padded field reads back as the number written |
| DateStrings.ValuePadded | shop.js:17 | a digit field is the padding of its own value |
| DateStrings.ReadFormattedDate | shop.js:17 | `YYYY-MM-DD` text reads back as the date it was formatted from |
| DateStrings.FormatReadDate | shop.js:17 | every text accepted as `YYYY-MM-DD` is the formatting of the date it reads as |
| DateStrings.ReadFormattedClock | shop.js:19 | an `HH:mm` key reads back as the time of day it was formatted from |
| DateStrings.FormatReadClock | shop.js:19 | every text accepted as `HH:mm` is the formatting of the time it reads as |
| DateStrings.ReadDefaultIsoDate | shop.js:17 | the default `2020-01-01` reads back as 1 January 2020 |
| DateStrings.DefaultIsoDateIsFormatted | shop.js:17 | the default `2020-01-01` is the `YYYY-MM-DD` form of 1 January 2020 |
| DateStrings.FormatIsoDate | shop.js:17 | `format('YYYY-MM-DD')`: ten characters with dashes at positions 4 and 7; `ReadFormattedDate` and `FormatReadDate` make it a bijection onto the accepted texts |
| DateStrings.DatePart | shop.js:17 | the date part of the key's ISO string: the date formatted, or `2020-01-01` when none is given; ten characters with dashes at 4 and 7 |
| DateStrings.MakeIsoStringFromTime | shop.js:16-20 | `<YYYY-MM-DD>T<time>:00.000Z`: the first ten characters read as the given date (1 January 2020 when none), then `T`, the time unchanged, `:00.000Z` |
| OpeningHours.HolidayLowerBound | shop.js:47 | the start bound lies on the day before the first day, at 23:59:59.000 (midnight minus one second) |
| OpeningHours.HolidayUpperBound | shop.js:48 | the end bound lies on the last day, at 23:59:59.000 |
| OpeningHours.Covers | shop.js:47-50 | `isBetween` with both bounds excluded, and nothing covered when either date does not exist (an invalid moment); its consequences are `CoversWholeDays` and `HolidayEdges` |
| OpeningHours.ActiveHoliday | shop.js:46-53 | a holiday is found exactly when one covers the instant with strict bounds on both sides; it is from the list and covers it |
| OpeningHours.FindActiveHoliday | shop.js:41-54 | an error exactly when no date is given; otherwise the holiday lookup |
| OpeningHours.ActiveHolidayIsFirst | shop.js:46-53 | the holiday found is the first covering one in list order |
| OpeningHours.CoversWholeDays | shop.js:46-53 | before 23:59:59 of its day, an instant is covered exactly when its day lies between the start and end days |
| OpeningHours.HolidayEdges | shop.js:47-50 | covered from 999 ms before the start day up to 1 ms before 23:59:59.000 of the end day, and not at either bound |
| OpeningHours.DayHasOpenHours | shop.js:84-91 | no entry exactly when the weekday is missing or its entry is empty; otherwise that weekday's entry |
| OpeningHours.StartEndTimePairs | shop.js:63-75 | no pairs for an absent entry; otherwise ceil(n/2) pairs whose concatenation is the entry, each of length 2 except a last single key when n is odd |
| OpeningHours.WithinPair | shop.js:136-140 | `isBetween(open − 1 s, close)` with both bounds excluded, on the instant's own day; a lone trailing key contains nothing |
| OpeningHours.OpensAfter | shop.js:111-114 | `isBefore(open)` on the instant's own day, strict |
| OpeningHours.ClosesAfter | shop.js:175-178 | `isBefore(close)` on the instant's own day, strict; false for a lone trailing key |
| OpeningHours.DaysNextOpenHours | shop.js:100-116 | a pair exactly when some pair of the day opens after the instant; the pair is from the day and opens after it |
| OpeningHours.DaysCurrentOpenHours | shop.js:125-142 | a pair exactly when some pair of the day contains the instant (`open − 1 s < t < close`); the pair contains it |
| OpeningHours.CurrentOpenHoursIsFirst | shop.js:136-141 | `find` order: the pair returned is the first pair of the day, in list order, that contains the instant |
| OpeningHours.NextOpenHoursIsFirst | shop.js:111-115 | `find` order: the pair returned is the first pair of the day, in list order, that opens after the instant |
| OpeningHours.DaysOpenHours | shop.js:151-159 | a pair exactly when some pair contains the instant or opens after it; the containing pair whenever there is one, else one that opens after it |
| OpeningHours.OpenHoursIsFirstCurrent | shop.js:151-154 | when a pair contains the instant, `getDaysOpenHours` returns the first such pair |
| OpeningHours.OpenHoursIsFirstNext | shop.js:156-158 | when no pair contains the instant, `getDaysOpenHours` returns the first pair that opens after it |
| OpeningHours.DaysNextClosedHours | shop.js:168-182 | a key exactly when some complete pair closes after the instant; it is that pair's closing key and lies after the instant the same day |
| OpeningHours.NextClosedHoursIsFirst | shop.js:175-181 | `find` order: the key returned is the closing key of the first pair of the day, in list order, that closes after the instant |
| OpeningHours.ChronologicalPairs | shop.js:68-74 | the slices of an even, strictly increasing key list have two keys each, open before they close, and close before every later slice opens |
| OpeningHours.WellFormedPairs | shop.js:63-75 | for even, increasing entries, every pair has two keys, opens before it closes, and closes before every later pair opens |
| OpeningHours.SameDayPairs | shop.js:84-86 | two instants on the same day see the same entry and the same pairs |
| OpeningHours.SameDayHoliday | shop.js:46-53 | two instants on the same day, both before 23:59:59, are on holiday together or not at all |
| OpeningHours.IsOpen | shop.js:192-202 | open exactly when no holiday covers the instant and some pair of its day contains it |
| OpeningHours.IsClosed | shop.js:213-215 | closed exactly when on holiday or in no pair; always the negation of `isOpen` |
| OpeningHours.ClosedOnHoliday | shop.js:195-197 | a covering holiday closes the shop whatever the weekly table says |
| OpeningHours.ClosedWithoutEntry | shop.js:84-91 | a weekday without hours is closed, and every per-day lookup on it finds nothing |
| OpeningHours.OpeningEdges | shop.js:136-141 | open 999 ms before an opening time that is not midnight; not inside the pair at its closing time |
| Transitions.CursorStep | shop.js:234-237 | the cursor after k+1 passes is the cursor after k passes advanced one day |
| Transitions.CursorDay | shop.js:235-236 | after k passes the cursor is on the k-th next day, in its first minute once moved, with the start's seconds and milliseconds |
| Transitions.SkipForOpen | shop.js:234 | the `nextOpen` loop continues exactly when a holiday covers the cursor or no pair of its day contains it or opens after it |
| Transitions.SkipForClose | shop.js:260 | the `nextClosed` loop continues exactly when no holiday covers the cursor and no pair of its day closes after it |
| Transitions.SearchDays | shop.js:234-237 | the number of passes is the first k within the bound whose cursor fails the loop guard; none when every cursor up to the bound passes it |
| Transitions.SearchDaysStopsAt | shop.js:234-237 | the first cursor that fails the guard fixes the number of passes for any larger bound |
| Transitions.NextOpenResult | shop.js:227-243 | the specification of `nextOpen`: the instant when open; otherwise the opening key of the first cursor the loop stops at, or `BeyondLimit` past the bound; `NextOpen` is proved to compute it |
| Transitions.NextClosedResult | shop.js:253-269 | the specification of `nextClosed`: the instant when closed; otherwise the next closing key of the first cursor the loop stops at (`InvalidDate` when it stops on a holiday), or `BeyondLimit`; `NextClosed` is proved to compute it |
| Transitions.NextOpen | shop.js:227-243 | the loop computes the specification of `nextOpen`: the instant itself when open, otherwise a later instant, never an invalid date |
| Transitions.NextOpenStopsAt | shop.js:234-242 | when the loop stops after k passes, the answer is the opening key of that cursor's current or next pair |
| Transitions.NextOpenNextDay | shop.js:234-242 | when only the starting day is skipped, the answer is the next day's opening time |
| Transitions.NextOpenBeyond | shop.js:234-237 | when every cursor up to the bound is skipped, there is no answer within the bound |
| Transitions.NextOpenIsLater | shop.js:227-243 | when closed, the answer is strictly after the instant |
| Transitions.NextOpenSameDay | shop.js:230-242 | off holiday with a pair opening later the same day, the answer is that pair's opening time and the loop does not run |
| Transitions.NextOpenBoundIrrelevant | shop.js:234-237 | an answer found within a bound is the answer for every larger bound |
| Transitions.NextOpenIsOpen | shop.js:239-242 | with a well-formed table, the shop is open at the answer |
| Transitions.ClosedBeforeOpening | shop.js:136-141 | with a well-formed table, from an instant in no pair to one second before the next opening key, no pair contains an instant |
| Transitions.NextOpenEarliestSameDay | shop.js:230-242 | with a well-formed table and a later pair the same day, the shop is closed from the instant to one second before the answer |
| Transitions.FirstMinuteHasHours | shop.js:151-159 | in the first minute of a day whose well-formed entry is not empty, the day has a current or next pair |
| Transitions.AfterAllHolidays | shop.js:46-53 | on a day after every holiday's end date no holiday is found |
| Transitions.StopsOnClearDay | shop.js:234-237 | in the first minute of a day with hours after every holiday, the loop guard fails |
| Transitions.NextOpenAnswersBy | shop.js:234-242 | a cursor within the bound at which the loop guard fails guarantees an answer |
| Transitions.NextOpenFound | shop.js:234-237 | the search succeeds within the stated bound when some weekday has hours and the holidays end before a given day |
| Transitions.NextClosed | shop.js:253-269 | computes the specification of `nextClosed`: the instant itself when closed, otherwise a later instant on the same day |
| Transitions.NextClosedWhenOpen | shop.js:256-266 | when open, the loop guard fails at once; the answer is the closing time of the first pair closing after the instant, for any bound |
| Transitions.ClosingOfWindow | shop.js:175-181 | with a well-formed table, the first pair closing after an instant is the pair containing it |
| Transitions.NoPairAtClose | shop.js:136-141 | with a well-formed table, no pair of the day contains the closing time of one of its pairs |
| Transitions.ClosePastPair | shop.js:136-141 | with a well-formed table, the closing time of one pair lies in no pair of the same day |
| Transitions.OpenThroughWindow | shop.js:192-202 | an open instant stays open until its pair's closing time |
| Transitions.NextClosedIsNext | shop.js:253-269 | with a well-formed table, the shop is open from an open instant up to the answer, and closed at it |
| Scenarios.StoreIsWellFormed | shop.js:63-75 | the example table has even, increasing entries |
| Scenarios.SundayClosed | shop.test.js:7-13 | closed at every `HH:mm` of Sunday 16 February 2020, whose entry is empty (the general fact is `OpeningHours.ClosedWithoutEntry`), and `nextClosed` is the instant itself (also the case at shop.test.js lines 79-84) |
| Scenarios.MondayBeforeNine | shop.js:227-243 | closed at any instant of Monday 17 February 2020 up to 08:59:59, with `nextOpen` at 09:00 the same day |
| Scenarios.MondayBeforeOpening | shop.test.js:15-21 | closed at 08:00 on a Monday; `nextOpen` is 09:00 the same day |
| Scenarios.MondayMidnightClosed | shop.test.js:51-56 | closed at Monday midnight; `nextOpen` is 09:00 the same day |
| Scenarios.MondayTenOpen | shop.test.js:58-63 | open at 10:00; `nextOpen` is 10:00 itself |
| Scenarios.MondayMorningOpen | shop.test.js:30-35 | open at 11:00; `nextOpen` is 11:00 itself and `nextClosed` is 12:00 |
| Scenarios.MondayAfterMorningClosed | shop.test.js:65-70 | closed at 12:20 after the morning pair; `nextOpen` is 13:30 |
| Scenarios.MondayLunchClosed | shop.test.js:23-28 | closed at 13:00 between the pairs; `nextOpen` is 13:30 |
| Scenarios.MondayAfternoonClose | shop.test.js:93-98 | open at 14:00; `nextClosed` is 17:00 |
| Scenarios.MondayEveningClosed | shop.test.js:86-91 | `nextClosed` at 19:00 is 19:00 itself |
| Scenarios.EarlyOnOpenDay | shop.js:234-242 | in the first minute of a Monday or Thursday after New Year the search stops, with 09:00 as the opening key |
| Scenarios.SundayRollsToMonday | shop.test.js:44-49 | `nextOpen` from any instant of Sunday 16 February 2020 is Monday 09:00 |
| Scenarios.NewYearBounds | shop.js:47-50 | the New Year holiday's dates are valid and its bounds are 1 s before midnight and 23:59:59.000 of 1 January 2020 |
| Scenarios.NewYearOnHoliday | shop.test.js:72-77 | the New Year holiday is found at every instant of 1 January 2020 before 23:59:59 |
| Scenarios.NewYearClosed | shop.test.js:72-77 | closed then, and `nextClosed` is the instant itself |
| Scenarios.NewYearSkipped | shop.js:234-237 | the search skips every instant of New Year's Day, and the shop is closed at each |
| Scenarios.NewYearRollsToThursday | shop.test.js:37-42 | `nextOpen` from any instant of New Year's Day is Thursday 2 January, 09:00 |
| Scenarios.HolidayOverridesHours | shop.js:195-197 | a holiday on an open Monday morning closes the shop and is the holiday the lookup returns |

## Left out

- Moment parsing and formatting are replaced by integer arithmetic: ISO-string parsing, `format('dddd')`, `.utc()` and `isBetween`. The model does not show that the moment library parses `<YYYY-MM-DD>T<HH:mm>:00.000Z` to `Calendar.TimeOnDay`. Both the string (`DateStrings.MakeIsoStringFromTime`) and the instant are modelled, with their round trips.
- The default argument `date = new Date()` of `isOpen`, `isClosed`, `nextOpen` and `nextClosed` is left out, because it reads the wall clock. The instant is always a parameter.
- The configuration modules `config/holidays.config` and `config/times.config` are not part of this model. The two tables are parameters.
- The configuration is typed. Malformed keys (not `HH:mm`, or `24:00`) and malformed holiday dates (not `DD-MM-YYYY`, or years outside 0–9999) are not represented. A holiday whose date does not exist, such as 30 February, covers nothing, as an invalid moment does.
- The throws of `getDaysNextOpenHours` and `getDaysCurrentOpenHours` on a missing date (shop.js:101-103, 126-128) are left out. Inside the class these are always called with the cursor, so those throws cannot happen. The throw of `findActiveHoliday` is modelled as `OpeningHours.FindActiveHoliday`.
- Transitions.NextOpen: the unbounded `while` loop is bounded by `maxAdvances` and answers `BeyondLimit` when the bound runs out. The source loops forever when no later day off holiday has hours. `Transitions.NextOpenFound` states a bound that suffices.
- Transitions.NextClosed: the day-advance loop (shop.js:260-263) is not written as a loop. Its guard is proved false on entry (`NextClosedWhenOpen`), so the method checks the guard once. The specification function `NextClosedResult` still describes the loop with the same bound.
- The search results are values (`Next`) rather than mutated moment objects. Aliasing of the caller's moment by `date.add` is not modelled, because `moment(date)` copies it first (shop.js:228, 254).
- `index.js`, the page script, is presentation code and is not part of this model.
- Time zones other than UTC are not modelled; the class converts everything to UTC.
- An instant is an unbounded integer. A JavaScript `Date` holds at most ±8.64e15 ms, and moment's ISO parse of the cursor's `YYYY-MM-DD` covers only years 0–9999. Outside those ranges the source works on invalid moments (and reports closed); the model does not represent that.
