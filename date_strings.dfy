/** The shop's two string builders, `parseDateString` and `makeISOStringFromTime`,
    with the dash splitting and joining and the zero-padded digit fields they rely on. */
module DateStrings {
  import opened Options
  import opened Calendar

  // ---------------------------------------------------------------------------
  // `split('-')`, `reverse()` and `join('-')`

  /** `s.split('-')`: the dash-free fields between dashes, empty fields included. */
  function Split(s: string): (parts: seq<string>)
    ensures |parts| >= 1
    ensures forall i | 0 <= i < |parts| :: '-' !in parts[i]
    decreases |s|
  {
    if s == [] then [""]
    else
      var rest := Split(s[1..]);
      if s[0] == '-' then [""] + rest
      else [[s[0]] + rest[0]] + rest[1..]
  }

  /** `parts.join('-')`. */
  function Join(parts: seq<string>): string
  {
    if parts == [] then ""
    else if |parts| == 1 then parts[0]
    else parts[0] + "-" + Join(parts[1..])
  }

  /** Splitting and joining again gives back the string. */
  lemma {:induction false} JoinSplit(s: string)
    ensures Join(Split(s)) == s
    decreases |s|
  {
    if s != [] {
      JoinSplit(s[1..]);
      var rest := Split(s[1..]);
      if s[0] == '-' {
        assert Join(Split(s)) == "" + "-" + Join(rest);
      } else if |rest| == 1 {
        assert Join(Split(s)) == [s[0]] + rest[0];
      } else {
        assert Join(Split(s)) == [s[0]] + rest[0] + "-" + Join(rest[1..]);
      }
      assert s == [s[0]] + s[1..];
    }
  }

  lemma {:induction false} SplitDashFree(a: string)
    requires '-' !in a
    ensures Split(a) == [a]
    decreases |a|
  {
    if a != [] {
      SplitDashFree(a[1..]);
      assert a == [a[0]] + a[1..];
    }
  }

  lemma {:induction false} SplitAtDash(a: string, s: string)
    requires '-' !in a
    ensures Split(a + "-" + s) == [a] + Split(s)
    decreases |a|
  {
    if a == [] {
      assert a + "-" + s == "-" + s;
      assert ("-" + s)[1..] == s;
    } else {
      var tail := a[1..] + "-" + s;
      assert (a + "-" + s)[1..] == tail;
      assert (a + "-" + s)[0] == a[0];
      SplitAtDash(a[1..], s);
      assert a == [a[0]] + a[1..];
    }
  }

  /** Joining dash-free fields and splitting again gives back the fields. */
  lemma {:induction false} SplitJoin(parts: seq<string>)
    requires |parts| >= 1
    requires forall i | 0 <= i < |parts| :: '-' !in parts[i]
    ensures Split(Join(parts)) == parts
  {
    if |parts| == 1 {
      SplitDashFree(parts[0]);
    } else {
      SplitJoin(parts[1..]);
      SplitAtDash(parts[0], Join(parts[1..]));
      assert parts == [parts[0]] + parts[1..];
    }
  }

  /** `reverse()`. */
  function Reverse<T>(s: seq<T>): (r: seq<T>)
    ensures |r| == |s|
    ensures forall i | 0 <= i < |s| :: r[i] == s[|s| - 1 - i]
  {
    if s == [] then [] else Reverse(s[1..]) + [s[0]]
  }

  lemma ReverseReverse<T>(s: seq<T>)
    ensures Reverse(Reverse(s)) == s
  {
  }

  /** The sum of the field lengths plus one dash after each field. */
  function Width(parts: seq<string>): int
  {
    if parts == [] then 0 else |parts[0]| + 1 + Width(parts[1..])
  }

  lemma {:induction false} WidthJoin(parts: seq<string>)
    requires |parts| >= 1
    ensures |Join(parts)| == Width(parts) - 1
  {
    if |parts| > 1 {
      WidthJoin(parts[1..]);
    }
  }

  lemma {:induction false} WidthAppend(a: seq<string>, b: seq<string>)
    ensures Width(a + b) == Width(a) + Width(b)
  {
    if a != [] {
      WidthAppend(a[1..], b);
      assert (a + b)[0] == a[0];
      assert (a + b)[1..] == a[1..] + b;
      assert Width(a + b) == |a[0]| + 1 + Width(a[1..] + b);
    } else {
      assert a + b == b;
    }
  }

  lemma {:induction false} WidthReverse(parts: seq<string>)
    ensures Width(Reverse(parts)) == Width(parts)
  {
    if parts != [] {
      WidthReverse(parts[1..]);
      WidthAppend(Reverse(parts[1..]), [parts[0]]);
    }
  }

  /** `s.split('-').reverse().join('-')`: `DD-MM-YYYY` becomes `YYYY-MM-DD`. */
  function ReverseFields(s: string): string
  {
    Join(Reverse(Split(s)))
  }

  /** Reversing the fields keeps the length and, done twice, gives back the string. */
  lemma ReverseFieldsInvolution(s: string)
    ensures |ReverseFields(s)| == |s|
    ensures ReverseFields(ReverseFields(s)) == s
  {
    var parts := Split(s);
    var swapped := Reverse(parts);
    WidthJoin(parts);
    WidthJoin(swapped);
    WidthReverse(parts);
    JoinSplit(s);
    assert forall i | 0 <= i < |swapped| :: '-' !in swapped[i];
    SplitJoin(swapped);
    ReverseReverse(parts);
  }

  const StartOfDaySuffix: string := "T00:00:00.000Z"
  const EndOfDaySuffix: string := "T23:59:59.000Z"

  /** `parseDateString(date, end)`: the fields of `DD-MM-YYYY` reversed, then the
      time of the first instant of that day, or of 23:59:59.000 when `end` is set. */
  function ParseDateString(date: string, end: bool): (r: string)
    ensures |r| == |date| + 14
    ensures r[|date|..] == if end then EndOfDaySuffix else StartOfDaySuffix
    ensures ReverseFields(r[..|date|]) == date
  {
    ReverseFieldsInvolution(date);
    ReverseFields(date) + (if end then EndOfDaySuffix else StartOfDaySuffix)
  }

  // ---------------------------------------------------------------------------
  // Zero-padded decimal fields

  function Pow10(n: nat): (p: int)
    ensures p >= 1
  {
    if n == 0 then 1 else 10 * Pow10(n - 1)
  }

  predicate IsDigit(c: char)
  {
    '0' <= c <= '9'
  }

  predicate AllDigits(s: string)
  {
    forall i | 0 <= i < |s| :: IsDigit(s[i])
  }

  function DigitChar(k: int): (c: char)
    requires 0 <= k < 10
    ensures IsDigit(c)
  {
    (48 + k) as char
  }

  /** `n` in decimal, left-padded with zeros to `width` characters. */
  function Padded(n: int, width: nat): (s: string)
    requires 0 <= n < Pow10(width)
    ensures |s| == width && AllDigits(s)
    ensures '-' !in s
  {
    if width == 0 then ""
    else
      var s := Padded(n / 10, width - 1) + [DigitChar(n % 10)];
      assert forall i | 0 <= i < |s| :: IsDigit(s[i]);
      s
  }

  /** The number a string of decimal digits spells. */
  function DigitsValue(s: string): (n: int)
    requires AllDigits(s)
    ensures 0 <= n < Pow10(|s|)
  {
    if s == [] then 0
    else DigitsValue(s[..|s| - 1]) * 10 + (s[|s| - 1] as int - 48)
  }

  /** Reading a padded field gives back its number. */
  lemma {:induction false} PaddedValue(n: int, width: nat)
    requires 0 <= n < Pow10(width)
    ensures DigitsValue(Padded(n, width)) == n
  {
    if width > 0 {
      PaddedValue(n / 10, width - 1);
      var s := Padded(n, width);
      assert s[..|s| - 1] == Padded(n / 10, width - 1);
    }
  }

  /** Padding the number a digit string spells gives back the string. */
  lemma {:induction false} ValuePadded(s: string)
    requires AllDigits(s)
    ensures Padded(DigitsValue(s), |s|) == s
  {
    if s != [] {
      var init := s[..|s| - 1];
      ValuePadded(init);
      var n := DigitsValue(s);
      assert n / 10 == DigitsValue(init) && n % 10 == s[|s| - 1] as int - 48;
      assert s == init + [s[|s| - 1]];
    }
  }

  // ---------------------------------------------------------------------------
  // Dates and times as text

  /** `format('YYYY-MM-DD')`. */
  function FormatIsoDate(d: CalendarDate): (s: string)
    ensures |s| == 10 && s[4] == '-' && s[7] == '-'
  {
    Padded(d.year, 4) + "-" + Padded(d.month, 2) + "-" + Padded(d.day, 2)
  }

  /** The `DD-MM-YYYY` form the holiday table uses. */
  function FormatDayFirst(d: CalendarDate): string
  {
    Padded(d.day, 2) + "-" + Padded(d.month, 2) + "-" + Padded(d.year, 4)
  }

  /** The `HH:mm` form of a weekly hours key. */
  function FormatClock(c: Clock): string
  {
    Padded(c.hour, 2) + ":" + Padded(c.minute, 2)
  }

  /** Reads a `HH:mm` key; anything else (or an hour or minute out of range) gives `None`. */
  function ReadClock(s: string): (r: Option<Clock>)
    ensures r.Some? ==> |s| == 5 && s[2] == ':'
  {
    if |s| == 5 && s[2] == ':' && AllDigits(s[..2]) && AllDigits(s[3..]) then
      var h, m := DigitsValue(s[..2]), DigitsValue(s[3..]);
      if h < 24 && m < 60 then Some(Clock(h, m)) else None
    else None
  }

  /** Keys round-trip: `ReadClock` inverts `FormatClock`. */
  lemma ReadFormattedClock(c: Clock)
    ensures ReadClock(FormatClock(c)) == Some(c)
  {
    var s := FormatClock(c);
    assert s[..2] == Padded(c.hour, 2);
    assert s[3..] == Padded(c.minute, 2);
    PaddedValue(c.hour, 2);
    PaddedValue(c.minute, 2);
  }

  /** ... and `FormatClock` inverts `ReadClock` on every key it accepts. */
  lemma FormatReadClock(s: string)
    requires ReadClock(s).Some?
    ensures FormatClock(ReadClock(s).value) == s
  {
    ValuePadded(s[..2]);
    ValuePadded(s[3..]);
    assert s == s[..2] + ":" + s[3..];
  }

  /** Reads `YYYY-MM-DD`; anything else (or a month or day out of range) gives `None`. */
  function ReadIsoDate(s: string): (r: Option<CalendarDate>)
    ensures r.Some? ==> |s| == 10
  {
    if |s| == 10 && s[4] == '-' && s[7] == '-'
       && AllDigits(s[..4]) && AllDigits(s[5..7]) && AllDigits(s[8..])
    then
      var y, m, d := DigitsValue(s[..4]), DigitsValue(s[5..7]), DigitsValue(s[8..]);
      if 1 <= m <= 12 && 1 <= d <= 31 then Some(CalendarDate(y, m, d)) else None
    else None
  }

  /** `ReadIsoDate` inverts `FormatIsoDate`. */
  lemma ReadFormattedDate(d: CalendarDate)
    ensures ReadIsoDate(FormatIsoDate(d)) == Some(d)
  {
    var s := FormatIsoDate(d);
    assert s[..4] == Padded(d.year, 4);
    assert s[5..7] == Padded(d.month, 2);
    assert s[8..] == Padded(d.day, 2);
    PaddedValue(d.year, 4);
    PaddedValue(d.month, 2);
    PaddedValue(d.day, 2);
  }

  /** ... and `FormatIsoDate` inverts `ReadIsoDate` on every string it accepts. */
  lemma FormatReadDate(s: string)
    requires ReadIsoDate(s).Some?
    ensures FormatIsoDate(ReadIsoDate(s).value) == s
  {
    ValuePadded(s[..4]);
    ValuePadded(s[5..7]);
    ValuePadded(s[8..]);
    assert s == s[..4] + "-" + s[5..7] + "-" + s[8..];
  }

  /** The holiday table's `DD-MM-YYYY` string of a date turns into that date's
      `YYYY-MM-DD` followed by the time suffix. */
  lemma ParseDayFirstDate(d: CalendarDate, end: bool)
    ensures ParseDateString(FormatDayFirst(d), end)
         == FormatIsoDate(d) + (if end then EndOfDaySuffix else StartOfDaySuffix)
  {
    var fields := [Padded(d.day, 2), Padded(d.month, 2), Padded(d.year, 4)];
    JoinThree(fields[0], fields[1], fields[2]);
    SplitJoin(fields);
    var swapped := [Padded(d.year, 4), Padded(d.month, 2), Padded(d.day, 2)];
    assert Reverse(fields) == swapped;
    JoinThree(swapped[0], swapped[1], swapped[2]);
  }

  lemma JoinThree(a: string, b: string, c: string)
    ensures Join([a, b, c]) == a + "-" + b + "-" + c
  {
    assert [a, b, c][1..] == [b, c];
    assert [b, c][1..] == [c];
    assert Join([b, c]) == b + "-" + c;
    assert Join([a, b, c]) == a + "-" + Join([b, c]);
  }

  const DefaultDate: CalendarDate := CalendarDate(2020, 1, 1)
  const DefaultIsoDate: string := "2020-01-01"

  lemma DefaultIsoDateIsFormatted()
    ensures FormatIsoDate(DefaultDate) == DefaultIsoDate
  {
    assert Padded(2, 1) == "2" && Padded(20, 2) == "20";
    assert Padded(202, 3) == "202" && Padded(2020, 4) == "2020";
    assert Padded(0, 1) == "0" && Padded(1, 2) == "01";
  }

  /** The default date text reads as 1 January 2020. */
  lemma ReadDefaultIsoDate()
    ensures ReadIsoDate(DefaultIsoDate) == Some(DefaultDate)
  {
    DefaultIsoDateIsFormatted();
    ReadFormattedDate(DefaultDate);
  }

  /** `date ? date.format('YYYY-MM-DD') : '2020-01-01'`. */
  function DatePart(date: Option<CalendarDate>): (s: string)
    ensures |s| == 10 && s[4] == '-' && s[7] == '-'
  {
    if date.Some? then FormatIsoDate(date.value) else DefaultIsoDate
  }

  /** The date part reads as the given date, or 1 January 2020 when none is given. */
  lemma ReadDatePart(date: Option<CalendarDate>)
    ensures ReadIsoDate(DatePart(date)) == Some(if date.Some? then date.value else DefaultDate)
  {
    if date.Some? {
      ReadFormattedDate(date.value);
    } else {
      ReadDefaultIsoDate();
    }
  }

  /** The fields of `<day>T<time>:00.000Z` for a ten-character `day`. */
  lemma IsoStringFields(day: string, time: string)
    requires |day| == 10
    ensures (day + "T" + time + ":00.000Z")[..10] == day
    ensures (day + "T" + time + ":00.000Z")[10] == 'T'
    ensures (day + "T" + time + ":00.000Z")[11..11 + |time|] == time
    ensures (day + "T" + time + ":00.000Z")[11 + |time|..] == ":00.000Z"
  {
  }

  /** `makeISOStringFromTime(time, date)`: `<YYYY-MM-DD>T<time>:00.000Z`, where the
      date part is the given date, or 2020-01-01 when none is given. */
  function MakeIsoStringFromTime(time: string, date: Option<CalendarDate>): (r: string)
    ensures |r| == |time| + 19
    ensures ReadIsoDate(r[..10]) == Some(if date.Some? then date.value else DefaultDate)
    ensures r[10] == 'T' && r[11..11 + |time|] == time && r[11 + |time|..] == ":00.000Z"
  {
    var day := DatePart(date);
    ReadDatePart(date);
    IsoStringFields(day, time);
    day + "T" + time + ":00.000Z"
  }
}
