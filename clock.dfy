/** Timestamps of the click log: `parseDate` turns the `Date` column
    (`M/D/YYYY`) and the `Time` column (`h:mm:ss AM|PM`) into a JS `Date`,
    built with `new Date(year, month - 1, day, hour, minutes, seconds)`.

    A `Date` is modelled by its time value: milliseconds since 1 January 1970,
    or NaN for an invalid date. The constructor's arithmetic is the one
    ECMAScript prescribes (MakeDay, MakeTime, MakeDate, TimeClip), with the
    local time zone taken to be UTC. */
module Clock {
  import opened Seqs
  import opened Text

  const MS_PER_SECOND: int := 1000
  const MS_PER_MINUTE: int := 60000
  const MS_PER_HOUR: int := 3600000
  const MS_PER_DAY: int := 86400000
  /** Largest magnitude of a valid time value (TimeClip). */
  const MAX_TIME: int := 8640000000000000

  /** The time value of a `Date`: milliseconds, or NaN (an Invalid Date). */
  datatype Time = At(ms: int) | Invalid

  /** `a >= b` on two dates: false as soon as one of them is NaN. */
  predicate AtOrAfter(a: Time, b: Time)
  {
    a.At? && b.At? && a.ms >= b.ms
  }

  /** `a > b` on two dates: false as soon as one of them is NaN. */
  predicate Later(a: Time, b: Time)
  {
    a.At? && b.At? && a.ms > b.ms
  }

  predicate IsLeapYear(y: int)
  {
    y % 4 == 0 && (y % 100 != 0 || y % 400 == 0)
  }

  function DaysInYear(y: int): int
  {
    if IsLeapYear(y) then 366 else 365
  }

  /** Day number of 1 January of year `y`, counted from 1 January 1970. */
  function DayFromYear(y: int): int
  {
    365 * (y - 1970) + (y - 1969) / 4 - (y - 1901) / 100 + (y - 1601) / 400
  }

  /** Days in month `m` (0 is January) of a year that is or is not leap. */
  function DaysInMonth(m: int, leap: bool): int
    requires 0 <= m < 12
  {
    if m == 1 then (if leap then 29 else 28)
    else if m == 3 || m == 5 || m == 8 || m == 10 then 30
    else 31
  }

  /** Days of the year before month `m` (0 is January). */
  function MonthStart(m: int, leap: bool): int
    requires 0 <= m < 12
  {
    [0, 31, 59, 90, 120, 151, 181, 212, 243, 273, 304, 334][m] + (if leap && m >= 2 then 1 else 0)
  }

  /** ECMAScript MakeDay: a month outside 0..11 carries into the year, and a
      day outside the month runs into the neighbouring months. */
  function MakeDay(year: int, month: int, date: int): int
  {
    var ym := year + month / 12;
    var mn := month % 12;
    DayFromYear(ym) + MonthStart(mn, IsLeapYear(ym)) + date - 1
  }

  /** ECMAScript MakeTime with no milliseconds. */
  function MakeTime(hour: int, minute: int, second: int): int
  {
    hour * MS_PER_HOUR + minute * MS_PER_MINUTE + second * MS_PER_SECOND
  }

  /** ECMAScript TimeClip. */
  function TimeClip(t: int): Time
  {
    if -MAX_TIME <= t <= MAX_TIME then At(t) else Invalid
  }

  /** `new Date(year, month, day, hours, minutes, seconds)`: NaN in any
      argument gives an Invalid Date, and a year from 0 to 99 means 19xx. */
  function NewDate(year: Num, month: Num, day: Num, hours: Num, minutes: Num, seconds: Num): (r: Time)
    ensures r.At? ==> -MAX_TIME <= r.ms <= MAX_TIME
    ensures (year.NaN? || month.NaN? || day.NaN? || hours.NaN? || minutes.NaN? || seconds.NaN?) ==> r == Invalid
  {
    if year.NaN? || month.NaN? || day.NaN? || hours.NaN? || minutes.NaN? || seconds.NaN? then Invalid
    else
      var y := if 0 <= year.value <= 99 then 1900 + year.value else year.value;
      TimeClip(MakeDay(y, month.value, day.value) * MS_PER_DAY
               + MakeTime(hours.value, minutes.value, seconds.value))
  }

  /** `x - 1` on a number. */
  function Pred(x: Num): Num
  {
    if x.NaN? then NaN else Int(x.value - 1)
  }

  /** The 12-hour to 24-hour rule of `parseDate`: 12 AM is hour 0, a PM hour
      other than 12 gains 12, every other hour stays. NaN stays NaN. */
  function To24Hour(hour: Num, period: Option<string>): Num
  {
    var h := if period == Some("PM") && hour != Int(12) then
               (if hour.NaN? then NaN else Int(hour.value + 12))
             else hour;
    if period == Some("AM") && h == Int(12) then Int(0) else h
  }

  /** `parseDate(dateStr, timeStr)`. */
  function ParseDate(dateStr: string, timeStr: string): (r: Time)
    ensures r.At? ==> -MAX_TIME <= r.ms <= MAX_TIME
    ensures '/' !in dateStr ==> r == Invalid
  {
    var month := Split(dateStr, '/')[0];
    var day := SplitPart(dateStr, '/', 1);
    var year := SplitPart(dateStr, '/', 2);
    var time := Split(timeStr, ' ')[0];
    var period := SplitPart(timeStr, ' ', 1);
    var hours := Split(time, ':')[0];
    var minutes := SplitPart(time, ':', 1);
    var seconds := SplitPart(time, ':', 2);
    var hour := To24Hour(ParseInt(hours), period);
    NewDate(ToNumber(year), Pred(ToNumber(Some(month))), ToNumber(day), hour, ToNumber(minutes), ToNumber(seconds))
  }

  /** The clock-face hour and half of the day for a 24-hour hour. */
  function To12Hour(h: int): (int, string)
    requires 0 <= h < 24
  {
    if h == 0 then (12, "AM")
    else if h < 12 then (h, "AM")
    else if h == 12 then (12, "PM")
    else (h - 12, "PM")
  }

  /** The 12-hour rule is a bijection between clock-face hours 1..12 with AM or
      PM and the hours 0..23: each direction undoes the other. */
  lemma HourRoundTrip(h: int, period: string)
    ensures 0 <= h < 24 ==> To24Hour(Int(To12Hour(h).0), Some(To12Hour(h).1)) == Int(h)
    ensures 1 <= h <= 12 && (period == "AM" || period == "PM") ==>
              To24Hour(Int(h), Some(period)).Int?
              && 0 <= To24Hour(Int(h), Some(period)).value < 24
              && To12Hour(To24Hour(Int(h), Some(period)).value) == (h, period)
  {
  }

  /** A calendar date and wall-clock time, month counted from 1. */
  datatype Stamp = Stamp(year: int, month: int, day: int, hour: int, minute: int, second: int)

  /** The fields name a real moment: month 1..12, a day of that month, a time
      of day, and a year of four or more digits within the range of `Date`. */
  ghost predicate ValidStamp(st: Stamp)
  {
    && 1000 <= st.year <= 200000
    && 1 <= st.month <= 12
    && 1 <= st.day <= DaysInMonth(st.month - 1, IsLeapYear(st.year))
    && 0 <= st.hour < 24 && 0 <= st.minute < 60 && 0 <= st.second < 60
  }

  /** Lexicographic order of the fields, year first. */
  ghost predicate Earlier(a: Stamp, b: Stamp)
  {
    || a.year < b.year
    || (a.year == b.year && a.month < b.month)
    || (a.year == b.year && a.month == b.month && a.day < b.day)
    || (a.year == b.year && a.month == b.month && a.day == b.day && a.hour < b.hour)
    || (a.year == b.year && a.month == b.month && a.day == b.day && a.hour == b.hour && a.minute < b.minute)
    || (a.year == b.year && a.month == b.month && a.day == b.day && a.hour == b.hour && a.minute == b.minute
        && a.second < b.second)
  }

  /** The day number of a valid stamp's date. */
  function DayOf(st: Stamp): int
    requires 1 <= st.month <= 12
  {
    DayFromYear(st.year) + MonthStart(st.month - 1, IsLeapYear(st.year)) + st.day - 1
  }

  /** The time value of a valid stamp. */
  function WallClock(st: Stamp): int
    requires 1 <= st.month <= 12
  {
    DayOf(st) * MS_PER_DAY + MakeTime(st.hour, st.minute, st.second)
  }

  lemma DayFromYearStep(y: int)
    ensures DayFromYear(y + 1) == DayFromYear(y) + DaysInYear(y)
  {
    var d4, d100, d400 := (y + 1 - 1969) / 4 - (y - 1969) / 4,
                          (y + 1 - 1901) / 100 - (y - 1901) / 100,
                          (y + 1 - 1601) / 400 - (y - 1601) / 400;
    QuarterStep(y);
    CenturyStep(y);
    QuadricentennialStep(y);
    assert DayFromYear(y + 1) - DayFromYear(y) == 365 + d4 - d100 + d400;
    if y % 100 == 0 {
      CenturyIsQuarter(y);
    }
    if y % 400 == 0 {
      QuadricentennialIsCentury(y);
    }
  }

  lemma CenturyIsQuarter(y: int)
    requires y % 100 == 0
    ensures y % 4 == 0
  {
    assert y == 4 * (25 * (y / 100));
  }

  lemma QuadricentennialIsCentury(y: int)
    requires y % 400 == 0
    ensures y % 100 == 0
  {
    assert y == 100 * (4 * (y / 400));
  }

  lemma QuarterStep(y: int)
    ensures (y + 1 - 1969) / 4 - (y - 1969) / 4 == if y % 4 == 0 then 1 else 0
  {
  }

  lemma CenturyStep(y: int)
    ensures (y + 1 - 1901) / 100 - (y - 1901) / 100 == if y % 100 == 0 then 1 else 0
  {
  }

  lemma QuadricentennialStep(y: int)
    ensures (y + 1 - 1601) / 400 - (y - 1601) / 400 == if y % 400 == 0 then 1 else 0
  {
  }

  lemma {:induction false} DayFromYearGrows(y1: int, y2: int)
    requires y1 < y2
    ensures DayFromYear(y1) + DaysInYear(y1) <= DayFromYear(y2)
    decreases y2 - y1
  {
    DayFromYearStep(y1);
    if y1 + 1 < y2 {
      DayFromYearGrows(y1 + 1, y2);
      DayFromYearStep(y1 + 1);
    }
  }

  /** A valid date falls within its year. */
  lemma DayWithinYear(st: Stamp)
    requires ValidStamp(st)
    ensures DayFromYear(st.year) <= DayOf(st) < DayFromYear(st.year) + DaysInYear(st.year)
  {
  }

  /** Within one year, later month or day means a later day number. */
  lemma DayOrderWithinYear(a: Stamp, b: Stamp)
    requires ValidStamp(a) && ValidStamp(b) && a.year == b.year
    requires a.month < b.month || (a.month == b.month && a.day < b.day)
    ensures DayOf(a) < DayOf(b)
  {
  }

  /** Lexicographic order of valid stamps is the order of their time values:
      the time value orders clicks exactly as their dates and times do. */
  lemma WallClockOrder(a: Stamp, b: Stamp)
    requires ValidStamp(a) && ValidStamp(b)
    ensures Earlier(a, b) <==> WallClock(a) < WallClock(b)
    ensures a == b <==> WallClock(a) == WallClock(b)
  {
    assert 0 <= MakeTime(a.hour, a.minute, a.second) < MS_PER_DAY;
    assert 0 <= MakeTime(b.hour, b.minute, b.second) < MS_PER_DAY;
    DayWithinYear(a);
    DayWithinYear(b);
    if a.year < b.year {
      DayFromYearGrows(a.year, b.year);
    } else if b.year < a.year {
      DayFromYearGrows(b.year, a.year);
    } else if a.month < b.month || (a.month == b.month && a.day < b.day) {
      DayOrderWithinYear(a, b);
    } else if b.month < a.month || (a.month == b.month && b.day < a.day) {
      DayOrderWithinYear(b, a);
    }
  }

  /** `M/D/YYYY`, as the click log writes a date. */
  function FormatDate(st: Stamp): string
    requires st.year >= 0 && st.month >= 0 && st.day >= 0
  {
    Join([Show(st.month), Show(st.day), Show(st.year)], '/')
  }

  /** Two digits, with a leading zero below 10. */
  function Pad2(n: nat): string
  {
    if n < 10 then "0" + Show(n) else Show(n)
  }

  /** `h:mm:ss AM|PM`, as the click log writes a time. */
  function FormatTime(st: Stamp): string
    requires 0 <= st.hour < 24 && st.minute >= 0 && st.second >= 0
  {
    var (h, period) := To12Hour(st.hour);
    Join([Join([Show(h), Pad2(st.minute), Pad2(st.second)], ':'), period], ' ')
  }

  lemma DigitsHaveNoSeparator(s: string, sep: char)
    requires AllDigits(s) && !IsDigit(sep)
    ensures sep !in s
  {
  }

  lemma Pad2ReadsBack(n: nat)
    ensures AllDigits(Pad2(n)) && ToNumber(Some(Pad2(n))) == Int(n)
  {
    ShowReadsBack(n);
    if n < 10 {
      LeadingZero(Show(n));
    }
  }

  /** The date column splits on '/' into the three printed numbers. */
  lemma DateFields(st: Stamp)
    requires st.year >= 0 && st.month >= 0 && st.day >= 0
    ensures Split(FormatDate(st), '/') == [Show(st.month), Show(st.day), Show(st.year)]
  {
    var ds := [Show(st.month), Show(st.day), Show(st.year)];
    forall i | 0 <= i < 3 ensures '/' !in ds[i] {
      DigitsHaveNoSeparator(ds[i], '/');
    }
    SplitJoin(ds, '/');
  }

  /** The time column splits on ' ' into the clock and the period, and the
      clock splits on ':' into hours, minutes and seconds. */
  lemma TimeFields(st: Stamp)
    requires 0 <= st.hour < 24 && st.minute >= 0 && st.second >= 0
    ensures var (h, period) := To12Hour(st.hour);
            var clock := Join([Show(h), Pad2(st.minute), Pad2(st.second)], ':');
            Split(FormatTime(st), ' ') == [clock, period]
            && Split(clock, ':') == [Show(h), Pad2(st.minute), Pad2(st.second)]
  {
    var (h, period) := To12Hour(st.hour);
    var cs := [Show(h), Pad2(st.minute), Pad2(st.second)];
    Pad2ReadsBack(st.minute);
    Pad2ReadsBack(st.second);
    forall i | 0 <= i < 3 ensures ':' !in cs[i] && ' ' !in cs[i] {
      DigitsHaveNoSeparator(cs[i], ':');
      DigitsHaveNoSeparator(cs[i], ' ');
    }
    SplitJoin(cs, ':');
    JoinKeeps(cs, ':', ' ');
    var clock := Join(cs, ':');
    SplitJoin([clock, period], ' ');
  }

  /** A valid stamp's time value is within the range TimeClip accepts. */
  lemma WallClockInRange(st: Stamp)
    requires ValidStamp(st)
    ensures -MAX_TIME <= WallClock(st) <= MAX_TIME
  {
    DayWithinYear(st);
    DayFromYearGrows(1000, st.year + 1);
    DayFromYearGrows(st.year, 200001);
    DayFromYearBounds();
  }

  lemma DayFromYearBounds()
    ensures DayFromYear(1000) == -354285
    ensures DayFromYear(200001) == 72329338
  {
  }

  /** The constructor call `parseDate` makes for a valid stamp yields the
      stamp's time value. */
  lemma NewDateOfStamp(st: Stamp)
    requires ValidStamp(st)
    ensures NewDate(Int(st.year), Int(st.month - 1), Int(st.day), Int(st.hour), Int(st.minute), Int(st.second))
            == At(WallClock(st))
  {
    assert (st.month - 1) / 12 == 0 && (st.month - 1) % 12 == st.month - 1;
    assert MakeDay(st.year, st.month - 1, st.day) == DayOf(st);
    WallClockInRange(st);
  }

  /** `parseDate` reads back what the log format writes: the month is taken
      from 1-based to 0-based, the 12-hour clock is converted back, and the
      result is the time value of the stamp. */
  lemma ParseFormatted(st: Stamp)
    requires ValidStamp(st)
    ensures ParseDate(FormatDate(st), FormatTime(st)) == At(WallClock(st))
  {
    var dateStr, timeStr := FormatDate(st), FormatTime(st);
    DateFields(st);
    TimeFields(st);
    var (h, period) := To12Hour(st.hour);
    var clock := Join([Show(h), Pad2(st.minute), Pad2(st.second)], ':');
    Pad2ReadsBack(st.minute);
    Pad2ReadsBack(st.second);
    ShowReadsBack(st.month);
    ShowReadsBack(st.day);
    ShowReadsBack(st.year);
    ShowReadsBack(h);
    HourRoundTrip(st.hour, period);
    assert Split(dateStr, '/')[0] == Show(st.month);
    assert SplitPart(dateStr, '/', 1) == Some(Show(st.day));
    assert SplitPart(dateStr, '/', 2) == Some(Show(st.year));
    assert Split(timeStr, ' ')[0] == clock;
    assert SplitPart(timeStr, ' ', 1) == Some(period);
    assert Split(clock, ':')[0] == Show(h);
    assert SplitPart(clock, ':', 1) == Some(Pad2(st.minute));
    assert SplitPart(clock, ':', 2) == Some(Pad2(st.second));
    assert To24Hour(ParseInt(Show(h)), Some(period)) == Int(st.hour);
    NewDateOfStamp(st);
  }

  /** Joining pieces free of a character with a different separator gives a
      string free of that character. */
  lemma {:induction false} JoinKeeps(parts: seq<string>, sep: char, c: char)
    requires c != sep
    requires forall i :: 0 <= i < |parts| ==> c !in parts[i]
    ensures c !in Join(parts, sep)
  {
    if |parts| > 1 {
      JoinKeeps(parts[1..], sep, c);
    }
  }
}
