/** The calendar of lib-clib/src/time.cpp: broken-down time, day counts, and what conversion to and fro gives. */
module CalendarModel {
  import opened Words

  /** `struct tm`, with years counted from 1900 and months from 0. */
  datatype Tm = Tm(sec: int, min: int, hour: int, mday: int, mon: int, year: int, wday: int, yday: int)

  const DAYS_OF_MONTH: seq<int> := [31, 28, 31, 30, 31, 30, 31, 31, 30, 31, 30, 31]

  predicate IsLeap(year: int) {
    if year % 100 == 0 then year % 400 == 0 else year % 4 == 0
  }

  function DaysOfMonth(month: int, year: int): (d: int)
    requires 0 <= month < 12
    ensures 28 <= d <= 31
  {
    if month == 1 && IsLeap(year) then 29 else DAYS_OF_MONTH[month]
  }

  function DaysOfYear(year: int): int {
    if IsLeap(year) then 366 else 365
  }

  /** Leap years up to `year`. */
  function LeapYears(year: int): int {
    year / 4 - year / 100 + year / 400
  }

  /** Days from 1 January 1970 to 1 January of `year`, in closed form. */
  function DaysBefore(year: int): int {
    365 * (year - 1970) + LeapYears(year - 1) - LeapYears(1969)
  }

  lemma NextYear(year: int)
    ensures DaysBefore(year + 1) == DaysBefore(year) + DaysOfYear(year)
  {
    Quotient(year, 4);
    Quotient(year, 100);
    Quotient(year, 400);
    LeapTest(year);
  }

  lemma LeapTest(year: int)
    ensures (if IsLeap(year) then 1 else 0)
         == (if year % 4 == 0 then 1 else 0) - (if year % 100 == 0 then 1 else 0) + if year % 400 == 0 then 1 else 0
  {
    Hundreds(year);
    FourHundreds(year);
  }

  lemma Hundreds(n: int)
    ensures n % 100 == 0 ==> n % 4 == 0
  {
    if n % 100 == 0 { assert n == 4 * (25 * (n / 100)); }
  }

  lemma FourHundreds(n: int)
    ensures n % 400 == 0 ==> n % 100 == 0
  {
    if n % 400 == 0 { assert n == 100 * (4 * (n / 400)); }
  }

  lemma Quotient(n: int, d: int)
    requires d in {4, 100, 400}
    ensures n / d == (n - 1) / d + if n % d == 0 then 1 else 0
  {
    if d == 4 {
    } else if d == 100 {
    } else {
    }
  }

  lemma {:induction false} YearsAscend(y: int, z: int)
    requires y < z
    ensures DaysBefore(y) + DaysOfYear(y) <= DaysBefore(z)
    decreases z - y
  {
    NextYear(y);
    if y + 1 < z { YearsAscend(y + 1, z); }
  }

  /** Days from the first of January to the first of the month. */
  function DaysBeforeMonth(month: int, year: int): (d: int)
    requires 0 <= month <= 12
    ensures d >= 0
  {
    if month == 0 then 0 else DaysBeforeMonth(month - 1, year) + DaysOfMonth(month - 1, year)
  }

  lemma MonthTable(year: int)
    ensures var l := if IsLeap(year) then 1 else 0;
            && DaysBeforeMonth(1, year) == 31 && DaysBeforeMonth(2, year) == 59 + l
            && DaysBeforeMonth(3, year) == 90 + l
            && DaysBeforeMonth(4, year) == 120 + l && DaysBeforeMonth(5, year) == 151 + l
            && DaysBeforeMonth(6, year) == 181 + l
            && DaysBeforeMonth(7, year) == 212 + l && DaysBeforeMonth(8, year) == 243 + l
            && DaysBeforeMonth(9, year) == 273 + l
            && DaysBeforeMonth(10, year) == 304 + l && DaysBeforeMonth(11, year) == 334 + l
            && DaysBeforeMonth(12, year) == DaysOfYear(year)
  {
  }

  lemma {:induction false} MonthsAscend(m: int, n: int, year: int)
    requires 0 <= m < n <= 12
    ensures DaysBeforeMonth(m, year) + DaysOfMonth(m, year) <= DaysBeforeMonth(n, year)
    decreases n - m
  {
    if m + 1 < n { MonthsAscend(m, n - 1, year); }
  }

  /** A proper date, its day of the year included. */
  predicate IsDate(tm: Tm) {
    && 0 <= tm.mon < 12 && 1 <= tm.mday <= DaysOfMonth(tm.mon, 1900 + tm.year)
    && tm.yday == DaysBeforeMonth(tm.mon, 1900 + tm.year) + tm.mday - 1
  }

  predicate IsTime(tm: Tm) {
    0 <= tm.sec < 60 && 0 <= tm.min < 60 && 0 <= tm.hour < 24
  }

  /** The proper date and time `tm` is `t` seconds after the start of 1970, a Thursday. */
  predicate Denotes(tm: Tm, t: int) {
    && IsTime(tm) && IsDate(tm)
    && t == Seconds(Day(tm), tm.hour, tm.min, tm.sec)
    && tm.wday == (Day(tm) + 4) % 7
  }

  function Day(tm: Tm): int {
    DaysBefore(1900 + tm.year) + tm.yday
  }

  function Seconds(day: int, hour: int, min: int, sec: int): int {
    ((day * 24 + hour) * 60 + min) * 60 + sec
  }

  lemma SecondsUnique(day: int, hour: int, min: int, sec: int, day': int, hour': int, min': int, sec': int)
    requires 0 <= sec < 60 && 0 <= min < 60 && 0 <= hour < 24 && 0 <= sec' < 60 && 0 <= min' < 60 && 0 <= hour' < 24
    requires Seconds(day, hour, min, sec) == Seconds(day', hour', min', sec')
    ensures (day, hour, min, sec) == (day', hour', min', sec')
  {
    assert day == day';
  }

  lemma YearUnique(tm: Tm, tm': Tm)
    requires IsDate(tm) && IsDate(tm') && Day(tm) == Day(tm')
    ensures tm.year == tm'.year
  {
    YdayInYear(tm);
    YdayInYear(tm');
    if tm.year < tm'.year { YearsAscend(1900 + tm.year, 1900 + tm'.year); }
    if tm'.year < tm.year { YearsAscend(1900 + tm'.year, 1900 + tm.year); }
  }

  lemma MonthUnique(tm: Tm, tm': Tm)
    requires IsDate(tm) && IsDate(tm') && tm.year == tm'.year && tm.yday == tm'.yday
    ensures tm.mon == tm'.mon && tm.mday == tm'.mday
  {
    if tm.mon < tm'.mon { MonthsAscend(tm.mon, tm'.mon, 1900 + tm.year); }
    if tm'.mon < tm.mon { MonthsAscend(tm'.mon, tm.mon, 1900 + tm.year); }
  }

  /** A moment has only one date. */
  lemma DateUnique(tm: Tm, tm': Tm, t: int)
    ensures Denotes(tm, t) && Denotes(tm', t) ==> tm == tm'
  {
    if Denotes(tm, t) && Denotes(tm', t) {
      SecondsUnique(Day(tm), tm.hour, tm.min, tm.sec, Day(tm'), tm'.hour, tm'.min, tm'.sec);
      YearUnique(tm, tm');
      MonthUnique(tm, tm');
    }
  }

  lemma YdayInYear(tm: Tm)
    requires IsDate(tm)
    ensures 0 <= tm.yday < DaysOfYear(1900 + tm.year)
  {
    MonthTable(1900 + tm.year);
    MonthsAscend(tm.mon, 12, 1900 + tm.year);
  }

  lemma DayBounds(tm: Tm, t: int)
    requires Denotes(tm, t)
    ensures Day(tm) * 86400 <= t < (Day(tm) + 1) * 86400
  {
  }

  /** The start of 1970, a Thursday. */
  lemma Epoch(tm: Tm, t: int)
    requires Denotes(tm, t)
    ensures t == 0 ==> tm == Tm(0, 0, 0, 1, 0, 70, 4, 0)
  {
    EpochTime(tm, t, Day(tm));
    EpochWeekday(tm, Day(tm));
    if Day(tm) == 0 { EpochDate(tm); }
  }

  lemma EpochTime(tm: Tm, t: int, day: int)
    requires Denotes(tm, t) && day == Day(tm)
    ensures t == 0 ==> day == 0 && tm.hour == 0 && tm.min == 0 && tm.sec == 0
  {
    if t == 0 { ZeroTime(day, tm.hour, tm.min, tm.sec); }
  }

  lemma EpochWeekday(tm: Tm, day: int)
    requires tm.wday == (day + 4) % 7
    ensures day == 0 ==> tm.wday == 4
  {
    if day == 0 { Thursday(day, tm.wday); }
  }

  lemma ZeroTime(day: int, hour: int, min: int, sec: int)
    requires 0 <= sec < 60 && 0 <= min < 60 && 0 <= hour < 24 && Seconds(day, hour, min, sec) == 0
    ensures day == 0 && hour == 0 && min == 0 && sec == 0
  {
  }

  lemma Thursday(day: int, wday: int)
    requires day == 0 && wday == (day + 4) % 7
    ensures wday == 4
  {
  }

  lemma EpochDate(tm: Tm)
    requires IsDate(tm) && Day(tm) == 0
    ensures tm.year == 70 && tm.yday == 0 && tm.mon == 0 && tm.mday == 1
  {
    EpochYear(tm);
    if tm.mon > 0 { MonthsAscend(0, tm.mon, 1970); }
  }

  lemma EpochYear(tm: Tm)
    requires IsDate(tm) && Day(tm) == 0
    ensures tm.year == 70 && tm.yday == 0
  {
    YdayInYear(tm);
    assert DaysBefore(1970) == 0;
    if tm.year > 70 { YearsAscend(1970, 1900 + tm.year); }
    if tm.year < 70 { YearsAscend(1900 + tm.year, 1970); }
  }

  /** The next day of the month, the first of the next month, or New Year. */
  predicate IsNextDate(tm: Tm, tm': Tm) {
    if tm.mon == 11 && tm.mday == 31 then (tm'.mday, tm'.mon, tm'.year, tm'.yday) == (1, 0, tm.year + 1, 0)
    else
      && tm'.yday == tm.yday + 1 && tm'.year == tm.year
      && if tm.mday == MonthLength(tm.mon, 1900 + tm.year) then tm'.mday == 1 && tm'.mon == tm.mon + 1
         else tm'.mday == tm.mday + 1 && tm'.mon == tm.mon
  }

  predicate IsNextDay(tm: Tm, tm': Tm) {
    && (tm'.sec, tm'.min, tm'.hour) == (tm.sec, tm.min, tm.hour)
    && tm'.wday == (if tm.wday == 6 then 0 else tm.wday + 1)
    && IsNextDate(tm, tm')
  }

  /** Thirty days have April, June, September and November. */
  function MonthLength(month: int, year: int): int {
    if month == 1 then (if year % 4 == 0 && (year % 100 != 0 || year % 400 == 0) then 29 else 28)
    else if month in {3, 5, 8, 10} then 30 else 31
  }

  lemma MonthLengths(month: int, year: int)
    requires 0 <= month < 12
    ensures DaysOfMonth(month, year) == MonthLength(month, year)
  {
    Hundreds(year);
  }

  /** A day later the date is that of the next day. With the epoch this determines every date from 1970 on. */
  lemma DayAfter(tm: Tm, tm': Tm, t: int)
    ensures Denotes(tm, t) && Denotes(tm', t + 86400) ==> IsNextDay(tm, tm')
  {
    if Denotes(tm, t) {
      var next := NextDay(tm, t);
      DateUnique(next, tm', t + 86400);
    }
  }

  lemma NextDay(tm: Tm, t: int) returns (next: Tm)
    requires Denotes(tm, t)
    ensures Denotes(next, t + 86400) && IsNextDay(tm, next)
  {
    next := NextDate(tm);
    NextMoment(tm, next, t);
    next := next.(wday := if tm.wday == 6 then 0 else tm.wday + 1);
  }

  lemma NextMoment(tm: Tm, next: Tm, t: int)
    requires IsDate(next) && (next.sec, next.min, next.hour) == (tm.sec, tm.min, tm.hour)
    ensures Denotes(tm, t) && Day(next) == Day(tm) + 1 ==>
              Denotes(next.(wday := if tm.wday == 6 then 0 else tm.wday + 1), t + 86400)
  {
    var next' := next.(wday := if tm.wday == 6 then 0 else tm.wday + 1);
    Tomorrow(Day(tm), tm.hour, tm.min, tm.sec);
    assert IsDate(next') && Day(next') == Day(next);
  }

  lemma NextDate(tm: Tm) returns (next: Tm)
    requires IsDate(tm)
    ensures IsDate(next) && Day(next) == Day(tm) + 1 && IsNextDate(tm, next)
    ensures (next.sec, next.min, next.hour) == (tm.sec, tm.min, tm.hour)
  {
    if tm.mon == 11 && tm.mday == 31 {
      next := tm.(mday := 1, mon := 0, year := tm.year + 1, yday := 0);
      NewYear(tm, next);
    } else if tm.mday == MonthLength(tm.mon, 1900 + tm.year) {
      next := tm.(mday := 1, mon := tm.mon + 1, yday := tm.yday + 1);
      NewMonth(tm, next);
    } else {
      next := tm.(mday := tm.mday + 1, yday := tm.yday + 1);
      MonthLengths(tm.mon, 1900 + tm.year);
    }
  }

  lemma NewYear(tm: Tm, next: Tm)
    requires IsDate(tm) && tm.mon == 11 && tm.mday == 31
    requires next == tm.(mday := 1, mon := 0, year := tm.year + 1, yday := 0)
    ensures IsDate(next) && Day(next) == Day(tm) + 1
  {
    NextYear(1900 + tm.year);
    MonthTable(1900 + tm.year);
    assert DaysBeforeMonth(0, 1900 + next.year) == 0;
  }

  lemma NewMonth(tm: Tm, next: Tm)
    requires IsDate(tm) && tm.mday == MonthLength(tm.mon, 1900 + tm.year) && tm.mon < 11
    requires next == tm.(mday := 1, mon := tm.mon + 1, yday := tm.yday + 1)
    ensures IsDate(next) && Day(next) == Day(tm) + 1
  {
    MonthLengths(tm.mon, 1900 + tm.year);
  }

  lemma Tomorrow(day: int, hour: int, min: int, sec: int)
    ensures Seconds(day + 1, hour, min, sec) == Seconds(day, hour, min, sec) + 86400
    ensures (day + 1 + 4) % 7 == if (day + 4) % 7 == 6 then 0 else (day + 4) % 7 + 1
  {
  }

  /** A second later on the same day the clock shows a second more. */
  lemma SecondAfter(tm: Tm, tm': Tm, t: int)
    requires Day(tm') == Day(tm)
    ensures Denotes(tm, t) && Denotes(tm', t + 1) ==>
              tm'.hour * 3600 + tm'.min * 60 + tm'.sec == tm.hour * 3600 + tm.min * 60 + tm.sec + 1
  {
  }

  // ---------------------------------------------------------------- mktime

  /** `mktime`: the month lengths are looked up for `tm_year` itself, not for 1900 more. */
  function MkTime(tm: Tm): int {
    if tm.year < 70 || tm.year > 139 then -1
    else if tm.mon < 0 || tm.mon > 11 then -1
    else if tm.mday < 1 || tm.mday > DaysOfMonth(tm.mon, tm.year) then -1
    else if tm.hour < 0 || tm.hour > 23 then -1
    else if tm.min < 0 || tm.min > 59 then -1
    else if tm.sec < 0 || tm.sec > 59 then -1
    else Seconds(DaysBefore(1900 + tm.year) + DaysBeforeMonth(tm.mon, tm.year) + tm.mday - 1, tm.hour, tm.min, tm.sec)
  }

  /** In the range of `mktime` the two leap tests differ for the year 2000 only. */
  lemma WrongLeapTest(year: int)
    requires 70 <= year <= 139
    ensures IsLeap(year) == IsLeap(1900 + year) <==> year != 100
  {
  }

  /** First seconds of 29 February 2000, 1 March 2000, 1 January 2001 and 1 January 2040. */
  const LEAP_DAY_2000 := 951782400
  const MARCH_2000 := 951868800
  const YEAR_2001 := 978307200
  const YEAR_2040 := 2208988800

  lemma {:induction false} SameMonths(month: int, year: int, year': int)
    requires 0 <= month <= 12
    ensures IsLeap(year) == IsLeap(year') ==> DaysBeforeMonth(month, year) == DaysBeforeMonth(month, year')
    ensures IsLeap(year) && !IsLeap(year') ==>
              DaysBeforeMonth(month, year) == DaysBeforeMonth(month, year') + if month >= 2 then 1 else 0
  {
    if month == 0 {
    } else {
      SameMonths(month - 1, year, year');
    }
  }

  lemma MkTimeOfOtherYear(tm: Tm, t: int)
    requires Denotes(tm, t) && 70 <= tm.year <= 139 && tm.year != 100
    ensures MkTime(tm) == t
  {
    WrongLeapTest(tm.year);
    SameMonths(tm.mon, 1900 + tm.year, tm.year);
  }

  lemma DayIn2000(tm: Tm)
    requires IsDate(tm) && tm.year == 100
    ensures tm.mon < 1 || (tm.mon == 1 && tm.mday < 29) <==> tm.yday < 59
    ensures tm.mon == 1 && tm.mday == 29 <==> tm.yday == 59
    ensures tm.mon >= 2 <==> tm.yday >= 60
  {
    MonthTable(2000);
    if tm.mon > 1 { MonthsAscend(1, tm.mon, 2000); }
  }

  lemma MkTimeOf2000(tm: Tm, t: int)
    requires Denotes(tm, t) && tm.year == 100
    ensures MkTime(tm) == if LEAP_DAY_2000 <= t < MARCH_2000 then -1 else if MARCH_2000 <= t then t - 86400 else t
  {
    DayIn2000(tm);
    DayBounds(tm, t);
    SameMonths(tm.mon, 2000, 100);
    assert Day(tm) == 10957 + tm.yday;
    assert MkTime(tm) == if tm.yday == 59 then -1 else if tm.yday >= 60 then t - 86400 else t;
  }

  /** What `mktime` makes of the date of `t`, for every `t` from 1970 on. */
  lemma MkTimeOfDate(tm: Tm, t: int)
    requires Denotes(tm, t) && t >= 0
    ensures MkTime(tm) ==
            if t >= YEAR_2040 || LEAP_DAY_2000 <= t < MARCH_2000 then -1
            else if MARCH_2000 <= t < YEAR_2001 then t - 86400
            else t
  {
    YearOf(tm, t, 1970, 0);
    YearOf(tm, t, 2000, 946684800);
    YearOf(tm, t, 2001, YEAR_2001);
    YearOf(tm, t, 2040, YEAR_2040);
    if tm.year == 100 {
      MkTimeOf2000(tm, t);
    } else if tm.year <= 139 {
      MkTimeOfOtherYear(tm, t);
    }
  }

  lemma YearOf(tm: Tm, t: int, year: int, start: int)
    requires Denotes(tm, t) && start == DaysBefore(year) * 86400
    ensures 1900 + tm.year >= year <==> t >= start
  {
    YdayInYear(tm);
    DayBounds(tm, t);
    if 1900 + tm.year < year {
      YearsAscend(1900 + tm.year, year);
    } else if 1900 + tm.year > year {
      YearsAscend(year, 1900 + tm.year);
    }
  }

  // ---------------------------------------------------------------- gmtime

  /** Before 1970 the loops do not run: the fields are quotients and remainders towards zero. */
  function Before1970(t: int): Tm {
    var day := Quot(Quot(Quot(t, 60), 60), 24);
    Tm(Rem(t, 60), Rem(Quot(t, 60), 60), Rem(Quot(Quot(t, 60), 60), 24), day + 1, 0, 70, Rem(day + 4, 7), day)
  }

  /** Day, hour, minute and second add up to the moment, and none is positive; the month stays January 1970. */
  lemma BeforeEpoch(t: int)
    requires t < 0
    ensures var tm := Before1970(t);
            && t == Seconds(tm.yday, tm.hour, tm.min, tm.sec)
            && -60 < tm.sec <= 0 && -60 < tm.min <= 0 && -24 < tm.hour <= 0 && tm.yday <= 0
            && tm.mday == tm.yday + 1 && tm.mon == 0 && tm.year == 70
            && -7 < tm.wday < 7 && (tm.wday - (tm.yday + 4)) % 7 == 0 && (tm.wday > 0 ==> tm.yday > -4)
  {
    var day := Before1970(t).yday;
    SplitBefore(t);
    if day + 4 >= 0 { assert Rem(day + 4, 7) == (day + 4) % 7; } else { assert Rem(day + 4, 7) == -((-(day + 4)) % 7); }
  }

  lemma SplitBefore(t: int)
    requires t < 0
    ensures var tm := Before1970(t);
            && t == Seconds(tm.yday, tm.hour, tm.min, tm.sec)
            && -60 < tm.sec <= 0 && -60 < tm.min <= 0 && -24 < tm.hour <= 0 && tm.yday <= 0
  {
  }

  lemma MkTimeBefore1970(t: int)
    requires t < 0
    ensures MkTime(Before1970(t)) == -1
  {
    var tm, q := Before1970(t), Quot(t, 60);
    var q', day := Quot(q, 60), tm.yday;
    assert tm.sec <= 0 && tm.min <= 0 && tm.hour <= 0 && day <= 0;
    assert t == Seconds(day, tm.hour, tm.min, tm.sec);
  }

  /** What `gmtime` stores. */
  ghost predicate IsGmTime(tm: Tm, t: int) {
    if t >= 0 then Denotes(tm, t) else tm == Before1970(t)
  }

  /**
   * `mktime` of `gmtime` is the identity up to the end of 2039 except from 29 February to 31 December 2000;
   * of the moments before 1970 it returns only -1 unchanged, which is its error code.
   */
  lemma RoundTrip(tm: Tm, t: int)
    requires IsGmTime(tm, t)
    ensures MkTime(tm) == t <==> t == -1 || (0 <= t < YEAR_2040 && !(LEAP_DAY_2000 <= t < YEAR_2001))
  {
    if t >= 0 { MkTimeOfDate(tm, t); } else { MkTimeBefore1970(t); }
  }

  /** Conversely a date `mktime` accepts outside the year 2000 is the date of its result. */
  lemma AcceptedDateDenoted(tm: Tm, gm: Tm)
    requires MkTime(tm) != -1 && tm.year != 100
    requires IsGmTime(gm, MkTime(tm))
    ensures gm == tm.(wday := gm.wday, yday := gm.yday)
  {
    var tm' := WithDays(tm);
    YearOf(tm', MkTime(tm), 1970, 0);
    DateUnique(tm', gm, MkTime(tm));
  }

  /** A date and time of day in the range of `mktime`, by the calendar. */
  predicate Proper(tm: Tm) {
    && 70 <= tm.year <= 139 && 0 <= tm.mon < 12 && 1 <= tm.mday <= MonthLength(tm.mon, 1900 + tm.year)
    && 0 <= tm.hour < 24 && 0 <= tm.min < 60 && 0 <= tm.sec < 60
  }

  /**
   * Exactly the proper dates but 29 February 2000 are accepted, and the days of the week and of the year have no
   * influence.
   */
  lemma AcceptedDates(tm: Tm, wday: int, yday: int)
    ensures MkTime(tm) != -1 <==> Proper(tm) && !(tm.year == 100 && tm.mon == 1 && tm.mday == 29)
    ensures MkTime(tm.(wday := wday, yday := yday)) == MkTime(tm)
  {
    if 70 <= tm.year <= 139 && 0 <= tm.mon < 12 {
      WrongLeapTest(tm.year);
      MonthLengths(tm.mon, 1900 + tm.year);
      FromEpoch(tm.year, tm.mon);
    }
  }

  lemma FromEpoch(year: int, month: int)
    requires 70 <= year && 0 <= month < 12
    ensures DaysBefore(1900 + year) + DaysBeforeMonth(month, year) >= 0
  {
    assert DaysBefore(1970) == 0;
    if year > 70 { YearsAscend(1970, 1900 + year); }
  }

  lemma WithDays(tm: Tm) returns (tm': Tm)
    requires MkTime(tm) != -1 && tm.year != 100
    ensures Denotes(tm', MkTime(tm)) && 1900 + tm'.year >= 1970 && tm' == tm.(wday := tm'.wday, yday := tm'.yday)
  {
    WrongLeapTest(tm.year);
    SameMonths(tm.mon, 1900 + tm.year, tm.year);
    var yday := DaysBeforeMonth(tm.mon, 1900 + tm.year) + tm.mday - 1;
    tm' := tm.(yday := yday, wday := (DaysBefore(1900 + tm.year) + yday + 4) % 7);
  }
}
