/** `gmtime`, `localtime` and `mktime` with the static `s_tm` and `g_utc_offset`. */
module Calendar {
  import opened Words
  import opened CalendarModel

  class Clock {
    /** The `struct tm` every conversion overwrites. */
    var tm: Tm
    var utcOffset: int

    constructor ()
      ensures utcOffset == 0
    {
      tm := Tm(0, 0, 0, 0, 0, 0, 0, 0);
      utcOffset := 0;
    }

    method GmTime(t: int)
      modifies this`tm
      ensures IsGmTime(tm, t)
    {
      var time := t;
      var sec := Rem(time, 60);
      time := Quot(time, 60);
      var min := Rem(time, 60);
      time := Quot(time, 60);
      var hour := Rem(time, 24);
      time := Quot(time, 24);
      var wday := Rem(time + 4, 7);
      var year, yday := FindYear(time);
      var month, rest := FindMonth(year, yday);
      tm := Tm(sec, min, hour, rest + 1, month, year - 1900, wday, yday);
      if t >= 0 { Assembled(t, year, yday, month, rest); }
    }

    method LocalTime(t: int)
      modifies this`tm
      ensures IsGmTime(tm, t + utcOffset)
    {
      GmTime(t + utcOffset);
    }
  }

  /** The year loop. */
  method FindYear(day: int) returns (year: int, time: int)
    ensures day >= 0 ==> 0 <= time < DaysOfYear(year) && day == DaysBefore(year) + time && year >= 1970
    ensures day <= 0 ==> year == 1970 && time == day
  {
    year, time := 1970, day;
    while time >= DaysOfYear(year)
      invariant year >= 1970 && day == DaysBefore(year) + time
      invariant (day <= 0 ==> year == 1970) && (day >= 0 ==> time >= 0)
      decreases time
    {
      NextYear(year);
      time := time - DaysOfYear(year);
      year := year + 1;
    }
  }

  /** The month loop. */
  method FindMonth(year: int, yday: int) returns (month: int, time: int)
    requires yday < DaysOfYear(year)
    ensures 0 <= month < 12 && yday == DaysBeforeMonth(month, year) + time && time < DaysOfMonth(month, year)
    ensures (yday <= 0 ==> month == 0) && (yday >= 0 ==> time >= 0)
  {
    MonthTable(year);
    month, time := 0, yday;
    while time >= DaysOfMonth(month, year)
      invariant 0 <= month < 12 && yday == DaysBeforeMonth(month, year) + time
      invariant (yday <= 0 ==> month == 0) && (yday >= 0 ==> time >= 0)
      decreases time
    {
      time := time - DaysOfMonth(month, year);
      month := month + 1;
    }
  }

  lemma Assembled(t: int, year: int, yday: int, month: int, rest: int)
    requires t >= 0 && 0 <= month < 12 && 0 <= rest < DaysOfMonth(month, year)
    requires yday == DaysBeforeMonth(month, year) + rest
    requires DaysBefore(year) + yday == Quot(Quot(Quot(t, 60), 60), 24)
    ensures Denotes(Tm(Rem(t, 60), Rem(Quot(t, 60), 60), Rem(Quot(Quot(t, 60), 60), 24), rest + 1, month, year - 1900,
                       Rem(Quot(Quot(Quot(t, 60), 60), 24) + 4, 7), yday), t)
  {
    SplitSeconds(t);
    var q, q' := Quot(t, 60), Quot(Quot(t, 60), 60);
    AssembledDate(Quot(q', 24), Rem(q', 24), Rem(q, 60), Rem(t, 60), year, yday, month, rest);
    Weekday(Quot(q', 24));
  }

  lemma Weekday(day: int)
    requires day >= 0
    ensures Rem(day + 4, 7) == (day + 4) % 7
  {
  }

  lemma AssembledDate(day: int, hour: int, min: int, sec: int, year: int, yday: int, month: int, rest: int)
    requires 0 <= hour < 24 && 0 <= min < 60 && 0 <= sec < 60
    requires 0 <= month < 12 && 0 <= rest < DaysOfMonth(month, year) && yday == DaysBeforeMonth(month, year) + rest
    requires DaysBefore(year) + yday == day
    ensures Denotes(Tm(sec, min, hour, rest + 1, month, year - 1900, (day + 4) % 7, yday), Seconds(day, hour, min, sec))
  {
  }

  lemma SplitSeconds(t: int)
    ensures var q, q', day := Quot(t, 60), Quot(Quot(t, 60), 60), Quot(Quot(Quot(t, 60), 60), 24);
            && t == Seconds(day, Rem(q', 24), Rem(q, 60), Rem(t, 60))
            && (t >= 0 ==> day >= 0 && 0 <= Rem(q', 24) < 24 && 0 <= Rem(q, 60) < 60 && 0 <= Rem(t, 60) < 60)
  {
  }

  method MkTime(tm: Tm) returns (result: int)
    ensures result == CalendarModel.MkTime(tm)
  {
    result := 0;
    if tm.year < 70 || tm.year > 139 {
      return -1;
    }
    for year := 1970 to 1900 + tm.year
      invariant result == DaysBefore(year)
    {
      NextYear(year);
      result := result + DaysOfYear(year);
    }
    if tm.mon < 0 || tm.mon > 11 {
      return -1;
    }
    for month := 0 to tm.mon
      invariant result == DaysBefore(1900 + tm.year) + DaysBeforeMonth(month, tm.year)
    {
      result := result + DaysOfMonth(month, tm.year);
    }
    if tm.mday < 1 || tm.mday > DaysOfMonth(tm.mon, tm.year) {
      return -1;
    }
    result := result + tm.mday - 1;
    result := result * 24;
    if tm.hour < 0 || tm.hour > 23 {
      return -1;
    }
    result := result + tm.hour;
    result := result * 60;
    if tm.min < 0 || tm.min > 59 {
      return -1;
    }
    result := result + tm.min;
    result := result * 60;
    if tm.sec < 0 || tm.sec > 59 {
      return -1;
    }
    result := result + tm.sec;
  }

  /** Converting to a date and back, as a program does it. */
  method ThereAndBack(clock: Clock, t: int) returns (result: int)
    modifies clock
    ensures result == t <==> t == -1 || (0 <= t < YEAR_2040 && !(LEAP_DAY_2000 <= t < YEAR_2001))
  {
    clock.GmTime(t);
    result := MkTime(clock.tm);
    RoundTrip(clock.tm, t);
  }
}
