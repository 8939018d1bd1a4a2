/** The software real time clock: BCD fields that are counted up second by second. */
module RtcClock {
  import opened Words
  import opened RtcCalendar
  import opened RtcConvert

  /** Month lengths in BCD, indexed by BCD month. */
  const MONTH_LENGTHS_BCD: seq<byte> :=
    [0, 0x31, 0x28, 0x31, 0x30, 0x31, 0x30, 0x31, 0x31, 0x30, 0, 0, 0, 0, 0, 0, 0x31, 0x30, 0x31]

  function IncrementBcd(bcd: byte): (r: byte)
    requires IsBcd(bcd)
    ensures FromBcd(bcd) < 99 ==> IsBcd(r) && FromBcd(r) == FromBcd(bcd) + 1
    ensures r > bcd
  {
    var next := bcd + 1;
    assert next / 16 == bcd / 16 && next % 16 == bcd % 16 + 1;
    if next % 16 >= 0x0A then next / 16 * 16 + 0x10 else next
  }

  function DecrementBcd(bcd: byte): (r: byte)
    requires IsBcd(bcd) && FromBcd(bcd) > 0
    ensures IsBcd(r) && FromBcd(r) == FromBcd(bcd) - 1
  {
    if bcd % 16 > 0 then bcd - 1 else bcd - (0x10 - 0x09)
  }

  lemma MonthTable(month: byte)
    requires IsBcd(month) && 1 <= FromBcd(month) <= 12
    ensures month < |MONTH_LENGTHS_BCD| && IsBcd(MONTH_LENGTHS_BCD[month])
    ensures FromBcd(MONTH_LENGTHS_BCD[month]) == MonthLength(1, FromBcd(month))
    ensures FromBcd(month) == 2 <==> month == 0x02
  {
    hide IsBcd, FromBcd;
    MonthCodes(month);
    LengthCodes();
  }

  lemma MonthCodes(month: byte)
    requires IsBcd(month) && 1 <= FromBcd(month) <= 12
    ensures FromBcd(month) == if month < 10 then month else month - 6
    ensures 1 <= month < 10 || 16 <= month <= 18
  {
  }

  lemma LengthCodes()
    ensures IsBcd(0x28) && FromBcd(0x28) == 28 && IsBcd(0x29) && FromBcd(0x29) == 29
    ensures IsBcd(0x30) && FromBcd(0x30) == 30 && IsBcd(0x31) && FromBcd(0x31) == 31
  {
  }

  const SUBSECONDS: nat := 0x1_0000_0000
  /** The sub-seconds of one tick of the system timer. */
  const SUBSECOND_INCREMENT: nat := 0x1_0000_0000 / 1024

  class Rtc {
    var year: nat
    var yearBcd: byte
    var monthBcd: byte
    var dayOfMonthBcd: byte
    var dayOfWeek: byte
    var hoursBcd: byte
    var minutesBcd: byte
    var secondsBcd: byte
    var timeZone: int
    var daylightSaving: byte
    var subSecTimestamp: uint32
    var subSecCounter: uint32
    var subSecCalibration: int

    /** The fields as the clock reports them. */
    function AsTime(): Time
      reads this
    {
      Time(yearBcd, monthBcd, dayOfMonthBcd, dayOfWeek, hoursBcd, minutesBcd, secondsBcd, timeZone, daylightSaving)
    }

    ghost predicate Valid()
      reads this
    {
      AsTime().Valid() && year == FromBcd(yearBcd) && 1 <= dayOfWeek <= 7
    }

    /** Midnight on the first of January 2000, universal time. */
    ghost predicate AtStart()
      reads this
    {
      && Valid() && AsTime().Local() == 0 && AsTime().RightWeekday()
      && timeZone == 0 && daylightSaving == 0 && subSecCounter == 0
    }

    /** Reset to midnight on the first of January 2000. */
    constructor ()
      ensures AtStart()
    {
      year, yearBcd, monthBcd, dayOfMonthBcd, dayOfWeek := 0, 0, 1, 1, 6;
      hoursBcd, minutesBcd, secondsBcd, timeZone, daylightSaving := 0, 0, 0, 0, 0;
      subSecTimestamp, subSecCounter, subSecCalibration := 0, 0, 0;
      new;
      hide *;
      StartsValid();
    }

    lemma StartsValid()
      requires year == 0 && yearBcd == 0 && monthBcd == 1 && dayOfMonthBcd == 1 && dayOfWeek == 6
      requires hoursBcd == 0 && minutesBcd == 0 && secondsBcd == 0 && timeZone == 0 && daylightSaving == 0
      requires subSecCounter == 0
      ensures AtStart()
    {
      hide Time.Valid, Time.Local, Time.RightWeekday, FromBcd;
      FirstTime();
      BcdValues();
    }

    /** Counts up the date, which starts over after 2099. */
    method IncrementDate()
      requires Valid()
      modifies this`year, this`yearBcd, this`monthBcd, this`dayOfMonthBcd, this`dayOfWeek
      ensures Valid() && dayOfWeek == old(dayOfWeek) % 7 + 1
      ensures AsTime().Day() == if old(AsTime().Day()) == CENTURY_DAYS - 1 then 0 else old(AsTime().Day()) + 1
    {
      hide DayNumber, IsBcd, FromBcd, MonthLength, IncrementBcd, IsDate;
      ghost var y, m, d := year, FromBcd(monthBcd), FromBcd(dayOfMonthBcd);
      NextDay(y, m, d);
      BcdValues();
      MonthTable(monthBcd);
      var monthLengthBcd := MONTH_LENGTHS_BCD[monthBcd];
      if year % 4 == 0 && monthBcd == 0x02 {
        monthLengthBcd := monthLengthBcd + 1;
      }
      MonthLengthIs(y, monthBcd, monthLengthBcd);
      BcdOrder(dayOfMonthBcd, monthLengthBcd);
      dayOfMonthBcd := IncrementBcd(dayOfMonthBcd);
      BcdOrder(dayOfMonthBcd, monthLengthBcd);
      if dayOfMonthBcd > monthLengthBcd {
        dayOfMonthBcd := 1;
        monthBcd := IncrementBcd(monthBcd);
      }
      BcdOrder(monthBcd, 0x12);
      if monthBcd > 0x12 {
        monthBcd := 1;
        year := year + 1;
        yearBcd := IncrementBcd(yearBcd);
      }
      if year > 99 {
        year := 0;
        yearBcd := 0;
      }
      dayOfWeek := if dayOfWeek + 1 > 7 then 1 else dayOfWeek + 1;
    }

    /** Counts up the time by a second. */
    method IncrementTime()
      requires Valid()
      modifies this`year, this`yearBcd, this`monthBcd, this`dayOfMonthBcd, this`dayOfWeek, this`hoursBcd, this`minutesBcd, this`secondsBcd
      ensures Valid() && Counted(old(AsTime()), AsTime(), 1)
    {
      hide DayNumber, IsBcd, FromBcd, IncrementBcd, IsDate, Time.Local, Time.RightWeekday, Counted;
      ghost var was := AsTime();
      BcdValues();
      secondsBcd := IncrementBcd(secondsBcd);
      BcdOrder(secondsBcd, 0x59);
      if secondsBcd > 0x59 {
        secondsBcd := 0;
        minutesBcd := IncrementBcd(minutesBcd);
      }
      BcdOrder(minutesBcd, 0x59);
      if minutesBcd > 0x59 {
        minutesBcd := 0;
        hoursBcd := IncrementBcd(hoursBcd);
      }
      BcdOrder(hoursBcd, 0x23);
      if hoursBcd > 0x23 {
        hoursBcd := 0;
        IncrementDate();
        DayCounted(was, AsTime(), Clock(was) + 1 - DAY);
      } else {
        ClockCounted(was, AsTime(), 1);
      }
    }

    /** Any number of seconds, one at a time. */
    method Tick(n: nat)
      requires Valid() && AsTime().RightWeekday() && AsTime().Local() + n < CENTURY
      modifies this
      ensures Valid() && Counted(old(AsTime()), AsTime(), n) && AsTime().RightWeekday()
    {
      hide Time.Valid, Time.Local, Time.RightWeekday;
      ghost var was := AsTime();
      for i := 0 to n
        invariant Valid() && AsTime().RightWeekday() && AsTime().Local() == was.Local() + i
        invariant timeZone == was.timeZone && daylightSaving == was.daylightSaving
      {
        IncrementTime();
      }
    }

    /** Local time in sub-seconds. */
    ghost function Fine(): int
      reads this
      requires Valid()
    {
      AsTime().Local() * SUBSECONDS + subSecCounter
    }

    /** How far the sub-second counter moves until a timer reading, as the product is not wrapped. */
    function Elapsed(currentTicks: uint32): nat
      reads this
    {
      (currentTicks - subSecTimestamp) % SUBSECONDS * ((SUBSECOND_INCREMENT + subSecCalibration) % SUBSECONDS)
    }

    /** Updates the counters from the system timer.  One second at most is counted, so that time is kept
        exactly if less than a second's worth of ticks has passed. */
    method UpdateTimerCounter(currentTicks: uint32)
      requires Valid()
      modifies this
      ensures Valid() && subSecTimestamp == currentTicks && subSecCalibration == old(subSecCalibration)
      ensures timeZone == old(timeZone) && daylightSaving == old(daylightSaving)
      ensures old(AsTime().Local()) + 1 < CENTURY ==>
                (Fine() == old(Fine()) + old(Elapsed(currentTicks)) <==> old(Elapsed(currentTicks)) < SUBSECONDS)
      ensures old(AsTime().RightWeekday() && AsTime().Local() + 1 < CENTURY) ==> AsTime().RightWeekday()
    {
      hide Time.Valid, Time.Local, Time.RightWeekday;
      ghost var p, was := Elapsed(currentTicks), AsTime();
      var incrementTicks := (currentTicks - subSecTimestamp) % SUBSECONDS;
      var subSecIncrement := (SUBSECOND_INCREMENT + subSecCalibration) % SUBSECONDS;
      var product := incrementTicks * subSecIncrement % SUBSECONDS;
      var nextSubSecCounter := (subSecCounter + product) % SUBSECONDS;
      Rollover(p, subSecCounter, nextSubSecCounter);
      if nextSubSecCounter < subSecCounter {
        IncrementTime();
      }
      subSecTimestamp := currentTicks;
      subSecCounter := nextSubSecCounter;
    }

    /** Universal time. */
    ghost function Utc(): int
      reads this
      requires Valid()
    {
      AsTime().Local() - AsTime().Adjustment()
    }

    /** Changes between daylight saving and standard time without changing universal time; to change back
        just after midnight would change the date, and is refused. */
    method SetDaylightSaving(enable: bool) returns (ok: bool)
      requires Valid()
      modifies this
      ensures Valid() && ok == (enable || old(daylightSaving) == 0 || old(hoursBcd) != 0)
      ensures ok ==> (daylightSaving != 0) == enable
      ensures !ok ==> AsTime() == old(AsTime())
      ensures old(AsTime().Local()) + 3600 < CENTURY ==>
                Utc() == old(Utc()) && (old(AsTime().RightWeekday()) ==> AsTime().RightWeekday())
      ensures subSecCounter == old(subSecCounter) && timeZone == old(timeZone)
    {
      hide DayNumber, IsBcd, FromBcd, IncrementBcd, DecrementBcd, IsDate, Time.Local, Time.RightWeekday;
      if enable == (daylightSaving != 0) {
        return true;
      }
      ghost var was := AsTime();
      BcdValues();
      if enable {
        hoursBcd := IncrementBcd(hoursBcd);
        BcdOrder(hoursBcd, 0x23);
        if hoursBcd > 0x23 {
          hoursBcd := 0;
          IncrementDate();
          DayCounted(was, AsTime(), Clock(was) + 3600 - DAY);
        } else {
          ClockCounted(was, AsTime(), 3600);
        }
        daylightSaving := 1;
        OnlyFlag(AsTime().(daylightSaving := 0), AsTime());
        return true;
      }
      BcdOrder(0, hoursBcd);
      BcdOrder(hoursBcd, 0x23);
      if hoursBcd > 0x00 && hoursBcd <= 0x23 {
        hoursBcd := DecrementBcd(hoursBcd);
        ghost var earlier := AsTime();
        ClockCounted(earlier, was, 3600);
        daylightSaving := 0;
        OnlyFlag(earlier, AsTime());
        return true;
      }
      ok := false;
    }
  }

  /** A sum that wraps counts one second, which is right unless more than a second has passed. */
  lemma Rollover(p: nat, counter: uint32, next: uint32)
    requires next == (counter + p % SUBSECONDS) % SUBSECONDS
    ensures (if next < counter then SUBSECONDS else 0) + next == counter + p % SUBSECONDS
    ensures p < SUBSECONDS <==> p % SUBSECONDS == p
  {
  }

  lemma OnlyFlag(t: Time, u: Time)
    requires u == t.(daylightSaving := u.daylightSaving) && t.Valid()
    ensures u.Valid() && u.Local() == t.Local() && u.RightWeekday() == t.RightWeekday()
  {
    hide IsBcd, FromBcd, DayNumber, IsDate;
  }

  /** Counting seconds up to 2099 and converting universal time give the same fields, day of the week included. */
  method CountAndConvert(rtc: Rtc, n: nat, utcTime: uint32) returns (ok: bool, converted: Time)
    requires rtc.Valid() && rtc.AsTime().RightWeekday() && rtc.AsTime().Local() + n < CENTURY
    requires rtc.AsTime().ZoneInRange() && rtc.daylightSaving <= 1 && utcTime == rtc.Utc() + n
    modifies rtc
    ensures ok && rtc.AsTime() == converted
  {
    hide WrappedLocal, IsBcd, FromBcd, DayNumber, IsDate, Time.RightWeekday;
    rtc.Tick(n);
    LocalInCentury(rtc.AsTime());
    WrapCases(utcTime, rtc.timeZone, rtc.daylightSaving != 0);
    ok, converted := ConvertFromUtc(utcTime, rtc.timeZone, rtc.daylightSaving != 0);
    OneTime(rtc.AsTime(), converted);
  }

  /** Seconds since midnight. */
  function Clock(t: Time): nat {
    3600 * FromBcd(t.hours) + 60 * FromBcd(t.minutes) + FromBcd(t.seconds)
  }

  lemma ClockCounted(was: Time, now: Time, n: nat)
    requires was.Valid() && now.Valid() && now.Day() == was.Day() && Clock(now) == Clock(was) + n
    requires now.timeZone == was.timeZone && now.daylightSaving == was.daylightSaving && now.dayOfWeek == was.dayOfWeek
    ensures Counted(was, now, n) && now.Local() == was.Local() + n && now.RightWeekday() == was.RightWeekday()
  {
    hide IsBcd, FromBcd, DayNumber, IsDate;
    LocalInCentury(now);
  }

  /** On the next day, or the first day of the century. */
  lemma DayCounted(was: Time, now: Time, clock: nat)
    requires was.Valid() && now.Valid() && Clock(now) == clock && DAY + clock >= Clock(was)
    requires now.Day() == if was.Day() == CENTURY_DAYS - 1 then 0 else was.Day() + 1
    requires now.timeZone == was.timeZone && now.daylightSaving == was.daylightSaving
    requires now.dayOfWeek == was.dayOfWeek % 7 + 1
    ensures Counted(was, now, DAY + clock - Clock(was))
  {
    hide IsBcd, FromBcd, DayNumber, IsDate;
    LocalInCentury(was);
    NextWeekday(was.Day());
  }

  lemma NextWeekday(day: nat)
    ensures (1 + (day + 5) % 7) % 7 + 1 == 1 + (day + 1 + 5) % 7
  {
  }

  /** Local time has gone on by n seconds, or starts over at the end of the century.  The day of the week
      stays right, unless the century ends. */
  ghost predicate Counted(was: Time, now: Time, n: nat)
    requires was.Valid() && now.Valid()
  {
    && now.Local() == (if was.Local() + n < CENTURY then was.Local() + n else was.Local() + n - CENTURY)
    && now.timeZone == was.timeZone && now.daylightSaving == was.daylightSaving
    && (was.RightWeekday() && was.Local() + n < CENTURY ==> now.RightWeekday())
  }

  lemma FirstTime()
    ensures var t := Time(0, 1, 1, 6, 0, 0, 0, 0, 0); t.Valid() && t.Local() == 0 && t.RightWeekday()
  {
    hide FromBcd, IsBcd, DayNumber, IsDate;
    BcdValues();
    FirstDate();
    var t := Time(0, 1, 1, 6, 0, 0, 0, 0, 0);
    assert t.Valid() && t.Day() == 0;
  }

  lemma FirstDate()
    ensures IsDate(0, 1, 1) && DayNumber(0, 1, 1) == 0
  {
  }

  lemma BcdValues()
    ensures IsBcd(0) && FromBcd(0) == 0 && IsBcd(1) && FromBcd(1) == 1 && IsBcd(0x12) && FromBcd(0x12) == 12
    ensures IsBcd(0x59) && FromBcd(0x59) == 59 && IsBcd(0x23) && FromBcd(0x23) == 23
  {
  }

  lemma MonthLengthIs(year: nat, month: byte, length: byte)
    requires IsBcd(month) && 1 <= FromBcd(month) <= 12 && month < |MONTH_LENGTHS_BCD|
    requires length == MONTH_LENGTHS_BCD[month] + if year % 4 == 0 && month == 0x02 then 1 else 0
    ensures IsBcd(length) && FromBcd(length) == MonthLength(year, FromBcd(month))
  {
    hide IsBcd, FromBcd;
    MonthTable(month);
    LengthCodes();
  }

  lemma FirstMonth(y: nat)
    ensures DaysBeforeMonth(y, 1) == 0 && DaysBeforeMonth(y + 1, 1) == 0 && DaysBeforeMonth(0, 1) == 0
  {
  }

  lemma MonthAfter(y: nat, m: nat)
    requires 1 <= m <= 12
    ensures DaysBeforeMonth(y, m + 1) == DaysBeforeMonth(y, m) + MonthLength(y, m)
  {
  }

  /** The day after a date: in the same month, in the next one, in the next year, or at the start of the century. */
  lemma NextDay(y: nat, m: nat, d: nat)
    requires IsDate(y, m, d)
    ensures 1 <= m <= 12 && 1 <= d <= MonthLength(y, m) && y <= 99
    ensures d < MonthLength(y, m) ==> IsDate(y, m, d + 1)
    ensures d == MonthLength(y, m) && m < 12 ==> IsDate(y, m + 1, 1)
    ensures y < 99 ==> IsDate(y + 1, 1, 1)
    ensures IsDate(0, 1, 1)
    ensures d < MonthLength(y, m) ==> DayNumber(y, m, d + 1) == DayNumber(y, m, d) + 1 && DayNumber(y, m, d) < CENTURY_DAYS - 1
    ensures d == MonthLength(y, m) && m < 12 ==>
              DayNumber(y, m + 1, 1) == DayNumber(y, m, d) + 1 && DayNumber(y, m, d) < CENTURY_DAYS - 1
    ensures d == MonthLength(y, m) && m == 12 ==>
              DayNumber(y + 1, 1, 1) == DayNumber(y, m, d) + 1 && (DayNumber(y, m, d) == CENTURY_DAYS - 1 <==> y == 99)
    ensures DayNumber(0, 1, 1) == 0
  {
    hide MonthLength, DaysBeforeMonth;
    assert DaysBeforeMonth(y, 1) == 0 && DaysBeforeMonth(0, 1) == 0 && DaysBeforeMonth(y + 1, 1) == 0 by { FirstMonth(y); }
    assert DaysBeforeMonth(y, m + 1) == DaysBeforeMonth(y, m) + MonthLength(y, m) by { MonthAfter(y, m); }
    YearOfMonths(y);
    LeapCycles(25, 0);
    if y < 99 {
      LaterYear(y + 1, 100);
      LaterYear(y, 100);
    }
    InCentury(y, m, d);
    if d < MonthLength(y, m) {
      InCentury(y, m, d + 1);
    } else if m < 12 {
      InCentury(y, m + 1, 1);
    }
  }
}
