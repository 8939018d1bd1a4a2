/** Conversions between universal time and the fields of the real time clock. */
module RtcConvert {
  import opened Words
  import opened RtcCalendar

  const MONTH_LENGTHS: seq<nat> := [31, 28, 31, 30, 31, 30, 31, 31, 30, 31, 30, 31]

  method LengthOfMonth(month: nat, leapYear: bool) returns (length: nat)
    requires 1 <= month <= 12
    ensures forall year :: IsLeap(year) == leapYear ==> length == MonthLength(year, month)
  {
    length := MONTH_LENGTHS[month - 1];
    if leapYear && month == 2 {
      length := length + 1;
    }
  }

  /** The number of days since the start of 2000. */
  method GetElapsedDays(t: Time) returns (days: nat)
    requires t.Valid()
    ensures days == t.Day()
  {
    hide DaysBeforeYear, IsBcd, MonthLength;
    var yearCount := FromBcd(t.year);
    ghost var year := yearCount;
    LeapCycles(yearCount / 4, yearCount % 4);
    var yearDays := yearCount / 4 * (366 + 3 * 365);
    var isLeapYear := false;
    if yearCount % 4 == 0 {
      isLeapYear := true;
    } else if yearCount % 4 == 1 {
      yearDays := yearDays + 366;
    } else if yearCount % 4 == 2 {
      yearDays := yearDays + 366 + 365;
    } else {
      yearDays := yearDays + 366 + 2 * 365;
    }
    var monthCount := FromBcd(t.month);
    var monthDays := 0;
    monthCount := monthCount - 1;
    while monthCount > 0
      invariant 0 <= monthCount <= 11
      invariant monthDays + DaysBeforeMonth(year, monthCount + 1) == DaysBeforeMonth(year, FromBcd(t.month))
    {
      var monthLength := LengthOfMonth(monthCount, isLeapYear);
      monthDays := monthDays + monthLength;
      monthCount := monthCount - 1;
    }
    days := yearDays + monthDays + FromBcd(t.dayOfMonth) - 1;
  }

  /** From fields to universal time, which must not lie before 2000. */
  method ConvertToUtc(t: Time) returns (ok: bool, utcTime: uint32)
    requires t.Valid() && t.ZoneInRange()
    ensures ok == (t.Local() >= t.Adjustment())
    ensures ok ==> utcTime == t.Local() - t.Adjustment()
  {
    hide DayNumber, IsDate, FromBcd, IsBcd;
    LocalInCentury(t);
    var days := GetElapsedDays(t);
    var localSeconds := days * (24 * 60 * 60);
    localSeconds := localSeconds + 60 * 60 * FromBcd(t.hours);
    localSeconds := localSeconds + 60 * FromBcd(t.minutes);
    localSeconds := localSeconds + FromBcd(t.seconds);
    var timeZoneAdjustment := t.timeZone * (15 * 60);
    if t.daylightSaving != 0 {
      timeZoneAdjustment := timeZoneAdjustment + 60 * 60;
    }
    if timeZoneAdjustment > 0 && timeZoneAdjustment > localSeconds {
      ok, utcTime := false, 0;
    } else {
      ok, utcTime := true, localSeconds - timeZoneAdjustment;
    }
  }

  /** Local time, as the sum wraps in a 32-bit word. */
  function WrappedLocal(utcTime: uint32, timeZone: int, daylightSaving: bool): (s: nat)
    ensures s < 0x1_0000_0000
  {
    (utcTime + 900 * timeZone + if daylightSaving then 3600 else 0) % 0x1_0000_0000
  }

  /** Splits a number of days into a year and the days in it. */
  method SplitYears(localDays: nat) returns (ok: bool, year: nat, yearDays: nat)
    ensures ok == (localDays < CENTURY_DAYS)
    ensures ok ==> year <= 99 && localDays == DaysBeforeYear(year) + yearDays && yearDays < YearLength(year)
  {
    hide DaysBeforeYear;
    var yearCount := localDays / (366 + 3 * 365);
    yearDays := localDays - yearCount * (366 + 3 * 365);
    if yearCount >= 25 {
      return false, 0, 0;
    }
    ghost var cycles := yearCount;
    LeapCycles(cycles, 0);
    LeapCycles(cycles, 1);
    if yearDays < 366 {
      yearCount := yearCount * 4;
    } else {
      yearDays := yearDays - 366;
      yearCount := yearCount * 4 + 1;
      while yearDays >= 365
        invariant 4 * cycles + 1 <= yearCount <= 4 * cycles + 3
        invariant yearDays + 365 * (yearCount - 4 * cycles) + 1 == localDays - 1461 * cycles
      {
        yearDays := yearDays - 365;
        yearCount := yearCount + 1;
      }
      LeapCycles(cycles, yearCount - 4 * cycles);
    }
    return true, yearCount, yearDays;
  }

  /** Splits the days of a year into a month and the days in it. */
  method SplitMonths(year: nat, yearDays: nat) returns (month: nat, monthDays: nat)
    requires yearDays < YearLength(year)
    ensures 1 <= month <= 12 && monthDays < MonthLength(year, month)
    ensures yearDays == DaysBeforeMonth(year, month) + monthDays
  {
    hide MonthLength;
    YearOfMonths(year);
    monthDays := yearDays;
    month := 1;
    while month <= 12
      invariant 1 <= month <= 13 && yearDays == DaysBeforeMonth(year, month) + monthDays
    {
      var monthLength := LengthOfMonth(month, IsLeap(year));
      if monthDays >= monthLength {
        monthDays := monthDays - monthLength;
      } else {
        break;
      }
      month := month + 1;
    }
  }

  /** From universal time to fields. */
  method ConvertFromUtc(utcTime: uint32, timeZone: int, daylightSaving: bool) returns (ok: bool, t: Time)
    requires -128 <= timeZone <= 127
    ensures ok <==> -48 <= timeZone <= 56 && WrappedLocal(utcTime, timeZone, daylightSaving) < CENTURY
    ensures ok ==> && t.Valid() && t.RightWeekday() && t.Local() == WrappedLocal(utcTime, timeZone, daylightSaving)
                   && t.timeZone == timeZone && t.daylightSaving == if daylightSaving then 1 else 0
  {
    hide DaysBeforeYear, DaysBeforeMonth, FromBcd, IsBcd, ToBcd, MonthLength, WrappedLocal;
    t := Time(0, 0, 0, 0, 0, 0, 0, 0, 0);
    if timeZone < -48 || timeZone > 56 {
      return false, t;
    }
    var localTime := AddZone(utcTime, timeZone, daylightSaving);
    var localDays := localTime / (24 * 60 * 60);
    var localSeconds := localTime - localDays * (24 * 60 * 60);
    var inCentury, yearCount, yearDays := SplitYears(localDays);
    if !inCentury {
      return false, t;
    }
    var monthCount, monthDays := SplitMonths(yearCount, yearDays);
    var dayOfWeek := 1 + (localDays + 5) % 7;
    var timeHours := localSeconds / (60 * 60);
    var timeSeconds := localSeconds - timeHours * (60 * 60);
    var timeMinutes := timeSeconds / 60;
    timeSeconds := timeSeconds - timeMinutes * 60;
    t := Time(ToBcd(yearCount), ToBcd(monthCount), ToBcd(monthDays + 1), dayOfWeek,
              ToBcd(timeHours), ToBcd(timeMinutes), ToBcd(timeSeconds), timeZone, if daylightSaving then 1 else 0);
    ok := true;
  }

  /** The local time, in 32-bit arithmetic. */
  method AddZone(utcTime: uint32, timeZone: int, daylightSaving: bool) returns (localTime: nat)
    requires -48 <= timeZone <= 56
    ensures localTime == WrappedLocal(utcTime, timeZone, daylightSaving)
  {
    var standard := utcTime + timeZone * (15 * 60);
    localTime := standard % 0x1_0000_0000;
    if daylightSaving {
      AddTwice(standard, 60 * 60);
      localTime := (localTime + 60 * 60) % 0x1_0000_0000;
    }
  }

  /** Wrapping on the way makes no difference. */
  lemma AddTwice(a: int, b: int)
    ensures (a % 0x1_0000_0000 + b) % 0x1_0000_0000 == (a + b) % 0x1_0000_0000
  {
    var m := 0x1_0000_0000;
    var q, p := a / m, (a % m + b) / m;
    RemainderIs(a + b, m, q + p, (a % m + b) % m);
  }

  predicate ValidateBcd(bcd: byte)
    ensures ValidateBcd(bcd) == IsBcd(bcd)
  {
    bcd % 16 <= 0x09 && bcd / 16 * 16 <= 0x90
  }

  /** Checks that fields of any value are a date and time, and sets the day of the week that belongs to it. */
  method Validate(t: Time) returns (ok: bool, t': Time)
    ensures ok == t.Valid()
    ensures t' == if ok then t.(dayOfWeek := t'.dayOfWeek) else t
    ensures ok ==> t'.Valid() && t'.RightWeekday()
  {
    hide DaysBeforeYear, DaysBeforeMonth, FromBcd, IsBcd, MonthLength;
    t' := t;
    if !ValidateBcd(t.year) || !ValidateBcd(t.month) || !ValidateBcd(t.dayOfMonth)
       || !ValidateBcd(t.hours) || !ValidateBcd(t.minutes) || !ValidateBcd(t.seconds) {
      return false, t;
    }
    var year, month, dayOfMonth := FromBcd(t.year), FromBcd(t.month), FromBcd(t.dayOfMonth);
    var hours, minutes, seconds := FromBcd(t.hours), FromBcd(t.minutes), FromBcd(t.seconds);
    BcdRange(t.year);
    if hours >= 24 || minutes >= 60 || seconds >= 60 || month < 1 || month > 12 {
      return false, t;
    }
    var monthLength := LengthOfMonth(month, year % 4 == 0);
    if dayOfMonth < 1 || dayOfMonth > monthLength {
      return false, t;
    }
    var days := GetElapsedDays(t);
    t' := t.(dayOfWeek := 1 + (days + 5) % 7);
    ok := true;
  }

  lemma BcdRange(bcd: byte)
    requires IsBcd(bcd)
    ensures FromBcd(bcd) <= 99
  {
  }

  /** When the local time wraps, and what it wraps to. */
  lemma WrapCases(utcTime: uint32, timeZone: int, daylightSaving: bool)
    requires -48 <= timeZone <= 56
    ensures var adjustment := 900 * timeZone + if daylightSaving then 3600 else 0;
            var wrapped := WrappedLocal(utcTime, timeZone, daylightSaving);
            if utcTime + adjustment < 0 then wrapped == utcTime + adjustment + 0x1_0000_0000 && wrapped >= CENTURY
            else if utcTime + adjustment < 0x1_0000_0000 then wrapped == utcTime + adjustment
            else wrapped == utcTime + adjustment - 0x1_0000_0000 && wrapped < adjustment
  {
    var sum := utcTime + 900 * timeZone + if daylightSaving then 3600 else 0;
    RemainderIs(sum, 0x1_0000_0000, if sum < 0 then -1 else if sum < 0x1_0000_0000 then 0 else 1,
                WrappedLocal(utcTime, timeZone, daylightSaving));
  }

  /** From universal time to fields and back.  Both conversions succeed exactly when the local time lies
      in the years 2000 to 2099, and then they give back the same second. */
  method ThereAndBack(utcTime: uint32, timeZone: int, daylightSaving: bool) returns (ok: bool, back: uint32)
    requires -128 <= timeZone <= 127
    ensures ok <==> -48 <= timeZone <= 56
                    && 0 <= utcTime + 900 * timeZone + (if daylightSaving then 3600 else 0) < CENTURY
    ensures ok ==> back == utcTime
  {
    hide WrappedLocal, Time.Valid, Time.Local, Time.RightWeekday;
    if -48 <= timeZone <= 56 {
      WrapCases(utcTime, timeZone, daylightSaving);
    }
    var t;
    ok, t := ConvertFromUtc(utcTime, timeZone, daylightSaving);
    back := 0;
    if ok {
      ok, back := ConvertToUtc(t);
    }
  }

  /** From fields to universal time and back, when the universal time can be represented. */
  method BackAndThere(t: Time) returns (ok: bool, back: Time)
    requires t.Valid() && t.RightWeekday() && t.ZoneInRange()
    ensures ok <==> t.Local() >= t.Adjustment()
    ensures ok ==> back == t.(daylightSaving := if t.daylightSaving != 0 then 1 else 0)
  {
    hide WrappedLocal, IsBcd, FromBcd, DayNumber, IsDate;
    var utcTime;
    ok, utcTime := ConvertToUtc(t);
    back := t;
    if ok {
      LocalInCentury(t);
      WrapCases(utcTime, t.timeZone, t.daylightSaving != 0);
      var converted;
      converted, back := ConvertFromUtc(utcTime, t.timeZone, t.daylightSaving != 0);
      OneTime(back, t.(daylightSaving := if t.daylightSaving != 0 then 1 else 0));
    }
  }

  /** Near the end of the 32-bit range an eastern local time wraps, and is taken for one in 2000. */
  lemma LocalTimeCanWrap()
    ensures WrappedLocal(0xFFFF_FFFF, 56, false) == 50399 && 50399 < CENTURY
    ensures 0xFFFF_FFFF + 900 * 56 >= CENTURY
  {
  }
}
