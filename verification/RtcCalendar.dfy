/** The calendar of the real time clock: BCD date and time fields for the years 2000 to 2099, and
    seconds since the start of 2000. */
module RtcCalendar {
  import opened Words

  // ---- binary coded decimal

  function FromBcd(bcd: byte): (n: nat) {
    bcd % 16 + 10 * (bcd / 16)
  }

  function ToBcd(value: nat): (bcd: byte)
    requires value <= 99
    ensures IsBcd(bcd) && FromBcd(bcd) == value
  {
    value / 10 * 16 + value % 10
  }

  predicate IsBcd(bcd: byte) {
    bcd % 16 <= 9 && bcd / 16 <= 9
  }

  /** BCD values order as the numbers they stand for, and each number has one. */
  lemma BcdOrder(a: byte, b: byte)
    requires IsBcd(a) && IsBcd(b)
    ensures a < b <==> FromBcd(a) < FromBcd(b)
    ensures a == b <==> FromBcd(a) == FromBcd(b)
  {
  }

  // ---- the calendar

  predicate IsLeap(year: nat) {
    year % 4 == 0
  }

  function MonthLength(year: nat, month: nat): (n: nat)
    requires 1 <= month <= 12
    ensures 28 <= n <= 31
  {
    if month == 2 then if IsLeap(year) then 29 else 28
    else if month in {4, 6, 9, 11} then 30
    else 31
  }

  /** The lengths of the months, in their order. */
  lemma MonthLengths(year: nat, month: nat)
    requires 1 <= month <= 12
    ensures MonthLength(year, month) == [31, if year % 4 == 0 then 29 else 28, 31, 30, 31, 30, 31, 31, 30, 31, 30, 31][month - 1]
  {
  }

  function YearLength(year: nat): nat {
    if IsLeap(year) then 366 else 365
  }

  /** Days from the start of 2000 to the start of a year. */
  function DaysBeforeYear(year: nat): (n: nat)
    ensures n >= 365 * year
  {
    if year == 0 then 0 else DaysBeforeYear(year - 1) + YearLength(year - 1)
  }

  /** Days from the start of a year to the start of a month; month 13 is the start of the next year. */
  function DaysBeforeMonth(year: nat, month: nat): (n: nat)
    requires 1 <= month <= 13
  {
    if month == 1 then 0 else DaysBeforeMonth(year, month - 1) + MonthLength(year, month - 1)
  }

  function DayNumber(year: nat, month: nat, day: nat): (n: int)
    requires 1 <= month <= 12
  {
    DaysBeforeYear(year) + DaysBeforeMonth(year, month) + day - 1
  }

  predicate IsDate(year: nat, month: nat, day: nat) {
    year <= 99 && 1 <= month <= 12 && 1 <= day <= MonthLength(year, month)
  }

  lemma YearOfMonths(year: nat)
    ensures DaysBeforeMonth(year, 13) == YearLength(year)
    ensures DaysBeforeMonth(year, 1) == 0 && DaysBeforeMonth(year, 2) == 31
    ensures DaysBeforeMonth(year, 9) == 243 + (if IsLeap(year) then 1 else 0)
    ensures DaysBeforeMonth(year, 12) == 334 + if IsLeap(year) then 1 else 0
  {
    var leap := if IsLeap(year) then 1 else 0;
    assert DaysBeforeMonth(year, 2) == 31;
    assert DaysBeforeMonth(year, 3) == 59 + leap;
    assert DaysBeforeMonth(year, 4) == 90 + leap;
    assert DaysBeforeMonth(year, 5) == 120 + leap;
    assert DaysBeforeMonth(year, 6) == 151 + leap;
    assert DaysBeforeMonth(year, 7) == 181 + leap;
    assert DaysBeforeMonth(year, 8) == 212 + leap;
    assert DaysBeforeMonth(year, 9) == 243 + leap;
    assert DaysBeforeMonth(year, 10) == 273 + leap;
    assert DaysBeforeMonth(year, 11) == 304 + leap;
    assert DaysBeforeMonth(year, 12) == 334 + leap;
  }

  /** Four years make a leap year cycle. */
  lemma {:induction false} LeapCycles(cycles: nat, rest: nat)
    requires rest <= 4
    ensures DaysBeforeYear(4 * cycles + rest) == 1461 * cycles + (if rest == 0 then 0 else 365 * rest + 1)
  {
    if rest > 0 {
      LeapCycles(cycles, rest - 1);
      assert (4 * cycles + rest - 1) % 4 == rest - 1;
    } else if cycles > 0 {
      LeapCycles(cycles - 1, 4);
    }
  }

  lemma {:induction false} LaterMonth(year: nat, m: nat, n: nat)
    requires 1 <= m < n <= 13
    ensures DaysBeforeMonth(year, m) + MonthLength(year, m) <= DaysBeforeMonth(year, n)
  {
    if m < n - 1 {
      LaterMonth(year, m, n - 1);
    }
  }

  lemma {:induction false} LaterYear(y: nat, z: nat)
    requires y < z
    ensures DaysBeforeYear(y) + YearLength(y) <= DaysBeforeYear(z)
  {
    if y < z - 1 {
      LaterYear(y, z - 1);
    }
  }

  /** Dates order as their day numbers: each number belongs to one date. */
  lemma OneDate(y: nat, m: nat, d: nat, y': nat, m': nat, d': nat)
    requires IsDate(y, m, d) && IsDate(y', m', d') && DayNumber(y, m, d) == DayNumber(y', m', d')
    ensures y == y' && m == m' && d == d'
  {
    hide DaysBeforeYear, DaysBeforeMonth, MonthLength, YearLength;
    InYear(y, m, d);
    InYear(y', m', d');
    if y < y' {
      LaterYear(y, y');
    } else if y' < y {
      LaterYear(y', y);
    } else if m < m' {
      LaterMonth(y, m, m');
    } else if m' < m {
      LaterMonth(y, m', m);
    }
  }

  lemma InYear(y: nat, m: nat, d: nat)
    requires IsDate(y, m, d)
    ensures 0 <= DaysBeforeMonth(y, m) + d - 1 < YearLength(y)
  {
    hide MonthLength, YearLength;
    LaterMonth(y, m, 13);
    YearOfMonths(y);
  }

  /** Some dates and their distance from the first of January 2000. */
  lemma KnownDates()
    ensures DayNumber(0, 1, 1) == 0 && DayNumber(0, 2, 29) == 59 && DayNumber(1, 1, 1) == 366
    ensures DayNumber(1, 9, 9) == 617 && DayNumber(25, 12, 31) == 9496 && DayNumber(99, 12, 31) == 36524
  {
    hide DaysBeforeYear, DaysBeforeMonth;
    LeapCycles(0, 0);
    LeapCycles(0, 1);
    LeapCycles(6, 1);
    LeapCycles(24, 3);
    YearOfMonths(0);
    YearOfMonths(1);
    YearOfMonths(25);
    YearOfMonths(99);
  }

  /** The number of days from 2000 to 2099, and of seconds. */
  const CENTURY_DAYS: nat := 36525
  const DAY: nat := 86400
  const CENTURY: nat := 3155760000

  lemma InCentury(y: nat, m: nat, d: nat)
    requires IsDate(y, m, d)
    ensures 0 <= DayNumber(y, m, d) < CENTURY_DAYS
  {
    hide DaysBeforeYear, DaysBeforeMonth, MonthLength, YearLength;
    InYear(y, m, d);
    LeapCycles(25, 0);
    LaterYear(y, 100);
  }

  // ---- times

  datatype Time = Time(year: byte, month: byte, dayOfMonth: byte, dayOfWeek: byte,
                       hours: byte, minutes: byte, seconds: byte, timeZone: int, daylightSaving: byte) {
    /** Fields that a date and time of day can have. */
    predicate Valid() {
      && IsBcd(year) && IsBcd(month) && IsBcd(dayOfMonth) && IsBcd(hours) && IsBcd(minutes) && IsBcd(seconds)
      && IsDate(FromBcd(year), FromBcd(month), FromBcd(dayOfMonth))
      && FromBcd(hours) < 24 && FromBcd(minutes) < 60 && FromBcd(seconds) < 60
    }

    function Day(): int
      requires Valid()
    {
      DayNumber(FromBcd(year), FromBcd(month), FromBcd(dayOfMonth))
    }

    /** Seconds of local time since the start of 2000. */
    function Local(): (s: int)
      requires Valid()
    {
      DAY * Day() + 3600 * FromBcd(hours) + 60 * FromBcd(minutes) + FromBcd(seconds)
    }

    /** Local time less universal time. */
    function Adjustment(): int {
      900 * timeZone + if daylightSaving != 0 then 3600 else 0
    }

    /** The day of the week that belongs to the date: the first of January 2000 was a Saturday, day 6. */
    predicate RightWeekday()
      requires Valid()
    {
      dayOfWeek == 1 + (Day() + 5) % 7
    }

    predicate ZoneInRange() {
      -48 <= timeZone <= 56
    }
  }

  /** The last second of 2025 in summer time, two hours ahead of universal time by its zone and three with the season. */
  lemma KnownTime()
    ensures var t := Time(0x25, 0x12, 0x31, 3, 0x23, 0x59, 0x59, 8, 1);
            && t.Valid() && t.ZoneInRange() && t.RightWeekday()
            && t.Local() == 9496 * 86400 + 86399 && t.Adjustment() == 3 * 3600
  {
    hide DayNumber;
    KnownDates();
  }

  lemma LocalInCentury(t: Time)
    requires t.Valid()
    ensures 0 <= t.Local() < CENTURY
  {
    hide DayNumber, IsDate, FromBcd, IsBcd;
    InCentury(FromBcd(t.year), FromBcd(t.month), FromBcd(t.dayOfMonth));
  }

  /** Each second of local time has one set of fields. */
  lemma OneTime(t: Time, u: Time)
    requires t.Valid() && u.Valid() && t.Local() == u.Local() && t.RightWeekday() && u.RightWeekday()
    requires t.timeZone == u.timeZone && t.daylightSaving == u.daylightSaving
    ensures t == u
  {
    hide DayNumber, IsDate, FromBcd, IsBcd;
    SameClock(t.Day(), FromBcd(t.hours), FromBcd(t.minutes), FromBcd(t.seconds),
              u.Day(), FromBcd(u.hours), FromBcd(u.minutes), FromBcd(u.seconds));
    OneDate(FromBcd(t.year), FromBcd(t.month), FromBcd(t.dayOfMonth), FromBcd(u.year), FromBcd(u.month), FromBcd(u.dayOfMonth));
    BcdOrder(t.year, u.year);
    BcdOrder(t.month, u.month);
    BcdOrder(t.dayOfMonth, u.dayOfMonth);
    BcdOrder(t.hours, u.hours);
    BcdOrder(t.minutes, u.minutes);
    BcdOrder(t.seconds, u.seconds);
  }

  lemma SameClock(d: int, h: nat, m: nat, s: nat, d': int, h': nat, m': nat, s': nat)
    requires h < 24 && m < 60 && s < 60 && h' < 24 && m' < 60 && s' < 60
    requires DAY * d + 3600 * h + 60 * m + s == DAY * d' + 3600 * h' + 60 * m' + s'
    ensures d == d' && h == h' && m == m' && s == s'
  {
  }
}
