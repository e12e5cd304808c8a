/**
 Seconds since 1970 as calendar dates, with a leap year every four years, and their printed form.
 Months and days count from 0.
 */
module Calendar {
  import opened Common
  import opened Words

  datatype TimeAndDate = TimeAndDate(year: int, month: int, day: int, weekday: int, hour: int, min: int, sec: int)

  function YearLength(year: int): int {
    if year % 4 == 0 then 366 else 365
  }

  function MonthLength(year: int, month: int): int
    requires 0 <= month < 12
  {
    if month == 1 then (if year % 4 == 0 then 29 else 28)
    else if month == 3 || month == 5 || month == 8 || month == 10 then 30
    else 31
  }

  /** Days from the start of 1970 to the start of a year. */
  function DaysBefore(year: int): (days: nat)
    requires year >= 1970
    decreases year
  {
    if year == 1970 then 0 else DaysBefore(year - 1) + YearLength(year - 1)
  }

  function DaysBeforeMonth(year: int, month: int): (days: nat)
    requires 0 <= month <= 12
    decreases month
  {
    if month == 0 then 0 else DaysBeforeMonth(year, month - 1) + MonthLength(year, month - 1)
  }

  predicate ValidDay(year: int, month: int, day: int) {
    1970 <= year && 0 <= month < 12 && 0 <= day < MonthLength(year, month)
  }

  predicate ValidTime(hour: int, min: int, sec: int) {
    0 <= hour < 24 && 0 <= min < 60 && 0 <= sec < 60
  }

  predicate Valid(d: TimeAndDate) {
    ValidDay(d.year, d.month, d.day) && ValidTime(d.hour, d.min, d.sec)
  }

  function DayNumber(year: int, month: int, day: int): int
    requires year >= 1970 && 0 <= month < 12
  {
    DaysBefore(year) + DaysBeforeMonth(year, month) + day
  }

  function Seconds(hour: int, min: int, sec: int): int {
    hour * 3600 + min * 60 + sec
  }

  /** The seconds from the start of 1970 to a date. */
  function Timestamp(d: TimeAndDate): int
    requires d.year >= 1970 && 0 <= d.month < 12
  {
    DayNumber(d.year, d.month, d.day) * 86400 + Seconds(d.hour, d.min, d.sec)
  }

  // ---------------------------------------------------------------- years and months

  lemma YearSpan(year: int)
    ensures DaysBeforeMonth(year, 12) == YearLength(year)
    ensures forall m, n | 0 <= m < n <= 12 ::
            DaysBeforeMonth(year, m) + MonthLength(year, m) <= DaysBeforeMonth(year, n)
  {
    MonthTable(year);
  }

  lemma MonthTable(year: int)
    ensures var f := if year % 4 == 0 then 1 else 0;
            && DaysBeforeMonth(year, 0) == 0 && DaysBeforeMonth(year, 1) == 31 && DaysBeforeMonth(year, 2) == 59 + f
            && DaysBeforeMonth(year, 3) == 90 + f && DaysBeforeMonth(year, 4) == 120 + f
               && DaysBeforeMonth(year, 5) == 151 + f
            && DaysBeforeMonth(year, 6) == 181 + f && DaysBeforeMonth(year, 7) == 212 + f
               && DaysBeforeMonth(year, 8) == 243 + f
            && DaysBeforeMonth(year, 9) == 273 + f && DaysBeforeMonth(year, 10) == 304 + f
               && DaysBeforeMonth(year, 11) == 334 + f
            && DaysBeforeMonth(year, 12) == 365 + f
  {
    assert DaysBeforeMonth(year, 2) == DaysBeforeMonth(year, 1) + MonthLength(year, 1);
    assert DaysBeforeMonth(year, 4) == DaysBeforeMonth(year, 3) + MonthLength(year, 3);
    assert DaysBeforeMonth(year, 6) == DaysBeforeMonth(year, 5) + MonthLength(year, 5);
    assert DaysBeforeMonth(year, 8) == DaysBeforeMonth(year, 7) + MonthLength(year, 7);
    assert DaysBeforeMonth(year, 10) == DaysBeforeMonth(year, 9) + MonthLength(year, 9);
  }

  lemma NextYear(year: int)
    requires year >= 1970
    ensures DaysBefore(year + 1) == DaysBefore(year) + YearLength(year)
  {
  }

  lemma NextMonth(year: int, month: int)
    requires 0 <= month < 12
    ensures DaysBeforeMonth(year, 0) == 0
    ensures DaysBeforeMonth(year, month + 1) == DaysBeforeMonth(year, month) + MonthLength(year, month)
  {
  }

  lemma {:induction false} DaysGrow(a: int, b: int)
    requires 1970 <= a < b
    ensures DaysBefore(a) + YearLength(a) <= DaysBefore(b)
    decreases b
  {
    if a + 1 < b {
      DaysGrow(a, b - 1);
    }
  }

  /** Four years are 1461 days. */
  lemma {:induction false} LeapCycles(cycles: nat)
    ensures DaysBefore(1970 + 4 * cycles) == 1461 * cycles
    decreases cycles
  {
    if cycles > 0 {
      var y := 1970 + 4 * cycles;
      LeapCycles(cycles - 1);
      assert DaysBefore(y) == DaysBefore(y - 1) + YearLength(y - 1);
      assert DaysBefore(y - 1) == DaysBefore(y - 2) + YearLength(y - 2);
      assert DaysBefore(y - 2) == DaysBefore(y - 3) + YearLength(y - 3);
      assert DaysBefore(y - 3) == DaysBefore(y - 4) + YearLength(y - 4);
    }
  }

  // ---------------------------------------------------------------- order

  /** Calendar order; the weekday plays no part in it. */
  predicate DayBefore(a: TimeAndDate, b: TimeAndDate) {
    a.year < b.year || (a.year == b.year && (a.month < b.month || (a.month == b.month && a.day < b.day)))
  }

  predicate SameDay(a: TimeAndDate, b: TimeAndDate) {
    a.year == b.year && a.month == b.month && a.day == b.day
  }

  predicate Before(a: TimeAndDate, b: TimeAndDate) {
    DayBefore(a, b) || (SameDay(a, b) && Seconds(a.hour, a.min, a.sec) < Seconds(b.hour, b.min, b.sec))
  }

  lemma DayInYear(year: int, month: int, day: int)
    requires ValidDay(year, month, day)
    ensures DaysBefore(year) <= DayNumber(year, month, day) < DaysBefore(year) + YearLength(year)
  {
    YearSpan(year);
  }

  lemma DayOrder(a: TimeAndDate, b: TimeAndDate)
    requires Valid(a) && Valid(b) && DayBefore(a, b)
    ensures DayNumber(a.year, a.month, a.day) < DayNumber(b.year, b.month, b.day)
  {
    hide DaysBefore, DaysBeforeMonth;
    if a.year < b.year {
      DayInYear(a.year, a.month, a.day);
      DayInYear(b.year, b.month, b.day);
      DaysGrow(a.year, b.year);
    } else {
      YearSpan(a.year);
    }
  }

  lemma SecondsOfDay(hour: int, min: int, sec: int)
    requires ValidTime(hour, min, sec)
    ensures 0 <= Seconds(hour, min, sec) < 86400
    ensures hour == Seconds(hour, min, sec) / 3600
    ensures min == Seconds(hour, min, sec) % 3600 / 60 && sec == Seconds(hour, min, sec) % 60
  {
  }

  lemma EarlierIsLess(a: TimeAndDate, b: TimeAndDate)
    requires Valid(a) && Valid(b) && Before(a, b)
    ensures Timestamp(a) < Timestamp(b)
  {
    hide DayNumber, Seconds;
    SecondsOfDay(a.hour, a.min, a.sec);
    SecondsOfDay(b.hour, b.min, b.sec);
    if DayBefore(a, b) {
      DayOrder(a, b);
    }
  }

  predicate SameMoment(a: TimeAndDate, b: TimeAndDate) {
    SameDay(a, b) && a.hour == b.hour && a.min == b.min && a.sec == b.sec
  }

  lemma OneOfThree(a: TimeAndDate, b: TimeAndDate)
    requires Valid(a) && Valid(b)
    ensures Before(a, b) || Before(b, a) || SameMoment(a, b)
  {
    if SameDay(a, b) && Seconds(a.hour, a.min, a.sec) == Seconds(b.hour, b.min, b.sec) {
      SecondsOfDay(a.hour, a.min, a.sec);
      SecondsOfDay(b.hour, b.min, b.sec);
    }
  }

  /** Dates are ordered as their timestamps are, and a timestamp belongs to one date. */
  lemma TimestampsOrdered(a: TimeAndDate, b: TimeAndDate)
    requires Valid(a) && Valid(b)
    ensures Timestamp(a) < Timestamp(b) <==> Before(a, b)
    ensures Timestamp(a) == Timestamp(b) <==> SameMoment(a, b)
  {
    hide Timestamp, Before;
    OneOfThree(a, b);
    if Before(a, b) {
      EarlierIsLess(a, b);
      MomentsEqual(a, b);
    } else if Before(b, a) {
      EarlierIsLess(b, a);
      MomentsEqual(b, a);
    } else {
      MomentsEqual(a, b);
    }
  }

  lemma MomentsEqual(a: TimeAndDate, b: TimeAndDate)
    requires Valid(a) && Valid(b)
    ensures SameMoment(a, b) ==> Timestamp(a) == Timestamp(b) && !Before(a, b)
  {
  }

  // ---------------------------------------------------------------- the conversions

  lemma SplitSeconds(ts: nat, days: int, left: int)
    requires days == ts / 86400 && left == ts - days * 86400
    ensures 0 <= left < 86400 && 0 <= days
    ensures ValidTime(left / 3600, left % 3600 / 60, left % 60)
    ensures Seconds(left / 3600, left % 3600 / 60, left % 60) == left
  {
  }

  lemma SplitCycles(ts: nat, days: int, cycles: int, left: int)
    requires days == ts / 86400 && cycles == days / 1461 && left == ts - cycles * (1461 * 86400)
    ensures 0 <= cycles && 0 <= left < 1461 * 86400 && left / 86400 == days - cycles * 1461
            && 0 <= days - cycles * 1461 < 1461
    ensures left - (left / 86400) * 86400 == ts - days * 86400
  {
  }

  /** Steps over whole years from the start of a leap cycle, which is two years past a leap year. */
  method FindYear(start: int, cycles: nat, days: int) returns (year: int, daysRemaining: int)
    requires start == 1970 + 4 * cycles && 0 <= days < 1461
    ensures year >= 1970 && 0 <= daysRemaining < YearLength(year)
    ensures DaysBefore(year) + daysRemaining == DaysBefore(start) + days
  {
    year, daysRemaining := start, days;
    var foundYear := false;
    var yearsUntilNextLeapYear := (4 - (start % 4)) % 4;
    var y := 0;
    while !foundYear && y < 4
      invariant 0 <= y <= 4 && year >= 1970
      invariant DaysBefore(year) + daysRemaining == DaysBefore(start) + days
      invariant foundYear ==> 0 <= daysRemaining < YearLength(year)
      invariant !foundYear ==> year == start + y && daysRemaining == days - YearsOf(y)
      invariant !foundYear ==> daysRemaining >= 0
      decreases 4 - y, !foundYear
    {
      var daysThisYear := if y == yearsUntilNextLeapYear then 366 else 365;
      assert YearLength(year) == daysThisYear;
      assert DaysBefore(year + 1) == DaysBefore(year) + YearLength(year);
      daysRemaining := daysRemaining - daysThisYear;
      if daysRemaining < 0 {
        daysRemaining := daysRemaining + daysThisYear;
        foundYear := true;
      } else {
        year := year + 1;
      }
      y := y + 1;
    }
  }

  /** The lengths of the first years of a cycle that starts two years past a leap year. */
  function YearsOf(y: int): int {
    if y <= 0 then 0 else if y == 1 then 365 else if y == 2 then 730 else if y == 3 then 1096 else 1461
  }

  method FindMonth(year: int, days: int) returns (month: int, daysRemaining: int)
    requires year >= 1970 && 0 <= days < YearLength(year)
    ensures ValidDay(year, month, daysRemaining) && DaysBeforeMonth(year, month) + daysRemaining == days
  {
    YearSpan(year);
    month, daysRemaining := -1, days;
    var m := 0;
    while month < 0 && m < 12
      invariant 0 <= m <= 12 && -1 <= month < 12
      invariant month < 0 ==> 0 <= daysRemaining == days - DaysBeforeMonth(year, m)
      invariant month >= 0 ==>
                  ValidDay(year, month, daysRemaining) && DaysBeforeMonth(year, month) + daysRemaining == days
      decreases 12 - m, month < 0
    {
      daysRemaining := daysRemaining - MonthLength(year, m);
      if daysRemaining < 0 {
        daysRemaining := daysRemaining + MonthLength(year, m);
        month := m;
      }
      m := m + 1;
    }
  }

  /** The date of a timestamp. */
  method EpochTimestampToDateStruct(ts: nat) returns (d: TimeAndDate)
    ensures Valid(d) && Timestamp(d) == ts && d.weekday == (4 + ts / 86400) % 7
  {
    hide DaysBefore, DaysBeforeMonth, ValidDay;
    var numDaysSinceStartYear := ts / 86400;
    var weekday := (4 + numDaysSinceStartYear) % 7;
    var numLeapCycles := numDaysSinceStartYear / 1461;
    var secondsRemaining := ts - numLeapCycles * (1461 * 86400);
    SplitCycles(ts, numDaysSinceStartYear, numLeapCycles, secondsRemaining);
    var daysRemaining := secondsRemaining / 86400;
    secondsRemaining := secondsRemaining - daysRemaining * 86400;
    SplitSeconds(ts, numDaysSinceStartYear, secondsRemaining);
    LeapCycles(numLeapCycles);
    var year, month;
    year, daysRemaining := FindYear(1970 + numLeapCycles * 4, numLeapCycles, daysRemaining);
    month, daysRemaining := FindMonth(year, daysRemaining);
    var hour := secondsRemaining / 3600;
    var rest := secondsRemaining - hour * 3600;
    var min := rest / 60;
    d := TimeAndDate(year, month, daysRemaining, weekday, hour, min, rest - min * 60);
    Assembled(d, ts, numDaysSinceStartYear, secondsRemaining);
  }

  lemma Assembled(d: TimeAndDate, ts: nat, days: int, left: int)
    requires ValidDay(d.year, d.month, d.day) && DayNumber(d.year, d.month, d.day) == days == ts / 86400
    requires left == ts - days * 86400 && d.hour == left / 3600
    requires d.min == (left - d.hour * 3600) / 60 && d.sec == left - d.hour * 3600 - d.min * 60
    ensures Valid(d) && Timestamp(d) == ts
  {
    hide DayNumber;
    SplitSeconds(ts, days, left);
  }

  type uint64 = x: int | 0 <= x < 0x1_0000_0000_0000_0000

  function Wrap64(x: int): uint64 {
    x % 0x1_0000_0000_0000_0000
  }

  /** The days that the code counts from 1970 to a year; before 1970 it goes back in whole leap cycles. */
  function CountedDays(year: int): int {
    if year >= 1970 then DaysBefore(year) else -1461 * ((1970 - year) / 4)
  }

  /** The seconds that the code counts to a date of any year. */
  function CountedSeconds(d: TimeAndDate): int
    requires 0 <= d.month < 12
  {
    (CountedDays(d.year) + DaysBeforeMonth(d.year, d.month) + d.day) * 86400 + Seconds(d.hour, d.min, d.sec)
  }

  lemma CountedIsTimestamp(d: TimeAndDate)
    requires d.year >= 1970 && 0 <= d.month < 12
    ensures CountedSeconds(d) == Timestamp(d)
  {
  }

  lemma CountedDaysIs(year: int)
    ensures year >= 1970 ==> CountedDays(year) == DaysBefore(year)
    ensures year < 1970 ==> CountedDays(year) == -1461 * ((1970 - year) / 4)
    ensures DaysBefore(1970) == 0
  {
  }

  /** The days from the beginning of a year to 1970. */
  function DaysUntil1970(year: int): nat
    decreases 1970 - year
  {
    if year >= 1970 then 0 else YearLength(year) + DaysUntil1970(year + 1)
  }

  lemma FourYears(year: int)
    requires year + 4 <= 1970
    ensures DaysUntil1970(year) == 1461 + DaysUntil1970(year + 4)
  {
    assert DaysUntil1970(year) == YearLength(year) + YearLength(year + 1) + DaysUntil1970(year + 2);
    assert DaysUntil1970(year + 2) == YearLength(year + 2) + YearLength(year + 3) + DaysUntil1970(year + 4);
  }

  lemma {:induction false} UntilInCycles(year: int)
    requires year < 1970
    ensures var cycles, more := (1970 - year) / 4, (1970 - year) % 4;
            1461 * cycles + 365 * more <= DaysUntil1970(year) <= 1461 * cycles + 366 * more
    decreases 1970 - year
  {
    if year + 4 < 1970 {
      FourYears(year);
      UntilInCycles(year + 4);
    } else if year + 4 == 1970 {
      FourYears(year);
    } else {
      assert DaysUntil1970(1969) == 365 && DaysUntil1970(1968) == 366 + 365 && DaysUntil1970(1967) == 365 + 731;
    }
  }

  /**
   Before 1970 the code counts rightly, with a leap day every four years, iff the year is a whole number
   of cycles away.
   */
  lemma {:induction false} CountsBackInCycles(year: int)
    requires year < 1970
    ensures CountedDays(year) + DaysUntil1970(year) == 0 <==> (1970 - year) % 4 == 0
  {
    UntilInCycles(year);
  }

  /** The day on which a year begins, as the code counts it: whole cycles first, then year by year. */
  method CountDays(toYear: int) returns (days: int)
    ensures days == CountedDays(toYear)
  {
    hide DaysBefore, CountedDays;
    CountedDaysIs(toYear);
    var year := 1970;
    days := 0;
    var yearsSince1970 := toYear - year;
    var leapCycles := if yearsSince1970 >= 0 then yearsSince1970 / 4 else -(-yearsSince1970 / 4);
    if leapCycles >= 0 {
      LeapCycles(leapCycles);
    }
    days := days + leapCycles * 1461;
    year := year + leapCycles * 4;
    while year < toYear
      invariant year <= toYear || toYear < 1970
      invariant toYear >= 1970 ==> 1970 <= year && days == DaysBefore(year)
      invariant toYear < 1970 ==> year >= toYear && days == CountedDays(toYear)
    {
      NextYear(year);
      days := days + if year % 4 == 0 then 366 else 365;
      year := year + 1;
    }
  }

  /**
   The timestamp of a date, in 64 bits; months beyond December are taken modulo a year. For a negative
   month the result is undefined: no value of the enumeration is negative, and what the comparison with
   it gives depends on how the compiler promotes it.
   */
  method EpochDateStructToTimestamp(d: TimeAndDate) returns (r: Option<uint64>)
    ensures d.month < 0 ==> r == None
    ensures d.month >= 0 ==> r == Some(Wrap64(CountedSeconds(d.(month := d.month % 12))))
  {
    hide DaysBefore, DaysBeforeMonth, MonthLength, CountedDays, Wrap64;
    if d.month < 0 {
      return None;
    }
    var days := CountDays(d.year);
    var month := d.month;
    if month >= 12 {
      month := month % 12;
    }
    NextMonth(d.year, 0);
    for m := 0 to month
      invariant days == CountedDays(d.year) + DaysBeforeMonth(d.year, m)
    {
      NextMonth(d.year, m);
      days := days + MonthLength(d.year, m);
    }
    days := days + d.day;
    var ts := days * 86400;
    ts := ts + d.hour * 60 * 60;
    ts := ts + d.min * 60;
    ts := ts + d.sec;
    r := Some(Wrap64(ts));
  }

  lemma {:induction false} DaysBound(year: int)
    requires year >= 1970
    ensures DaysBefore(year) <= 366 * (year - 1970)
    decreases year
  {
    if year > 1970 {
      DaysBound(year - 1);
    }
  }

  lemma SecondsFit(number: int, year: int, left: int)
    requires 0 <= number < 366 * (year - 1970) + 366 && 1970 <= year < 0x8000_0000 && 0 <= left < 86400
    ensures 0 <= number * 86400 + left < 0x1_0000_0000_0000_0000
  {
  }

  /** Dates of a 32-bit year have 64-bit timestamps. */
  lemma TimestampFits(d: TimeAndDate)
    requires Valid(d) && d.year < 0x8000_0000
    ensures 0 <= Timestamp(d) < 0x1_0000_0000_0000_0000 && Wrap64(Timestamp(d)) == Timestamp(d)
  {
    hide DaysBefore, DaysBeforeMonth, DayNumber, Seconds, Timestamp, Wrap64;
    DaysBound(d.year);
    DayInYear(d.year, d.month, d.day);
    SecondsOfDay(d.hour, d.min, d.sec);
    TimestampSplit(d);
    SecondsFit(DayNumber(d.year, d.month, d.day), d.year, Seconds(d.hour, d.min, d.sec));
    Wrap64Small(Timestamp(d));
  }

  lemma Wrap64Small(ts: uint64)
    ensures Wrap64(ts) == ts
  {
  }

  /** There and back for a timestamp, and for a date up to its weekday. */
  method RoundTrips(ts: uint64, d: TimeAndDate) returns (r: Option<uint64>, d': TimeAndDate)
    requires Valid(d) && d.year < 0x8000_0000
    ensures r == Some(ts) && SameMoment(d', d)
  {
    hide *;
    var there := EpochTimestampToDateStruct(ts);
    MonthStays(there);
    CountedIsTimestamp(there);
    Wrap64Small(ts);
    r := EpochDateStructToTimestamp(there);
    MonthStays(d);
    CountedIsTimestamp(d);
    TimestampFits(d);
    var at := EpochDateStructToTimestamp(d);
    d' := EpochTimestampToDateStruct(at.value);
    TimestampsOrdered(d', d);
  }

  lemma MonthStays(d: TimeAndDate)
    requires Valid(d)
    ensures d.year >= 1970 && 0 <= d.month < 12 && d.(month := d.month % 12) == d
  {
  }

  // ---------------------------------------------------------------- the Gregorian calendar

  predicate GregorianLeap(year: int) {
    year % 4 == 0 && (year % 100 != 0 || year % 400 == 0)
  }

  function GregorianMonthLength(year: int, month: int): int
    requires 0 <= month < 12
  {
    if month == 1 then (if GregorianLeap(year) then 29 else 28)
    else if month == 3 || month == 5 || month == 8 || month == 10 then 30
    else 31
  }

  function GregorianDaysBefore(year: int): nat
    requires year >= 1970
    decreases year
  {
    if year == 1970 then 0 else GregorianDaysBefore(year - 1) + if GregorianLeap(year - 1) then 366 else 365
  }

  function GregorianDaysBeforeMonth(year: int, month: int): nat
    requires 0 <= month <= 12
    decreases month
  {
    if month == 0 then 0 else GregorianDaysBeforeMonth(year, month - 1) + GregorianMonthLength(year, month - 1)
  }

  /** The date is one of the Gregorian calendar and stands for this timestamp there. */
  predicate IsGregorianFor(d: TimeAndDate, ts: int)
    requires Valid(d)
  {
    && d.day < GregorianMonthLength(d.year, d.month)
    && ts == (GregorianDaysBefore(d.year) + GregorianDaysBeforeMonth(d.year, d.month) + d.day) * 86400
             + Seconds(d.hour, d.min, d.sec)
  }

  lemma CenturiesApart(year: int)
    ensures 1970 <= year < 2100 ==> GregorianLeap(year) == (year % 4 == 0)
    ensures GregorianLeap(year) ==> year % 4 == 0
    ensures !GregorianLeap(2100)
  {
    if 1970 <= year < 2100 && year % 100 == 0 {
      assert year == 2000;
    }
  }

  lemma {:induction false} YearsAgree(year: int)
    requires year >= 1970
    ensures year <= 2100 ==> GregorianDaysBefore(year) == DaysBefore(year)
    ensures year > 2100 ==> GregorianDaysBefore(year) < DaysBefore(year)
    decreases year
  {
    if year > 1970 {
      YearsAgree(year - 1);
      CenturiesApart(year - 1);
    }
  }

  lemma {:induction false} MonthsAgree(year: int, month: int)
    requires 0 <= month <= 12
    ensures month <= 1 || GregorianLeap(year) == (year % 4 == 0) ==>
              GregorianDaysBeforeMonth(year, month) == DaysBeforeMonth(year, month)
    ensures GregorianDaysBeforeMonth(year, month) <= DaysBeforeMonth(year, month)
    ensures month >= 2 && year % 4 == 0 && !GregorianLeap(year) ==>
              GregorianDaysBeforeMonth(year, month) < DaysBeforeMonth(year, month)
    decreases month
  {
    if month > 0 {
      CenturiesApart(year);
      MonthsAgree(year, month - 1);
    }
  }

  const FIRST_MARCH_2100 := 4107542400

  lemma Year2100(year: int)
    requires year == 2100
    ensures DaysBefore(year) == 47482
  {
    hide DaysBefore;
    LeapCycles(32);
    NextYear(2098);
    NextYear(2099);
  }

  lemma LeapDayNumber(year: int, month: int, day: int)
    requires year == 2100 && month == 1 && day == 28
    ensures ValidDay(year, month, day) && DayNumber(year, month, day) == 47541
  {
    hide DaysBefore, DaysBeforeMonth;
    Year2100(year);
    MonthTable(year);
  }

  lemma TimestampSplit(d: TimeAndDate)
    requires Valid(d)
    ensures Timestamp(d) == DayNumber(d.year, d.month, d.day) * 86400 + Seconds(d.hour, d.min, d.sec)
  {
  }

  lemma Midnight(d: TimeAndDate)
    requires ValidDay(d.year, d.month, d.day) && d.hour == 0 && d.min == 0 && d.sec == 0
    ensures Valid(d) && Seconds(d.hour, d.min, d.sec) == 0
  {
  }

  /** The day that the code takes for 29 February 2100 is 1 March. */
  lemma LeapDay2100(d: TimeAndDate)
    requires d.year == 2100 && d.month == 1 && d.day == 28 && d.hour == 0 && d.min == 0 && d.sec == 0
    ensures Valid(d) && Timestamp(d) == 4107542400
  {
    hide *;
    LeapDayNumber(d.year, d.month, d.day);
    Midnight(d);
    TimestampSplit(d);
  }

  predicate BeforeMarch2100(d: TimeAndDate) {
    d.year < 2100 || (d.year == 2100 && (d.month == 0 || (d.month == 1 && d.day < 28)))
  }

  lemma BeforeMarchIff(d: TimeAndDate)
    requires Valid(d)
    ensures Timestamp(d) < FIRST_MARCH_2100 <==> BeforeMarch2100(d)
  {
    hide Timestamp, DaysBeforeMonth;
    var leapDay := TimeAndDate(2100, 1, 28, 0, 0, 0, 0);
    LeapDay2100(leapDay);
    TimestampsOrdered(d, leapDay);
    SecondsOfDay(d.hour, d.min, d.sec);
  }

  /** Days up to a date agree or do not. */
  lemma DaysAgree(d: TimeAndDate)
    requires Valid(d)
    ensures var g := GregorianDaysBefore(d.year) + GregorianDaysBeforeMonth(d.year, d.month);
            var j := DaysBefore(d.year) + DaysBeforeMonth(d.year, d.month);
            g == j && d.day < GregorianMonthLength(d.year, d.month) <==> BeforeMarch2100(d)
  {
    hide DaysBefore, DaysBeforeMonth, GregorianDaysBefore, GregorianDaysBeforeMonth, GregorianLeap;
    YearsAgree(d.year);
    MonthsAgree(d.year, d.month);
    CenturiesApart(d.year);
  }

  /** The code's dates are those of the Gregorian calendar exactly until the end of 28 February 2100. */
  lemma GregorianUntil2100(d: TimeAndDate)
    requires Valid(d)
    ensures IsGregorianFor(d, Timestamp(d)) <==> Timestamp(d) < FIRST_MARCH_2100
  {
    BeforeMarchIff(d);
    DaysAgree(d);
    TimestampIs(d);
    hide Timestamp, DaysBefore, DaysBeforeMonth, GregorianDaysBefore, GregorianDaysBeforeMonth, GregorianMonthLength,
         BeforeMarch2100;
  }

  lemma TimestampIs(d: TimeAndDate)
    requires Valid(d)
    ensures Timestamp(d) ==
            (DaysBefore(d.year) + DaysBeforeMonth(d.year, d.month) + d.day) * 86400 + Seconds(d.hour, d.min, d.sec)
  {
  }

  // ---------------------------------------------------------------- GeneralizedTime

  function Digit(k: int): char
    requires 0 <= k < 10
  {
    ('0' as int + k) as char
  }

  /** A number in decimal, as %d prints it. */
  function Decimal(n: nat): string {
    if n < 10 then [Digit(n)] else Decimal(n / 10) + [Digit(n % 10)]
  }

  function TwoDigits(n: nat): string {
    Decimal(n / 10) + Decimal(n % 10)
  }

  /** YYYYMMDDHHMMSSZ. */
  function GeneralizedTime(d: TimeAndDate): string
    requires Valid(d)
  {
    Decimal(d.year) + TwoDigits(d.month + 1) + TwoDigits(d.day + 1)
    + TwoDigits(d.hour) + TwoDigits(d.min) + TwoDigits(d.sec) + "Z"
  }

  /** Reads the digits of a string and skips everything else. */
  function Atoi(s: string): nat {
    if s == [] then 0
    else
      var a := s[|s| - 1];
      if '0' <= a <= '9' then 10 * Atoi(s[..|s| - 1]) + (a as int - '0' as int) else Atoi(s[..|s| - 1])
  }

  lemma AtoiOneMore(s: string, i: nat)
    requires i < |s|
    ensures Atoi(s[..i + 1]) ==
            if '0' <= s[i] <= '9' then 10 * Atoi(s[..i]) + (s[i] as int - '0' as int) else Atoi(s[..i])
  {
    assert s[..i + 1][..i] == s[..i];
  }

  /** A product and a sum may be taken on words that were cut off before. */
  lemma WrapShift(a: int, d: int)
    ensures Wrap32(Wrap32(a) * 10 + d) == Wrap32(10 * a + d)
  {
    var q := WrapOf(a);
    var r := WrapOf(10 * a + d);
    assert Wrap32(a) * 10 + d == Wrap32(10 * a + d) + 0x1_0000_0000 * (r - 10 * q);
    WrapUnique(Wrap32(a) * 10 + d, Wrap32(10 * a + d), r - 10 * q);
  }

  /** The loop over the characters; numbers beyond a word wrap. */
  method ParseNumber(s: string) returns (rval: uint32)
    ensures rval == Wrap32(Atoi(s))
  {
    hide Atoi, Wrap32;
    assert s[..|s|] == s;
    AtoiOfNone(s[..0]);
    rval := 0;
    for i := 0 to |s|
      invariant rval == Wrap32(Atoi(s[..i]))
    {
      AtoiOneMore(s, i);
      var a := s[i];
      if a >= '0' && a <= '9' {
        var num := a as int - '0' as int;
        WrapShift(Atoi(s[..i]), num);
        rval := Wrap32(rval * 10 + num);
      }
    }
  }

  lemma AtoiOfNone(s: string)
    requires s == []
    ensures Atoi(s) == 0 && Wrap32(0) == 0
  {
  }

  /** A field of two characters is a small number. */
  method FieldValue(s: string, c: nat) returns (r: int)
    requires c + 2 <= |s|
    ensures r == Atoi(s[c..c + 2])
  {
    r := ParseNumber(s[c..c + 2]);
    TwoCharacters(s[c..c + 2]);
    SmallWords(Atoi(s[c..c + 2]));
  }

  lemma TwoCharacters(s: string)
    requires |s| == 2
    ensures Atoi(s) < 100
  {
    AtoiOneMore(s, 0);
    AtoiOneMore(s, 1);
    assert s[..2] == s;
    AtoiOfNone(s[..0]);
  }

  function IndexOf(s: string, c: char): (i: nat)
    ensures i <= |s| && (i < |s| ==> s[i] == c) && forall j | 0 <= j < i :: s[j] != c
  {
    if s == [] || s[0] == c then 0 else 1 + IndexOf(s[1..], c)
  }

  /** Where the fields end: at the zone or at a fraction. */
  function FieldsEnd(s: string): (end: nat)
    ensures end <= |s|
  {
    if IndexOf(s, 'Z') <= IndexOf(s, '.') then IndexOf(s, 'Z') else IndexOf(s, '.')
  }

  /** The k-th two-character field from the end, or a default if the string is too short. */
  function Field(s: string, k: nat, default: int, offset: int): int {
    var end := FieldsEnd(s);
    if 2 * k + 2 <= end then Atoi(s[end - 2 * k - 2..end - 2 * k]) + offset else default
  }

  function ParsedDate(s: string): TimeAndDate {
    TimeAndDate(
      Field(s, 5, 0, 0) + (if FieldsEnd(s) >= 14 then 100 * Field(s, 6, 0, 0) else 2000),
      Field(s, 4, 0, -1), Field(s, 3, 0, -1), 0, Field(s, 2, 0, 0), Field(s, 1, 0, 0), Field(s, 0, 0, 0))
  }

  /** What a string stands for; none if its month reads 00, for which the result is undefined. */
  function Parsed(s: string): Option<uint32> {
    var date := ParsedDate(s);
    if date.month < 0 then None else Some(Wrap32(CountedSeconds(date.(month := date.month % 12))))
  }

  lemma LowWord(x: int)
    ensures Wrap32(Wrap64(x)) == Wrap32(x)
  {
    var q := x / 0x1_0000_0000_0000_0000;
    var p := WrapOf(x);
    WrapUnique(Wrap64(x), Wrap32(x), p - 0x1_0000_0000 * q);
  }

  /** Parses from the end, two characters at a time. */
  method UTCTimeStringToTimestamp(s: string) returns (r: Option<uint32>)
    ensures r == Parsed(s)
  {
    hide Atoi, IndexOf, CountedSeconds, Wrap32, Wrap64;
    var end := FieldsEnd(s);
    var c: int := end;
    var date := TimeAndDate(0, 0, 0, 0, 0, 0, 0);
    c := c - 2;
    if c >= 0 {
      var v := FieldValue(s, c);
      date := date.(sec := v);
      c := c - 2;
    }
    if c >= 0 {
      var v := FieldValue(s, c);
      date := date.(min := v);
      c := c - 2;
    }
    if c >= 0 {
      var v := FieldValue(s, c);
      date := date.(hour := v);
      c := c - 2;
    }
    if c >= 0 {
      var v := FieldValue(s, c);
      date := date.(day := v - 1);
      c := c - 2;
    }
    if c >= 0 {
      var v := FieldValue(s, c);
      date := date.(month := v - 1);
      c := c - 2;
    }
    if c >= 0 {
      var v := FieldValue(s, c);
      date := date.(year := v);
      c := c - 2;
    }
    if c >= 0 {
      var v := FieldValue(s, c);
      date := date.(year := date.year + 100 * v);
    } else {
      date := date.(year := date.year + 2000);
    }
    assert date == ParsedDate(s);
    var t := EpochDateStructToTimestamp(date);
    if t == None {
      return None;
    }
    LowWord(CountedSeconds(date.(month := date.month % 12)));
    r := Some(Wrap32(t.value));
  }

  /** The digits of a date of four-digit year. */
  function Digits(d: TimeAndDate): seq<int>
    requires Valid(d)
  {
    [d.year / 1000, d.year / 100 % 10, d.year / 10 % 10, d.year % 10, (d.month + 1) / 10, (d.month + 1) % 10,
     (d.day + 1) / 10, (d.day + 1) % 10, d.hour / 10, d.hour % 10, d.min / 10, d.min % 10, d.sec / 10, d.sec % 10]
  }

  function Printed(digits: seq<int>): (s: string)
    requires forall i | 0 <= i < |digits| :: 0 <= digits[i] < 10
    ensures |s| == |digits| && forall i | 0 <= i < |s| :: s[i] == Digit(digits[i])
  {
    seq(|digits|, i requires 0 <= i < |digits| => Digit(digits[i]))
  }

  lemma TwoDigitsAre(n: nat)
    requires n < 100
    ensures TwoDigits(n) == [Digit(n / 10), Digit(n % 10)]
  {
  }

  lemma FourDigitsAre(n: nat)
    requires 1000 <= n < 10000
    ensures Decimal(n) == [Digit(n / 1000), Digit(n / 100 % 10), Digit(n / 10 % 10), Digit(n % 10)]
  {
    assert n / 100 == n / 10 / 10 && n / 1000 == n / 100 / 10;
    assert Decimal(n / 1000) == [Digit(n / 1000)];
    assert Decimal(n / 100) == Decimal(n / 1000) + [Digit(n / 100 % 10)];
    assert Decimal(n / 10) == Decimal(n / 100) + [Digit(n / 10 % 10)];
  }

  lemma AreDigits(d: TimeAndDate)
    requires Valid(d) && d.year < 10000
    ensures forall i | 0 <= i < |Digits(d)| :: 0 <= Digits(d)[i] < 10
  {
  }

  lemma PrintsDigits(d: TimeAndDate)
    requires Valid(d) && d.year < 10000
    ensures forall i | 0 <= i < |Digits(d)| :: 0 <= Digits(d)[i] < 10
    ensures GeneralizedTime(d) == Printed(Digits(d)) + "Z"
  {
    AreDigits(d);
    hide Decimal, TwoDigits, Digit;
    FourDigitsAre(d.year);
    TwoDigitsAre(d.month + 1);
    TwoDigitsAre(d.day + 1);
    TwoDigitsAre(d.hour);
    TwoDigitsAre(d.min);
    TwoDigitsAre(d.sec);
  }

  lemma DigitIs(k: int)
    requires 0 <= k < 10
    ensures '0' <= Digit(k) <= '9' && Digit(k) as int - '0' as int == k && Digit(k) != 'Z' && Digit(k) != '.'
  {
  }

  lemma AtoiOfTwo(a: int, b: int, s: string)
    requires 0 <= a < 10 && 0 <= b < 10 && s == [Digit(a), Digit(b)]
    ensures Atoi(s) == 10 * a + b
  {
    DigitIs(a);
    DigitIs(b);
    hide Digit;
    assert s[..1] == [Digit(a)] && s[..1][..0] == [];
    assert Atoi(s[..1]) == a;
  }

  // ---------------------------------------------------------------- the documented forms

  datatype Fields = ToHours | ToMinutes | ToSeconds

  /** YYYYMMDDHH[MM[SS]] or, with a short year, YYMMDDHH[MM[SS]]. */
  datatype Form = Form(shortYear: bool, fields: Fields)

  function First(f: Form): nat {
    if f.shortYear then 1 else 0
  }

  function Last(f: Form): nat {
    match f.fields
    case ToHours => 5
    case ToMinutes => 6
    case ToSeconds => 7
  }

  /** What may follow the fields: the zone or a fraction of a second. */
  predicate IsTail(tail: string) {
    tail != [] && (tail[0] == 'Z' || tail[0] == '.')
  }

  function InForm(d: TimeAndDate, f: Form, tail: string): string
    requires Valid(d) && d.year < 10000
  {
    AreDigits(d);
    Printed(Digits(d)[2 * First(f)..2 * Last(f)]) + tail
  }

  /** The fields that the form leaves out are zero. */
  predicate Omits(d: TimeAndDate, f: Form) {
    (f.fields.ToHours? ==> d.min == 0 && d.sec == 0) && (f.fields.ToMinutes? ==> d.sec == 0)
  }

  lemma EndOfPrinted(digits: seq<int>, tail: string)
    requires (forall i | 0 <= i < |digits| :: 0 <= digits[i] < 10) && IsTail(tail)
    ensures FieldsEnd(Printed(digits) + tail) == |digits|
  {
    var s := Printed(digits) + tail;
    hide Printed, Digit, IndexOf;
    forall i | 0 <= i < |digits|
      ensures s[i] != 'Z' && s[i] != '.'
    {
      DigitIs(digits[i]);
    }
    assert s[|digits|] == tail[0];
  }

  /** The two digits of a field that ends `2 * k` places before the tail. */
  lemma FieldOfPrinted(digits: seq<int>, tail: string, k: nat, default: int, offset: int)
    requires (forall i | 0 <= i < |digits| :: 0 <= digits[i] < 10) && IsTail(tail)
    ensures Field(Printed(digits) + tail, k, default, offset) ==
            var i := |digits| - 2 * k - 2;
            if i >= 0 then 10 * digits[i] + digits[i + 1] + offset else default
  {
    var s := Printed(digits) + tail;
    hide Printed, Digit, IndexOf, FieldsEnd, Atoi;
    EndOfPrinted(digits, tail);
    var i := |digits| - 2 * k - 2;
    if i >= 0 {
      assert s[i..i + 2] == [Digit(digits[i]), Digit(digits[i + 1])];
      AtoiOfTwo(digits[i], digits[i + 1], s[i..i + 2]);
    }
  }

  /** The pairs of digits of a date. */
  function Pairs(d: TimeAndDate): seq<int> {
    [d.year / 100, d.year % 100, d.month + 1, d.day + 1, d.hour, d.min, d.sec]
  }

  lemma FourDigits(n: int)
    ensures 10 * (n / 1000) + n / 100 % 10 == n / 100 && 10 * (n / 10 % 10) + n % 10 == n % 100
  {
  }

  lemma DigitPairs(d: TimeAndDate, j: nat)
    requires Valid(d) && j < 7
    ensures |Digits(d)| == 14 && |Pairs(d)| == 7 && 10 * Digits(d)[2 * j] + Digits(d)[2 * j + 1] == Pairs(d)[j]
  {
    hide ValidDay, ValidTime;
    FourDigits(d.year);
  }

  /** A field of a stretch of digits is one of the whole. */
  lemma FieldOfStretch(n: seq<int>, a: nat, b: nat, tail: string, k: nat, default: int, offset: int)
    requires (forall i | 0 <= i < |n| :: 0 <= n[i] < 10) && IsTail(tail) && 2 * a <= 2 * b <= |n|
    ensures Field(Printed(n[2 * a..2 * b]) + tail, k, default, offset) ==
            var j := b - 1 - k;
            if a + k < b then 10 * n[2 * j] + n[2 * j + 1] + offset else default
  {
    hide *;
    FieldOfPrinted(n[2 * a..2 * b], tail, k, default, offset);
  }

  lemma InFormIs(d: TimeAndDate, f: Form, tail: string)
    requires Valid(d) && d.year < 10000
    ensures |Digits(d)| == 14 && (forall i | 0 <= i < 14 :: 0 <= Digits(d)[i] < 10) && First(f) <= 1
            && 5 <= Last(f) <= 7
    ensures InForm(d, f, tail) == Printed(Digits(d)[2 * First(f)..2 * Last(f)]) + tail
  {
    AreDigits(d);
    hide Printed, Digit;
  }

  /** A field of a form, counted from its end, is the pair of digits that stands there. */
  lemma FieldOfForm(d: TimeAndDate, f: Form, tail: string, k: nat, default: int, offset: int)
    requires Valid(d) && d.year < 10000 && IsTail(tail)
    ensures |Pairs(d)| == 7 && First(f) <= 1 && 5 <= Last(f) <= 7
    ensures Field(InForm(d, f, tail), k, default, offset) ==
            if First(f) + k < Last(f) then Pairs(d)[Last(f) - 1 - k] + offset else default
  {
    hide *;
    InFormIs(d, f, tail);
    FieldOfStretch(Digits(d), First(f), Last(f), tail, k, default, offset);
    DigitPairs(d, if First(f) + k < Last(f) then Last(f) - 1 - k else 0);
  }

  lemma EndOfForm(d: TimeAndDate, f: Form, tail: string)
    requires Valid(d) && d.year < 10000 && IsTail(tail)
    ensures FieldsEnd(InForm(d, f, tail)) == 2 * (Last(f) - First(f))
  {
    hide *;
    InFormIs(d, f, tail);
    EndOfPrinted(Digits(d)[2 * First(f)..2 * Last(f)], tail);
  }

  /** What the parser reads in a form. */
  function ReadAs(d: TimeAndDate, f: Form): TimeAndDate {
    match f.fields
    case ToSeconds =>
      TimeAndDate(if f.shortYear then 2000 + d.year % 100 else d.year, d.month, d.day, 0, d.hour, d.min, d.sec)
    case ToMinutes =>
      TimeAndDate(if f.shortYear then 2000 else 2000 + d.year / 100,
                  d.year % 100 - 1, d.month, 0, d.day + 1, d.hour, d.min)
    case ToHours =>
      TimeAndDate(2000, if f.shortYear then 0 else d.year / 100 - 1,
                  d.year % 100 - 1, 0, d.month + 1, d.day + 1, d.hour)
  }

  lemma ParsedIs(s: string)
    ensures ParsedDate(s) ==
            TimeAndDate(Field(s, 5, 0, 0) + (if FieldsEnd(s) >= 14 then 100 * Field(s, 6, 0, 0) else 2000),
                        Field(s, 4, 0, -1), Field(s, 3, 0, -1), 0, Field(s, 2, 0, 0), Field(s, 1, 0, 0),
                        Field(s, 0, 0, 0))
  {
  }

  lemma FormIsReadAs(d: TimeAndDate, f: Form, tail: string)
    requires Valid(d) && d.year < 10000 && IsTail(tail)
    ensures ParsedDate(InForm(d, f, tail)) == ReadAs(d, f)
  {
    hide Field, FieldsEnd, InForm, ParsedDate, Valid, IsTail;
    var s := InForm(d, f, tail);
    EndOfForm(d, f, tail);
    ParsedIs(s);
    FieldOfForm(d, f, tail, 6, 0, 0);
    FieldOfForm(d, f, tail, 5, 0, 0);
    FieldOfForm(d, f, tail, 4, 0, -1);
    FieldOfForm(d, f, tail, 3, 0, -1);
    FieldOfForm(d, f, tail, 2, 0, 0);
    FieldOfForm(d, f, tail, 1, 0, 0);
    FieldOfForm(d, f, tail, 0, 0, 0);
  }

  // ---------------------------------------------------------------- which forms are read rightly

  /** A date that is read as one of 1970 to 2099 has a 32-bit timestamp. */
  lemma ThisCentury(d: TimeAndDate)
    requires Valid(d) && d.year < 2100
    ensures 0 <= Timestamp(d) < 0x1_0000_0000
  {
    hide DaysBefore, DaysBeforeMonth;
    SecondsOfDay(d.hour, d.min, d.sec);
    DayInYear(d.year, d.month, d.day);
    LeapCycles(33);
    DaysGrow(d.year, 2102);
  }

  lemma Centuries(d: TimeAndDate)
    requires Valid(d) && Timestamp(d) < 0x1_0000_0000
    ensures 19 <= d.year / 100 <= 21 && d.year < 10000
  {
    hide DaysBefore, DaysBeforeMonth;
    SecondsOfDay(d.hour, d.min, d.sec);
    DayInYear(d.year, d.month, d.day);
    LeapCycles(50);
    if d.year > 2170 {
      DaysGrow(2170, d.year);
    }
  }

  lemma ReadDateIs(date: TimeAndDate)
    requires date.year >= 1970 && 0 <= date.month
    ensures var e := date.(month := date.month % 12);
            CountedSeconds(e) ==
            (DaysBefore(e.year) + DaysBeforeMonth(e.year, e.month) + e.day) * 86400 + Seconds(e.hour, e.min, e.sec)
  {
  }

  /** With the seconds printed, the right date is read iff the century is one that the form can tell. */
  lemma {:induction false} SecondsFormIs(d: TimeAndDate, f: Form)
    requires Valid(d) && Timestamp(d) < 0x1_0000_0000 && f.fields.ToSeconds?
    ensures var e := ReadAs(d, f);
            && e.month == e.month % 12
            && (Wrap32(CountedSeconds(e)) == Timestamp(d) <==> (f.shortYear ==> 2000 <= d.year < 2100))
  {
    var e := ReadAs(d, f);
    Centuries(d);
    LeapYearsAgree(d.year, e.year, d.month, d.day);
    hide Timestamp, CountedSeconds, Wrap32;
    assert Valid(e);
    CountedIsTimestamp(e);
    TimestampsOrdered(e, d);
    SmallWords(Timestamp(d));
    if f.shortYear {
      ThisCentury(e);
      SmallWords(Timestamp(e));
    }
  }

  lemma LeapYearsAgree(year: int, short: int, month: int, day: int)
    requires ValidDay(year, month, day) && (short == 2000 + year % 100 || short == year)
    ensures ValidDay(short, month, day)
  {
    assert year % 4 == year % 100 % 4;
  }

  /** Without minutes the reading is never a full hour. */
  lemma HoursNeverHit(days: int, hour: int, min: int, sec: int, number: int, h: int)
    requires 0 < min < 60 && 0 <= sec < 60
    ensures days * 86400 + Seconds(hour, min, sec) != number * 86400 + Seconds(h, 0, 0)
  {
    var x := days * 24 + hour - number * 24 - h;
    assert days * 86400 + Seconds(hour, min, sec) - (number * 86400 + Seconds(h, 0, 0)) == 3600 * x + min * 60 + sec;
  }

  lemma HoursRead(d: TimeAndDate, f: Form)
    requires Valid(d) && 19 <= d.year / 100 <= 21 && f.fields.ToHours?
    ensures var e := ReadAs(d, f);
            && e.year == 2000 && e.month >= 0 && -1 <= e.day < 100 && 1 <= e.hour <= 12 && 1 <= e.min <= 31
            && e.sec == d.hour && 0 <= d.hour < 24
  {
  }

  /** The timestamp of a date in 2000 that is off its month by days and hours is a word. */
  lemma ReadIn2000(q: TimeAndDate) returns (days: int)
    requires q.year == 2000 && 0 <= q.month < 12 && -1 <= q.day < 100 && 1 <= q.hour <= 12 && 1 <= q.min <= 31
             && 0 <= q.sec < 24
    ensures CountedSeconds(q) == days * 86400 + Seconds(q.hour, q.min, q.sec) && 0 <= CountedSeconds(q) < 0x1_0000_0000
  {
    hide DaysBefore, DaysBeforeMonth;
    days := DaysBefore(q.year) + DaysBeforeMonth(q.year, q.month) + q.day;
    CountedDaysIs(q.year);
    Year2000();
    MonthTable(q.year);
  }

  lemma {:induction false} HoursFormIs(d: TimeAndDate, f: Form)
    requires Valid(d) && Timestamp(d) < 0x1_0000_0000 && f.fields.ToHours? && Omits(d, f)
    ensures var e := ReadAs(d, f);
            e.month >= 0 && Wrap32(CountedSeconds(e.(month := e.month % 12))) != Timestamp(d)
  {
    Centuries(d);
    HoursRead(d, f);
    TimestampSplit(d);
    var q := ReadAs(d, f).(month := ReadAs(d, f).month % 12);
    hide DayNumber, CountedSeconds, Timestamp, Wrap32, ReadAs, Seconds;
    var days := ReadIn2000(q);
    SmallWords(CountedSeconds(q));
    HoursNeverHit(days, q.hour, q.min, q.sec, DayNumber(d.year, d.month, d.day), d.hour);
  }

  lemma Year2000()
    ensures DaysBefore(2000) == 10957
  {
    hide DaysBefore;
    LeapCycles(7);
    NextYear(1998);
    NextYear(1999);
  }

  lemma Multiple60(a: int, b: int, r: int)
    requires 60 * a == 60 * b + r && 0 <= r < 60
    ensures r == 0 && a == b
  {
  }

  lemma Multiple24(a: int, b: int, r: int)
    requires 24 * a == 24 * b + r && 0 < r < 32
    ensures r == 24 && a == b + 1
  {
  }

  lemma SecondsIs(hour: int, min: int, sec: int)
    ensures Seconds(hour, min, sec) == 3600 * hour + 60 * min + sec
  {
  }

  /** With minutes but no seconds only the 24th of a month at midnight could be hit. */
  lemma MinutesHit(days: int, number: int, day: int, hour: int, min: int)
    requires 0 <= day < 31 && 0 <= hour < 24 && 0 <= min < 60
    requires days * 86400 + Seconds(day + 1, hour, min) == number * 86400 + Seconds(hour, min, 0)
    ensures min == 0 && hour == 0 && day == 23 && number == days + 1
  {
    SecondsIs(day + 1, hour, min);
    SecondsIs(hour, min, 0);
    hide Seconds;
    Multiple60(number * 1440 + hour * 60 + min, days * 1440 + (day + 1) * 60 + hour, min);
    Multiple60(number * 24 + hour, days * 24 + day + 1, hour);
    Multiple24(number, days, day + 1);
  }

  /** The day after the one that is read. */
  function DayAfter(q: TimeAndDate): TimeAndDate {
    TimeAndDate(q.year, q.month, q.day + 1, 0, 0, 0, 0)
  }

  /** What is read without the seconds: a date of the first third of a month, up to 31 hours into it. */
  lemma MinutesRead(d: TimeAndDate, f: Form)
    requires Valid(d) && 19 <= d.year / 100 <= 21 && f.fields.ToMinutes? && ReadAs(d, f).month >= 0
    ensures var q := ReadAs(d, f).(month := ReadAs(d, f).month % 12);
            && q.hour == d.day + 1 && q.min == d.hour && q.sec == d.min && q.day == d.month && ReadAs(d, f).year >= 1970
            && Valid(DayAfter(q)) && q.year < 2100 && 0 <= d.day < 31 && 0 <= d.hour < 24 && 0 <= d.min < 60
  {
  }

  lemma Midnights(d: TimeAndDate, number: int)
    requires Valid(d) && number == DayNumber(d.year, d.month, d.day) && d.hour == 0 && d.min == 0 && d.sec == 0
    ensures Timestamp(d) == number * 86400
  {
    hide *;
    TimestampSplit(d);
    SecondsIs(d.hour, d.min, d.sec);
  }

  lemma DayAfterIs(q: TimeAndDate) returns (days: int)
    requires Valid(DayAfter(q)) && 0 <= q.day
    ensures 0 <= days && q.year >= 1970 && 0 <= q.month < 12 && q.(month := q.month % 12) == q
    ensures days == DaysBefore(q.year) + DaysBeforeMonth(q.year, q.month) + q.day
    ensures var n := DayAfter(q);
            days + 1 == DayNumber(n.year, n.month, n.day) && n.hour == 0 && n.min == 0 && n.sec == 0 && n.year == q.year
  {
    hide DaysBefore, DaysBeforeMonth;
    days := DaysBefore(q.year) + DaysBeforeMonth(q.year, q.month) + q.day;
  }

  /** The days up to a date that is read. */
  lemma ReadDays(q: TimeAndDate) returns (days: int)
    requires Valid(DayAfter(q)) && q.year < 2100 && 0 <= q.day && 0 <= q.hour <= 31 && 0 <= q.min < 60
             && 0 <= q.sec < 60
    ensures CountedSeconds(q) == days * 86400 + Seconds(q.hour, q.min, q.sec)
    ensures Timestamp(DayAfter(q)) == (days + 1) * 86400
    ensures 0 <= CountedSeconds(q) < 0x1_0000_0000
  {
    hide *;
    days := DayAfterIs(q);
    Midnights(DayAfter(q), days + 1);
    ReadDateIs(q);
    NearMidnight(days, q, DayAfter(q));
  }

  lemma SameMomentSameDay(a: TimeAndDate, b: TimeAndDate)
    requires SameMoment(a, b)
    ensures a.day == b.day
  {
  }

  lemma {:induction false} MinutesFormIs(d: TimeAndDate, f: Form)
    requires Valid(d) && Timestamp(d) < 0x1_0000_0000 && f.fields.ToMinutes? && d.sec == 0
    ensures var e := ReadAs(d, f);
            e.month >= 0 ==> Wrap32(CountedSeconds(e.(month := e.month % 12))) != Timestamp(d)
  {
    hide *;
    var e := ReadAs(d, f);
    Centuries(d);
    TimestampSplit(d);
    if e.month >= 0 {
      var q := e.(month := e.month % 12);
      MinutesRead(d, f);
      MonthStays(d);
      MonthIsSmall(d);
      var days := ReadDays(q);
      SmallWords(CountedSeconds(q));
      if CountedSeconds(q) == Timestamp(d) {
        MinutesHit(days, DayNumber(d.year, d.month, d.day), d.day, d.hour, d.min);
        Midnights(d, DayNumber(d.year, d.month, d.day));
        TimestampsOrdered(DayAfter(q), d);
        SameMomentSameDay(DayAfter(q), d);
        DayAfterDay(q);
      }
    }
  }

  lemma DayAfterDay(q: TimeAndDate)
    ensures DayAfter(q).day == q.day + 1
  {
  }

  lemma MonthIsSmall(d: TimeAndDate)
    requires Valid(d)
    ensures 0 <= d.month < 12
  {
  }

  /** A reading of up to 31 hours stays in the range of its next days. */
  lemma NearMidnight(days: int, q: TimeAndDate, near: TimeAndDate)
    requires 0 <= days && near.year < 2100 && Valid(near)
    requires Timestamp(near) == (days + 1) * 86400 && 0 <= q.hour <= 31 && 0 <= q.min < 60 && 0 <= q.sec < 60
    ensures 0 <= days * 86400 + Seconds(q.hour, q.min, q.sec) < 0x1_0000_0000
  {
    hide DaysBefore, DaysBeforeMonth;
    SecondsOfDay(near.hour, near.min, near.sec);
    DayInYear(near.year, near.month, near.day);
    LeapCycles(33);
    DaysGrow(near.year, 2102);
  }

  /**
   A date of which a form omits only zeros is read back iff its seconds are printed and, with a short
   year, its century is ours: no date of another form is read back, not even by chance. What follows
   the fields makes no difference.
   */
  lemma {:induction false} FormReadRightlyIff(d: TimeAndDate, f: Form, tail: string)
    requires Valid(d) && Timestamp(d) < 0x1_0000_0000 && Omits(d, f) && IsTail(tail)
    ensures d.year < 10000
    ensures Parsed(InForm(d, f, tail)) == Some(Timestamp(d)) <==>
            f.fields.ToSeconds? && (f.shortYear ==> 2000 <= d.year < 2100)
  {
    Centuries(d);
    FormIsReadAs(d, f, tail);
    hide Timestamp, CountedSeconds, Wrap32, InForm, ParsedDate, IsTail, ReadAs;
    match f.fields {
      case ToSeconds => SecondsFormIs(d, f); ReadMonth(d, f);
      case ToMinutes => assert d.sec == 0; MinutesFormIs(d, f);
      case ToHours => HoursFormIs(d, f);
    }
  }

  lemma ReadMonth(d: TimeAndDate, f: Form)
    requires Valid(d) && f.fields.ToSeconds?
    ensures 0 <= ReadAs(d, f).month < 12 && ReadAs(d, f).(month := ReadAs(d, f).month % 12) == ReadAs(d, f)
  {
  }

  /** Printing is the long form with its seconds. */
  lemma PrintsForm(d: TimeAndDate)
    requires Valid(d) && d.year < 10000
    ensures GeneralizedTime(d) == InForm(d, Form(false, ToSeconds), "Z")
  {
    hide Printed, GeneralizedTime;
    PrintsDigits(d);
    assert Digits(d)[0..14] == Digits(d);
  }

  /** Parsing a printed date gives it back, but for its weekday. */
  lemma ParsePrinted(d: TimeAndDate)
    requires Valid(d) && d.year < 10000
    ensures ParsedDate(GeneralizedTime(d)) == d.(weekday := 0)
  {
    PrintsForm(d);
    hide GeneralizedTime, InForm, ParsedDate;
    FormIsReadAs(d, Form(false, ToSeconds), "Z");
  }

  method EpochTimestampToUTCGeneralizedTimeString(ts: uint32) returns (s: string)
    ensures exists d :: Valid(d) && Timestamp(d) == ts && s == GeneralizedTime(d)
    ensures |s| == 15 && s[14] == 'Z' && forall i | 0 <= i < 14 :: '0' <= s[i] <= '9'
  {
    hide Timestamp, GeneralizedTime, Printed, Digit;
    var d := EpochTimestampToDateStruct(ts);
    s := GeneralizedTime(d);
    Centuries(d);
    PrintsDigits(d);
    forall k | 0 <= k < 10
      ensures '0' <= Digit(k) <= '9'
    {
      DigitIs(k);
    }
  }

  /** Printing and parsing returns every 32-bit timestamp. */
  method PrintAndParse(ts: uint32) returns (r: Option<uint32>)
    ensures r == Some(ts)
  {
    hide Timestamp, GeneralizedTime, Parsed, InForm, DayNumber;
    var s := EpochTimestampToUTCGeneralizedTimeString(ts);
    ghost var d :| Valid(d) && Timestamp(d) == ts && s == GeneralizedTime(d);
    Centuries(d);
    PrintsForm(d);
    FormReadRightlyIff(d, Form(false, ToSeconds), "Z");
    r := UTCTimeStringToTimestamp(s);
  }
}
