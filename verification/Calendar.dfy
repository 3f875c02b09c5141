/** Seconds since 1970 to calendar fields and back. */
module Calendar {
  import opened Arith

  const SECONDS_PER_DAY: nat := 86400
  const DAYS_IN_MONTH: seq<nat> := [0, 31, 59, 90, 120, 151, 181, 212, 243, 273, 304, 334, 365]

  predicate IsLeap(year: int) {
    year % 4 == 0 && (year % 100 != 0 || year % 400 == 0)
  }

  // ----- the Gregorian calendar

  function YearLength(year: nat): nat {
    if IsLeap(year) then 366 else 365
  }

  /** Days from the start of 1970 to the start of a year. */
  function DaysBefore(year: nat): nat
    requires year >= 1970
  {
    if year == 1970 then 0 else DaysBefore(year - 1) + YearLength(year - 1)
  }

  /** Days from the start of a year to the start of a month, counted from 0. */
  function MonthStart(year: nat, mon: nat): nat
    requires mon <= 12
  {
    DAYS_IN_MONTH[mon] + if IsLeap(year) && mon > 1 then 1 else 0
  }

  /** A date that exists: year since 1900, month from 0, day from 1. */
  predicate IsDate(year: nat, mon: nat, mday: nat) {
    year >= 70 && mon <= 11 && 1 <= mday <= MonthStart(1900 + year, mon + 1) - MonthStart(1900 + year, mon)
  }

  function DayOfYear(year: nat, mon: nat, mday: nat): nat
    requires IsDate(year, mon, mday)
  {
    MonthStart(1900 + year, mon) + mday - 1
  }

  /** Leap years that a rule of one in four adds up to by the start of a year, beyond the true number. */
  function Surplus(year: nat): nat
    requires year >= 1970
  {
    if year == 1970 then 0 else Surplus(year - 1) + if (year - 1) % 4 == 0 && !IsLeap(year - 1) then 1 else 0
  }

  lemma {:induction false} OneInFour(year: nat)
    requires year >= 1970
    ensures (year - 1970) * 365 + (year - 1969) / 4 == DaysBefore(year) + Surplus(year)
  {
    if year > 1970 {
      OneInFour(year - 1);
      Quarter(year);
      hide IsLeap;
    }
  }

  lemma Quarter(year: nat)
    requires year > 1970
    ensures (year - 1969) / 4 == (year - 1970) / 4 + if (year - 1) % 4 == 0 then 1 else 0
    ensures IsLeap(year - 1) ==> (year - 1) % 4 == 0
  {
  }

  lemma {:induction false} SurplusFrom2101(year: nat)
    requires year >= 1970
    ensures Surplus(year) == 0 <==> year <= 2100
    ensures year == 2101 ==> Surplus(year) == 1
  {
    if year > 1970 { SurplusFrom2101(year - 1); }
  }

  lemma {:induction false} DaysBeforeGrows(a: nat, b: nat)
    requires 1970 <= a <= b
    ensures DaysBefore(a) + 365 * (b - a) <= DaysBefore(b)
  {
    if a < b { DaysBeforeGrows(a, b - 1); }
  }

  // ----- the calendar apart from the month table

  /** Thirty days has September, April, June and November. */
  function MonthLength(year: nat, mon: nat): nat {
    if mon == 1 then (if IsLeap(year) then 29 else 28)
    else if mon == 3 || mon == 5 || mon == 8 || mon == 10 then 30
    else 31
  }

  /** The days of the months before one, added up. */
  function MonthsBefore(year: nat, mon: nat): nat {
    if mon == 0 then 0 else MonthsBefore(year, mon - 1) + MonthLength(year, mon - 1)
  }

  /** The table gives every month its length, and the start of every month from them. */
  lemma {:induction false} TableIsCalendar(year: nat, mon: nat)
    requires mon <= 12
    ensures MonthStart(year, mon) == MonthsBefore(year, mon)
    ensures mon < 12 ==> MonthStart(year, mon + 1) - MonthStart(year, mon) == MonthLength(year, mon)
    ensures MonthStart(year, 12) == YearLength(year)
  {
    if mon > 0 { TableIsCalendar(year, mon - 1); }
  }

  lemma DateByCalendar(year: nat, mon: nat, mday: nat)
    requires IsDate(year, mon, mday)
    ensures 1 <= mday <= MonthLength(1900 + year, mon) && DayOfYear(year, mon, mday) == MonthsBefore(1900 + year, mon) + mday - 1
  {
    TableIsCalendar(1900 + year, mon);
  }

  /** Leap years before a year, as the Gregorian rule has them. */
  function LeapYearsBefore(year: nat): int {
    if year == 0 then 0 else (year - 1) / 4 - (year - 1) / 100 + (year - 1) / 400
  }

  lemma NextMultiple(n: nat, d: nat)
    requires d > 0
    ensures (n + 1) / d == n / d + if (n + 1) % d == 0 then 1 else 0
  {
    var q, r := n / d, n % d;
    assert n == q * d + r;
    if r + 1 == d {
      assert n + 1 == (q + 1) * d;
      QuotientUnique(n + 1, d, q + 1, 0);
    } else {
      QuotientUnique(n + 1, d, q, r + 1);
    }
  }

  lemma Multiples(year: nat)
    ensures year % 100 == 0 ==> year % 4 == 0
    ensures year % 400 == 0 ==> year % 100 == 0
  {
    if year % 100 == 0 { QuotientUnique(year, 4, 25 * (year / 100), 0); }
    if year % 400 == 0 { QuotientUnique(year, 100, 4 * (year / 400), 0); }
  }

  lemma LeapYearNext(year: nat)
    requires year > 0
    ensures LeapYearsBefore(year + 1) == LeapYearsBefore(year) + if IsLeap(year) then 1 else 0
  {
    var n := year - 1;
    NextMultiple(n, 4);
    NextMultiple(n, 100);
    NextMultiple(n, 400);
    Multiples(year);
    hide LeapYearsBefore;
    LeapYearsIs(year);
    LeapYearsIs(year + 1);
  }

  lemma LeapYearsIs(year: nat)
    requires year > 0
    ensures LeapYearsBefore(year) == (year - 1) / 4 - (year - 1) / 100 + (year - 1) / 400
  {
  }

  /** The number of a year's first day in closed form. */
  lemma {:induction false} DaysBeforeIs(year: nat)
    requires year >= 1970
    ensures DaysBefore(year) == 365 * (year - 1970) + LeapYearsBefore(year) - 477
  {
    if year > 1970 {
      DaysBeforeIs(year - 1);
      LeapYearNext(year - 1);
      hide LeapYearsBefore, IsLeap;
    }
  }

  // ----- the conversions

  class Tm {
    var sec: int
    var min: int
    var hour: int
    var mday: int
    var mon: int
    var year: int
    var wday: int
    var yday: int

    /** Fields as a calendar and a clock would have them. */
    ghost predicate Proper()
      reads this
    {
      && 0 <= sec < 60 && 0 <= min < 60 && 0 <= hour < 24
      && year >= 0 && mon >= 0 && mday >= 0 && IsDate(year, mon, mday)
    }

    /** The true number of days since 1970. */
    ghost function Days(): nat
      requires Proper()
      reads this
    {
      DaysBefore(1900 + year) + DayOfYear(year, mon, mday)
    }

    /** The true number of seconds since 1970. */
    ghost function Seconds(): nat
      requires Proper()
      reads this
    {
      SECONDS_PER_DAY * Days() + 3600 * hour + 60 * min + sec
    }
  }

  method FindYear(days: nat) returns (year: nat, rest: nat)
    ensures year >= 1970 && rest < YearLength(year) && days == DaysBefore(year) + rest
  {
    year, rest := 1970, days;
    while rest >= YearLength(year)
      invariant year >= 1970 && days == DaysBefore(year) + rest
      decreases rest
    {
      rest := rest - YearLength(year);
      year := year + 1;
    }
  }

  /** The end of `epoch_to_tm`: month and day from the day of the year. The 29th of February has no entry in
      the month table. */
  method FindMonth(year: nat, yday: nat) returns (mon: nat, mday: nat)
    requires year >= 1970 && yday < YearLength(year)
    ensures IsDate(year - 1900, mon, mday) && DayOfYear(year - 1900, mon, mday) == yday
  {
    var work := yday;
    mday := 1;
    if IsLeap(year) && work > 58 {
      if work == 59 {
        mday := 2;
      }
      work := work - 1;
    }
    mon := 11;
    while mon > 0 && DAYS_IN_MONTH[mon] > work
      invariant mon <= 11 && work < DAYS_IN_MONTH[mon + 1]
    {
      mon := mon - 1;
    }
    mday := mday + work - DAYS_IN_MONTH[mon];
  }

  const UINT64: nat := 0x1_0000_0000_0000_0000

  /** A time as the code takes it: dividing by an unsigned constant makes a negative time a huge one. */
  function Unsigned(time: int): nat
    requires -0x8000_0000_0000_0000 <= time
  {
    if time < 0 then time + UINT64 else time
  }

  /** `epoch_to_tm` gives the true date and time of day for every time from 1970 on, and for a negative one those of the
      huge time it is taken for. */
  method EpochToTm(time: int, r: Tm)
    requires -0x8000_0000_0000_0000 <= time
    modifies r
    ensures r.Proper() && r.Seconds() == Unsigned(time)
    ensures r.Seconds() == time <==> time >= 0
    ensures r.yday == DayOfYear(r.year, r.mon, r.mday) && r.wday == (4 + Unsigned(time) / SECONDS_PER_DAY) % 7
    ensures 1 <= r.mday <= MonthLength(1900 + r.year, r.mon) && r.yday == MonthsBefore(1900 + r.year, r.mon) + r.mday - 1
    ensures Unsigned(time) == 86400 * DaysBefore(1900 + r.year) + 86400 * r.yday + 3600 * r.hour + 60 * r.min + r.sec
  {
    hide DaysBefore, DayOfYear, YearLength, MonthsBefore, MonthLength;
    var t := Unsigned(time);
    var work := t % SECONDS_PER_DAY;
    r.sec := work % 60;
    work := work / 60;
    r.min := work % 60;
    r.hour := work / 60;
    work := t / SECONDS_PER_DAY;
    r.wday := (4 + work) % 7;
    var year, rest := FindYear(work);
    r.year := year - 1900;
    r.yday := rest;
    r.mon, r.mday := FindMonth(year, rest);
    DateByCalendar(r.year, r.mon, r.mday);
  }

  /** Division as in C, toward zero. */
  function Quotient(a: int, b: nat): int
    requires b > 0
  {
    if a >= 0 then a / b else -(-a / b)
  }

  /** The month table, with what lies behind its end. */
  function Table(i: nat, beyond: int): int
    requires i <= 13
  {
    if i == 13 then beyond else DAYS_IN_MONTH[i]
  }

  /** The loop of `tm_to_epoch` that moves days beyond the end of the year into later months. Month 12 makes it
      read the value behind the month table. */
  method CarryDays(tm: Tm, beyond: int)
    requires 0 <= tm.mon <= 12
    modifies tm`mday, tm`mon, tm`year
    ensures 0 <= tm.mon <= 12
    ensures old(tm.mday) <= Table(1 + old(tm.mon), beyond) <==> unchanged(tm)
  {
    while tm.mday > Table(1 + tm.mon, beyond)
      invariant 0 <= tm.mon <= 12
      invariant old(tm.mday) <= Table(1 + old(tm.mon), beyond) ==> unchanged(tm)
      decreases tm.mon == 12, tm.mday, 12 - tm.mon
    {
      if tm.mon == 1 && IsLeap(tm.year + 1900) {
        tm.mday := tm.mday - 1;
      }
      tm.mday := tm.mday - DAYS_IN_MONTH[tm.mon];
      tm.mon := tm.mon + 1;
      if tm.mon > 11 {
        tm.mon := 0;
        tm.year := tm.year + 1;
      }
    }
  }

  /** The carries at the start of `tm_to_epoch`. They leave proper fields alone. Month 12 is not carried. */
  method Normalise(tm: Tm, beyond: int)
    modifies tm
    ensures 0 <= tm.mon <= 12
    ensures old(tm.Proper()) ==> unchanged(tm)
  {
    if tm.sec > 60 { tm.min := tm.min + tm.sec / 60; tm.sec := tm.sec % 60; }
    if tm.min > 60 { tm.hour := tm.hour + tm.min / 60; tm.min := tm.min % 60; }
    if tm.hour > 60 { tm.mday := tm.mday + tm.hour / 60; tm.hour := tm.hour % 60; }
    if tm.mon > 12 { tm.year := tm.year + tm.mon / 12; tm.mon := tm.mon % 12; }
    if tm.mon < 0 {
      tm.mon := 0;
    }
    CarryDays(tm, beyond);
  }

  /** `tm_to_epoch`; `beyond` is the value behind the month table. On proper fields it is late by the leap days that
      the rule of one in four counts too many. */
  method TmToEpoch(tm: Tm, beyond: int) returns (time: int)
    modifies tm
    ensures old(tm.Proper()) ==> tm.Proper() && tm.Seconds() == old(tm.Seconds()) && tm.yday == DayOfYear(tm.year, tm.mon, tm.mday)
    ensures old(tm.Proper()) ==> time == tm.Seconds() + SECONDS_PER_DAY * Surplus(1900 + tm.year)
    ensures old(tm.Proper()) ==> tm.wday == (tm.Days() + Surplus(1900 + tm.year) + 4) % 7
  {
    hide DaysBefore, Surplus, IsLeap;
    var years := tm.year - 70;
    Normalise(tm, beyond);
    if tm.year < 70 {
      return -1;
    }
    var day := years * 365 + Quotient(years + 1, 4);
    tm.yday := DAYS_IN_MONTH[tm.mon] + tm.mday - 1 + if IsLeap(tm.year + 1900) && tm.mon > 1 then 1 else 0;
    day := day + tm.yday;
    var shifted := day + 4;
    tm.wday := shifted - 7 * Quotient(shifted, 7);
    time := ((day * 24 + tm.hour) * 60 + tm.min) * 60 + tm.sec;
    if tm.Proper() { OneInFour(1900 + tm.year); }
  }

  /** The first second of 2101. */
  const TIME_2101: nat := 4133980800

  lemma Start2101()
    ensures SECONDS_PER_DAY * DaysBefore(2101) == TIME_2101 && Surplus(2101) == 1
  {
    OneInFour(2101);
    SurplusFrom2101(2101);
  }

  lemma DayInYear(year: nat, mon: nat, mday: nat)
    requires IsDate(year, mon, mday)
    ensures DayOfYear(year, mon, mday) < YearLength(1900 + year)
  {
  }

  lemma ExactUntil2101(tm: Tm)
    requires tm.Proper()
    ensures Surplus(1900 + tm.year) == 0 <==> tm.Seconds() < TIME_2101
    ensures tm.Seconds() == TIME_2101 ==> Surplus(1900 + tm.year) == 1
  {
    Start2101();
    SurplusFrom2101(1900 + tm.year);
    DayInYear(tm.year, tm.mon, tm.mday);
    var next := DaysBefore(1901 + tm.year);
    assert next == DaysBefore(1900 + tm.year) + YearLength(1900 + tm.year);
    hide Surplus, DaysBefore, DayOfYear, YearLength;
    if tm.year >= 201 {
      DaysBeforeGrows(2101, 1900 + tm.year);
    } else {
      DaysBeforeGrows(1901 + tm.year, 2101);
    }
  }

  /** There and back: the same time, weekday and day of the year for every time before 2101, and a later time
      for every time from then on. */
  method RoundTrip(time: nat, beyond: int) returns (back: int, r: Tm)
    ensures back == time <==> time < TIME_2101
    ensures time == TIME_2101 ==> back == time + SECONDS_PER_DAY
    ensures r.Proper() && r.Seconds() == time && r.yday == DayOfYear(r.year, r.mon, r.mday)
    ensures time < TIME_2101 ==> r.wday == (4 + time / SECONDS_PER_DAY) % 7
  {
    r := new Tm;
    EpochToTm(time, r);
    back := TmToEpoch(r, beyond);
    ExactUntil2101(r);
    hide Surplus, DaysBefore, DayOfYear, Tm.Days;
  }

  lemma EarlierYear(y1: nat, d1: nat, y2: nat)
    requires 1970 <= y1 < y2 && d1 < YearLength(y1)
    ensures DaysBefore(y1) + d1 < DaysBefore(y2)
  {
    assert DaysBefore(y1 + 1) == DaysBefore(y1) + YearLength(y1);
    DaysBeforeGrows(y1 + 1, y2);
    hide DaysBefore, YearLength;
  }

  lemma YearUnique(y1: nat, d1: nat, y2: nat, d2: nat)
    requires 1970 <= y1 && 1970 <= y2 && d1 < YearLength(y1) && d2 < YearLength(y2)
    requires DaysBefore(y1) + d1 == DaysBefore(y2) + d2
    ensures y1 == y2 && d1 == d2
  {
    hide DaysBefore, YearLength;
    if y1 < y2 {
      EarlierYear(y1, d1, y2);
    } else if y2 < y1 {
      EarlierYear(y2, d2, y1);
    }
  }

  lemma MonthUnique(year: nat, m1: nat, d1: nat, m2: nat, d2: nat)
    requires IsDate(year, m1, d1) && IsDate(year, m2, d2)
    requires DayOfYear(year, m1, d1) == DayOfYear(year, m2, d2)
    ensures m1 == m2 && d1 == d2
  {
  }

  /** A time has one proper date, so the other way round the fields come back too. */
  lemma DateUnique(a: Tm, b: Tm)
    requires a.Proper() && b.Proper() && a.Seconds() == b.Seconds()
    ensures a.year == b.year && a.mon == b.mon && a.mday == b.mday && a.hour == b.hour && a.min == b.min && a.sec == b.sec
  {
    DayInYear(a.year, a.mon, a.mday);
    DayInYear(b.year, b.mon, b.mday);
    hide IsDate, DayOfYear, DaysBefore, YearLength;
    assert a.Days() == b.Days();
    YearUnique(1900 + a.year, DayOfYear(a.year, a.mon, a.mday), 1900 + b.year, DayOfYear(b.year, b.mon, b.mday));
    MonthUnique(a.year, a.mon, a.mday, b.mon, b.mday);
  }
}
