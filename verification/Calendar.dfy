/**
 * The proleptic Gregorian calendar on days since 1970-01-01, as section 21.4.1 of ECMA-262 lays it down
 * for the UTC date functions.
 */
module Calendar {
  /** Month counts from 1, as it is printed. */
  datatype Civil = Civil(year: int, month: int, day: int)

  predicate Leap(y: int) {
    y % 4 == 0 && (y % 100 != 0 || y % 400 == 0)
  }

  function DaysInYear(y: int): (n: int)
    ensures 365 <= n <= 366
  {
    if Leap(y) then 366 else 365
  }

  function DayFromYear(y: int): int {
    365 * (y - 1970) + (y - 1969) / 4 - (y - 1901) / 100 + (y - 1601) / 400
  }

  lemma Quarters(y: int)
    ensures (y - 1968) / 4 == (y - 1969) / 4 + if y % 4 == 0 then 1 else 0
  {
  }

  lemma Centuries(y: int)
    ensures (y - 1900) / 100 == (y - 1901) / 100 + if y % 100 == 0 then 1 else 0
  {
  }

  lemma QuadCenturies(y: int)
    ensures (y - 1600) / 400 == (y - 1601) / 400 + if y % 400 == 0 then 1 else 0
  {
  }

  lemma LeapCount(y: int)
    ensures (if Leap(y) then 1 else 0)
         == (if y % 4 == 0 then 1 else 0) - (if y % 100 == 0 then 1 else 0) + (if y % 400 == 0 then 1 else 0)
  {
    if y % 400 == 0 {
      MultipleOf(y / 400 * 4, 100);
    }
    if y % 100 == 0 {
      MultipleOf(y / 100 * 25, 4);
    }
  }

  lemma MultipleOf(q: int, n: int)
    requires n == 4 || n == 100
    ensures (q * n) % n == 0
  {
  }

  lemma YearStep(y: int)
    ensures DayFromYear(y + 1) == DayFromYear(y) + DaysInYear(y)
  {
    hide Leap;
    Quarters(y);
    Centuries(y);
    QuadCenturies(y);
    LeapCount(y);
  }

  /** The year a day lies in, found from a year that starts no later. */
  function YearUp(day: int, y: int): (r: int)
    requires DayFromYear(y) <= day
    ensures DayFromYear(r) <= day < DayFromYear(r + 1)
    decreases day - DayFromYear(y)
  {
    YearStep(y);
    if day < DayFromYear(y + 1) then y else YearUp(day, y + 1)
  }

  /** The year a day lies in, found from a year that ends later. */
  function YearDown(day: int, y: int): (r: int)
    requires day < DayFromYear(y + 1)
    ensures DayFromYear(r) <= day < DayFromYear(r + 1)
    decreases DayFromYear(y + 1) - day
  {
    YearStep(y);
    if DayFromYear(y) <= day then y else YearDown(day, y - 1)
  }

  function YearFromDay(day: int): (y: int)
    ensures DayFromYear(y) <= day < DayFromYear(y + 1)
  {
    if DayFromYear(1970) <= day then YearUp(day, 1970) else YearDown(day, 1969)
  }

  lemma {:induction false} LaterYears(y: int, z: int)
    requires y <= z
    ensures DayFromYear(y) <= DayFromYear(z)
    decreases z - y
  {
  }

  lemma YearUnique(day: int, y: int)
    requires DayFromYear(y) <= day < DayFromYear(y + 1)
    ensures YearFromDay(day) == y
  {
    hide DayFromYear, Leap;
    var z := YearFromDay(day);
    if z < y {
      LaterYears(z + 1, y);
    } else if y < z {
      LaterYears(y + 1, z);
    }
  }

  /** Days of the year before a month, counted from 0; month 12 is the year's end. */
  function MonthStart(m: nat, leap: bool): int
    requires m <= 12
  {
    var extra := if leap then 1 else 0;
    match m
    case 0 => 0
    case 1 => 31
    case 2 => 59 + extra
    case 3 => 90 + extra
    case 4 => 120 + extra
    case 5 => 151 + extra
    case 6 => 181 + extra
    case 7 => 212 + extra
    case 8 => 243 + extra
    case 9 => 273 + extra
    case 10 => 304 + extra
    case 11 => 334 + extra
    case 12 => 365 + extra
  }

  function MonthFromDay(k: int, leap: bool): (m: nat)
    requires 0 <= k < MonthStart(12, leap)
    ensures m < 12 && MonthStart(m, leap) <= k < MonthStart(m + 1, leap)
  {
    var e := if leap then 1 else 0;
    if k < 31 then 0 else if k < 59 + e then 1 else if k < 90 + e then 2 else if k < 120 + e then 3
    else if k < 151 + e then 4 else if k < 181 + e then 5 else if k < 212 + e then 6 else if k < 243 + e then 7
    else if k < 273 + e then 8 else if k < 304 + e then 9 else if k < 334 + e then 10 else 11
  }

  lemma MonthUnique(k: int, leap: bool, m: nat)
    requires m < 12 && MonthStart(m, leap) <= k < MonthStart(m + 1, leap)
    ensures 0 <= k < MonthStart(12, leap) && MonthFromDay(k, leap) == m
  {
  }

  /** Length of a month that counts from 1. */
  function DaysInMonth(y: int, month: int): int
    requires 1 <= month <= 12
  {
    MonthStart(month, Leap(y)) - MonthStart(month - 1, Leap(y))
  }

  predicate ValidDate(c: Civil) {
    1 <= c.month <= 12 && 1 <= c.day <= DaysInMonth(c.year, c.month)
  }

  function CivilFromDay(n: int): (c: Civil)
    ensures ValidDate(c)
  {
    var y := YearFromDay(n);
    YearStep(y);
    hide DayFromYear, Leap;
    var k := n - DayFromYear(y);
    var m := MonthFromDay(k, Leap(y));
    Civil(y, m + 1, k - MonthStart(m, Leap(y)) + 1)
  }

  /** MakeDay: months and days outside their usual ranges carry over. The month counts from 0. */
  function MakeDay(year: int, month: int, day: int): int {
    var ym := year + month / 12;
    DayFromYear(ym) + MonthStart(month % 12, Leap(ym)) + day - 1
  }

  function DayOf(c: Civil): int {
    MakeDay(c.year, c.month - 1, c.day)
  }

  /** Days and valid dates correspond one to one. */
  lemma DayRoundTrip(n: int)
    ensures DayOf(CivilFromDay(n)) == n
  {
    hide DayFromYear, Leap, YearFromDay;
    var y := YearFromDay(n);
    YearStep(y);
    var m := MonthFromDay(n - DayFromYear(y), Leap(y));
    assert m / 12 == 0 && m % 12 == m;
  }

  lemma CivilRoundTrip(c: Civil)
    requires ValidDate(c)
    ensures CivilFromDay(DayOf(c)) == c
  {
    hide DayFromYear, Leap, YearFromDay, MonthFromDay;
    var m, leap := c.month - 1, Leap(c.year);
    assert m / 12 == 0 && m % 12 == m;
    var k := MonthStart(m, leap) + c.day - 1;
    MonthUnique(k, leap, m);
    YearStep(c.year);
    assert DayOf(c) == DayFromYear(c.year) + k;
    YearUnique(DayOf(c), c.year);
  }

  /** Twelve months more are a year more, and a day more is the next day. */
  lemma MonthsCarry(year: int, month: int, day: int)
    ensures MakeDay(year, month + 12, day) == MakeDay(year + 1, month, day) && MakeDay(year, month, day + 1) == MakeDay(year, month, day) + 1
  {
    assert (month + 12) / 12 == month / 12 + 1 && (month + 12) % 12 == month % 12;
  }

  /** Day 0 is 1 January 1970. */
  lemma Epoch()
    ensures DayOf(Civil(1970, 1, 1)) == 0 && CivilFromDay(0) == Civil(1970, 1, 1)
  {
    CivilRoundTrip(Civil(1970, 1, 1));
  }

  function NextDay(c: Civil): Civil {
    CivilFromDay(DayOf(c) + 1)
  }

  /** The day after a date, by the calendar's own rule. */
  function Successor(c: Civil): Civil
    requires ValidDate(c)
  {
    if c.day < DaysInMonth(c.year, c.month) then Civil(c.year, c.month, c.day + 1)
    else if c.month < 12 then Civil(c.year, c.month + 1, 1)
    else Civil(c.year + 1, 1, 1)
  }

  lemma DayInMonth(c: Civil)
    requires 1 <= c.month <= 12
    ensures DayOf(c) == DayFromYear(c.year) + MonthStart(c.month - 1, Leap(c.year)) + c.day - 1
  {
    hide DayFromYear, Leap, MonthStart;
    assert (c.month - 1) / 12 == 0 && (c.month - 1) % 12 == c.month - 1;
  }

  /** The next day is the next date of the month, or the first of the next month or year. */
  lemma NextDayIsSuccessor(c: Civil)
    requires ValidDate(c)
    ensures ValidDate(Successor(c)) && NextDay(c) == Successor(c)
  {
    hide DayFromYear, Leap, YearFromDay, CivilFromDay, MakeDay;
    YearStep(c.year);
    DayInMonth(c);
    DayInMonth(Successor(c));
    CivilRoundTrip(Successor(c));
  }
}
