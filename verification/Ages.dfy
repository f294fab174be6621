/** Ages in whole years on a civil date, and the first day on which an age is reached. */
module Ages {
  import opened Calendar

  /** Difference of the years, one less before this year's birthday. */
  function CalculateAgeOnDate(birth: Civil, reference: Civil): int {
    var years := reference.year - birth.year;
    if reference.month < birth.month || (reference.month == birth.month && reference.day < birth.day) then years - 1 else years
  }

  /** Day of a birthday, counted from the birth; that of 29 February is 1 March in other years. */
  function BirthdayOf(birth: Civil, years: int): int {
    MakeDay(birth.year + years, birth.month - 1, birth.day)
  }

  /** An age is reached from the day of its birthday on. */
  lemma ReachedOnBirthday(birth: Civil, reference: Civil, years: int)
    requires ValidDate(birth) && ValidDate(reference)
    ensures CalculateAgeOnDate(birth, reference) >= years <==> BirthdayOf(birth, years) <= DayOf(reference)
  {
    hide MakeDay, DayOf, Leap, DayFromYear, DaysInMonth, ValidDate;
    InOrder(birth, birth.year + years, reference);
  }

  /** A month of days that another year may lack compared with a date: by year, month and day. */
  lemma InOrder(birth: Civil, year: int, c: Civil)
    requires ValidDate(birth) && ValidDate(c)
    ensures MakeDay(year, birth.month - 1, birth.day) <= DayOf(c)
       <==> year < c.year || (year == c.year && (birth.month < c.month || (birth.month == c.month && birth.day <= c.day)))
  {
    hide Leap, DayFromYear, MakeDay;
    DayInMonth(c);
    DayInMonth(Civil(year, birth.month, birth.day));
    InYear(c);
    YearStep(c.year);
    YearStep(year);
    if year < c.year {
      LaterYears(year + 1, c.year);
      BirthInYear(birth, Leap(year));
    } else if c.year < year {
      LaterYears(c.year + 1, year);
    } else {
      SameYear(birth, c, Leap(year));
    }
  }

  lemma InYear(c: Civil)
    requires ValidDate(c)
    ensures 0 <= MonthStart(c.month - 1, Leap(c.year)) + c.day - 1 < DaysInYear(c.year)
  {
    hide Leap;
  }

  lemma BirthInYear(birth: Civil, leap: bool)
    requires ValidDate(birth)
    ensures 0 <= MonthStart(birth.month - 1, leap) + birth.day - 1 < if leap then 366 else 365
  {
    hide Leap;
  }

  lemma SameYear(birth: Civil, c: Civil, leap: bool)
    requires ValidDate(birth) && ValidDate(c) && leap == Leap(c.year)
    ensures MonthStart(birth.month - 1, leap) + birth.day <= MonthStart(c.month - 1, leap) + c.day
       <==> birth.month < c.month || (birth.month == c.month && birth.day <= c.day)
  {
    hide Leap;
  }
}
