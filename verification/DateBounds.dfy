/** Date filters of the access list: civil days of the client's time zone as ranges of UTC milliseconds. */
module DateBounds {
  import opened Calendar
  import opened NumberText
  import opened Wrappers

  const MS_PER_DAY: int := 86_400_000
  const MS_PER_MINUTE: int := 60_000

  // ---------- numbers as text ----------

  function YearText(y: int): string {
    if y < 0 then "-" + Digits(-y) else Digits(y)
  }

  /** `padStart(2, '0')` of a number. */
  function Pad2(n: nat): string {
    if n < 10 then "0" + Digits(n) else Digits(n)
  }

  // ---------- dates as text ----------

  function DateText(c: Civil): string
    requires ValidDate(c)
  {
    YearText(c.year) + "-" + Pad2(c.month) + "-" + Pad2(c.day)
  }

  /** `YYYY-MM-DD` at the start of a text. */
  predicate DatePrefix(s: string) {
    && |s| >= 10 && AllDigits(s[..4]) && s[4] == '-' && AllDigits(s[5..7]) && s[7] == '-' && AllDigits(s[8..10])
  }

  predicate DateOnly(s: string) {
    |s| == 10 && DatePrefix(s)
  }

  function DateOf(s: string): Civil
    requires DatePrefix(s)
  {
    Civil(Value(s[..4]), Value(s[5..7]), Value(s[8..10]))
  }

  /** Civil date of an instant in a zone that is `offset` minutes ahead of UTC, as text. */
  function CalendarDateInOffset(offset: int, now: int): string {
    DateText(CivilFromDay(ZoneDay(offset, now)))
  }

  function ZoneDay(offset: int, now: int): int {
    (now + offset * MS_PER_MINUTE) / MS_PER_DAY
  }

  /** `Date.UTC`: two-digit years are years of the twentieth century. */
  function Utc(year: int, month: int, day: int, hour: int, minute: int, second: int, ms: int): int {
    var full := if 0 <= year <= 99 then 1900 + year else year;
    MakeDay(full, month, day) * MS_PER_DAY + hour * 3_600_000 + minute * MS_PER_MINUTE + second * 1000 + ms
  }

  function CivilToUtc(c: Civil, hour: int, minute: int, second: int, ms: int, offset: int): int {
    Utc(c.year, c.month - 1, c.day, hour, minute, second, ms) - offset * MS_PER_MINUTE
  }

  datatype Side = Start | End

  /** A bound: none, an instant, or a text left to the platform's date parser. */
  datatype Bound = Absent | At(ms: int) | Platform(text: string)

  predicate HasZone(raw: string) {
    || 'z' in raw || 'Z' in raw
    || (|raw| >= 6 && var t := raw[|raw| - 6..];
          (t[0] == '+' || t[0] == '-') && AllDigits(t[1..3]) && t[3] == ':' && AllDigits(t[4..6]))
  }

  predicate TimeAt(s: string) {
    |s| >= 16 && (s[10] == 'T' || s[10] == ' ') && AllDigits(s[11..13]) && s[13] == ':' && AllDigits(s[14..16])
  }

  predicate SecondsAt(s: string) {
    |s| >= 19 && s[16] == ':' && AllDigits(s[17..19])
  }

  predicate FractionAt(s: string) {
    21 <= |s| <= 23 && s[19] == '.' && AllDigits(s[20..])
  }

  predicate DateTime(s: string) {
    DatePrefix(s) && TimeAt(s) && (|s| == 16 || (SecondsAt(s) && (|s| == 19 || FractionAt(s))))
  }

  /** `padEnd(3, '0')` of one to three digits. */
  function Milliseconds(s: string): int
    requires AllDigits(s) && 1 <= |s| <= 3
  {
    if |s| == 3 then Value(s) else if |s| == 2 then 10 * Value(s) else 100 * Value(s)
  }

  /** A bound of the listing from its text without surrounding white space. */
  function ParseBound(raw: string, side: Side, offset: int): Bound {
    if raw == [] then Absent
    else if HasZone(raw) then Platform(raw)
    else if DateOnly(raw) then
      At(if side == End then CivilToUtc(DateOf(raw), 23, 59, 59, 999, offset)
         else CivilToUtc(DateOf(raw), 0, 0, 0, 0, offset))
    else if DateTime(raw) then
      var hour, minute := Value(raw[11..13]), Value(raw[14..16]);
      var second := if |raw| > 16 then Value(raw[17..19]) else if side == End then 59 else 0;
      var ms := if |raw| > 19 then Milliseconds(raw[20..]) else if side == End && |raw| == 16 then 999 else 0;
      At(CivilToUtc(DateOf(raw), hour, minute, second, ms, offset))
    else Platform(raw)
  }

  /** The range a listing is filtered by; a missing text leaves its side open. */
  datatype Range = Range(gte: Bound, lte: Bound)

  function CreatedAtRange(start: Option<string>, end: Option<string>, offset: int): Range {
    Range(if start.None? then Absent else ParseBound(start.value, Start, offset),
          if end.None? then Absent else ParseBound(end.value, End, offset))
  }

  /** The listing shows an instant. Bounds left to the platform parser are unknown and shut everything out. */
  predicate Shows(r: Range, t: int) {
    && (r.gte.At? ==> r.gte.ms <= t) && (r.lte.At? ==> t <= r.lte.ms)
    && !r.gte.Platform? && !r.lte.Platform?
  }

  // ---------- a day's range is that day ----------

  lemma PlainDate(d: string)
    requires DateOnly(d)
    ensures !HasZone(d)
  {
    assert forall i :: 0 <= i < 4 ==> d[i] == d[..4][i];
    assert d[5] == d[5..7][0] && d[6] == d[5..7][1] && d[8] == d[8..10][0] && d[9] == d[8..10][1];
  }

  /** First millisecond of the day a text names, in the given zone. */
  function DayStart(d: string, offset: int): int
    requires DateOnly(d)
  {
    CivilToUtc(DateOf(d), 0, 0, 0, 0, offset)
  }

  lemma DayRange(d: string, offset: int)
    requires DateOnly(d)
    ensures CreatedAtRange(Some(d), Some(d), offset) == Range(At(DayStart(d, offset)), At(DayStart(d, offset) + MS_PER_DAY - 1))
  {
    PlainDate(d);
    hide MakeDay, DateOf, HasZone, DateOnly;
  }

  lemma DayShows(d: string, offset: int, t: int)
    requires DateOnly(d)
    ensures Shows(CreatedAtRange(Some(d), Some(d), offset), t)
       <==> DayStart(d, offset) <= t <= DayStart(d, offset) + MS_PER_DAY - 1
  {
    DayRange(d, offset);
    hide CreatedAtRange, DayStart, DateOnly;
  }

  lemma StartOfDay(d: string, offset: int)
    requires DateOnly(d) && DateOf(d).year >= 100
    ensures DayStart(d, offset) == DayOf(DateOf(d)) * MS_PER_DAY - offset * MS_PER_MINUTE
  {
  }

  lemma InDay(n: int, t: int)
    ensures n * MS_PER_DAY <= t < n * MS_PER_DAY + MS_PER_DAY <==> t / MS_PER_DAY == n
  {
  }

  lemma DayMatches(c: Civil, n: int)
    requires ValidDate(c)
    ensures CivilFromDay(n) == c <==> n == DayOf(c)
  {
    hide CivilFromDay, MakeDay;
    CivilRoundTrip(c);
    DayRoundTrip(n);
  }

  /** In a year from 100 on, an instant is in the day's range exactly when its day is that day. */
  lemma RangeIsDay(d: string, offset: int, t: int)
    requires DateOnly(d) && ValidDate(DateOf(d)) && DateOf(d).year >= 100
    ensures Shows(CreatedAtRange(Some(d), Some(d), offset), t) <==> CivilFromDay(ZoneDay(offset, t)) == DateOf(d)
  {
    DayShows(d, offset, t);
    StartOfDay(d, offset);
    hide DateOf, DateOnly, CreatedAtRange, CivilFromDay, MakeDay, DayStart, Shows, ValidDate;
    InDay(DayOf(DateOf(d)), t + offset * MS_PER_MINUTE);
    DayMatches(DateOf(d), ZoneDay(offset, t));
  }

  // ---------- printed dates ----------

  lemma TwoDigits(n: nat)
    requires n < 100
    ensures |Pad2(n)| == 2 && AllDigits(Pad2(n)) && Value(Pad2(n)) == n
  {
    DigitsLength(n);
    ValueOfDigits(n);
    if n < 10 {
      assert ("0" + Digits(n))[..1] == "0";
      assert "0"[..0] == [];
    }
  }

  lemma PadOfValue(s: string)
    requires |s| == 2 && AllDigits(s)
    ensures Pad2(Value(s)) == s
  {
    var a, b := DigitValue(s[0]), DigitValue(s[1]);
    assert s[..1][..0] == [];
    assert Value(s[..1]) == a;
    assert Value(s) == 10 * a + b;
    SplitNumber(a, b);
    assert DigitChar(a) == s[0] && DigitChar(b) == s[1];
    assert s == [s[0]] + [s[1]];
    if a > 0 {
      assert Digits(a) == [s[0]];
    }
  }

  /** A printed date has the form `YYYY-MM-DD` exactly in the years from 1000 to 9999, and then names itself. */
  lemma DateTextForm(c: Civil)
    requires ValidDate(c)
    ensures DateOnly(DateText(c)) <==> 1000 <= c.year <= 9999
    ensures DateOnly(DateText(c)) ==> DateOf(DateText(c)) == c
  {
    var year, month, day := YearText(c.year), Pad2(c.month), Pad2(c.day);
    MonthAndDaySmall(c);
    TwoDigits(c.month);
    TwoDigits(c.day);
    var text := DateText(c);
    assert |text| == |year| + 6;
    if |year| == 4 {
      assert text[..4] == year && text[5..7] == month && text[8..10] == day;
    }
    if c.year >= 0 {
      DigitsLength(c.year);
      ValueOfDigits(c.year);
    } else {
      assert !IsDigit(year[0]);
    }
  }

  lemma MonthAndDaySmall(c: Civil)
    requires ValidDate(c)
    ensures 1 <= c.month <= 12 && 1 <= c.day <= 31
  {
  }

  /** A date text with a year from 1000 on is what its date prints. */
  lemma TextOfDate(d: string)
    requires DateOnly(d) && ValidDate(DateOf(d)) && DateOf(d).year >= 1000
    ensures DateText(DateOf(d)) == d
  {
    PadOfValue(d[5..7]);
    PadOfValue(d[8..10]);
    LeadingDigit(d[..4]);
    DigitsOfValue(d[..4]);
    assert d == d[..4] + "-" + d[5..7] + "-" + d[8..10];
  }

  lemma LeadingDigit(s: string)
    requires |s| == 4 && AllDigits(s) && Value(s) >= 1000
    ensures s[0] != '0'
  {
    assert s[..3][..2] == s[..2] && s[..2][..1] == s[..1] && s[..1][..0] == [];
    assert Value(s[..1]) == DigitValue(s[0]);
    assert Value(s[..2]) == 10 * DigitValue(s[0]) + DigitValue(s[1]);
    assert Value(s[..3]) == 100 * DigitValue(s[0]) + 10 * DigitValue(s[1]) + DigitValue(s[2]);
  }

  /**
   * The filter from a day to the same day shows exactly the instants whose civil date in the zone prints as
   * that day, for every zone, if and only if the text names an existing date of a year from 1000 on.
   */
  lemma FilterMatchesCalendar(d: string, offset: int)
    requires DateOnly(d)
    ensures (forall t :: Shows(CreatedAtRange(Some(d), Some(d), offset), t) <==> CalendarDateInOffset(offset, t) == d)
       <==> ValidDate(DateOf(d)) && DateOf(d).year >= 1000
  {
    hide Shows, CreatedAtRange, CalendarDateInOffset, DateOf, DatePrefix, ValidDate;
    if ValidDate(DateOf(d)) && DateOf(d).year >= 1000 {
      forall t ensures Shows(CreatedAtRange(Some(d), Some(d), offset), t) <==> CalendarDateInOffset(offset, t) == d {
        FilterShowsDay(d, offset, t);
      }
    } else {
      FilterMisses(d, offset);
    }
  }

  lemma FilterShowsDay(d: string, offset: int, t: int)
    requires DateOnly(d) && ValidDate(DateOf(d)) && DateOf(d).year >= 1000
    ensures Shows(CreatedAtRange(Some(d), Some(d), offset), t) <==> CalendarDateInOffset(offset, t) == d
  {
    hide Shows, CreatedAtRange, DateOf, DateOnly, ValidDate, DateText, CivilFromDay;
    RangeIsDay(d, offset, t);
    TextOfDate(d);
    DateTextForm(CivilFromDay(ZoneDay(offset, t)));
  }

  /** Otherwise the first instant of the range does not print as that day. */
  lemma FilterMisses(d: string, offset: int)
    requires DateOnly(d) && !(ValidDate(DateOf(d)) && DateOf(d).year >= 1000)
    ensures Shows(CreatedAtRange(Some(d), Some(d), offset), DayStart(d, offset))
    ensures CalendarDateInOffset(offset, DayStart(d, offset)) != d
  {
    hide Shows, CreatedAtRange, DateOf, DateOnly, ValidDate, DateText, CivilFromDay, DayStart;
    DayShows(d, offset, DayStart(d, offset));
    DateTextForm(CivilFromDay(ZoneDay(offset, DayStart(d, offset))));
  }

  /** The year a text's year stands for. */
  function FullYear(y: int): int {
    if 0 <= y <= 99 then 1900 + y else y
  }

  function InFull(c: Civil): Civil {
    c.(year := FullYear(c.year))
  }

  lemma StartInFullYear(d: string, offset: int)
    requires DateOnly(d)
    ensures DayStart(d, offset) == DayOf(InFull(DateOf(d))) * MS_PER_DAY - offset * MS_PER_MINUTE
  {
    hide MakeDay, DateOf, DateOnly;
  }

  lemma LeapInFullYear(y: int)
    requires y != 0
    ensures Leap(FullYear(y)) == Leap(y)
  {
    if 0 < y <= 99 {
      assert (1900 + y) % 4 == y % 4;
    }
  }

  /** Distance from a date to the first of the next month, and from a year's last day to the next year's first. */
  lemma NextFirsts(y: int, m: int, d: int)
    requires 1 <= m <= 12
    ensures m < 12 ==> DayOf(Civil(y, m + 1, 1)) == DayOf(Civil(y, m, d)) + DaysInMonth(y, m) + 1 - d
    ensures DayOf(Civil(y, m, d + 1)) == DayOf(Civil(y, m, d)) + 1
    ensures DayOf(Civil(y + 1, 1, 1)) == DayOf(Civil(y, 12, 31)) + 1
  {
    hide DayFromYear, MakeDay, Leap;
    DayInMonth(Civil(y, m, d));
    DayInMonth(Civil(y, m, d + 1));
    if m < 12 {
      DayInMonth(Civil(y, m + 1, 1));
    }
    DayInMonth(Civil(y, 12, 31));
    DayInMonth(Civil(y + 1, 1, 1));
    YearStep(y);
  }

  /** Months are as long in the full year, but for February of the year 0. */
  lemma MonthInFullYear(y: int, m: int)
    requires 1 <= m <= 12
    ensures DaysInMonth(y, m) == DaysInMonth(FullYear(y), m) + if y == 0 && m == 2 then 1 else 0
  {
    if y != 0 {
      LeapInFullYear(y);
    } else {
      assert Leap(0) && !Leap(1900);
    }
    hide Leap;
  }

  predicate IsDay(c: Civil, year: int, month: int, day: int) {
    c.year == year && c.month == month && c.day == day
  }

  /** The exceptions: years of two digits are taken for 1900 to 1999, and 1900 has no 29 February. */
  predicate Skewed(c: Civil) {
    IsDay(c, 0, 2, 29) || IsDay(c, 99, 12, 31)
  }

  lemma NextFullDay(c: Civil)
    requires ValidDate(c) && c.year >= 0
    ensures ValidDate(Successor(c))
    ensures DayOf(InFull(Successor(c))) == DayOf(InFull(c)) + 1 <==> !Skewed(c)
  {
    hide Leap, MonthStart, DaysInMonth, DayOf, InFull, Skewed;
    ValidSuccessor(c);
    if c.day < DaysInMonth(c.year, c.month) {
      WithinMonth(c);
    } else if c.month < 12 {
      OverMonth(c);
    } else {
      OverYear(c);
    }
  }

  lemma ValidSuccessor(c: Civil)
    requires ValidDate(c)
    ensures ValidDate(Successor(c))
  {
    hide NextDay;
    NextDayIsSuccessor(c);
  }

  lemma WithinMonth(c: Civil)
    requires 1 <= c.month <= 12 && c.day < DaysInMonth(c.year, c.month)
    ensures DayOf(InFull(Civil(c.year, c.month, c.day + 1))) == DayOf(InFull(c)) + 1 && !Skewed(c)
  {
    hide Leap, MonthStart, DaysInMonth, DayOf, FullYear;
    LastDays(c);
    NextFirsts(FullYear(c.year), c.month, c.day);
  }

  lemma OverMonth(c: Civil)
    requires 1 <= c.month < 12 && c.day == DaysInMonth(c.year, c.month)
    ensures DayOf(InFull(Civil(c.year, c.month + 1, 1))) == DayOf(InFull(c)) + 1 <==> !Skewed(c)
  {
    hide Leap, MonthStart, DaysInMonth, DayOf, FullYear;
    LastDays(c);
    MonthInFullYear(c.year, c.month);
    NextFirsts(FullYear(c.year), c.month, c.day);
  }

  lemma OverYear(c: Civil)
    requires c.month == 12 && c.day == DaysInMonth(c.year, 12) && c.year >= 0
    ensures DayOf(InFull(Civil(c.year + 1, 1, 1))) == DayOf(InFull(c)) + 1 <==> !Skewed(c)
  {
    hide Leap, MonthStart, DaysInMonth, DayOf;
    LastDays(c);
    NextFirsts(FullYear(c.year), c.month, c.day);
    YearsApart();
  }

  lemma LastDays(c: Civil)
    requires 1 <= c.month <= 12
    ensures c.month == 12 ==> DaysInMonth(c.year, c.month) == 31
    ensures c.year == 0 && c.month == 2 ==> DaysInMonth(c.year, c.month) == 29
  {
  }

  lemma YearsApart()
    ensures DayOf(Civil(100, 1, 1)) < DayOf(Civil(1999, 12, 31))
  {
    hide MakeDay;
    DayInMonth(Civil(100, 1, 1));
    DayInMonth(Civil(1999, 12, 31));
    YearOf100();
    hide DayFromYear, Leap;
  }

  lemma YearOf100()
    ensures DayFromYear(100) < DayFromYear(1999)
  {
  }

  /**
   * Consecutive days tile time: one day's last millisecond is followed by the next day's first, whatever the
   * offset. The exceptions are the last day of the year 99, because two-digit years are taken for 1900 to 1999,
   * and 29 February of the year 0, because 1900 has none.
   */
  lemma DaysTile(today: string, tomorrow: string, offset: int)
    requires DateOnly(today) && ValidDate(DateOf(today))
    requires DateOnly(tomorrow) && DateOf(tomorrow) == Successor(DateOf(today))
    ensures var end, start := ParseBound(today, End, offset), ParseBound(tomorrow, Start, offset);
            && end.At? && start.At?
            && (end.ms + 1 == start.ms <==> !Skewed(DateOf(today)))
  {
    assert DateOf(today).year >= 0;
    hide CivilFromDay, MakeDay, DateOf, DayStart, DaysInMonth, Successor, Skewed;
    NextFullDay(DateOf(today));
    DayRange(today, offset);
    DayRange(tomorrow, offset);
    StartInFullYear(today, offset);
    StartInFullYear(tomorrow, offset);
  }

  /** A bound given to the minute takes in the whole minute: its end is the last millisecond before the next one. */
  lemma MinuteRange(raw: string, offset: int)
    requires DateTime(raw) && |raw| == 16 && !HasZone(raw)
    ensures ParseBound(raw, Start, offset).At? && ParseBound(raw, End, offset).At?
    ensures ParseBound(raw, End, offset).ms == ParseBound(raw, Start, offset).ms + MS_PER_MINUTE - 1
  {
  }

  // ---------- the forms of a text ----------

  predicate TwoDigitText(s: string) {
    |s| == 2 && AllDigits(s)
  }

  /** `YYYY-MM-DD`, put together. */
  predicate DateParts(s: string, y: string, m: string, d: string) {
    s == y + "-" + m + "-" + d && |y| == 4 && AllDigits(y) && TwoDigitText(m) && TwoDigitText(d)
  }

  ghost predicate SaysDate(s: string) {
    exists y, m, d :: DateParts(s, y, m, d)
  }

  lemma DateOnlySays(s: string)
    ensures DateOnly(s) <==> SaysDate(s)
  {
    if DateOnly(s) {
      DateTaken(s);
    }
    if y, m, d :| DateParts(s, y, m, d) {
      DatePut(s, y, m, d);
    }
  }

  lemma DateTaken(s: string)
    requires DateOnly(s)
    ensures DateParts(s, s[..4], s[5..7], s[8..10])
  {
  }

  lemma DatePut(s: string, y: string, m: string, d: string)
    requires DateParts(s, y, m, d)
    ensures DateOnly(s)
  {
    assert s[..4] == y && s[5..7] == m && s[8..10] == d;
  }

  /** A dot and one to three digits. */
  predicate FractionParts(s: string, f: string) {
    s == "." + f && 1 <= |f| <= 3 && AllDigits(f)
  }

  ghost predicate SaysFraction(s: string) {
    exists f :: FractionParts(s, f)
  }

  /** Seconds, and a fraction or nothing. */
  ghost predicate SecondsParts(s: string, sec: string, rest: string) {
    s == ":" + sec + rest && TwoDigitText(sec) && (rest == "" || SaysFraction(rest))
  }

  ghost predicate SaysSeconds(s: string) {
    exists sec, rest :: SecondsParts(s, sec, rest)
  }

  /** `T` or a space, hours and minutes, and seconds or nothing. */
  ghost predicate TimeParts(s: string, at: char, h: string, m: string, rest: string) {
    && s == [at] + h + ":" + m + rest && (at == 'T' || at == ' ') && TwoDigitText(h) && TwoDigitText(m)
    && (rest == "" || SaysSeconds(rest))
  }

  ghost predicate SaysTime(s: string) {
    exists at, h, m, rest :: TimeParts(s, at, h, m, rest)
  }

  lemma FractionSays(s: string)
    ensures SaysFraction(s) <==> 2 <= |s| <= 4 && s[0] == '.' && AllDigits(s[1..])
  {
    if 2 <= |s| <= 4 && s[0] == '.' && AllDigits(s[1..]) {
      assert FractionParts(s, s[1..]);
    }
  }

  lemma SecondsSay(s: string)
    ensures SaysSeconds(s) <==> |s| >= 3 && s[0] == ':' && AllDigits(s[1..3]) && (s[3..] == "" || SaysFraction(s[3..]))
  {
    hide SaysFraction;
    if |s| >= 3 && s[0] == ':' && AllDigits(s[1..3]) && (s[3..] == "" || SaysFraction(s[3..])) {
      assert SecondsParts(s, s[1..3], s[3..]);
    }
    if sec, rest :| SecondsParts(s, sec, rest) {
      assert s[1..3] == sec && s[3..] == rest;
    }
  }

  lemma TimeSays(s: string)
    ensures SaysTime(s) <==>
            && |s| >= 6 && (s[0] == 'T' || s[0] == ' ') && AllDigits(s[1..3]) && s[3] == ':' && AllDigits(s[4..6])
            && (s[6..] == "" || SaysSeconds(s[6..]))
  {
    hide SaysSeconds;
    if && |s| >= 6 && (s[0] == 'T' || s[0] == ' ') && AllDigits(s[1..3]) && s[3] == ':' && AllDigits(s[4..6])
       && (s[6..] == "" || SaysSeconds(s[6..]))
    {
      assert TimeParts(s, s[0], s[1..3], s[4..6], s[6..]);
    }
    if at, h, m, rest :| TimeParts(s, at, h, m, rest) {
      assert s[1..3] == h && s[4..6] == m && s[6..] == rest;
    }
  }

  /** A text with a time of day is a date and a time of day, put together. */
  lemma DateTimeSays(s: string)
    ensures DateTime(s) <==> |s| >= 10 && SaysDate(s[..10]) && SaysTime(s[10..])
  {
    if |s| >= 10 {
      DatePrefixOf(s);
      DateOnlySays(s[..10]);
      var t := s[10..];
      TimeSays(t);
      if |s| >= 16 {
        SecondsSay(t[6..]);
        assert t[1..3] == s[11..13] && t[4..6] == s[14..16] && t[6..] == s[16..];
        if |s| >= 19 {
          FractionSays(t[6..][3..]);
          assert t[6..][1..3] == s[17..19] && t[6..][3..] == s[19..];
          assert |s| >= 20 ==> s[19..][1..] == s[20..];
        }
      }
      hide SaysDate, SaysTime, SaysSeconds, SaysFraction, DatePrefix, DateOnly;
    }
  }

  lemma DatePrefixOf(s: string)
    requires |s| >= 10
    ensures DatePrefix(s) <==> DateOnly(s[..10])
  {
    var d := s[..10];
    assert d[..4] == s[..4] && d[5..7] == s[5..7] && d[8..10] == s[8..10] && d[4] == s[4] && d[7] == s[7];
  }

  predicate ZoneParts(s: string, p: string, sign: char, h: string, m: string) {
    s == p + [sign] + h + ":" + m && (sign == '+' || sign == '-') && TwoDigitText(h) && TwoDigitText(m)
  }

  /** A text names its zone if it has a `z`, or ends with a sign, hours and minutes. */
  lemma ZoneSays(s: string)
    ensures HasZone(s) <==> 'z' in s || 'Z' in s || exists p, sign, h, m :: ZoneParts(s, p, sign, h, m)
  {
    if |s| >= 6 {
      var t := s[|s| - 6..];
      if (t[0] == '+' || t[0] == '-') && AllDigits(t[1..3]) && t[3] == ':' && AllDigits(t[4..6]) {
        assert ZoneParts(s, s[..|s| - 6], t[0], t[1..3], t[4..6]);
      }
    }
    if p, sign, h, m :| ZoneParts(s, p, sign, h, m) {
      var t := s[|s| - 6..];
      assert t == [sign] + h + ":" + m;
      assert t[1..3] == h && t[4..6] == m;
    }
  }

  /** What a text is taken for: nothing, a text for the platform's parser, or an instant. */
  lemma BoundIs(raw: string, side: Side, offset: int)
    ensures ParseBound(raw, side, offset).Absent? <==> raw == ""
    ensures ParseBound(raw, side, offset).At? <==> !HasZone(raw) && (DateOnly(raw) || DateTime(raw))
    ensures ParseBound(raw, side, offset).Platform? ==> ParseBound(raw, side, offset).text == raw
  {
  }

  lemma YearIsPrinted(y: int)
    ensures y >= 0 ==> AllDigits(YearText(y)) && Value(YearText(y)) == y
    ensures y < 0 ==> YearText(y)[0] == '-' && AllDigits(YearText(y)[1..]) && Value(YearText(y)[1..]) == -y
  {
    if y >= 0 {
      ValueOfDigits(y);
    } else {
      ValueOfDigits(-y);
      assert YearText(y)[1..] == Digits(-y);
    }
  }

  // ---------- ranges of days, and times of day ----------

  /** A listing between two days, or with one side open, shows the instants whose day lies between them. */
  lemma DaysBetween(start: Option<string>, end: Option<string>, offset: int, t: int)
    requires start.Some? ==> DateOnly(start.value) && DateOf(start.value).year >= 100
    requires end.Some? ==> DateOnly(end.value) && DateOf(end.value).year >= 100
    ensures Shows(CreatedAtRange(start, end, offset), t)
       <==> && (start.Some? ==> DayOf(DateOf(start.value)) <= ZoneDay(offset, t))
            && (end.Some? ==> ZoneDay(offset, t) <= DayOf(DateOf(end.value)))
  {
    hide MakeDay, DateOf, DayStart, ParseBound;
    var local := t + offset * MS_PER_MINUTE;
    if start.Some? {
      DayRange(start.value, offset);
      StartOfDay(start.value, offset);
      OnOrAfter(DayOf(DateOf(start.value)), local);
    }
    if end.Some? {
      DayRange(end.value, offset);
      StartOfDay(end.value, offset);
      OnOrAfter(DayOf(DateOf(end.value)) + 1, local);
    }
  }

  lemma OnOrAfter(n: int, local: int)
    ensures n * MS_PER_DAY <= local <==> n <= local / MS_PER_DAY
  {
  }

  /** Three digits. */
  function Pad3(n: nat): string
    requires n < 1000
  {
    [DigitChar(n / 100), DigitChar(n / 10 % 10), DigitChar(n % 10)]
  }

  /** Time of day of an instant in a zone: hours, minutes, seconds and milliseconds. */
  function Clock(offset: int, t: int): (int, int, int, int) {
    var z := (t + offset * MS_PER_MINUTE) % MS_PER_DAY;
    (z / 3_600_000, z / MS_PER_MINUTE % 60, z / 1000 % 60, z % 1000)
  }

  lemma ClockBounds(offset: int, t: int)
    ensures var (h, m, s, ms) := Clock(offset, t); 0 <= h < 24 && 0 <= m < 60 && 0 <= s < 60 && 0 <= ms < 1000
  {
  }

  /** The fraction of a text, filled up to three digits. */
  function Fraction(raw: string): string {
    if |raw| <= 20 then "000" else if |raw| == 21 then raw[20..] + "00" else if |raw| == 22 then raw[20..] + "0" else raw[20..]
  }

  /**
   * An instant reads like the text in the zone: its date, its hours and minutes, and, if the text has them, its
   * seconds and milliseconds, a missing fraction standing for none.
   */
  predicate Reads(raw: string, offset: int, t: int)
    requires DateTime(raw)
  {
    var (h, m, s, ms) := Clock(offset, t);
    ClockBounds(offset, t);
    && CalendarDateInOffset(offset, t) == raw[..10]
    && Pad2(h) == raw[11..13] && Pad2(m) == raw[14..16]
    && (|raw| > 16 ==> Pad2(s) == raw[17..19] && Pad3(ms) == Fraction(raw))
  }

  /** An existing date of a year from 1000 on and an existing time of day. */
  predicate RealTime(raw: string)
    requires DateTime(raw)
  {
    && ValidDate(DateOf(raw)) && DateOf(raw).year >= 1000
    && Value(raw[11..13]) < 24 && Value(raw[14..16]) < 60 && (|raw| > 16 ==> Value(raw[17..19]) < 60)
  }

  lemma TwoDigitsAre(n: nat, s: string)
    requires n < 100 && |s| == 2 && AllDigits(s)
    ensures Pad2(n) == s <==> n == Value(s)
  {
    TwoDigits(n);
    PadOfValue(s);
  }

  lemma ThreeDigitsAre(n: nat, s: string)
    requires n < 1000 && |s| == 3 && AllDigits(s)
    ensures Pad3(n) == s <==> n == Value(s)
  {
    hide Value;
    ValueThree(s);
    var a, b, c := DigitValue(s[0]), DigitValue(s[1]), DigitValue(s[2]);
    SplitThree(a, b, c);
    if n == Value(s) {
      assert Pad3(n) == [s[0], s[1], s[2]] == s;
    }
    if Pad3(n) == s {
      assert a == n / 100 && b == n / 10 % 10 && c == n % 10;
      ThreeParts(n);
    }
  }

  lemma ValueThree(s: string)
    requires |s| == 3 && AllDigits(s)
    ensures Value(s) == 100 * DigitValue(s[0]) + 10 * DigitValue(s[1]) + DigitValue(s[2])
  {
    assert s[..2][..1] == s[..1] && s[..1][..0] == [];
    assert Value(s[..1]) == DigitValue(s[0]);
  }

  lemma ThreeParts(n: nat)
    requires n < 1000
    ensures n == 100 * (n / 100) + 10 * (n / 10 % 10) + n % 10
  {
  }

  lemma SplitThree(a: int, b: int, c: int)
    requires 0 <= a < 10 && 0 <= b < 10 && 0 <= c < 10
    ensures var n := 100 * a + 10 * b + c; n / 100 == a && n / 10 % 10 == b && n % 10 == c
  {
  }

  /** The milliseconds of a text are what its fraction, filled up, says. */
  lemma FractionValue(raw: string)
    requires DateTime(raw) && |raw| > 16
    ensures |Fraction(raw)| == 3 && AllDigits(Fraction(raw))
    ensures Value(Fraction(raw)) == if |raw| > 19 then Milliseconds(raw[20..]) else 0
  {
    if |raw| == 19 {
      assert "000"[..2] == "00" && "00"[..1] == "0" && "0"[..0] == [];
      assert Value("0") == 0 && Value("00") == 0;
    } else if |raw| == 21 {
      var one := raw[20..] + "0";
      assert Fraction(raw)[..2] == one && one[..1] == raw[20..];
      assert Value(one) == 10 * Value(raw[20..]);
    } else if |raw| == 22 {
      assert Fraction(raw)[..2] == raw[20..];
    }
  }

  lemma MinuteOfDay(n: int, h: int, m: int, local: int)
    requires 0 <= h < 24 && 0 <= m < 60
    ensures n * MS_PER_DAY + h * 3_600_000 + m * MS_PER_MINUTE <= local < n * MS_PER_DAY + h * 3_600_000 + m * MS_PER_MINUTE + MS_PER_MINUTE
       <==> local / MS_PER_DAY == n && (local % MS_PER_DAY) / 3_600_000 == h && (local % MS_PER_DAY) / MS_PER_MINUTE % 60 == m
  {
    var z := local - n * MS_PER_DAY;
    var lo := h * 3_600_000 + m * MS_PER_MINUTE;
    if local / MS_PER_DAY == n {
      assert local % MS_PER_DAY == z;
      MinuteOf(z, h, m);
    }
  }

  lemma MinuteOf(z: int, h: int, m: int)
    requires 0 <= z < MS_PER_DAY && 0 <= h < 24 && 0 <= m < 60
    ensures h * 3_600_000 + m * MS_PER_MINUTE <= z < h * 3_600_000 + m * MS_PER_MINUTE + MS_PER_MINUTE
       <==> z / 3_600_000 == h && z / MS_PER_MINUTE % 60 == m
  {
    var q := z / MS_PER_MINUTE;
    assert z / 3_600_000 == q / 60;
    assert h * 60 + m <= q < h * 60 + m + 1 <==> q == h * 60 + m;
  }

  /** Within a minute, seconds and milliseconds. */
  lemma MilliOf(z: int, base: int, s: int, ms: int)
    requires base % MS_PER_MINUTE == 0 && base <= z < base + MS_PER_MINUTE && 0 <= s < 60 && 0 <= ms < 1000
    ensures z == base + s * 1000 + ms <==> z / 1000 % 60 == s && z % 1000 == ms
  {
    var k, y := base / MS_PER_MINUTE, z - base;
    assert z == MS_PER_MINUTE * k + y;
    assert z / 1000 == 60 * k + y / 1000 && z % 1000 == y % 1000;
    assert (60 * k + y / 1000) % 60 == y / 1000;
  }

  /** First instant of what a text with a time of day names. */
  function TimeStart(raw: string, offset: int): int
    requires DateTime(raw)
  {
    CivilToUtc(DateOf(raw), Value(raw[11..13]), Value(raw[14..16]), if |raw| > 16 then Value(raw[17..19]) else 0,
               if |raw| > 16 then Value(Fraction(raw)) else 0, offset)
  }

  lemma TimeRange(raw: string, offset: int)
    requires DateTime(raw) && !HasZone(raw)
    ensures |raw| > 16 ==> AllDigits(Fraction(raw))
    ensures CreatedAtRange(Some(raw), Some(raw), offset)
         == Range(At(TimeStart(raw, offset)), At(TimeStart(raw, offset) + if |raw| == 16 then MS_PER_MINUTE - 1 else 0))
  {
    hide MakeDay, DateOf, HasZone;
    if |raw| > 16 {
      FractionValue(raw);
    }
    hide Fraction, Milliseconds;
  }

  lemma TimeStartIs(raw: string, offset: int)
    requires DateTime(raw) && DateOf(raw).year >= 100 && (|raw| > 16 ==> AllDigits(Fraction(raw)))
    ensures TimeStart(raw, offset)
         == DayOf(DateOf(raw)) * MS_PER_DAY + Value(raw[11..13]) * 3_600_000 + Value(raw[14..16]) * MS_PER_MINUTE
            + (if |raw| > 16 then Value(raw[17..19]) * 1000 + Value(Fraction(raw)) else 0) - offset * MS_PER_MINUTE
  {
    hide MakeDay, DateOf, Value, Fraction;
  }

  /** The date part of a text with a time of day. */
  lemma DatePart(raw: string)
    requires DatePrefix(raw)
    ensures DateOnly(raw[..10]) && DateOf(raw[..10]) == DateOf(raw)
  {
    var d := raw[..10];
    assert d[..4] == raw[..4] && d[5..7] == raw[5..7] && d[8..10] == raw[8..10];
    assert d[4] == raw[4] && d[7] == raw[7];
  }

  lemma DateReads(raw: string, offset: int, t: int)
    requires DatePrefix(raw) && ValidDate(DateOf(raw)) && DateOf(raw).year >= 1000
    ensures CalendarDateInOffset(offset, t) == raw[..10] <==> ZoneDay(offset, t) == DayOf(DateOf(raw))
  {
    assert |raw| >= 10;
    hide DateOf, DateOnly, DatePrefix, ValidDate, DateText, CivilFromDay, MakeDay;
    DatePart(raw);
    TextOfDate(raw[..10]);
    DateTextForm(CivilFromDay(ZoneDay(offset, t)));
    DayMatches(DateOf(raw), ZoneDay(offset, t));
  }

  /** Reading like the text means having the day and the time of day it names. */
  lemma ReadsAre(raw: string, offset: int, t: int)
    requires DateTime(raw) && RealTime(raw)
    ensures |raw| > 16 ==> AllDigits(Fraction(raw))
    ensures var (h, m, s, ms) := Clock(offset, t);
            Reads(raw, offset, t)
            <==> && ZoneDay(offset, t) == DayOf(DateOf(raw)) && h == Value(raw[11..13]) && m == Value(raw[14..16])
                 && (|raw| > 16 ==> s == Value(raw[17..19]) && ms == Value(Fraction(raw)))
  {
    hide DateOf, MakeDay, Value, CalendarDateInOffset, ZoneDay, Pad2, Pad3, Clock, ValidDate;
    var (h, m, s, ms) := Clock(offset, t);
    ClockBounds(offset, t);
    DateReads(raw, offset, t);
    TwoDigitsAre(h, raw[11..13]);
    TwoDigitsAre(m, raw[14..16]);
    if |raw| > 16 {
      FractionValue(raw);
      TwoDigitsAre(s, raw[17..19]);
      ThreeDigitsAre(ms, Fraction(raw));
    }
  }

  lemma FractionSmall(raw: string)
    requires DateTime(raw) && |raw| > 16
    ensures AllDigits(Fraction(raw)) && Value(Fraction(raw)) < 1000
  {
    FractionValue(raw);
    hide Value, Fraction;
    ValueThree(Fraction(raw));
  }

  lemma TimeShows(raw: string, offset: int, t: int)
    requires DateTime(raw) && !HasZone(raw)
    ensures Shows(CreatedAtRange(Some(raw), Some(raw), offset), t)
       <==> TimeStart(raw, offset) <= t <= TimeStart(raw, offset) + if |raw| == 16 then MS_PER_MINUTE - 1 else 0
  {
    hide DateOf, DatePrefix, HasZone, CreatedAtRange, TimeStart;
    TimeRange(raw, offset);
  }

  /** Without seconds the filter shows the whole minute. */
  lemma MinuteIsShown(raw: string, offset: int, t: int)
    requires DateTime(raw) && !HasZone(raw) && RealTime(raw) && |raw| == 16
    ensures Shows(CreatedAtRange(Some(raw), Some(raw), offset), t) <==> Reads(raw, offset, t)
  {
    hide DateOf, DatePrefix, HasZone, MakeDay, Value, Shows, CreatedAtRange, TimeStart, Reads, ValidDate;
    TimeShows(raw, offset, t);
    TimeStartIs(raw, offset);
    ReadsAre(raw, offset, t);
    MinuteOfDay(DayOf(DateOf(raw)), Value(raw[11..13]), Value(raw[14..16]), t + offset * MS_PER_MINUTE);
  }

  /** With seconds it shows a single instant. */
  lemma InstantIsShown(raw: string, offset: int, t: int)
    requires DateTime(raw) && !HasZone(raw) && RealTime(raw) && |raw| > 16
    ensures Shows(CreatedAtRange(Some(raw), Some(raw), offset), t) <==> Reads(raw, offset, t)
  {
    hide DateOf, DatePrefix, HasZone, MakeDay, Value, Fraction, Shows, CreatedAtRange, TimeStart, Reads, ValidDate;
    FractionSmall(raw);
    TimeShows(raw, offset, t);
    TimeStartIs(raw, offset);
    ReadsAre(raw, offset, t);
    var n, h, m, s, ms :=
      DayOf(DateOf(raw)), Value(raw[11..13]), Value(raw[14..16]), Value(raw[17..19]), Value(Fraction(raw));
    InstantOf(n, h, m, s, ms, t + offset * MS_PER_MINUTE);
  }

  lemma InstantOf(n: int, h: int, m: int, s: int, ms: int, local: int)
    requires 0 <= h < 24 && 0 <= m < 60 && 0 <= s < 60 && 0 <= ms < 1000
    ensures local == n * MS_PER_DAY + h * 3_600_000 + m * MS_PER_MINUTE + s * 1000 + ms
       <==> && local / MS_PER_DAY == n && (local % MS_PER_DAY) / 3_600_000 == h && (local % MS_PER_DAY) / MS_PER_MINUTE % 60 == m
            && (local % MS_PER_DAY) / 1000 % 60 == s && (local % MS_PER_DAY) % 1000 == ms
  {
    MinuteOfDay(n, h, m, local);
    var base := h * 3_600_000 + m * MS_PER_MINUTE;
    if n * MS_PER_DAY + base <= local < n * MS_PER_DAY + base + MS_PER_MINUTE {
      var z := local - n * MS_PER_DAY;
      DayRest(n, local);
      WholeMinutes(h, m);
      MilliOf(z, base, s, ms);
    }
  }

  lemma DayRest(n: int, local: int)
    requires local / MS_PER_DAY == n
    ensures local % MS_PER_DAY == local - n * MS_PER_DAY
  {
  }

  lemma WholeMinutes(h: int, m: int)
    ensures (h * 3_600_000 + m * MS_PER_MINUTE) % MS_PER_MINUTE == 0
  {
    assert h * 3_600_000 + m * MS_PER_MINUTE == MS_PER_MINUTE * (60 * h + m);
  }

  /** What reads like a text makes its date and time of day real. */
  lemma ReadsOnlyReal(raw: string, offset: int, t: int)
    requires DateTime(raw) && Reads(raw, offset, t)
    ensures RealTime(raw)
  {
    hide DateOf, ValidDate, DateText, CivilFromDay, Pad2, Pad3, Clock, Fraction;
    var (h, m, s, ms) := Clock(offset, t);
    ClockBounds(offset, t);
    DatePart(raw);
    DateTextForm(CivilFromDay(ZoneDay(offset, t)));
    TwoDigits(h);
    TwoDigits(m);
    TwoDigits(s);
  }

  /**
   * The filter from a time of day to the same one shows exactly the instants that read like the text in the
   * zone, for every zone, if and only if the text names an existing date of a year from 1000 on and an existing
   * time of day.
   */
  lemma TimeFilterMatchesClock(raw: string, offset: int)
    requires DateTime(raw) && !HasZone(raw)
    ensures (forall t :: Shows(CreatedAtRange(Some(raw), Some(raw), offset), t) <==> Reads(raw, offset, t)) <==> RealTime(raw)
  {
    hide DateTime, HasZone, RealTime, Reads, Shows, CreatedAtRange, TimeStart;
    if RealTime(raw) {
      forall t ensures Shows(CreatedAtRange(Some(raw), Some(raw), offset), t) <==> Reads(raw, offset, t) {
        LongEnough(raw);
        if |raw| == 16 {
          MinuteIsShown(raw, offset, t);
        } else {
          InstantIsShown(raw, offset, t);
        }
      }
    } else {
      var t := TimeStart(raw, offset);
      TimeShows(raw, offset, t);
      if Reads(raw, offset, t) {
        ReadsOnlyReal(raw, offset, t);
      }
    }
  }

  lemma LongEnough(raw: string)
    requires DateTime(raw)
    ensures |raw| >= 16
  {
  }
}
