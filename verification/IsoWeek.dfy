/** The ISO 8601 week date (`%G` and `%V`, section 7.27.3.5 of ISO/IEC 9899:2011) of the time
    formatter, against a calendar that counts days one year at a time. */
module IsoWeek {
  import opened Arithmetic

  // ---------- The formatter ----------

  /** Division and remainder truncate toward zero. */
  function TruncDiv(a: int, b: int): int
    requires 0 < b
  {
    if a >= 0 then a / b else -(-a / b)
  }

  function TruncMod(a: int, b: int): int
    requires 0 < b
  {
    a - TruncDiv(a, b) * b
  }

  /** The weekday of 31 December, Sunday being 0. */
  function YearEnd(year: int): int {
    TruncMod(year + TruncDiv(year, 4) - TruncDiv(year, 100) + TruncDiv(year, 400), 7)
  }

  function IsoYearWeeks(year: int): int {
    52 + if YearEnd(year) == 4 || YearEnd(year - 1) == 3 then 1 else 0
  }

  function IsoWeekNum(yday: int, wday: int): int {
    TruncDiv(yday + 11 - (if wday == 0 then 7 else wday), 7)
  }

  function IsoWeekYear(year: int, yday: int, wday: int): int {
    var w := IsoWeekNum(yday, wday);
    if w < 1 then year - 1 else if w > IsoYearWeeks(year) then year + 1 else year
  }

  function IsoWeekOfYear(year: int, yday: int, wday: int): int {
    var w := IsoWeekNum(yday, wday);
    if w < 1 then IsoYearWeeks(year - 1) else if w > IsoYearWeeks(year) then 1 else w
  }

  // ---------- The calendar ----------

  predicate IsLeap(year: nat) {
    year % 4 == 0 && (year % 100 != 0 || year % 400 == 0)
  }

  function YearLength(year: nat): nat {
    if IsLeap(year) then 366 else 365
  }

  /** Days from 1 January of year 0 to 1 January of `year`. */
  function DaysBefore(year: nat): nat {
    if year == 0 then 0 else DaysBefore(year - 1) + YearLength(year - 1)
  }

  /** The weekday of a day, Monday being 0.  Day 0, 1 January of year 0, is a Saturday, so that
      1 January of year 1 is a Monday. */
  function Weekday(day: nat): nat {
    (day + 5) % 7
  }

  /** The same weekday as the C library numbers it, Sunday being 0. */
  function TmWday(day: nat): nat {
    (day + 6) % 7
  }

  /** The Thursday of the Monday-to-Sunday week around a day. */
  function Thursday(day: nat): int {
    day - Weekday(day) + 3
  }

  /** The definition: the week belongs to the year of its Thursday, and is numbered by the ordinal
      of that Thursday among the Thursdays of the year. */
  ghost predicate IsIsoWeekDate(day: nat, year: int, week: int) {
    && 0 <= year
    && DaysBefore(year) <= Thursday(day) < DaysBefore(year + 1)
    && week == (Thursday(day) - DaysBefore(year)) / 7 + 1
  }

  // ---------- Proofs ----------

  /** Leap days in closed form. */
  lemma {:induction false} LeapDays(year: nat)
    ensures DaysBefore(year + 1) == 366 + 365 * year + year / 4 - year / 100 + year / 400
  {
    if year == 0 {
      assert DaysBefore(1) == DaysBefore(0) + YearLength(0);
    } else {
      LeapDays(year - 1);
      LeapStep(year);
    }
  }

  lemma LeapStep(year: nat)
    requires 1 <= year
    ensures (year / 4 - year / 100 + year / 400) - ((year - 1) / 4 - (year - 1) / 100 + (year - 1) / 400)
         == if IsLeap(year) then 1 else 0
  {
    DivStep(year, 4);
    DivStep(year, 100);
    DivStep(year, 400);
    MultipleDivides(year, 4, 25);
    MultipleDivides(year, 100, 4);
  }

  lemma MultipleDivides(n: nat, a: nat, b: nat)
    requires 1 <= a && 1 <= b && 1 <= a * b
    ensures n % (a * b) == 0 ==> n % a == 0
  {
    if n % (a * b) == 0 {
      var k := n / (a * b);
      assert n == k * (a * b) == k * b * a;
      DivModUnique(n, a, k * b, 0);
    }
  }

  lemma DivStep(n: nat, d: nat)
    requires 1 <= n && 2 <= d
    ensures n / d - (n - 1) / d == if n % d == 0 then 1 else 0
  {
    var q, r := n / d, n % d;
    assert n == q * d + r;
    if r == 0 {
      assert n - 1 == (q - 1) * d + (d - 1);
      DivModUnique(n - 1, d, q - 1, d - 1);
    } else {
      DivModUnique(n - 1, d, q, r - 1);
    }
  }

  /** The formatter's expression is the weekday of the next 1 January. */
  lemma YearEndIsWeekday(year: nat)
    ensures YearEnd(year) == Weekday(DaysBefore(year + 1))
  {
    LeapDays(year);
    var p := year + year / 4 - year / 100 + year / 400;
    SevenDivides(DaysBefore(year + 1) + 5, 53 + 52 * year, p);
  }

  lemma SevenDivides(n: int, k: int, p: nat)
    requires n == 7 * k + p
    ensures n % 7 == p % 7
  {
  }

  /** The week arithmetic of one year, whose 1 January falls on weekday `first`: `t` is the Thursday
      around the day `yday`, counted from that 1 January. */
  lemma WeekOfThursday(first: nat, length: nat, yday: nat, t: int)
    requires first < 7 && 365 <= length <= 366 && yday < length
    requires t == yday - (first + yday) % 7 + 3
    ensures var w := IsoWeekNum(yday, (first + yday + 1) % 7);
      var weeks := if (first + length) % 7 == 4 || first == 3 then 53 else 52;
      && w == (t + 7) / 7
      && (t < 0 <==> w < 1)
      && (t >= length <==> w > weeks)
  {
    var q, r := (first + yday) / 7, (first + yday) % 7;
    assert t == 7 * q + 3 - first;
    if r == 6 {
      DivModUnique(first + yday + 1, 7, q + 1, 0);
    } else {
      DivModUnique(first + yday + 1, 7, q, r + 1);
    }
    DivModUnique(t + 7, 7, if first <= 3 then q + 1 else q, if first <= 3 then 3 - first else 10 - first);
    NewYearShift(first, length);
  }

  lemma NewYearShift(first: nat, length: nat)
    requires first < 7 && 365 <= length <= 366
    ensures (first + length) % 7 == if first + length < 371 then first + length - 364 else first + length - 371
  {
    if first + length < 371 {
      DivModUnique(first + length, 7, 52, first + length - 364);
    } else {
      DivModUnique(first + length, 7, 53, first + length - 371);
    }
  }

  /** A Thursday just before 1 January is the last of the year before, whose 1 January fell on
      weekday `first`. */
  lemma LastThursday(first: nat, length: nat, t: int)
    requires first < 7 && 365 <= length <= 366 && -3 <= t < 0
    requires (first + length + t) % 7 == 3
    ensures (t + length) / 7 + 1 == if (first + length) % 7 == 4 || first == 3 then 53 else 52
  {
    NewYearShift(first, length);
    var q := (first + length + t) / 7;
    assert first + length + t == 7 * q + 3;
  }

  lemma WeekdayAfter(day: nat, n: nat)
    ensures Weekday(day + n) == (Weekday(day) + n) % 7
    ensures TmWday(day + n) == (Weekday(day) + n + 1) % 7
  {
    var q, w := (day + 5) / 7, Weekday(day);
    var k, r := (w + n) / 7, (w + n) % 7;
    DivModUnique(day + n + 5, 7, q + k, r);
    var k', r' := (w + n + 1) / 7, (w + n + 1) % 7;
    DivModUnique(day + n + 6, 7, q + k', r');
  }

  /** The number of weeks the formatter gives a year, in terms of the weekday of its 1 January. */
  lemma WeeksOfYear(year: nat)
    ensures var first := Weekday(DaysBefore(year));
      IsoYearWeeks(year) == if (first + YearLength(year)) % 7 == 4 || first == 3 then 53 else 52
  {
    hide YearEnd, DaysBefore;
    YearEndIsWeekday(year);
    WeekdayAfter(DaysBefore(year), YearLength(year));
    NextYear(year);
    if year > 0 {
      YearEndIsWeekday(year - 1);
    } else {
      YearZero();
    }
  }

  lemma NextYear(year: nat)
    ensures DaysBefore(year + 1) == DaysBefore(year) + YearLength(year)
  {
  }

  lemma YearZero()
    ensures DaysBefore(0) == 0 && YearEnd(-1) == -1
  {
  }

  /** The plain week number of a date, in terms of its Thursday `t`, counted from 1 January. */
  lemma WeekOfDate(year: nat, yday: nat)
    requires yday < YearLength(year)
    ensures var day := DaysBefore(year) + yday;
      var t, w := Thursday(day) - DaysBefore(year), IsoWeekNum(yday, TmWday(day));
      && w == (t + 7) / 7
      && (t < 0 <==> w < 1)
      && (t >= YearLength(year) <==> w > IsoYearWeeks(year))
  {
    hide IsoYearWeeks, DaysBefore, IsoWeekNum, YearLength, Weekday, TmWday;
    var start := DaysBefore(year);
    WeekdayAfter(start, yday);
    YearLengths(year);
    WeekdayBounds(start);
    WeekOfThursday(Weekday(start), YearLength(year), yday, Thursday(start + yday) - start);
    WeeksOfYear(year);
  }

  lemma WeekInSameYear(year: nat, yday: nat)
    requires DaysBefore(year) <= Thursday(DaysBefore(year) + yday) < DaysBefore(year) + YearLength(year)
    ensures var t := Thursday(DaysBefore(year) + yday) - DaysBefore(year);
      IsIsoWeekDate(DaysBefore(year) + yday, year, (t + 7) / 7)
  {
    hide DaysBefore, YearLength, Weekday, Thursday;
    NextYear(year);
  }

  /** A date whose Thursday is in the year after has that year's first week. */
  lemma WeekInNextYear(year: nat, yday: nat)
    requires yday < YearLength(year) && Thursday(DaysBefore(year) + yday) >= DaysBefore(year) + YearLength(year)
    ensures IsIsoWeekDate(DaysBefore(year) + yday, year + 1, 1)
  {
    hide DaysBefore, YearLength, Weekday;
    WeekdayBounds(DaysBefore(year) + yday);
    NextYear(year);
    NextYear(year + 1);
    YearLengths(year + 1);
  }

  /** The formatter's week-based year and week are those of the ISO definition, for every date of
      every year from 1 on. */
  lemma WeekDateIsIso(year: nat, yday: nat)
    requires 1 <= year && yday < YearLength(year)
    ensures var day := DaysBefore(year) + yday;
      IsIsoWeekDate(day, IsoWeekYear(year, yday, TmWday(day)), IsoWeekOfYear(year, yday, TmWday(day)))
  {
    hide IsoYearWeeks, DaysBefore, IsoWeekNum, YearLength, Thursday, TmWday, IsIsoWeekDate;
    var t := Thursday(DaysBefore(year) + yday) - DaysBefore(year);
    WeekOfDate(year, yday);
    if t < 0 {
      WeekInPreviousYear(year, yday);
    } else if t >= YearLength(year) {
      WeekInNextYear(year, yday);
    } else {
      WeekInSameYear(year, yday);
    }
  }

  lemma WeekdayBounds(day: nat)
    ensures 0 <= Weekday(day) < 7
  {
  }

  /** A date whose Thursday is in the year before has the last week of that year. */
  lemma WeekInPreviousYear(year: nat, yday: nat)
    requires 1 <= year && Thursday(DaysBefore(year) + yday) < DaysBefore(year)
    ensures IsIsoWeekDate(DaysBefore(year) + yday, year - 1, IsoYearWeeks(year - 1))
  {
    hide IsoYearWeeks, DaysBefore, YearLength, Weekday, TmWday;
    var day := DaysBefore(year) + yday;
    var first, length := Weekday(DaysBefore(year - 1)), YearLength(year - 1);
    var t := Thursday(day) - DaysBefore(year);
    NextYear(year - 1);
    YearLengths(year - 1);
    WeekdayBounds(DaysBefore(year - 1));
    WeekdayBounds(day);
    WeeksOfYear(year - 1);
    ThursdayIsThursday(day);
    WeekdayAfter(DaysBefore(year - 1), length + t);
    LastThursday(first, length, t);
  }

  lemma YearLengths(year: nat)
    ensures 365 <= YearLength(year) <= 366
  {
  }

  lemma ThursdayIsThursday(day: nat)
    ensures Thursday(day) >= 0 ==> Weekday(Thursday(day)) == 3
  {
    var q := (day + 5) / 7;
    assert Thursday(day) + 5 == 7 * q + 3;
  }

  /** The definition singles out one year and week for every day. */
  lemma IsoWeekDateIsUnique(day: nat, y1: int, w1: int, y2: int, w2: int)
    requires IsIsoWeekDate(day, y1, w1) && IsIsoWeekDate(day, y2, w2)
    ensures y1 == y2 && w1 == w2
  {
    if y1 < y2 {
      DaysIncrease(y1 + 1, y2);
    } else if y2 < y1 {
      DaysIncrease(y2 + 1, y1);
    }
  }

  lemma {:induction false} DaysIncrease(y1: nat, y2: nat)
    requires y1 <= y2
    ensures DaysBefore(y1) <= DaysBefore(y2)
  {
    if y1 == y2 {
    } else {
      DaysIncrease(y1, y2 - 1);
    }
  }

  /** Conversely the label and the weekday give the day back: no two days share all three. */
  lemma IsoWeekDateDeterminesDay(day1: nat, day2: nat, year: int, week: int)
    requires IsIsoWeekDate(day1, year, week) && IsIsoWeekDate(day2, year, week)
    requires Weekday(day1) == Weekday(day2)
    ensures day1 == day2
  {
    hide DaysBefore;
    ThursdayIsThursday(day1);
    ThursdayIsThursday(day2);
    assert Thursday(day1) - Thursday(day2) < 7 && Thursday(day2) - Thursday(day1) < 7;
  }
}
