/** Week dates of tools/unpacker/fmt/chrono.h against section 2.2.10 of ISO 8601:2004. */
module IsoWeek {
  import opened Powers

  // ----- The code's integer expressions; C++ division truncates towards zero -----

  const DAYS_PER_WEEK := 7

  function TruncDiv(a: int, b: int): int
    requires b > 0
  {
    if a >= 0 then a / b else -(-a / b)
  }

  function TruncMod(a: int, b: int): int
    requires b > 0
  {
    a - b * TruncDiv(a, b)
  }

  function LastWeekday(year: int): int {
    TruncMod(year + TruncDiv(year, 4) - TruncDiv(year, 100) + TruncDiv(year, 400), DAYS_PER_WEEK)
  }

  function IsoYearWeeks(year: int): int {
    52 + if LastWeekday(year) == 4 || LastWeekday(year - 1) == 3 then 1 else 0
  }

  function IsoWeekNum(yday: int, wday: int): int {
    TruncDiv(yday + 11 - (if wday == 0 then DAYS_PER_WEEK else wday), DAYS_PER_WEEK)
  }

  function TmIsoWeekYear(year: int, yday: int, wday: int): int {
    var w := IsoWeekNum(yday, wday);
    if w < 1 then year - 1 else if w > IsoYearWeeks(year) then year + 1 else year
  }

  function TmIsoWeekOfYear(year: int, yday: int, wday: int): int {
    var w := IsoWeekNum(yday, wday);
    if w < 1 then IsoYearWeeks(year - 1) else if w > IsoYearWeeks(year) then 1 else w
  }

  // ----- The Gregorian calendar -----

  predicate IsLeap(year: int) {
    year % 4 == 0 && (year % 100 != 0 || year % 400 == 0)
  }

  function YearLength(year: int): int {
    if IsLeap(year) then 366 else 365
  }

  /** Number of days from the first day of year 1, a Monday, to the first day of the year. */
  function DaysBefore(year: int): int
    decreases if year >= 1 then year - 1 else 1 - year
  {
    if year == 1 then 0
    else if year > 1 then DaysBefore(year - 1) + YearLength(year - 1)
    else DaysBefore(year + 1) - YearLength(year)
  }

  lemma YearsFollow(year: int)
    ensures DaysBefore(year + 1) == DaysBefore(year) + YearLength(year)
  {
  }

  function ClosedForm(year: int): int {
    365 * year + year / 4 - year / 100 + year / 400
  }

  lemma ClosedFormFollows(year: int)
    ensures ClosedForm(year) == ClosedForm(year - 1) + YearLength(year)
  {
    DivStep(year, 4);
    DivStep(year, 100);
    DivStep(year, 400);
    Divisibility(year);
  }

  lemma DivStep(n: int, k: int)
    requires k > 0
    ensures n / k == (n - 1) / k + if n % k == 0 then 1 else 0
  {
    if n % k == 0 {
      Distribute(n / k, -1, k);
      DivModUnique(n - 1, k, n / k - 1, k - 1);
    } else {
      DivModUnique(n - 1, k, n / k, n % k - 1);
    }
  }

  lemma Divisibility(year: int)
    ensures year % 400 == 0 ==> year % 100 == 0
    ensures year % 100 == 0 ==> year % 4 == 0
  {
  }

  lemma {:induction false} DaysBeforeIs(year: int)
    ensures DaysBefore(year + 1) == ClosedForm(year)
    decreases if year >= 0 then year else -year
  {
    if year > 0 {
      DaysBeforeIs(year - 1);
      ClosedFormFollows(year);
    } else if year < 0 {
      DaysBeforeIs(year + 1);
      ClosedFormFollows(year + 1);
    }
  }

  /** A day of the year whose weekday, counted from Sunday, is the calendar's. */
  predicate IsDate(year: int, yday: int, wday: int) {
    0 <= yday < YearLength(year) && wday == (DaysBefore(year) + yday + 1) % 7
  }

  /** The Thursday of the week, from Monday to Sunday, that holds the day. */
  function ThursdayOf(day: int): int {
    day - day % 7 + 3
  }

  /** The year and week of a Thursday: the year it lies in, and how many Thursdays that year has had. */
  predicate WeekOfThursday(thursday: int, year: int, week: int) {
    && DaysBefore(year) <= thursday < DaysBefore(year + 1)
    && week == (thursday - DaysBefore(year)) / 7 + 1
  }

  lemma Mod7(weeks: int, days: int)
    ensures (7 * weeks + days) % 7 == days % 7
  {
  }

  /** Weekday, from Sunday, of the last day of a year: what the code computes from year 0 on. */
  lemma LastWeekdayIs(year: int)
    ensures year >= 0 ==> LastWeekday(year) == DaysBefore(year + 1) % 7
    ensures year <= 0 ==> LastWeekday(year) <= 0
  {
    if year >= 0 {
      LeapDays(year);
      DaysBeforeIs(year);
      Mod7(52 * year, year + year / 4 - year / 100 + year / 400);
    }
    if year <= 0 {
      LeapDays(-year);
    }
  }

  lemma LeapDays(years: int)
    requires years >= 0
    ensures years / 4 - years / 100 + years / 400 >= 0
  {
  }

  /** Number of Thursdays among `length` days from `first` on, in terms of the weekdays around them. */
  lemma Thursdays(first: int, length: int, thursday: int)
    requires 365 <= length <= 366 && first <= thursday < first + length && thursday % 7 == 3
    ensures var week, isLong := (thursday - first) / 7 + 1, (first + length) % 7 == 4 || first % 7 == 3;
      && 1 <= week <= (if isLong then 53 else 52)
      && (thursday + 7 >= first + length ==> week == if isLong then 53 else 52)
  {
    var f, g := first % 7, (thursday - first) / 7;
    assert thursday - first == 7 * g + if f <= 3 then 3 - f else 10 - f;
    assert (first + length) % 7 == (f + length) % 7;
  }

  predicate Long(year: int) {
    DaysBefore(year + 1) % 7 == 4 || DaysBefore(year) % 7 == 3
  }

  /** Exact from year 0 on; before, the code takes no year for a long one. */
  lemma YearWeeks(year: int)
    ensures IsoYearWeeks(year) == if Long(year) && year >= 0 then 53 else 52
  {
    LastWeekdayIs(year);
    LastWeekdayIs(year - 1);
    YearZero();
    var last, before := LastWeekday(year), LastWeekday(year - 1);
    assert last == 4 <==> year >= 0 && DaysBefore(year + 1) % 7 == 4;
    assert before == 3 <==> year > 0 && DaysBefore(year) % 7 == 3;
  }

  lemma YearZero()
    ensures DaysBefore(0) == -366
  {
    DaysBeforeIs(-1);
  }

  /** Which week the code starts from, by the position of the week's Thursday. */
  lemma WeekNumber(first: int, yday: int, wday: int)
    requires yday >= 0 && wday == (first + yday + 1) % 7
    ensures var t := ThursdayOf(first + yday) - first;
      && -3 <= t - yday <= 3 && -3 <= t && IsoWeekNum(yday, wday) == (t + 7) / 7
      && ThursdayOf(first + yday) % 7 == 3
  {
    var day := first + yday;
    assert day == 7 * (day / 7) + day % 7;
    assert (if wday == 0 then 7 else wday) == day % 7 + 1;
    assert ThursdayOf(day) == 7 * (day / 7) + 3;
  }

  lemma {:induction false} YearsInOrder(a: int, b: int)
    requires a <= b
    ensures DaysBefore(a) <= DaysBefore(b)
    decreases b - a
  {
    if a < b {
      YearsFollow(b - 1);
      YearsInOrder(a, b - 1);
    }
  }

  lemma YearOfDay(day: int, year: int, other: int)
    requires DaysBefore(year) <= day < DaysBefore(year + 1)
    requires DaysBefore(other) <= day < DaysBefore(other + 1)
    ensures year == other
  {
    if year < other {
      YearsInOrder(year + 1, other);
    } else if other < year {
      YearsInOrder(other + 1, year);
    }
  }

  /** A Thursday at least a week before the next year is not in that year's week. */
  lemma ThisYear(year: int, thursday: int)
    requires thursday % 7 == 3 && DaysBefore(year) <= thursday < DaysBefore(year + 1)
    ensures var week := (thursday - DaysBefore(year)) / 7 + 1;
      && 1 <= week <= 53
      && (week <= IsoYearWeeks(year) <==> (year >= 0 || week <= 52))
      && (thursday + 7 >= DaysBefore(year + 1) ==>
            week >= IsoYearWeeks(year) && (week == IsoYearWeeks(year) <==> (year >= 0 || week <= 52)))
  {
    YearsFollow(year);
    YearWeeks(year);
    WeeksOfYear(year, DaysBefore(year), DaysBefore(year + 1), IsoYearWeeks(year), thursday);
  }

  lemma WeeksOfYear(year: int, first: int, next: int, weeks: int, thursday: int)
    requires 365 <= next - first <= 366 && thursday % 7 == 3 && first <= thursday < next
    requires weeks == if (next % 7 == 4 || first % 7 == 3) && year >= 0 then 53 else 52
    ensures var week := (thursday - first) / 7 + 1;
      && 1 <= week <= 53
      && (week <= weeks <==> (year >= 0 || week <= 52))
      && (thursday + 7 >= next ==> week >= weeks && (week == weeks <==> (year >= 0 || week <= 52)))
  {
    Thursdays(first, next - first, thursday);
  }

  /**
   * For every date, the code's week and week-year are those of the week's Thursday; except in the
   * last week of a long year before year 0, which the code never finds.
   */
  lemma WeekOfDate(year: int, yday: int, wday: int, isoYear: int, isoWeek: int)
    requires IsDate(year, yday, wday)
    requires WeekOfThursday(ThursdayOf(DaysBefore(year) + yday), isoYear, isoWeek)
    ensures TmIsoWeekYear(year, yday, wday) == isoYear && TmIsoWeekOfYear(year, yday, wday) == isoWeek
       <==> (isoYear >= 0 || isoWeek <= 52)
  {
    var thursday := ThursdayOf(DaysBefore(year) + yday);
    WeekNumber(DaysBefore(year), yday, wday);
    if thursday < DaysBefore(year) {
      WeekOfEarlierYear(year, yday, wday, thursday, isoYear, isoWeek);
    } else if thursday < DaysBefore(year + 1) {
      WeekOfSameYear(year, yday, wday, thursday, isoYear, isoWeek);
    } else {
      WeekOfLaterYear(year, yday, wday, thursday, isoYear, isoWeek);
    }
  }

  lemma WeekOfEarlierYear(year: int, yday: int, wday: int, thursday: int, isoYear: int, isoWeek: int)
    requires thursday % 7 == 3 && DaysBefore(year) - 3 <= thursday < DaysBefore(year)
    requires WeekOfThursday(thursday, isoYear, isoWeek) && IsoWeekNum(yday, wday) == 0
    ensures TmIsoWeekYear(year, yday, wday) == isoYear && TmIsoWeekOfYear(year, yday, wday) == isoWeek
       <==> (isoYear >= 0 || isoWeek <= 52)
  {
    YearsFollow(year - 1);
    YearOfDay(thursday, isoYear, year - 1);
    ThisYear(year - 1, thursday);
  }

  lemma WeekOfSameYear(year: int, yday: int, wday: int, thursday: int, isoYear: int, isoWeek: int)
    requires thursday % 7 == 3 && DaysBefore(year) <= thursday < DaysBefore(year + 1)
    requires WeekOfThursday(thursday, isoYear, isoWeek)
    requires IsoWeekNum(yday, wday) == (thursday - DaysBefore(year)) / 7 + 1
    ensures TmIsoWeekYear(year, yday, wday) == isoYear && TmIsoWeekOfYear(year, yday, wday) == isoWeek
       <==> (isoYear >= 0 || isoWeek <= 52)
  {
    YearOfDay(thursday, isoYear, year);
    ThisYear(year, thursday);
    if isoYear >= 0 || isoWeek <= 52 {
      assert isoWeek <= IsoYearWeeks(year);
    } else {
      assert isoWeek > IsoYearWeeks(year);
    }
  }

  lemma WeekBefore(days: int)
    ensures days / 7 == (days - 7) / 7 + 1
  {
  }

  lemma WeekOfLaterYear(year: int, yday: int, wday: int, thursday: int, isoYear: int, isoWeek: int)
    requires thursday % 7 == 3 && DaysBefore(year + 1) <= thursday < DaysBefore(year + 1) + 3
    requires WeekOfThursday(thursday, isoYear, isoWeek)
    requires IsoWeekNum(yday, wday) == (thursday - DaysBefore(year)) / 7 + 1
    ensures TmIsoWeekYear(year, yday, wday) == isoYear && TmIsoWeekOfYear(year, yday, wday) == isoWeek
    ensures isoWeek == 1
  {
    YearsFollow(year + 1);
    YearOfDay(thursday, isoYear, year + 1);
    YearIsOver(year, thursday);
    FirstWeek(thursday, DaysBefore(year + 1));
  }

  /** Counted from the year before, the week has a number too high for that year. */
  lemma YearIsOver(year: int, thursday: int)
    requires thursday % 7 == 3 && DaysBefore(year + 1) <= thursday < DaysBefore(year + 1) + 3
    ensures (thursday - DaysBefore(year)) / 7 + 1 > IsoYearWeeks(year)
  {
    YearsFollow(year);
    WeekBefore(thursday - DaysBefore(year));
    ThisYear(year, thursday - 7);
  }

  lemma FirstWeek(thursday: int, first: int)
    requires first <= thursday < first + 7
    ensures (thursday - first) / 7 + 1 == 1
  {
  }

  /** From year 1 on the code is right for every date. */
  lemma WeekFromYearOne(year: int, yday: int, wday: int)
    requires year >= 1 && IsDate(year, yday, wday)
    ensures WeekOfThursday(ThursdayOf(DaysBefore(year) + yday),
                           TmIsoWeekYear(year, yday, wday), TmIsoWeekOfYear(year, yday, wday))
  {
    var thursday := ThursdayOf(DaysBefore(year) + yday);
    YearsFollow(year - 1);
    YearsFollow(year);
    YearsFollow(year + 1);
    var isoYear := if thursday < DaysBefore(year) then year - 1
                   else if thursday < DaysBefore(year + 1) then year else year + 1;
    var isoWeek := (thursday - DaysBefore(isoYear)) / 7 + 1;
    WeekNumber(DaysBefore(year), yday, wday);
    WeekOfDate(year, yday, wday, isoYear, isoWeek);
  }

  /** The last day of the long year -2 is a Thursday; the code puts it into the next year. */
  lemma LongYearMissed()
    ensures IsDate(-2, 364, 4)
    ensures WeekOfThursday(ThursdayOf(DaysBefore(-2) + 364), -2, 53)
    ensures TmIsoWeekYear(-2, 364, 4) == -1 && TmIsoWeekOfYear(-2, 364, 4) == 1
  {
    DaysBeforeIs(-3);
    DaysBeforeIs(-2);
  }
}
