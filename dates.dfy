/** Proleptic Gregorian calendar dates with the conventions of Python's
    `datetime.date`: ordinal 1 is 0001-01-01, weekday 0 is Monday, and
    `isocalendar()` gives ISO 8601 week dates (ISO 8601:2004 section 4.1.4). */
module Dates {

  datatype Date = Date(year: int, month: int, day: int)

  predicate IsLeapYear(y: int) {
    y % 4 == 0 && (y % 100 != 0 || y % 400 == 0)
  }

  function DaysInMonth(y: int, m: int): (n: int)
    requires 1 <= m <= 12
    ensures 28 <= n <= 31
    ensures m == 2 ==> (n == 29 <==> IsLeapYear(y))
  {
    if m == 2 then (if IsLeapYear(y) then 29 else 28)
    else if m == 4 || m == 6 || m == 9 || m == 11 then 30
    else 31
  }

  /** The dates `date(y, m, d)` accepts (the year range 1..9999 aside). */
  predicate Valid(d: Date) {
    1 <= d.month <= 12 && 1 <= d.day <= DaysInMonth(d.year, d.month)
  }

  function DaysInYear(y: int): int {
    if IsLeapYear(y) then 366 else 365
  }

  /** Days in the years 1 .. y-1 (negative before year 1): a year's first
      day comes right after the previous year's last. */
  function DaysBeforeYear(y: int): int
    decreases if y > 1 then y - 1 else 1 - y
  {
    if y == 1 then 0
    else if y > 1 then DaysBeforeYear(y - 1) + DaysInYear(y - 1)
    else DaysBeforeYear(y + 1) - DaysInYear(y)
  }

  /** Days in the months 1 .. m-1 of year y (`_DAYS_BEFORE_MONTH`). */
  function DaysBeforeMonth(y: int, m: int): int
    requires 1 <= m <= 12
  {
    var before :=
      if m <= 6 then
        if m == 1 then 0 else if m == 2 then 31 else if m == 3 then 59
        else if m == 4 then 90 else if m == 5 then 120 else 151
      else
        if m == 7 then 181 else if m == 8 then 212 else if m == 9 then 243
        else if m == 10 then 273 else if m == 11 then 304 else 334;
    before + (if m > 2 && IsLeapYear(y) then 1 else 0)
  }

  function Ordinal(d: Date): int
    requires 1 <= d.month <= 12
  {
    DaysBeforeYear(d.year) + DaysBeforeMonth(d.year, d.month) + d.day
  }

  /** Python's date comparison: lexicographic on (year, month, day). */
  predicate Less(a: Date, b: Date) {
    a.year < b.year || (a.year == b.year && (a.month < b.month || (a.month == b.month && a.day < b.day)))
  }

  lemma DivideBy(n: int, k: int, q: int, r: int)
    requires k == 4 || k == 7 || k == 100 || k == 400
    requires n == k * q + r && 0 <= r < k
    ensures n / k == q && n % k == r
  {
  }

  /** `p / k` grows by one exactly when `p + 1` is a multiple of k. */
  lemma DivideNext(p: int, k: int)
    requires k == 4 || k == 100 || k == 400
    ensures (p + 1) / k == p / k + (if (p + 1) % k == 0 then 1 else 0)
  {
    var q, r := p / k, p % k;
    if r == k - 1 {
      DivideBy(p + 1, k, q + 1, 0);
    } else {
      DivideBy(p + 1, k, q, r + 1);
    }
  }

  lemma NextYear(y: int)
    ensures DaysBeforeYear(y + 1) == DaysBeforeYear(y) + DaysInYear(y)
  {
  }

  /** The closed form `_days_before_year` of Python's datetime module. */
  function DaysBeforeYearFormula(y: int): int {
    var p := y - 1;
    365 * p + p / 4 - p / 100 + p / 400
  }

  lemma FormulaNextYear(y: int)
    ensures DaysBeforeYearFormula(y + 1) == DaysBeforeYearFormula(y) + DaysInYear(y)
  {
    DivideNext(y - 1, 4);
    DivideNext(y - 1, 100);
    DivideNext(y - 1, 400);
  }

  lemma {:induction false} DaysBeforeYearClosedForm(y: int)
    ensures DaysBeforeYear(y) == DaysBeforeYearFormula(y)
    decreases if y > 1 then y - 1 else 1 - y
  {
    if y > 1 {
      DaysBeforeYearClosedForm(y - 1);
      FormulaNextYear(y - 1);
    } else if y < 1 {
      DaysBeforeYearClosedForm(y + 1);
      FormulaNextYear(y);
    }
  }

  lemma {:induction false} YearsAreOrdered(a: int, b: int)
    requires a < b
    ensures DaysBeforeYear(a + 1) <= DaysBeforeYear(b)
    decreases b - a
  {
    NextYear(a);
    if a + 1 < b {
      YearsAreOrdered(a + 1, b);
      NextYear(a + 1);
    }
  }

  lemma OrdinalWithinYear(d: Date)
    requires Valid(d)
    ensures DaysBeforeYear(d.year) < Ordinal(d) <= DaysBeforeYear(d.year + 1)
  {
    NextYear(d.year);
  }

  lemma MonthsAreOrdered(y: int, m1: int, m2: int)
    requires 1 <= m1 < m2 <= 12
    ensures DaysBeforeMonth(y, m1) + DaysInMonth(y, m1) <= DaysBeforeMonth(y, m2)
  {
  }

  /** Comparing dates as Python does agrees with comparing their ordinals. */
  lemma LessIsOrdinalLess(a: Date, b: Date)
    requires Valid(a) && Valid(b)
    ensures Less(a, b) <==> Ordinal(a) < Ordinal(b)
    ensures a == b <==> Ordinal(a) == Ordinal(b)
  {
    if a.year < b.year {
      OrdinalWithinYear(a);
      OrdinalWithinYear(b);
      YearsAreOrdered(a.year, b.year);
    } else if b.year < a.year {
      OrdinalWithinYear(a);
      OrdinalWithinYear(b);
      YearsAreOrdered(b.year, a.year);
    } else if a.month < b.month {
      MonthsAreOrdered(a.year, a.month, b.month);
    } else if b.month < a.month {
      MonthsAreOrdered(a.year, b.month, a.month);
    }
  }

  function NextDay(d: Date): (r: Date)
    requires Valid(d)
    ensures Valid(r) && Ordinal(r) == Ordinal(d) + 1
  {
    if d.day < DaysInMonth(d.year, d.month) then Date(d.year, d.month, d.day + 1)
    else if d.month < 12 then Date(d.year, d.month + 1, 1)
    else NextYear(d.year); Date(d.year + 1, 1, 1)
  }

  function PrevDay(d: Date): (r: Date)
    requires Valid(d)
    ensures Valid(r) && Ordinal(r) == Ordinal(d) - 1
  {
    if d.day > 1 then Date(d.year, d.month, d.day - 1)
    else if d.month > 1 then Date(d.year, d.month - 1, DaysInMonth(d.year, d.month - 1))
    else NextYear(d.year - 1); Date(d.year - 1, 12, 31)
  }

  /** `d + timedelta(days=n)`: the date whose ordinal is n more than d's. */
  function AddDays(d: Date, n: int): (r: Date)
    requires Valid(d)
    ensures Valid(r) && Ordinal(r) == Ordinal(d) + n
    decreases if n < 0 then -n else n
  {
    if n == 0 then d
    else if n > 0 then AddDays(NextDay(d), n - 1)
    else AddDays(PrevDay(d), n + 1)
  }

  /** `date.weekday()`: Monday is 0, Sunday is 6. */
  function Weekday(d: Date): (w: int)
    requires Valid(d)
    ensures 0 <= w <= 6
  {
    (Ordinal(d) + 6) % 7
  }

  /** Days move the weekday round the week, modulo 7. */
  lemma WeekdayAfter(d: Date, n: int)
    requires Valid(d)
    ensures Weekday(AddDays(d, n)) == (Weekday(d) + n) % 7
  {
    var o := Ordinal(d);
    var w := (o + 6) % 7;
    var q := (o + 6) / 7;
    var q2, r2 := (w + n) / 7, (w + n) % 7;
    DivideBy(o + n + 6, 7, q + q2, r2);
  }

  /** The same, for a weekday the caller has already computed. */
  lemma WeekdayAfterIs(d: Date, n: int, w: int)
    requires Valid(d) && (Weekday(d) + n) % 7 == w
    ensures Weekday(AddDays(d, n)) == w
  {
    WeekdayAfter(d, n);
  }

  // ISO 8601 week dates

  /** Ordinals of Mondays are 1 modulo 7 (0001-01-01 was a Monday). */
  predicate IsMonday(o: int) {
    o % 7 == 1
  }

  /** Ordinal of the Monday that starts d's Monday-to-Sunday week. */
  function MondayOf(d: Date): int
    requires Valid(d)
  {
    Ordinal(d) - Weekday(d)
  }

  /** The ordinal of the Monday of ISO week 1 of year y: the Monday of the
      week that holds January 4th. */
  function IsoWeekOneMonday(y: int): int {
    var january4 := DaysBeforeYear(y) + 4;
    january4 - (january4 + 6) % 7
  }

  /** `date.isocalendar()`: ISO year, ISO week number (1-based) and ISO
      weekday (Monday is 1). */
  datatype IsoDate = IsoDate(year: int, week: int, weekday: int)

  function IsoCalendar(d: Date): IsoDate
    requires Valid(d)
  {
    IsoOfOrdinal(d.year, Ordinal(d))
  }

  /** `isocalendar()` of the day with ordinal o in calendar year y. */
  function IsoOfOrdinal(y: int, o: int): IsoDate {
    IsoWeekDate(y, o, IsoWeekOneMonday(y - 1), IsoWeekOneMonday(y), IsoWeekOneMonday(y + 1))
  }

  /** The steps of `isocalendar()` for ordinal o in calendar year y, given
      the week-one Mondays of the years y-1, y and y+1. */
  function IsoWeekDate(y: int, o: int, previous: int, weekOne: int, next: int): IsoDate {
    var week, day := (o - weekOne) / 7, (o - weekOne) % 7;
    if week < 0 then
      IsoDate(y - 1, (o - previous) / 7 + 1, (o - previous) % 7 + 1)
    else if week >= 52 && o >= next then
      IsoDate(y + 1, 1, day + 1)
    else
      IsoDate(y, week + 1, day + 1)
  }

  lemma MondaysApart(a: int, b: int)
    requires IsMonday(a) && IsMonday(b)
    ensures (a - b) % 7 == 0 && a - b == 7 * ((a - b) / 7)
  {
    DivideBy(a - b, 7, a / 7 - b / 7, 0);
  }

  /** Going back from ordinal x by its weekday lands on a Monday. */
  lemma BackToMonday(x: int)
    ensures IsMonday(x - (x + 6) % 7) && x - 6 <= x - (x + 6) % 7 <= x
  {
    DivideBy(x - (x + 6) % 7, 7, (x + 6) / 7 - 1, 1);
  }

  lemma IsoWeekOneMondayFacts(y: int)
    ensures IsMonday(IsoWeekOneMonday(y))
    ensures DaysBeforeYear(y) - 2 <= IsoWeekOneMonday(y) <= DaysBeforeYear(y) + 4
  {
    BackToMonday(DaysBeforeYear(y) + 4);
  }

  /** Python's `_isoweek1monday`: back from January 1st to its Monday, and
      one week on when January 1st falls after Thursday. It picks the same
      Monday as the January 4th rule. */
  lemma IsoWeekOneMondayAsPython(y: int)
    ensures var first := DaysBeforeYear(y) + 1;
      var firstWeekday := (first + 6) % 7;
      var monday := first - firstWeekday;
      IsoWeekOneMonday(y) == if firstWeekday > 3 then monday + 7 else monday
  {
    var first := DaysBeforeYear(y) + 1;
    var w := (first + 6) % 7;
    var q := (first + 6) / 7;
    if w <= 3 {
      DivideBy(first + 9, 7, q, w + 3);
    } else {
      DivideBy(first + 9, 7, q + 1, w - 4);
    }
  }

  lemma WeekOneMondaysApart(a: int, b: int, firstA: int, firstB: int)
    requires IsMonday(a) && IsMonday(b)
    requires firstA - 3 <= a <= firstA + 3 && firstB - 3 <= b <= firstB + 3
    requires firstA + 365 <= firstB <= firstA + 366
    ensures b - a == 364 || b - a == 371
  {
    MondaysApart(b, a);
  }

  /** An ISO year has 52 or 53 weeks. */
  lemma IsoYearLength(y: int)
    ensures IsoWeekOneMonday(y + 1) - IsoWeekOneMonday(y) == 364
         || IsoWeekOneMonday(y + 1) - IsoWeekOneMonday(y) == 371
  {
    NextYear(y);
    IsoWeekOneMondayFacts(y);
    IsoWeekOneMondayFacts(y + 1);
    WeekOneMondaysApart(IsoWeekOneMonday(y), IsoWeekOneMonday(y + 1),
      DaysBeforeYear(y) + 1, DaysBeforeYear(y + 1) + 1);
  }

  lemma {:induction false} IsoYearsOrdered(a: int, b: int)
    requires a < b
    ensures IsoWeekOneMonday(a + 1) <= IsoWeekOneMonday(b)
    decreases b - a
  {
    if a + 1 < b {
      IsoYearsOrdered(a + 1, b);
      IsoYearLength(a + 1);
    }
  }

  /** The facts about ordinal o of calendar year y that the ISO computation
      relies on, in the form IsoBranches takes them. */
  lemma IsoSetting(y: int, o: int)
    requires DaysBeforeYear(y) < o <= DaysBeforeYear(y + 1)
    ensures var m := o - (o + 6) % 7;
      var w0, w1, w2, w3 := IsoWeekOneMonday(y - 1), IsoWeekOneMonday(y), IsoWeekOneMonday(y + 1), IsoWeekOneMonday(y + 2);
      && IsMonday(m) && IsMonday(w0) && IsMonday(w1) && IsMonday(w2)
      && 0 <= (o + 6) % 7 <= 6
      && w0 + 364 <= w1 <= w0 + 371 && w1 + 364 <= w2 <= w1 + 371 && w2 + 364 <= w3
      && w0 + 7 < o <= w2 + 2
  {
    BackToMonday(o);
    IsoWeekOneMondayFacts(y - 1);
    IsoWeekOneMondayFacts(y);
    IsoWeekOneMondayFacts(y + 1);
    IsoYearLength(y - 1);
    IsoYearLength(y);
    IsoYearLength(y + 1);
    NextYear(y - 1);
  }

  /** The case analysis behind IsoOrdinalLocatesMonday, on the Mondays alone. */
  lemma IsoBranches(y: int, o: int, m: int, wd: int, w0: int, w1: int, w2: int, w3: int)
    requires IsMonday(m) && IsMonday(w0) && IsMonday(w1) && IsMonday(w2)
    requires m == o - wd && 0 <= wd <= 6
    requires w0 + 364 <= w1 <= w0 + 371 && w1 + 364 <= w2 <= w1 + 371 && w2 + 364 <= w3
    requires w0 + 7 < o <= w2 + 2
    ensures var c := IsoWeekDate(y, o, w0, w1, w2);
      && 1 <= c.week <= 53 && c.weekday == wd + 1
      && y - 1 <= c.year <= y + 1
      && var start := if c.year == y - 1 then w0 else if c.year == y then w1 else w2;
      && var end := if c.year == y - 1 then w1 else if c.year == y then w2 else w3;
      && m == start + 7 * (c.week - 1) && start <= m < end
  {
    MondaysApart(m, w1);
    DivideBy(o - w1, 7, (m - w1) / 7, wd);
    MondaysApart(m, w0);
    DivideBy(o - w0, 7, (m - w0) / 7, wd);
    MondaysApart(m, w2);
  }

  /** `isocalendar()` of ordinal o: the ISO year whose weeks contain o's
      Monday, and the position of that Monday among them. */
  lemma IsoOrdinalLocatesMonday(y: int, o: int)
    requires DaysBeforeYear(y) < o <= DaysBeforeYear(y + 1)
    ensures var c, m := IsoOfOrdinal(y, o), o - (o + 6) % 7;
      && 1 <= c.week <= 53
      && c.weekday == (o + 6) % 7 + 1
      && m == IsoWeekOneMonday(c.year) + 7 * (c.week - 1)
      && IsoWeekOneMonday(c.year) <= m < IsoWeekOneMonday(c.year + 1)
  {
    IsoSetting(y, o);
    IsoBranches(y, o, o - (o + 6) % 7, (o + 6) % 7, IsoWeekOneMonday(y - 1),
      IsoWeekOneMonday(y), IsoWeekOneMonday(y + 1), IsoWeekOneMonday(y + 2));
    WeekOneOfIsoYear(y, IsoOfOrdinal(y, o).year);
  }

  /** What `isocalendar()` computes for a date: the ISO year whose weeks
      contain d's Monday, and the position of that Monday among them. */
  lemma IsoCalendarLocatesMonday(d: Date)
    requires Valid(d)
    ensures var c := IsoCalendar(d);
      && 1 <= c.week <= 53
      && c.weekday == Weekday(d) + 1
      && MondayOf(d) == IsoWeekOneMonday(c.year) + 7 * (c.week - 1)
      && IsoWeekOneMonday(c.year) <= MondayOf(d) < IsoWeekOneMonday(c.year + 1)
  {
    OrdinalWithinYear(d);
    IsoOrdinalLocatesMonday(d.year, Ordinal(d));
  }

  lemma WeekOneOfIsoYear(y: int, iy: int)
    requires y - 1 <= iy <= y + 1
    ensures IsoWeekOneMonday(iy) == if iy == y - 1 then IsoWeekOneMonday(y - 1)
      else if iy == y then IsoWeekOneMonday(y) else IsoWeekOneMonday(y + 1)
    ensures IsoWeekOneMonday(iy + 1) == if iy == y - 1 then IsoWeekOneMonday(y)
      else if iy == y then IsoWeekOneMonday(y + 1) else IsoWeekOneMonday(y + 2)
  {
  }

  /** Equal ISO year and week number mean the same Monday. */
  lemma SameIsoWeekSameMonday(a: Date, b: Date)
    requires Valid(a) && Valid(b)
    requires IsoCalendar(a).year == IsoCalendar(b).year && IsoCalendar(a).week == IsoCalendar(b).week
    ensures MondayOf(a) == MondayOf(b)
  {
    IsoCalendarLocatesMonday(a);
    IsoCalendarLocatesMonday(b);
  }

  /** A Monday lies in exactly one ISO year: the week-one Mondays grow. */
  lemma MondayFixesIsoYear(m: int, ya: int, yb: int)
    requires IsoWeekOneMonday(ya) <= m < IsoWeekOneMonday(ya + 1)
    requires IsoWeekOneMonday(yb) <= m < IsoWeekOneMonday(yb + 1)
    ensures ya == yb
  {
    if ya < yb {
      IsoYearsOrdered(ya, yb);
    } else if yb < ya {
      IsoYearsOrdered(yb, ya);
    }
  }

  /** The same Monday means equal ISO year and week number. */
  lemma SameMondaySameIsoWeek(a: Date, b: Date)
    requires Valid(a) && Valid(b)
    requires MondayOf(a) == MondayOf(b)
    ensures IsoCalendar(a).year == IsoCalendar(b).year && IsoCalendar(a).week == IsoCalendar(b).week
  {
    IsoWeekOfMonday(a);
    IsoWeekOfMonday(b);
    MondayFixesIsoWeek(MondayOf(a), IsoCalendar(a).year, IsoCalendar(a).week,
      MondayOf(b), IsoCalendar(b).year, IsoCalendar(b).week);
  }

  lemma IsoWeekOfMonday(d: Date)
    requires Valid(d)
    ensures var c := IsoCalendar(d);
      && MondayOf(d) == IsoWeekOneMonday(c.year) + 7 * (c.week - 1)
      && IsoWeekOneMonday(c.year) <= MondayOf(d) < IsoWeekOneMonday(c.year + 1)
  {
    IsoCalendarLocatesMonday(d);
  }

  /** A Monday has one ISO year and one week number within it. */
  lemma MondayFixesIsoWeek(ma: int, ya: int, wa: int, mb: int, yb: int, wb: int)
    requires ma == IsoWeekOneMonday(ya) + 7 * (wa - 1) && IsoWeekOneMonday(ya) <= ma < IsoWeekOneMonday(ya + 1)
    requires mb == IsoWeekOneMonday(yb) + 7 * (wb - 1) && IsoWeekOneMonday(yb) <= mb < IsoWeekOneMonday(yb + 1)
    requires ma == mb
    ensures ya == yb && wa == wb
  {
    MondayFixesIsoYear(ma, ya, yb);
  }

  /** Two dates have the same ISO year and week number exactly when they
      fall in the same Monday-to-Sunday week. */
  lemma SameIsoWeekIffSameMonday(a: Date, b: Date)
    requires Valid(a) && Valid(b)
    ensures (IsoCalendar(a).year == IsoCalendar(b).year && IsoCalendar(a).week == IsoCalendar(b).week)
        <==> MondayOf(a) == MondayOf(b)
  {
    if MondayOf(a) == MondayOf(b) {
      SameMondaySameIsoWeek(a, b);
    }
    if IsoCalendar(a).year == IsoCalendar(b).year && IsoCalendar(a).week == IsoCalendar(b).week {
      SameIsoWeekSameMonday(a, b);
    }
  }
}
