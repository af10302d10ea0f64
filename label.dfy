/** The due text the listing shows for a task (todo.py:253-266): "Tomorrow",
    "Today", a day name, "Month D", or the weekday names joined by "/". */
module Labels {
  import opened Outcomes
  import opened Dates
  import opened Text
  import opened Tables
  import opened DueParser

  /** `[calendar.day_name[i] for i in idxs]`. */
  function DayNamesOf(ws: seq<int>): (names: seq<string>)
    requires AllWeekdays(ws)
    ensures |names| == |ws| && forall k :: 0 <= k < |ws| ==> names[k] == DayNames[ws[k]]
  {
    seq(|ws|, k requires 0 <= k < |ws| => DayNames[ws[k]])
  }

  /** The label of a due text. A date is "Tomorrow" or "Today" if it is one,
      the name of its weekday if its ISO week number is today's (the ISO
      year is not compared), and "Month D" otherwise. */
  function Label(spec: DueSpec, today: Date): string
    requires Valid(today) && WellFormed(spec)
  {
    match spec
    case ConcreteDate(d) =>
      if d == NextDay(today) then "Tomorrow"
      else if d == today then "Today"
      else if IsoCalendar(d).week == IsoCalendar(today).week then DayNames[Weekday(d)]
      else MonthNames[d.month - 1] + " " + DecimalString(d.day)
    case Weekdays(ws) => Join(DayNamesOf(ws), "/")
  }

  /** The day after today shows "Tomorrow" and today itself "Today". */
  lemma NearLabels(today: Date)
    requires Valid(today)
    ensures Label(ConcreteDate(NextDay(today)), today) == "Tomorrow"
    ensures Label(ConcreteDate(today), today) == "Today"
  {
    assert Ordinal(NextDay(today)) != Ordinal(today);
  }

  /** Any other date of today's Monday-to-Sunday week shows its day name. */
  lemma SameWeekLabel(d: Date, today: Date)
    requires Valid(d) && Valid(today) && d != today && d != NextDay(today)
    requires MondayOf(d) == MondayOf(today)
    ensures Label(ConcreteDate(d), today) == DayNames[Weekday(d)]
  {
    SameMondaySameIsoWeek(d, today);
  }

  /** A date of another week of the same ISO year shows month and day. */
  lemma OtherWeekLabel(d: Date, today: Date)
    requires Valid(d) && Valid(today) && d != today && d != NextDay(today)
    requires IsoCalendar(d).year == IsoCalendar(today).year && MondayOf(d) != MondayOf(today)
    ensures Label(ConcreteDate(d), today) == MonthNames[d.month - 1] + " " + DecimalString(d.day)
  {
    SameIsoWeekIffSameMonday(d, today);
  }

  /** Only the week number is compared: on Monday 2024-01-01 (ISO week 1 of
      2024) the task due "dec30" of the same year, 2024-12-30 (ISO week 1 of
      2025), is labelled "Monday", though it is 52 weeks away. */
  lemma LabelIsoWeekNumberOnly()
    ensures var today, d := Date(2024, 1, 1), Date(2024, 12, 30);
      && Valid(today) && Valid(d)
      && MondayOf(d) == MondayOf(today) + 364
      && Label(ConcreteDate(d), today) == "Monday"
  {
    MondaysOf2024();
    LabelOfLastMonday2024();
  }

  lemma LabelOfLastMonday2024()
    ensures Label(ConcreteDate(Date(2024, 12, 30)), Date(2024, 1, 1)) == "Monday"
  {
    MondaysOf2024();
    IsoOfFirstMonday2024();
    IsoOfLastMonday2024();
    assert NextDay(Date(2024, 1, 1)) == Date(2024, 1, 2);
  }

  lemma YearStarts()
    ensures DaysBeforeYear(2023) == 738520 && DaysBeforeYear(2024) == 738885
    ensures DaysBeforeYear(2025) == 739251 && DaysBeforeYear(2026) == 739616
  {
    DaysBeforeYearClosedForm(2023);
    DaysBeforeYearClosedForm(2024);
    DaysBeforeYearClosedForm(2025);
    DaysBeforeYearClosedForm(2026);
  }

  lemma Ordinals2024()
    ensures Ordinal(Date(2024, 1, 1)) == 738886 && Ordinal(Date(2024, 12, 30)) == 739250
  {
    YearStarts();
  }

  lemma WeekOneMondays()
    ensures IsoWeekOneMonday(2023) == 738522 && IsoWeekOneMonday(2024) == 738886
    ensures IsoWeekOneMonday(2025) == 739250
  {
    YearStarts();
  }

  lemma MondaysOf2024()
    ensures Weekday(Date(2024, 1, 1)) == 0 && Weekday(Date(2024, 12, 30)) == 0
    ensures MondayOf(Date(2024, 12, 30)) == MondayOf(Date(2024, 1, 1)) + 364
  {
    Ordinals2024();
  }

  /** 2024-01-01 is the Monday of ISO week 1 of 2024. */
  lemma IsoOfFirstMonday2024()
    ensures IsoCalendar(Date(2024, 1, 1)) == IsoDate(2024, 1, 1)
  {
    Ordinals2024();
    WeekOneMondays();
    assert IsoOfOrdinal(2024, 738886) == IsoWeekDate(2024, 738886, 738522, 738886, 739250);
  }

  /** 2024-12-30 is the Monday of ISO week 1 of 2025. */
  lemma IsoOfLastMonday2024()
    ensures IsoCalendar(Date(2024, 12, 30)) == IsoDate(2025, 1, 1)
  {
    Ordinals2024();
    WeekOneMondays();
    assert IsoOfOrdinal(2024, 739250) == IsoWeekDate(2024, 739250, 738522, 738886, 739250);
  }

  /** The lower-case name of each weekday of a list. */
  function DayKeysOf(ws: seq<int>): (keys: seq<string>)
    requires AllWeekdays(ws)
    ensures |keys| == |ws| && forall k :: 0 <= k < |ws| ==> keys[k] == DayKeys[ws[k]]
  {
    seq(|ws|, k requires 0 <= k < |ws| => DayKeys[ws[k]])
  }

  /** Lower-case ASCII letters and "/". */
  predicate KeyText(s: string) {
    forall i :: 0 <= i < |s| ==> 'a' <= s[i] <= 'z' || s[i] == '/'
  }

  lemma DayKeysAreKeyText()
    ensures forall i :: 0 <= i < 7 ==> |DayKeys[i]| > 0 && KeyText(DayKeys[i]) && NoSeparator(DayKeys[i])
  {
  }

  lemma DayKeysAreNotTodayWords()
    ensures forall i :: 0 <= i < 7 ==>
      DayKeys[i] != "today" && DayKeys[i] != "tod" && DayKeys[i] != "tomorrow" && DayKeys[i] != "tom"
  {
  }

  lemma {:induction false} JoinKeyText(parts: seq<string>)
    requires forall k :: 0 <= k < |parts| ==> KeyText(parts[k])
    ensures KeyText(Join(parts, "/"))
    decreases |parts|
  {
    if |parts| > 1 {
      JoinKeyText(parts[1..]);
      var a, b := parts[0] + "/", Join(parts[1..], "/");
      assert forall i :: 0 <= i < |a + b| ==> (a + b)[i] == if i < |a| then a[i] else b[i - |a|];
    }
  }

  /** The `day_map` index of the lower-case name of weekday i is i. */
  lemma SegmentOfDayKey(i: int)
    requires 0 <= i <= 6
    ensures SegmentIndex(DayKeys[i]) == [i]
  {
    DayNameLowered(i);
    DayNamesInDayMap(i);
    DayKeysLowerCase();
    DayKeysAreKeyText();
    StripUnspaced(DayKeys[i]);
    LowerNoUpper(DayKeys[i]);
  }

  /** The weekday rule reads the lower-case names back as their indices. */
  lemma DayKeysIndices(ws: seq<int>)
    requires AllWeekdays(ws)
    ensures WeekdayIndices(DayKeysOf(ws)) == ws
  {
    var keys := DayKeysOf(ws);
    forall k | 0 <= k < |ws|
      ensures SegmentIndex(keys[k]) == [ws[k]]
    {
      SegmentOfDayKey(ws[k]);
    }
    IndicesOfSegments(keys, ws);
  }

  /** What the parser sees of a weekday label: the lower-case names joined
      by "/". */
  lemma LabelText(ws: seq<int>)
    requires AllWeekdays(ws) && |ws| > 0
    ensures Lower(Strip(Join(DayNamesOf(ws), "/"))) == Join(DayKeysOf(ws), "/")
    ensures KeyText(Join(DayKeysOf(ws), "/"))
  {
    var names, keys := DayNamesOf(ws), DayKeysOf(ws);
    forall k | 0 <= k < |ws|
      ensures LowerEach(names)[k] == keys[k]
    {
      DayNameLowered(ws[k]);
    }
    assert LowerEach(names) == keys;
    LowerJoin(names, "/");
    DayKeysAreKeyText();
    JoinKeyText(keys);
    var t := Join(keys, "/");
    StripLower(Join(names, "/"));
    StripUnspaced(t);
  }

  /** The joined lower-case names are no month-and-day text and no today or
      tomorrow word, and the weekday rule reads them back as the list. */
  lemma KeysParse(ws: seq<int>, today: Date)
    requires Valid(today) && AllWeekdays(ws) && |ws| > 0
    ensures var t := Join(DayKeysOf(ws), "/");
      MonthDayRule(t, today) == None && NamedDaysRule(t, today) == Weekdays(ws)
  {
    var keys := DayKeysOf(ws);
    var t := Join(keys, "/");
    LabelText(ws);
    assert MonthDayMatch(t).None?;
    NotTodayWord(ws);
    DayKeysAreKeyText();
    SplitJoin(keys);
    DayKeysIndices(ws);
  }

  lemma NotTodayWord(ws: seq<int>)
    requires AllWeekdays(ws) && |ws| > 0
    ensures var t := Join(DayKeysOf(ws), "/");
      t != "today" && t != "tod" && t != "tomorrow" && t != "tom"
  {
    DayKeysAreNotTodayWords();
    JoinedKeysAreNot(ws, "today");
    JoinedKeysAreNot(ws, "tod");
    JoinedKeysAreNot(ws, "tomorrow");
    JoinedKeysAreNot(ws, "tom");
  }

  /** The joined names are no word without a separator that is not itself a
      day name. */
  lemma JoinedKeysAreNot(ws: seq<int>, w: string)
    requires AllWeekdays(ws) && |ws| > 0
    requires NoSeparator(w) && forall i :: 0 <= i < 7 ==> DayKeys[i] != w
    ensures Join(DayKeysOf(ws), "/") != w
  {
    var keys := DayKeysOf(ws);
    DayKeysAreKeyText();
    SplitJoin(keys);
    SplitWhole(w);
    assert keys[0] == DayKeys[ws[0]];
  }

  /** A weekday label parses back to the very list it was made from. */
  lemma WeekdayLabelRoundTrip(ws: seq<int>, today: Date)
    requires Valid(today) && AllWeekdays(ws) && |ws| > 0
    ensures ParseDue(Label(Weekdays(ws), today), today) == Ok(Weekdays(ws))
  {
    LabelText(ws);
    KeysParse(ws, today);
  }
}
