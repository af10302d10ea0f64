/** Where a parsed due text files its task, and the date its section is
    sorted by: `group_task` (todo.py:102-108) and the section and sort-key
    computations of `build_display_list` (todo.py:243-251, 263-269). */
module Resolve {
  import opened Outcomes
  import opened Dates
  import opened DueParser

  datatype Section = Past | Today | Later

  /** `group_task(indices)`: today when the list holds today's weekday,
      past when every index is before it (so also when the list is empty),
      later otherwise. */
  function GroupTask(indices: seq<int>, todayIdx: int): Section {
    if todayIdx in indices then Today
    else if forall k :: 0 <= k < |indices| ==> indices[k] < todayIdx then Past
    else Later
  }

  /** The section of a due text: a date against today, a weekday list by
      `group_task`. */
  function SectionOf(spec: DueSpec, today: Date): Section
    requires Valid(today) && WellFormed(spec)
  {
    match spec
    case ConcreteDate(d) => if Less(d, today) then Past else if d == today then Today else Later
    case Weekdays(ws) => GroupTask(ws, Weekday(today))
  }

  /** Where the largest index of a non-empty list first occurs. */
  function MaxPosition(ws: seq<int>): (j: nat)
    requires |ws| > 0
    ensures j < |ws| && forall k :: 0 <= k < |ws| ==> ws[k] <= ws[j]
  {
    if |ws| == 1 then 0
    else
      var j := MaxPosition(ws[..|ws| - 1]);
      assert forall k :: 0 <= k < |ws| - 1 ==> ws[k] == ws[..|ws| - 1][k];
      if ws[|ws| - 1] > ws[j] then |ws| - 1 else j
  }

  /** The largest index of a non-empty list. */
  function MaxIndex(ws: seq<int>): int
    requires |ws| > 0
  {
    ws[MaxPosition(ws)]
  }

  /** `[today_date + timedelta(days=(i - today_idx)) for i in idxs]`: each
      weekday of the list, in today's Monday-to-Sunday week. */
  function WeekdayDates(ws: seq<int>, today: Date): (ds: seq<Date>)
    requires Valid(today)
    ensures |ds| == |ws|
    ensures forall k :: 0 <= k < |ws| ==>
      && ds[k] == AddDays(today, ws[k] - Weekday(today))
      && Valid(ds[k]) && Ordinal(ds[k]) == Ordinal(today) + ws[k] - Weekday(today)
  {
    seq(|ws|, k requires 0 <= k < |ws| => AddDays(today, ws[k] - Weekday(today)))
  }

  predicate AllValid(ds: seq<Date>) {
    forall k :: 0 <= k < |ds| ==> Valid(ds[k])
  }

  /** Where `max(dates)` finds its result: the first of the latest dates,
      since `max` only moves on to a strictly later one. */
  function LatestPosition(ds: seq<Date>): (j: nat)
    requires |ds| > 0 && AllValid(ds)
    ensures j < |ds|
    ensures forall k :: 0 <= k < |ds| ==> !Less(ds[j], ds[k])
    ensures forall k :: 0 <= k < j ==> Less(ds[k], ds[j])
  {
    if |ds| == 1 then 0
    else
      var init := ds[..|ds| - 1];
      var j := LatestPosition(init);
      var last := ds[|ds| - 1];
      assert forall k :: 0 <= k < |ds| - 1 ==> ds[k] == init[k];
      if Less(ds[j], last) then
        forall k | 0 <= k < |ds| - 1
          ensures !Less(last, ds[k]) && Less(ds[k], last)
        {
          LessIsOrdinalLess(ds[j], ds[k]);
          LessIsOrdinalLess(ds[k], ds[j]);
          LessIsOrdinalLess(ds[j], last);
          LessIsOrdinalLess(last, ds[k]);
          LessIsOrdinalLess(ds[k], last);
        }
        |ds| - 1
      else
        LessIsOrdinalLess(ds[j], last);
        j
  }

  /** `max(dates)`. */
  function MaxDate(ds: seq<Date>): Date
    requires |ds| > 0 && AllValid(ds)
  {
    ds[LatestPosition(ds)]
  }

  /** Dates that lie the days of a list after a base day: `max` picks the
      date of the largest of them. */
  lemma MaxDateOfOffsets(ds: seq<Date>, ws: seq<int>, base: int)
    requires |ds| == |ws| > 0 && AllValid(ds)
    requires forall k :: 0 <= k < |ds| ==> Ordinal(ds[k]) == base + ws[k]
    ensures MaxDate(ds) == ds[MaxPosition(ws)]
  {
    var i, j := LatestPosition(ds), MaxPosition(ws);
    LessIsOrdinalLess(ds[i], ds[j]);
    LessIsOrdinalLess(ds[j], ds[i]);
  }

  /** The sort key: the date itself, or for a weekday list the latest of
      its dates. Nothing for an empty list, where `max()` raises. */
  function SortKey(spec: DueSpec, today: Date): (r: Option<Date>)
    requires Valid(today) && WellFormed(spec)
    ensures r.Some? ==> Valid(r.value)
    ensures r.None? <==> spec == Weekdays([])
  {
    match spec
    case ConcreteDate(d) => Some(d)
    case Weekdays(ws) => if |ws| == 0 then None else Some(MaxDate(WeekdayDates(ws, today)))
  }

  /** The sort key of a weekday list is the date of its largest weekday in
      today's week. */
  lemma WeekdayKeyIsLatestDay(ws: seq<int>, today: Date)
    requires Valid(today) && AllWeekdays(ws) && |ws| > 0
    ensures SortKey(Weekdays(ws), today) == Some(AddDays(today, MaxIndex(ws) - Weekday(today)))
  {
    LatestWeekdayDate(ws, today);
  }

  lemma LatestWeekdayDate(ws: seq<int>, today: Date)
    requires Valid(today) && |ws| > 0
    ensures MaxDate(WeekdayDates(ws, today)) == AddDays(today, MaxIndex(ws) - Weekday(today))
  {
    var ds, j := WeekdayDates(ws, today), MaxPosition(ws);
    MaxDateOfOffsets(ds, ws, Ordinal(today) - Weekday(today));
    var latest, key := MaxDate(ds), AddDays(today, MaxIndex(ws) - Weekday(today));
    assert Ordinal(latest) == Ordinal(key);
    LessIsOrdinalLess(latest, key);
  }

  /** `today_date + timedelta(days=(i - today_idx))` is weekday i of today's
      Monday-to-Sunday week, at most six days from today; so that is where
      a weekday list's sort key lies. */
  lemma DayInTodaysWeek(today: Date, i: int)
    requires Valid(today) && 0 <= i <= 6
    ensures var d := AddDays(today, i - Weekday(today));
      && Weekday(d) == i
      && MondayOf(d) == MondayOf(today)
      && Ordinal(today) - 6 <= Ordinal(d) <= Ordinal(today) + 6
  {
    var w := Weekday(today);
    DayOfTodaysWeek(today, i, w);
    var d := AddDays(today, i - w);
    assert Ordinal(d) == Ordinal(today) + (i - w);
  }

  lemma DayOfTodaysWeek(today: Date, i: int, w: int)
    requires Valid(today) && 0 <= i <= 6 && w == Weekday(today)
    ensures Weekday(AddDays(today, i - w)) == i
  {
    OffsetInWeek(w, i);
    WeekdayAfterIs(today, i - w, i);
  }

  lemma OffsetInWeek(w: int, i: int)
    requires 0 <= w <= 6 && 0 <= i <= 6
    ensures (w + (i - w)) % 7 == i && -6 <= i - w <= 6
  {
  }

  /** The section agrees with the sort key: past exactly when the key is
      before today, later only when it is after today, and a today task's
      key is never before today (for a date, it is today). */
  lemma SectionMatchesKey(spec: DueSpec, today: Date)
    requires Valid(today) && WellFormed(spec) && SortKey(spec, today).Some?
    ensures var s, key := SectionOf(spec, today), SortKey(spec, today).value;
      && (s == Past <==> Less(key, today))
      && (s == Later ==> Less(today, key))
      && (s == Today ==> !Less(key, today) && (spec.ConcreteDate? ==> key == today))
  {
    match spec
    case ConcreteDate(d) =>
      LessIsOrdinalLess(d, today);
      LessIsOrdinalLess(today, d);
    case Weekdays(ws) =>
      WeekdayKeyIsLatestDay(ws, today);
      WeekdaySectionMatchesKey(ws, today);
  }

  lemma WeekdaySectionMatchesKey(ws: seq<int>, today: Date)
    requires Valid(today) && AllWeekdays(ws) && |ws| > 0
    ensures var s, key := GroupTask(ws, Weekday(today)), AddDays(today, MaxIndex(ws) - Weekday(today));
      && (s == Past <==> Less(key, today))
      && (s == Later ==> Less(today, key))
      && (s == Today ==> !Less(key, today))
  {
    var key := AddDays(today, MaxIndex(ws) - Weekday(today));
    GroupTaskByMax(ws, Weekday(today));
    LessIsOrdinalLess(key, today);
    LessIsOrdinalLess(today, key);
  }

  /** `group_task` compares the largest index with today's: past when it is
      smaller, later when it is larger (and today's is missing). */
  lemma GroupTaskByMax(ws: seq<int>, w: int)
    requires |ws| > 0
    ensures GroupTask(ws, w) == Past <==> MaxIndex(ws) < w
    ensures GroupTask(ws, w) == Later ==> MaxIndex(ws) > w
    ensures GroupTask(ws, w) == Today <==> w in ws
    ensures GroupTask(ws, w) == Today ==> MaxIndex(ws) >= w
  {
    if w in ws {
      var k :| 0 <= k < |ws| && ws[k] == w;
    } else if forall k :: 0 <= k < |ws| ==> ws[k] < w {
    } else {
      var k :| 0 <= k < |ws| && !(ws[k] < w);
    }
  }

  /** A today task's weekday key is today exactly when no index of the list
      comes after today's weekday. */
  lemma TodayKeyIsToday(ws: seq<int>, today: Date)
    requires Valid(today) && AllWeekdays(ws) && Weekday(today) in ws
    ensures SortKey(Weekdays(ws), today) == Some(today)
        <==> forall k :: 0 <= k < |ws| ==> ws[k] <= Weekday(today)
  {
    WeekdayKeyIsLatestDay(ws, today);
    LessIsOrdinalLess(AddDays(today, MaxIndex(ws) - Weekday(today)), today);
  }

  /** "tomorrow" on a Sunday is Monday's index 0, which `group_task` files
      under past, with this week's Monday, six days ago, as its key. */
  lemma TomorrowOnSunday(today: Date)
    requires Valid(today) && Weekday(today) == 6
    ensures SectionOf(Weekdays([(Weekday(today) + 1) % 7]), today) == Past
    ensures var key := SortKey(Weekdays([(Weekday(today) + 1) % 7]), today);
      key.Some? && Ordinal(key.value) == Ordinal(today) - 6
  {
    assert [(Weekday(today) + 1) % 7] == [0];
    assert GroupTask([0], 6) == Past;
    MondayKeyOnSunday(today);
  }

  lemma MondayKeyOnSunday(today: Date)
    requires Valid(today) && Weekday(today) == 6
    ensures SortKey(Weekdays([0]), today).Some?
    ensures Ordinal(SortKey(Weekdays([0]), today).value) == Ordinal(today) - 6
  {
    assert MaxIndex([0]) == 0;
    WeekdayKeyIsLatestDay([0], today);
  }
}
