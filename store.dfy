/** The task file and the commands that change it: `load_tasks` and
    `save_tasks` (todo.py:117-129, on rows rather than CSV text), and
    `add_task`, `remove_task`, `mark_done`, `unmark_done`
    (todo.py:133-193). */
module Store {
  import opened Outcomes
  import opened Dates
  import opened Text
  import opened Tables
  import opened Seqs
  import opened DueParser
  import opened Resolve
  import opened Display

  // Loading and saving

  /** A row `load_tasks` skips: an empty one, or a comment whose first
      field starts with '#'. */
  predicate Skipped(row: seq<string>) {
    |row| == 0 || StartsWith(row[0], "#")
  }

  predicate Kept(row: seq<string>) {
    !Skipped(row)
  }

  /** Field i of a row, or the empty text when the row is shorter. */
  function Field(row: seq<string>, i: nat): string {
    if |row| > i then row[i] else ""
  }

  /** The task of a kept row: its first three fields. */
  function TaskOfRow(row: seq<string>): Task {
    Task(Field(row, 0), Field(row, 1), Field(row, 2))
  }

  function RowTasks(row: seq<string>): seq<Task> {
    if Skipped(row) then [] else [TaskOfRow(row)]
  }

  /** `load_tasks` on the rows `csv.reader` yields. */
  function LoadTasks(rows: seq<seq<string>>): seq<Task> {
    FlatMap(RowTasks, rows)
  }

  /** `load_tasks` as written: a loop that skips or appends one row at a
      time. */
  method LoadRows(rows: seq<seq<string>>) returns (tasks: seq<Task>)
    ensures tasks == LoadTasks(rows)
  {
    tasks := [];
    for i := 0 to |rows|
      invariant tasks == LoadTasks(rows[..i])
    {
      var row := rows[i];
      FlatMapAppend(RowTasks, rows[..i], [row]);
      assert rows[..i + 1] == rows[..i] + [row];
      if |row| == 0 || StartsWith(row[0], "#") {
        continue;
      }
      var desc := row[0];
      var due := if |row| > 1 then row[1] else "";
      var stat := if |row| > 2 then row[2] else "";
      tasks := tasks + [Task(desc, due, stat)];
    }
    assert rows[..|rows|] == rows;
  }

  /** The tasks of a list of rows, one per row. */
  function TasksOfRows(rows: seq<seq<string>>): (ts: seq<Task>)
    ensures |ts| == |rows| && forall k :: 0 <= k < |rows| ==> ts[k] == TaskOfRow(rows[k])
  {
    seq(|rows|, k requires 0 <= k < |rows| => TaskOfRow(rows[k]))
  }

  /** Loading keeps the rows that are neither empty nor comments, in order,
      and makes one task of each. */
  lemma {:induction false} LoadKeptRows(rows: seq<seq<string>>)
    ensures LoadTasks(rows) == TasksOfRows(Filter(Kept, rows))
    decreases |rows|
  {
    if |rows| > 0 {
      var n := |rows| - 1;
      var init := rows[..n];
      LoadKeptRows(init);
      var kept := Filter(Kept, init);
      assert Filter(Kept, rows) == kept + (if Kept(rows[n]) then [rows[n]] else []);
      if Kept(rows[n]) {
        assert TasksOfRows(kept + [rows[n]]) == TasksOfRows(kept) + [TaskOfRow(rows[n])];
      }
    }
  }

  /** The rows `save_tasks` writes: `[desc, due, stat]` per task. */
  function SaveRows(tasks: seq<Task>): (rows: seq<seq<string>>)
    ensures |rows| == |tasks|
  {
    seq(|tasks|, k requires 0 <= k < |tasks| => [tasks[k].desc, tasks[k].due, tasks[k].stat])
  }

  predicate NotComment(task: Task) {
    !StartsWith(task.desc, "#")
  }

  /** Saving and loading again gives back the tasks, except the ones whose
      description starts with '#': those are read back as comments and
      dropped. */
  lemma {:induction false} LoadSaved(tasks: seq<Task>)
    ensures LoadTasks(SaveRows(tasks)) == Filter(NotComment, tasks)
    decreases |tasks|
  {
    if |tasks| > 0 {
      var n := |tasks| - 1;
      assert SaveRows(tasks)[..n] == SaveRows(tasks[..n]);
      LoadSaved(tasks[..n]);
      assert TaskOfRow(SaveRows(tasks)[n]) == tasks[n];
    }
  }

  /** With no description starting with '#', saving and loading is the
      identity. */
  lemma {:induction false} LoadSavedRoundTrip(tasks: seq<Task>)
    requires forall k :: 0 <= k < |tasks| ==> NotComment(tasks[k])
    ensures LoadTasks(SaveRows(tasks)) == tasks
    decreases |tasks|
  {
    LoadSaved(tasks);
    FilterKeepsAll(tasks);
  }

  lemma {:induction false} FilterKeepsAll(tasks: seq<Task>)
    requires forall k :: 0 <= k < |tasks| ==> NotComment(tasks[k])
    ensures Filter(NotComment, tasks) == tasks
    decreases |tasks|
  {
    if |tasks| > 0 {
      var n := |tasks| - 1;
      FilterKeepsAll(tasks[..n]);
      assert tasks[..n] + [tasks[n]] == tasks;
    }
  }

  // Adding: a bare weekday name becomes its next date

  predicate IsTodayWord(w: string) {
    w == "today" || w == "tod" || w == "tomorrow" || w == "tom"
  }

  /** The weekday `add_task` rewrites the due text to, if it does: the
      stripped, lower-cased text is all ASCII letters, not a today or
      tomorrow word, and a `day_map` key. */
  function WeekdayWord(due: string): (r: Option<int>)
    ensures r.Some? ==> 0 <= r.value <= 6
    ensures r.Some? ==> Lower(Strip(due)) in DayMap() && r.value == DayMap()[Lower(Strip(due))]
    ensures Lower(Strip(due)) in DayMap() ==> r.Some?
  {
    var w := Lower(Strip(due));
    if |w| > 0 && AllLetters(w) && !IsTodayWord(w) && w in DayMap() then
      DayMapRange(w);
      Some(DayMap()[w])
    else
      if w in DayMap() then DayKeysAreWords(w); None else None
  }

  /** `today_date + timedelta(days=(target_idx - today_idx) % 7)`: the first
      day from today on that falls on the target weekday. */
  function NextWeekday(today: Date, target: int): (d: Date)
    requires Valid(today) && 0 <= target <= 6
    ensures Valid(d) && Weekday(d) == target
    ensures 0 <= Ordinal(d) - Ordinal(today) <= 6
    ensures Weekday(today) == target <==> d == today
    ensures Ordinal(d) - Ordinal(today) == (target - Weekday(today)) % 7
  {
    NextWeekdayFacts(today, target, (target - Weekday(today)) % 7);
    AddDays(today, (target - Weekday(today)) % 7)
  }

  lemma NextWeekdayFacts(today: Date, target: int, delta: int)
    requires Valid(today) && 0 <= target <= 6 && delta == (target - Weekday(today)) % 7
    ensures var d := AddDays(today, delta);
      && Weekday(d) == target && 0 <= delta <= 6
      && (Weekday(today) == target <==> d == today)
  {
    DaysToWeekday(Weekday(today), target);
    WeekdayAfterIs(today, delta, target);
    NextWeekdayIsToday(today, delta);
  }

  /** Moving on by a number of days gives the same day exactly when the
      number is zero. */
  lemma NextWeekdayIsToday(today: Date, delta: int)
    requires Valid(today)
    ensures AddDays(today, delta) == today <==> delta == 0
  {
    LessIsOrdinalLess(AddDays(today, delta), today);
  }

  /** Python's `(target - w) % 7` days after weekday w is weekday target,
      and no earlier day from w on is. */
  lemma DaysToWeekday(w: int, target: int)
    requires 0 <= w <= 6 && 0 <= target <= 6
    ensures var delta := (target - w) % 7;
      && 0 <= delta <= 6 && (w + delta) % 7 == target
      && (delta == 0 <==> w == target)
  {
  }

  lemma NoEarlierWeekday(w: int, target: int, k: int)
    requires 0 <= w <= 6 && 0 <= target <= 6 && 0 <= k < (target - w) % 7
    ensures (w + k) % 7 != target
  {
  }

  /** No day from today on before the rewritten date falls on the target
      weekday. */
  lemma NextWeekdayIsFirst(today: Date, target: int, k: int)
    requires Valid(today) && 0 <= target <= 6
    requires 0 <= k < Ordinal(NextWeekday(today, target)) - Ordinal(today)
    ensures Weekday(AddDays(today, k)) != target
  {
    var w := Weekday(today);
    EarlierDayNotTarget(today, target, k, w, (target - w) % 7);
  }

  lemma EarlierDayNotTarget(today: Date, target: int, k: int, w: int, delta: int)
    requires Valid(today) && 0 <= target <= 6 && w == Weekday(today)
    requires delta == (target - w) % 7 && 0 <= k < delta
    ensures Weekday(AddDays(today, k)) != target
  {
    NoEarlierWeekday(w, target, k);
    WeekdayAfterIs(today, k, (w + k) % 7);
  }

  /** The text a date is stored as: `strftime('%B').lower() + str(day)`. */
  function DateText(d: Date): string
    requires Valid(d)
  {
    MonthKeys[d.month - 1] + DecimalString(d.day)
  }

  /** The due text `add_task` stores. */
  function NormalizeDue(due: string, today: Date): string
    requires Valid(today)
  {
    match WeekdayWord(due)
    case None => due
    case Some(target) => DateText(NextWeekday(today, target))
  }

  /** A stored date text reads back as that month and day of the year it is
      read in, when that day exists. */
  lemma DateTextParses(d: Date, today: Date)
    requires Valid(d) && Valid(today)
    ensures var e := Date(today.year, d.month, d.day);
      ParseDue(DateText(d), today) == if Valid(e) then Ok(ConcreteDate(e)) else Err(InvalidDate)
  {
    var key, digits := MonthKeys[d.month - 1], DecimalString(d.day);
    MonthKeysAreWordsAt(d.month);
    WordDigitsPlain(key, digits);
    DigitsValueOfDecimal(d.day);
    ParseMonthDay(key + digits, today, d.month, false, digits);
  }

  /** A lower-case word followed by digits is left alone by stripping and
      lower-casing. */
  lemma WordDigitsPlain(key: string, digits: string)
    requires |key| > 0 && AllLetters(key) && NoUpper(key)
    requires |digits| > 0 && AllDigits(digits)
    ensures Lower(Strip(key + digits)) == key + digits
  {
    var text := key + digits;
    assert NoUpper(text) by {
      assert forall i :: 0 <= i < |digits| ==> IsDigit(digits[i]);
    }
    assert !IsSpace(text[0]) by {
      assert text[0] == key[0];
    }
    assert !IsSpace(text[|text| - 1]) by {
      assert text[|text| - 1] == digits[|digits| - 1];
    }
    PlainText(text);
  }

  /** Within a year, a rewritten weekday reads back as the date it was
      rewritten to. */
  lemma NormalizedDueParses(due: string, today: Date)
    requires Valid(today) && WeekdayWord(due).Some?
    requires NextWeekday(today, WeekdayWord(due).value).year == today.year
    ensures ParseDue(NormalizeDue(due, today), today) == Ok(ConcreteDate(NextWeekday(today, WeekdayWord(due).value)))
  {
    DateTextParses(NextWeekday(today, WeekdayWord(due).value), today);
  }

  /** A due text naming a weekday (in any case, with any surrounding
      whitespace) is stored as the month and day of that weekday's next
      date, today included. */
  lemma DayNameRewritten(due: string, today: Date)
    requires Valid(today) && Lower(Strip(due)) in DayMap()
    ensures WeekdayWord(due) == Some(DayMap()[Lower(Strip(due))])
    ensures NormalizeDue(due, today) == DateText(NextWeekday(today, WeekdayWord(due).value))
  {
  }

  /** "Mon" is stored as the month and day of the next Monday. */
  lemma MonRewritten(today: Date)
    requires Valid(today)
    ensures NormalizeDue("Mon", today) == DateText(NextWeekday(today, 0))
  {
    StripUnspaced("Mon");
    assert "Mon"[1..] == "on" && "on"[1..] == "n" && "n"[1..] == "";
    assert Lower("Mon") == "mon";
    DayEntriesDistinct();
    DayMapUpToFinds(|DayEntries|, 1);
    DayNameRewritten("Mon", today);
  }

  /** Any other due text is stored as given. */
  lemma OtherDueKept(due: string, today: Date)
    requires Valid(today)
    requires Lower(Strip(due)) !in DayMap()
    ensures NormalizeDue(due, today) == due
  {
  }

  /** A day at most six days after today that is in another year is one of
      January 1-6 of the next year, and today is in December. */
  lemma YearEndDay(today: Date, d: Date)
    requires Valid(today) && Valid(d) && d.year != today.year
    requires 0 <= Ordinal(d) - Ordinal(today) <= 6
    ensures d.year == today.year + 1 && d.month == 1 && d.day <= 6 && today.month == 12
  {
    LessIsOrdinalLess(d, today);
    OrdinalWithinYear(d);
    OrdinalWithinYear(today);
    YearsAreOrdered(today.year, d.year);
    if d.year > today.year + 1 {
      YearsAreOrdered(today.year + 1, d.year);
      NextYear(today.year + 1);
    }
    if d.month > 1 {
      MonthsAreOrdered(d.year, 1, d.month);
    }
    NextYear(today.year);
    if today.month < 12 {
      MonthsAreOrdered(today.year, today.month, 12);
    }
  }

  /** Across the year end the rewrite loses the year: a weekday that falls in
      January of next year is stored as a January day, which reads back in
      this year, before today, so the task is filed under past. */
  lemma NormalizedDueAcrossYearEnd(due: string, today: Date)
    requires Valid(today) && WeekdayWord(due).Some?
    requires NextWeekday(today, WeekdayWord(due).value).year != today.year
    ensures var d := NextWeekday(today, WeekdayWord(due).value);
      var e := Date(today.year, 1, d.day);
      && ParseDue(NormalizeDue(due, today), today) == Ok(ConcreteDate(e))
      && Less(e, today)
      && SectionOf(ConcreteDate(e), today) == Past
  {
    var d := NextWeekday(today, WeekdayWord(due).value);
    YearEndDay(today, d);
    DateTextParses(d, today);
  }

  // The numbered commands

  /** Python's `display[idx - 1]` on a listing of n entries: positions count
      from 1, and 0 and negative numbers count back from the end (0 is the
      last entry). None where Python raises IndexError. */
  function ResolveIndex(n: nat, idx: int): (r: Option<nat>)
    ensures r.Some? <==> 1 - n <= idx <= n
    ensures r.Some? ==> r.value < n
    ensures r.Some? && idx >= 1 ==> r.value == idx - 1
    ensures r.Some? && idx <= 0 ==> r.value == n - 1 + idx
  {
    var p := idx - 1;
    if 0 <= p < n then Some(p as nat)
    else if p < 0 && n + p >= 0 then Some((n + p) as nat)
    else None
  }

  /** The task a listing number selects: the `orig_idx` of that entry, or
      the listing's error, or InvalidIndex. */
  function Target(tasks: seq<Task>, idx: int, today: Date): (r: Result<int>)
    requires Valid(today)
    ensures r.Ok? ==> 0 <= r.value < |tasks|
    ensures r.Err? && DisplayList(tasks, today).Ok? ==> r.error == InvalidIndex
  {
    match DisplayList(tasks, today)
    case Err(e) => Err(e)
    case Ok(d) =>
      match ResolveIndex(|d|, idx)
      case None => Err(InvalidIndex)
      case Some(p) =>
        DisplayRowsAreTasks(tasks, today);
        Ok(d[p].origIdx)
  }

  /** A number selects exactly when the listing exists and the number is in
      its range, and then it selects the task shown at that place. */
  lemma TargetIsShownTask(tasks: seq<Task>, idx: int, today: Date)
    requires Valid(today) && DisplayList(tasks, today).Ok?
    ensures var d := DisplayList(tasks, today).value;
      Target(tasks, idx, today).Ok? <==> 1 - |d| <= idx <= |d|
    ensures var d, t := DisplayList(tasks, today).value, Target(tasks, idx, today);
      t.Ok? ==>
        && t.value == d[ResolveIndex(|d|, idx).value].origIdx
        && MakeRow(t.value, tasks[t.value], today) == Ok(d[ResolveIndex(|d|, idx).value])
  {
    DisplayRowsAreTasks(tasks, today);
  }

  /** Different places in the listing select different tasks. */
  lemma TargetsDistinct(tasks: seq<Task>, i: int, j: int, today: Date)
    requires Valid(today) && DisplayList(tasks, today).Ok?
    requires Target(tasks, i, today).Ok? && Target(tasks, j, today).Ok?
    requires ResolveIndex(|DisplayList(tasks, today).value|, i) != ResolveIndex(|DisplayList(tasks, today).value|, j)
    ensures Target(tasks, i, today) != Target(tasks, j, today)
  {
    var d := DisplayList(tasks, today).value;
    TargetIsEntry(tasks, i, today);
    TargetIsEntry(tasks, j, today);
    EntriesDistinct(d, ResolveIndex(|d|, i).value, ResolveIndex(|d|, j).value, tasks, today);
  }

  /** A selecting number selects the `orig_idx` of the row at its place. */
  lemma TargetIsEntry(tasks: seq<Task>, idx: int, today: Date)
    requires Valid(today) && DisplayList(tasks, today).Ok? && Target(tasks, idx, today).Ok?
    ensures ResolveIndex(|DisplayList(tasks, today).value|, idx).Some?
    ensures Target(tasks, idx, today).value
      == DisplayList(tasks, today).value[ResolveIndex(|DisplayList(tasks, today).value|, idx).value].origIdx
  {
  }

  lemma EntriesDistinct(d: seq<Row>, p: nat, q: nat, tasks: seq<Task>, today: Date)
    requires Valid(today) && DisplayList(tasks, today) == Ok(d)
    requires p < |d| && q < |d| && p != q
    ensures d[p].origIdx != d[q].origIdx
  {
    DisplayIndicesDistinct(tasks, today);
    if p > q {
      assert d[q].origIdx != d[p].origIdx;
    }
  }

  function WithStatus(task: Task, stat: string): Task {
    Task(task.desc, task.due, stat)
  }

  /** The status of a task plays no part in its entry but the status
      field. */
  lemma RowWithStatus(i: int, task: Task, stat: string, today: Date)
    requires Valid(today)
    ensures MakeRow(i, WithStatus(task, stat), today) ==
      if MakeRow(i, task, today).Ok? then Ok(MakeRow(i, task, today).value.(stat := stat)) else MakeRow(i, task, today)
  {
  }

  /** After task t's status becomes stat, the listing still exists, and task
      t is listed exactly when it is not past or is done and at most a week
      old. */
  lemma StatusListing(tasks: seq<Task>, t: int, stat: string, today: Date)
    requires Valid(today) && DisplayList(tasks, today).Ok? && 0 <= t < |tasks|
    ensures var ts := tasks[t := WithStatus(tasks[t], stat)];
      DisplayList(ts, today).Ok? && MakeRow(t, ts[t], today).Ok?
    ensures var ts := tasks[t := WithStatus(tasks[t], stat)];
      var row := MakeRow(t, ts[t], today).value;
      && row == MakeRow(t, tasks[t], today).value.(stat := stat)
      && (row in DisplayList(ts, today).value <==>
          row.section != Past || (stat == "done" && !Less(row.sortKey, AddDays(today, -7))))
  {
    var ts := tasks[t := WithStatus(tasks[t], stat)];
    DisplayListOk(tasks, today);
    DisplayListOk(ts, today);
    forall k | 0 <= k < |ts|
      ensures MakeRow(k, ts[k], today).Ok?
    {
      RowWithStatus(k, tasks[k], stat, today);
    }
    DisplayMembers(ts, today, t);
  }

  /** Marking a listed task done keeps it listed. */
  lemma MarkDoneKeepsListed(tasks: seq<Task>, idx: int, today: Date)
    requires Valid(today) && Target(tasks, idx, today).Ok?
    ensures var t := Target(tasks, idx, today).value;
      var ts := tasks[t := WithStatus(tasks[t], "done")];
      DisplayList(ts, today).Ok? && MakeRow(t, ts[t], today).Ok?
      && MakeRow(t, ts[t], today).value in DisplayList(ts, today).value
  {
    var t := Target(tasks, idx, today).value;
    TargetIsShownTask(tasks, idx, today);
    DisplayRowsAreTasks(tasks, today);
    StatusListing(tasks, t, "done", today);
  }

  /** Unmarking a task takes it off the listing exactly when it is past. */
  lemma UnmarkHidesPast(tasks: seq<Task>, idx: int, today: Date)
    requires Valid(today) && Target(tasks, idx, today).Ok?
    ensures var t := Target(tasks, idx, today).value;
      var ts := tasks[t := WithStatus(tasks[t], "")];
      DisplayList(ts, today).Ok? && MakeRow(t, ts[t], today).Ok?
      && (MakeRow(t, ts[t], today).value in DisplayList(ts, today).value <==>
          MakeRow(t, tasks[t], today).value.section != Past)
  {
    var t := Target(tasks, idx, today).value;
    TargetIsShownTask(tasks, idx, today);
    StatusListing(tasks, t, "", today);
  }

  /** The task file as the commands see it: loaded, changed, saved. */
  class TodoList {
    var tasks: seq<Task>

    /** `load_tasks()`. */
    constructor Load(rows: seq<seq<string>>)
      ensures tasks == LoadTasks(rows)
    {
      var loaded := LoadRows(rows);
      tasks := loaded;
    }

    /** `add_task(desc, due)`: the due text, rewritten when it is a bare
        weekday name, is stored with an empty status at the end. */
    method Add(desc: string, due: string, today: Date) returns (stored: string)
      requires Valid(today)
      modifies this
      ensures stored == NormalizeDue(due, today)
      ensures tasks == old(tasks) + [Task(desc, stored, "")]
    {
      stored := due;
      var weekdayName := Lower(Strip(due));
      if |weekdayName| > 0 && AllLetters(weekdayName) && !IsTodayWord(weekdayName) && weekdayName in DayMap() {
        var targetIdx := DayMap()[weekdayName];
        DayMapRange(weekdayName);
        var dueDate := NextWeekday(today, targetIdx);
        stored := MonthKeys[dueDate.month - 1] + DecimalString(dueDate.day);
        assert WeekdayWord(due) == Some(targetIdx);
      } else {
        assert WeekdayWord(due).None?;
      }
      tasks := tasks + [Task(desc, stored, "")];
    }

    /** The `orig_idx` of listing entry idx, as the three numbered commands
        find it. */
    method FindTarget(idx: int, today: Date) returns (r: Result<int>)
      requires Valid(today)
      ensures r == Target(tasks, idx, today)
    {
      var display := BuildDisplayList(tasks, today);
      if display.Err? {
        return Err(display.error);
      }
      var pos := ResolveIndex(|display.value|, idx);
      if pos.None? {
        return Err(InvalidIndex);
      }
      return Ok(display.value[pos.value].origIdx);
    }

    /** `remove_task(idx)`: the selected task is popped; on an error nothing
        changes. */
    method Remove(idx: int, today: Date) returns (r: Result<Task>)
      requires Valid(today)
      modifies this
      ensures var t := Target(old(tasks), idx, today);
        if t.Err? then r == Err(t.error) && tasks == old(tasks)
        else r == Ok(old(tasks)[t.value]) && tasks == old(tasks)[..t.value] + old(tasks)[t.value + 1..]
    {
      var target := FindTarget(idx, today);
      if target.Err? {
        return Err(target.error);
      }
      var origIdx := target.value;
      r := Ok(tasks[origIdx]);
      tasks := tasks[..origIdx] + tasks[origIdx + 1..];
    }

    /** The selected task's status replaced; on an error nothing changes. */
    method SetStatus(idx: int, today: Date, stat: string) returns (r: Result<string>)
      requires Valid(today)
      modifies this
      ensures var t := Target(old(tasks), idx, today);
        if t.Err? then r == Err(t.error) && tasks == old(tasks)
        else r == Ok(old(tasks)[t.value].desc) && tasks == old(tasks)[t.value := WithStatus(old(tasks)[t.value], stat)]
    {
      var target := FindTarget(idx, today);
      if target.Err? {
        return Err(target.error);
      }
      var origIdx := target.value;
      var task := tasks[origIdx];
      tasks := tasks[origIdx := Task(task.desc, task.due, stat)];
      return Ok(task.desc);
    }

    /** `mark_done(idx)`. */
    method MarkDone(idx: int, today: Date) returns (r: Result<string>)
      requires Valid(today)
      modifies this
      ensures var t := Target(old(tasks), idx, today);
        if t.Err? then r == Err(t.error) && tasks == old(tasks)
        else r == Ok(old(tasks)[t.value].desc) && tasks == old(tasks)[t.value := WithStatus(old(tasks)[t.value], "done")]
    {
      r := SetStatus(idx, today, "done");
    }

    /** `unmark_done(idx)`. */
    method UnmarkDone(idx: int, today: Date) returns (r: Result<string>)
      requires Valid(today)
      modifies this
      ensures var t := Target(old(tasks), idx, today);
        if t.Err? then r == Err(t.error) && tasks == old(tasks)
        else r == Ok(old(tasks)[t.value].desc) && tasks == old(tasks)[t.value := WithStatus(old(tasks)[t.value], "")]
    {
      r := SetStatus(idx, today, "");
    }
  }
}
