# A verified model of the todo.py due-date engine

`todo.py` is a one-file command-line to-do list. Each task is a record
(description, due text, status), and the records are kept in a CSV file.
This project models the part of the program with real logic, in Dafny:

- **Name tables.** `day_map` and `month_map` (module `Tables`).
- **Due-text parser.** `parse_due_info` turns a due text into a concrete
  date of today's year or a list of weekday indices (module `DueParser`).
- **Sections and sort keys.** A task goes into the past, today or later
  section, through `group_task` for weekday lists. A weekday list is sorted
  by the latest of its dates in today's Monday-to-Sunday week (module
  `Resolve`).
- **Labels.** The due text the listing shows: "Tomorrow", "Today", a day
  name, "Month D", or the day names joined by "/" (module `Labels`).
- **Listing builder.** `build_display_list` files every task into a
  section bucket. It drops past tasks unless they are done and at most a
  week old, sorts each bucket by descending key in a stable way, and joins
  the buckets in the order past, today, later (module `Display`).
- **Task list.** Module `Store` holds the class `TodoList`, whose `tasks`
  sequence the commands change in place:
  - `load_tasks`;
  - `add_task` with its weekday-name rewrite;
  - `remove_task`, `mark_done` and `unmark_done`. These turn a 1-based
    listing number into a task position with Python's negative indexing,
    and fail with no change when the number is out of range.

Python's `datetime.date` is modelled in module `Dates`:
- the proleptic Gregorian calendar;
- ordinals, where day 1 is 0001-01-01;
- weekdays, where Monday is 0;
- `timedelta` addition;
- `isocalendar()` week dates, as in ISO 8601:2004 section 4.1.4.

String handling (`strip`, `lower`, the `[\/,]` split and the `/` join) is
in module `Text`. Generic sequence helpers are in `Seqs`, and the `Result`
type carrying the program's error exits is in `Outcomes`.

The clock is not read. `today` is a parameter of every operation that
needs it. `today_idx` is `Weekday(today)` and `tomorrow_date` is
`NextDay(today)`.

Three behaviours of the code need saying:

- **Empty weekday list.** A due text that names no weekday gives an empty
  list. `group_task` files an empty list under past, because `all` over
  nothing is true. `max([])` then raises inside `build_display_list`, so
  no listing exists at all. The model returns `Err(EmptyWeekdayList)` for
  the listing and for every command that needs it.
- **Weekday list contents.** The list keeps the order and the repeats of
  the due text's segments, and a segment that is not a `day_map` key is
  dropped (`DueParser.UnknownSegmentDropped`, `DueParser.KnownSegmentKept`).
- **Today's sort key.** A today task's key is today only when no later
  weekday is in its list (`Resolve.TodayKeyIsToday`). In general the key
  is not before today.

## Model

| member | source | states |
|---|---|---|
| Tables.DayMapRange | todo.py:26-34 | every `day_map` value is a weekday index 0..6 |
| Tables.DayNamesInDayMap | todo.py:26-34 | each lower-cased `calendar.day_name` entry is a `day_map` key for its own weekday |
| Tables.DayKeysAreWords | todo.py:26-34 | every `day_map` key is a non-empty word of ASCII letters and none of "today", "tod", "tomorrow", "tom" |
| Tables.BuildMonthMap | todo.py:37-40 | the module-level loop builds exactly `month_map` |
| Tables.MonthMapLookup | todo.py:37-40 | each month's lower-case full name and abbreviation map to its number |
| Tables.MonthMapRange | todo.py:37-40 | every `month_map` key is the full or abbreviated name of the month 1..12 it maps to |
| DueParser.MonthDayMatchIff | todo.py:76 | the month-day pattern matches exactly one or more ASCII letters followed by one or two digits, and its groups are those two parts |
| DueParser.ParseDue | todo.py:67-100 | a parsed date is valid and in today's year; parsed indices are weekdays; the only error is a day that does not exist |
| DueParser.MonthDayRule | todo.py:76-86 | when the text's letters are a `month_map` key and one or two digits follow, the result is a valid date of today's year or the invalid-date error; nothing otherwise. Its meaning is fixed by `DueParser.ParseMonthDay`, `DueParser.February29` and `DueParser.NonexistentDays` |
| DueParser.NamedDaysRule | todo.py:88-100 | the result is a list of weekday indices. Its cases are fixed by `DueParser.ParseToday`, `DueParser.ParseTomorrow`, `DueParser.UnknownSegmentDropped` and `DueParser.KnownSegmentKept` |
| DueParser.ParseDueInfo | todo.py:67-100 | the loop that collects segment indices gives what `ParseDue` specifies |
| DueParser.ParseMonthDay | todo.py:76-85 | a month name or abbreviation followed by one or two digits, in any case and with surrounding whitespace, is that day of that month in today's year, or an error when the day does not exist |
| DueParser.February29 | todo.py:80-85 | "feb29" is an error exactly in non-leap years, and February 29 otherwise |
| DueParser.NonexistentDays | todo.py:81-84 | "feb30" and "may0" are errors in every year |
| DueParser.UnknownMonthFallsThrough | todo.py:76-100 | letters and digits whose letters are not a month fall through to the weekday rule |
| DueParser.ParseToday | todo.py:88-89 | "today" and "tod" are today's weekday index alone |
| DueParser.ParseTomorrow | todo.py:90-91 | "tomorrow" and "tom" are the next weekday index modulo 7 |
| DueParser.SegmentIndex | todo.py:96-99 | one segment's contribution, `day_map[p.strip().lower()]` if that key exists: at most one index, a weekday |
| DueParser.WeekdayIndices | todo.py:94-99 | the indices of all segments: a definition, specified by `DueParser.IndicesOfSegments`, `DueParser.UnknownSegmentDropped` and `DueParser.KnownSegmentKept` |
| DueParser.IndicesOfSegments | todo.py:94-100 | when every segment names a weekday, the indices are those weekdays in the text's order, repeats kept |
| DueParser.UnknownSegmentDropped | todo.py:94-99 | a segment that is not a `day_map` key contributes nothing, wherever it sits in the list |
| DueParser.KnownSegmentKept | todo.py:94-99 | a segment that is a `day_map` key contributes its own index, after those of the segments before it and before those after it |
| Resolve.GroupTask | todo.py:102-108 | `group_task`: a definition, specified by `Resolve.GroupTaskByMax` and `Resolve.TomorrowOnSunday` |
| Resolve.SectionOf | todo.py:243-251 | the section of a due text: a definition, specified against the sort key by `Resolve.SectionMatchesKey` |
| Resolve.GroupTaskByMax | todo.py:102-108 | `group_task` is today exactly when today's index is in the list, past exactly when the largest index is before today's, and later only when the largest index is after it |
| Resolve.SortKey | todo.py:263-269 | the key exists exactly when the due text is not an empty weekday list, where `max` raises, and is a valid date |
| Resolve.WeekdayDates | todo.py:268 | one date per index, each that weekday of today's Monday-to-Sunday week, the index's distance from today's weekday away from today |
| Resolve.MaxDate | todo.py:269 | `max(dates)`: a definition, specified by `Resolve.LatestPosition`, `Resolve.MaxDateOfOffsets` and `Resolve.WeekdayKeyIsLatestDay` |
| Resolve.LatestPosition | todo.py:269 | `max` of dates returns the first of the latest dates |
| Resolve.WeekdayKeyIsLatestDay | todo.py:266-269 | a weekday list's key is the date of its largest weekday in today's Monday-to-Sunday week |
| Resolve.DayInTodaysWeek | todo.py:268 | `today + (i - today_idx)` days falls on weekday i, has today's Monday, and is within six days of today |
| Resolve.SectionMatchesKey | todo.py:243-251 | past exactly when the key is before today, later only when the key is after today, and a today date is today itself |
| Resolve.TodayKeyIsToday | todo.py:266-269 | a today task's weekday key is today exactly when no index of its list is after today's |
| Resolve.TomorrowOnSunday | todo.py:102-108 | on a Sunday, "tomorrow" is Monday's index, filed under past with a key six days before today |
| Labels.Label | todo.py:253-267 | the shown due text: a definition, specified by `Labels.NearLabels`, `Labels.SameWeekLabel`, `Labels.OtherWeekLabel` and `Labels.WeekdayLabelRoundTrip` |
| Labels.NearLabels | todo.py:255-258 | the day after today shows "Tomorrow" and today shows "Today" |
| Labels.SameWeekLabel | todo.py:259-260 | any other date in today's Monday-to-Sunday week shows its day name |
| Labels.OtherWeekLabel | todo.py:261-262 | a date in another week of the same ISO year shows "Month D" |
| Labels.LabelIsoWeekNumberOnly | todo.py:259-260 | only the ISO week number is compared: on 2024-01-01, the date 2024-12-30, 52 weeks later, shows "Monday" |
| Labels.WeekdayLabelRoundTrip | todo.py:266-267 | the "/"-joined day names of a non-empty weekday list parse back to the same list |
| Display.MakeRow | todo.py:241-278 | an entry carries the task's position, description and status and a valid key. It exists exactly when the due text parses to something other than an empty list. Otherwise the error is the bad date or the empty list |
| Display.SortDesc | todo.py:288 | the sort is a permutation of its bucket |
| Display.SortDescOrdered | todo.py:288 | after the sort, keys never increase, and entries with equal keys keep task order |
| Display.Rows | todo.py:240-278 | the entry of every task, numbered by position: a definition, specified by `Display.RowsOfTasks` and `Display.DisplayListOk` |
| Display.Bucket | todo.py:240-278 | the entries of one section, in task order: a definition, specified by `Display.BucketFacts` |
| Display.RecentDone | todo.py:282-284 | the past entries that are done with a key on or after the cutoff: a definition, specified by `Display.RecentFacts` and `Display.ListedPastIsRecentDone` |
| Display.Arrange | todo.py:280-290 | the sorted buckets joined in the listing's order: a definition, specified by `Display.ArrangeOrdered` and `Display.ArrangeContents` |
| Display.DisplayList | todo.py:233-290 | the listing: a definition, specified by `Display.DisplayListOk`, `Display.DisplayOrdered`, `Display.DisplayMembers`, `Display.DisplayRowsAreTasks` and `Display.DisplayIndicesDistinct` |
| Display.DisplayListOk | todo.py:241-269 | the listing exists exactly when every task's entry does; otherwise it fails with the error of the first failing task |
| Display.DisplayOrdered | todo.py:280-290 | the listing is ordered by section past, today, later, and within a section by descending key with ties in task order |
| Display.DisplayMembers | todo.py:280-290 | a task's entry is in the listing exactly when it is today or later, or past, done and not before today minus seven days |
| Display.DisplayRowsAreTasks | todo.py:271-278 | every listed entry is the entry of the task at its `orig_idx`, which is in range |
| Display.DisplayIndicesDistinct | todo.py:271-290 | no task is listed twice |
| Display.ListedPastIsRecentDone | todo.py:281-285 | every listed past entry is done, has a key before today and not before the cutoff |
| Display.RowSectionMatchesKey | todo.py:243-269 | an entry's section agrees with its key |
| Display.BuildRow | todo.py:242-278 | the loop body builds the entry `MakeRow` specifies |
| Display.FillBuckets | todo.py:240-278 | the first loop fills each bucket with the entries of that section in task order, or returns the first task's error |
| Display.ArrangeBuckets | todo.py:280-290 | the second half joins the sorted buckets as `Arrange` specifies |
| Display.BuildDisplayList | todo.py:233-290 | the builder returns the listing `DisplayList` specifies |
| Store.LoadTasks | todo.py:112-123 | the tasks of the CSV rows: a definition, specified by `Store.LoadKeptRows`, `Store.LoadSaved` and `Store.LoadSavedRoundTrip` |
| Store.LoadRows | todo.py:112-123 | the loading loop returns `LoadTasks` |
| Store.LoadKeptRows | todo.py:116-122 | the tasks are the kept rows in order, each made of its first three fields, with missing ones empty |
| Store.SaveRows | todo.py:125-129 | one CSV row per task, in order. Its contents are fixed by `Store.LoadSaved` and `Store.LoadSavedRoundTrip` |
| Store.LoadSaved | todo.py:112-129 | saving then loading drops exactly the tasks whose description starts with "#" |
| Store.LoadSavedRoundTrip | todo.py:112-129 | with no such task, saving then loading gives the same tasks |
| Store.TodoList.Load | todo.py:112-123 | a loaded list holds `LoadTasks` of the rows |
| Store.WeekdayWord | todo.py:138-143 | the rewrite applies exactly to the `day_map` keys (the letters test and the today/tomorrow test exclude none of them), and its target is that key's weekday |
| Store.NextWeekday | todo.py:145-146 | the new date falls on the target weekday, 0 to 6 days from today, and is today exactly when today has that weekday |
| Store.NextWeekdayIsFirst | todo.py:144-146 | no day from today on before the new date falls on the target weekday |
| Store.NormalizeDue | todo.py:138-148 | the add-time rewrite: a definition, specified by `Store.DayNameRewritten`, `Store.OtherDueKept`, `Store.NormalizedDueParses` and `Store.NormalizedDueAcrossYearEnd` |
| Store.DayNameRewritten | todo.py:138-148 | a due text that strips and lower-cases to a `day_map` key is stored as the month-and-day text of that weekday's next date, today included |
| Store.MonRewritten | todo.py:138-148 | "Mon" is stored as the month-and-day text of the next Monday |
| Store.OtherDueKept | todo.py:138-141 | any other due text is stored as given |
| Store.DateText | todo.py:148 | `due_date.strftime('%B').lower() + str(due_date.day)`: a definition, specified by `Store.DateTextParses` |
| Store.DateTextParses | todo.py:148 | a stored "monthD" text reads back as that month and day of the year it is read in, or as an error when that day does not exist there |
| Store.NormalizedDueParses | todo.py:138-150 | within one year, a rewritten weekday reads back as the date it was rewritten to |
| Store.YearEndDay | todo.py:145-146 | a rewrite that crosses the year end is January 1-6 of the next year, made in December |
| Store.NormalizedDueAcrossYearEnd | todo.py:145-148 | such a rewrite reads back as January of the current year, a past date: the year is lost |
| Store.TodoList.Add | todo.py:133-151 | the new task, with its due text rewritten as `NormalizeDue` says and an empty status, is appended |
| Store.ResolveIndex | todo.py:159-160 | `display[idx-1]` exists exactly when 1-n <= idx <= n: a positive number counts from 1, and 0 or a negative number counts back from the end |
| Store.Target | todo.py:157-162 | a command's target is a task position; with a listing, the only error is an invalid index |
| Store.TargetIsShownTask | todo.py:157-162 | a number selects exactly when it is in range, and then selects the task whose entry is shown at that place |
| Store.TargetsDistinct | todo.py:157-162 | different places in the listing select different tasks |
| Store.TodoList.FindTarget | todo.py:157-162 | the method finds `Target` by building the listing |
| Store.TodoList.Remove | todo.py:154-166 | removes exactly the target task and returns it; on error nothing changes |
| Store.TodoList.SetStatus | todo.py:167-193 | sets the status of the listing's target to the given text and changes nothing else, returning the target's description; on an index or listing error it returns that error and nothing changes |
| Store.TodoList.MarkDone | todo.py:167-179 | sets the target's status to "done" and changes nothing else; on error nothing changes |
| Store.TodoList.UnmarkDone | todo.py:181-193 | clears the target's status and changes nothing else; on error nothing changes |
| Store.StatusListing | todo.py:176-177 | a status change alters only the entry's status, and decides whether a past entry stays listed |
| Store.MarkDoneKeepsListed | todo.py:167-179 | a task marked done is listed afterwards |
| Store.UnmarkHidesPast | todo.py:181-193 | an unmarked task stays listed exactly when it is not in the past section |

## Left out

- Storage: opening and reading the CSV file, `csv.reader`/`csv.writer`
  quoting, and that a missing file gives no tasks. The model takes and
  returns rows as lists of field strings. `LoadSaved` assumes that the
  CSV layer returns the fields that were written.
- Backup and undo (`backup_tasks`, `undo_last`): plain file copies. So
  the model does not capture that every mutating command copies the file
  to the backup before it checks the index. A command that then fails
  still replaces the one undo level.
- The command line (`argparse` and the dispatch under `__main__`), and
  `list_tasks`: the header, ANSI colours, section headers and
  numbered lines are printing only. The numbering is what
  `Store.ResolveIndex` captures.
- Messages printed to stdout and stderr, and `sys.exit(1)`. The error
  exits are `Err` results, and the remaining messages are return values.
  An exception that would end the program (an invalid date in
  `parse_due_info`, `max()` of an empty list) is an `Err` result too; so
  is the `IndexError` the commands catch.
- The clock: `datetime.now()` is the `today` parameter.
- Locale: `calendar.day_name`, `month_name` and `month_abbr`, and
  `strftime('%B')`, use their English names (the C locale).
- The year range: Python dates exist only in years 1..9999, and
  `date()` or a `timedelta` addition outside it raises. Model dates have
  unbounded years.
- Unicode: the model's `lower()` changes only ASCII letters, and digits
  are ASCII digits. `strip()` does use Python's full set of whitespace
  characters. Non-ASCII letters and digits, which Python's `lower()` and
  `\d` also handle, are not modelled.
