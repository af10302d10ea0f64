/** `build_display_list` (todo.py:233-290): the numbered listing that the
    list, done, undone and rm commands share. */
module Display {
  import opened Outcomes
  import opened Dates
  import opened Seqs
  import opened DueParser
  import opened Resolve
  import opened Labels

  /** A row of the task file: `(desc, due, stat)`. */
  datatype Task = Task(desc: string, due: string, stat: string)

  /** One entry of the listing: the dict the builder appends to a bucket. */
  datatype Row = Row(origIdx: int, section: Section, desc: string, due: string, stat: string, sortKey: Date)

  /** The entry for task i, or the error that building it raises: a due
      date that does not exist, or a weekday list with no known day, whose
      `max()` has nothing to take. */
  function MakeRow(i: int, task: Task, today: Date): (r: Result<Row>)
    requires Valid(today)
    ensures r.Ok? ==> r.value.origIdx == i && r.value.desc == task.desc && r.value.stat == task.stat
    ensures r.Ok? ==> Valid(r.value.sortKey)
    ensures r.Ok? <==> ParseDue(task.due, today).Ok? && ParseDue(task.due, today).value != Weekdays([])
    ensures r.Err? ==> r.error == (if ParseDue(task.due, today).Err? then InvalidDate else EmptyWeekdayList)
  {
    match ParseDue(task.due, today)
    case Err(e) => Err(e)
    case Ok(spec) =>
      match SortKey(spec, today)
      case None => Err(EmptyWeekdayList)
      case Some(key) => Ok(Row(i, SectionOf(spec, today), task.desc, Label(spec, today), task.stat, key))
  }

  /** The entries of all tasks in file order, or the first task's error. */
  function Rows(tasks: seq<Task>, today: Date): Result<seq<Row>>
    requires Valid(today)
  {
    MapAll((i: int, task: Task) => MakeRow(i, task, today), tasks)
  }

  /** The entries exist exactly when every task's does, and then entry k is
      task k's. */
  lemma RowsOfTasks(tasks: seq<Task>, today: Date)
    requires Valid(today)
    ensures Rows(tasks, today).Ok? <==> forall k :: 0 <= k < |tasks| ==> MakeRow(k, tasks[k], today).Ok?
    ensures Rows(tasks, today).Ok? ==>
      && |Rows(tasks, today).value| == |tasks|
      && forall k :: 0 <= k < |tasks| ==> Rows(tasks, today).value[k] == MakeRow(k, tasks[k], today).value
  {
    MapAllOk((i: int, task: Task) => MakeRow(i, task, today), tasks);
  }

  // Sorting a bucket

  /** `sorted(bucket, key=lambda t: t['sort'], reverse=True)` is stable, and
      a bucket lists its entries in task order; so an entry comes before
      another when its key is later, or the keys are equal and its task
      comes first. */
  predicate Before(a: Row, b: Row) {
    Less(b.sortKey, a.sortKey) || (a.sortKey == b.sortKey && a.origIdx < b.origIdx)
  }

  /** x placed after the entries whose keys are not earlier than its own. */
  function Insert(s: seq<Row>, x: Row): (r: seq<Row>)
    ensures multiset(r) == multiset(s) + multiset{x}
  {
    if |s| == 0 then [x]
    else if Less(s[0].sortKey, x.sortKey) then [x] + s
    else
      assert s == [s[0]] + s[1..];
      [s[0]] + Insert(s[1..], x)
  }

  /** Insertion sort, taking the entries in order. */
  function SortDesc(s: seq<Row>): (r: seq<Row>)
    ensures multiset(r) == multiset(s)
  {
    if |s| == 0 then []
    else
      assert s == s[..|s| - 1] + [s[|s| - 1]];
      Insert(SortDesc(s[..|s| - 1]), s[|s| - 1])
  }

  predicate IncreasingIndices(s: seq<Row>) {
    forall i, j :: 0 <= i < j < |s| ==> s[i].origIdx < s[j].origIdx
  }

  /** Inserting an entry of a later task into an ordered list keeps it
      ordered. */
  lemma {:induction false} InsertOrdered(s: seq<Row>, x: Row)
    requires Pairwise(Before, s)
    requires forall k :: 0 <= k < |s| ==> s[k].origIdx < x.origIdx
    ensures Pairwise(Before, Insert(s, x))
    decreases |s|
  {
    if |s| > 0 && !Less(s[0].sortKey, x.sortKey) {
      var tail := s[1..];
      PairwiseTail(s);
      InsertOrdered(tail, x);
      HeadBeforeInserted(s, x);
      PairwiseAppend(Before, [s[0]], Insert(tail, x));
    } else if |s| > 0 {
      forall k | 0 <= k < |s|
        ensures Before(x, s[k])
      {
        if k > 0 {
          assert Before(s[0], s[k]);
        }
      }
      PairwiseAppend(Before, [x], s);
    }
  }

  lemma PairwiseTail(s: seq<Row>)
    requires |s| > 0 && Pairwise(Before, s)
    ensures Pairwise(Before, s[1..])
  {
    assert forall k :: 0 <= k < |s| - 1 ==> s[1..][k] == s[k + 1];
  }

  /** The head of an ordered list whose key is not earlier than x's comes
      before everything x's insertion into the rest gives. */
  lemma HeadBeforeInserted(s: seq<Row>, x: Row)
    requires |s| > 0 && Pairwise(Before, s) && !Less(s[0].sortKey, x.sortKey)
    requires s[0].origIdx < x.origIdx
    ensures forall k :: 0 <= k < |Insert(s[1..], x)| ==> Before(s[0], Insert(s[1..], x)[k])
  {
    var tail := s[1..];
    var r := Insert(tail, x);
    forall k | 0 <= k < |r|
      ensures Before(s[0], r[k])
    {
      assert r[k] in multiset(r);
      if r[k] != x {
        var j :| 0 <= j < |tail| && tail[j] == r[k];
        assert s[j + 1] == r[k];
      }
    }
  }

  /** The sort orders a bucket whose entries are in task order. */
  lemma {:induction false} SortDescOrdered(s: seq<Row>)
    requires IncreasingIndices(s)
    ensures Pairwise(Before, SortDesc(s))
    decreases |s|
  {
    if |s| > 0 {
      var n := |s| - 1;
      var init := s[..n];
      assert IncreasingIndices(init) by {
        assert forall k :: 0 <= k < n ==> init[k] == s[k];
      }
      SortDescOrdered(init);
      SortDescBelow(init, s[n].origIdx);
      InsertOrdered(SortDesc(init), s[n]);
    }
  }

  /** Sorting keeps a bound on the task indices. */
  lemma SortDescBelow(s: seq<Row>, bound: int)
    requires forall k :: 0 <= k < |s| ==> s[k].origIdx < bound
    ensures forall k :: 0 <= k < |SortDesc(s)| ==> SortDesc(s)[k].origIdx < bound
  {
    var r := SortDesc(s);
    forall k | 0 <= k < |r|
      ensures r[k].origIdx < bound
    {
      assert r[k] in multiset(s);
    }
  }

  // The listing

  /** `buckets[s]` once every entry is appended. */
  function Bucket(rows: seq<Row>, s: Section): seq<Row> {
    Filter((r: Row) => r.section == s, rows)
  }

  /** The past entries that stay listed: done, with keys not before the
      cutoff a week before today. */
  function RecentDone(past: seq<Row>, cutoff: Date): seq<Row> {
    Filter((r: Row) => r.stat == "done" && !Less(r.sortKey, cutoff), past)
  }

  /** The three sorted buckets in the order past, today, later. */
  function Arrange(rows: seq<Row>, cutoff: Date): seq<Row> {
    SortDesc(RecentDone(Bucket(rows, Past), cutoff)) + SortDesc(Bucket(rows, Today)) + SortDesc(Bucket(rows, Later))
  }

  /** `build_display_list(tasks)`. */
  function DisplayList(tasks: seq<Task>, today: Date): Result<seq<Row>>
    requires Valid(today)
  {
    match Rows(tasks, today)
    case Err(e) => Err(e)
    case Ok(rows) => Ok(Arrange(rows, AddDays(today, -7)))
  }

  /** Whether an entry is listed: every today or later entry is, and a past
      one only when it is done and no more than a week old. */
  predicate Listed(r: Row, cutoff: Date) {
    r.section != Past || (r.stat == "done" && !Less(r.sortKey, cutoff))
  }

  function Rank(s: Section): int {
    match s
    case Past => 0
    case Today => 1
    case Later => 2
  }

  /** The order of the listing: by section, then as each bucket is sorted. */
  predicate ListedBefore(a: Row, b: Row) {
    Rank(a.section) < Rank(b.section) || (a.section == b.section && Before(a, b))
  }

  /** A bucket keeps task order and holds only its own section. */
  lemma BucketFacts(rows: seq<Row>, s: Section)
    requires IncreasingIndices(rows)
    ensures IncreasingIndices(Bucket(rows, s))
    ensures forall k :: 0 <= k < |Bucket(rows, s)| ==> Bucket(rows, s)[k].section == s
  {
    var b := Bucket(rows, s);
    IncreasingFiltered((r: Row) => r.section == s, rows);
    forall k | 0 <= k < |b|
      ensures b[k].section == s
    {
      FilterMembers((r: Row) => r.section == s, rows, b[k]);
    }
  }

  /** So do the past entries kept. */
  lemma RecentFacts(rows: seq<Row>, cutoff: Date)
    requires IncreasingIndices(rows)
    ensures IncreasingIndices(RecentDone(Bucket(rows, Past), cutoff))
    ensures forall k :: 0 <= k < |RecentDone(Bucket(rows, Past), cutoff)| ==>
      RecentDone(Bucket(rows, Past), cutoff)[k].section == Past
  {
    var b := Bucket(rows, Past);
    var r := RecentDone(b, cutoff);
    BucketFacts(rows, Past);
    IncreasingFiltered((x: Row) => x.stat == "done" && !Less(x.sortKey, cutoff), b);
    forall k | 0 <= k < |r|
      ensures r[k].section == Past
    {
      FilterMembers((x: Row) => x.stat == "done" && !Less(x.sortKey, cutoff), b, r[k]);
    }
  }

  /** A sorted bucket of one section, in task order, is ordered and still
      of that section. */
  lemma SortedBlock(bucket: seq<Row>, s: Section)
    requires IncreasingIndices(bucket)
    requires forall k :: 0 <= k < |bucket| ==> bucket[k].section == s
    ensures Pairwise(ListedBefore, SortDesc(bucket))
    ensures forall k :: 0 <= k < |SortDesc(bucket)| ==> SortDesc(bucket)[k].section == s
  {
    SortDescOrdered(bucket);
    var r := SortDesc(bucket);
    forall k | 0 <= k < |r|
      ensures r[k].section == s
    {
      assert r[k] in multiset(bucket);
    }
  }

  lemma IncreasingFiltered(p: Row -> bool, rows: seq<Row>)
    requires IncreasingIndices(rows)
    ensures IncreasingIndices(Filter(p, rows))
  {
    assert Pairwise((a: Row, b: Row) => a.origIdx < b.origIdx, rows);
    FilterPairwise((a: Row, b: Row) => a.origIdx < b.origIdx, p, rows);
  }

  /** The listing runs past, today, later, each section sorted by key,
      latest first, equal keys in task order. */
  lemma ArrangeOrdered(rows: seq<Row>, cutoff: Date)
    requires IncreasingIndices(rows)
    ensures Pairwise(ListedBefore, Arrange(rows, cutoff))
  {
    var ab := SortDesc(RecentDone(Bucket(rows, Past), cutoff)) + SortDesc(Bucket(rows, Today));
    var c := SortDesc(Bucket(rows, Later));
    EarlierBlocksOrdered(rows, cutoff);
    BucketFacts(rows, Later);
    SortedBlock(Bucket(rows, Later), Later);
    PairwiseAppend(ListedBefore, ab, c);
  }

  /** The kept past entries and the today entries, sorted and joined. */
  lemma EarlierBlocksOrdered(rows: seq<Row>, cutoff: Date)
    requires IncreasingIndices(rows)
    ensures var ab := SortDesc(RecentDone(Bucket(rows, Past), cutoff)) + SortDesc(Bucket(rows, Today));
      && Pairwise(ListedBefore, ab)
      && forall i :: 0 <= i < |ab| ==> ab[i].section != Later
  {
    var past := RecentDone(Bucket(rows, Past), cutoff);
    var a, b := SortDesc(past), SortDesc(Bucket(rows, Today));
    RecentFacts(rows, cutoff);
    BucketFacts(rows, Today);
    SortedBlock(past, Past);
    SortedBlock(Bucket(rows, Today), Today);
    PairwiseAppend(ListedBefore, a, b);
  }

  /** The listing holds every listed entry exactly as often as the entries
      do, and nothing else. */
  lemma ArrangeContents(rows: seq<Row>, cutoff: Date)
    ensures multiset(Arrange(rows, cutoff)) == multiset(Filter((r: Row) => Listed(r, cutoff), rows))
  {
    forall x
      ensures multiset(Arrange(rows, cutoff))[x] == multiset(Filter((r: Row) => Listed(r, cutoff), rows))[x]
    {
      ArrangeCount(rows, cutoff, x);
    }
  }

  lemma ArrangeCount(rows: seq<Row>, cutoff: Date, x: Row)
    ensures multiset(Arrange(rows, cutoff))[x] == multiset(Filter((r: Row) => Listed(r, cutoff), rows))[x]
  {
    var isPast := (r: Row) => r.section == Past;
    FilterCounts(isPast, rows, x);
    FilterCounts((r: Row) => r.section == Today, rows, x);
    FilterCounts((r: Row) => r.section == Later, rows, x);
    FilterCounts((r: Row) => r.stat == "done" && !Less(r.sortKey, cutoff), Filter(isPast, rows), x);
    FilterCounts((r: Row) => Listed(r, cutoff), rows, x);
  }

  // The listing of a task list

  /** Entry k of the tasks is task k's, and numbered k. */
  lemma RowsNumbered(tasks: seq<Task>, today: Date)
    requires Valid(today) && Rows(tasks, today).Ok?
    ensures var rows := Rows(tasks, today).value;
      && |rows| == |tasks| && IncreasingIndices(rows)
      && forall k :: 0 <= k < |rows| ==> rows[k].origIdx == k && MakeRow(k, tasks[k], today) == Ok(rows[k])
  {
    var rows := Rows(tasks, today).value;
    RowsOfTasks(tasks, today);
    forall k | 0 <= k < |rows|
      ensures rows[k].origIdx == k && MakeRow(k, tasks[k], today) == Ok(rows[k])
    {
      RowOfTask(k, tasks[k], today);
    }
  }

  lemma RowOfTask(k: int, task: Task, today: Date)
    requires Valid(today) && MakeRow(k, task, today).Ok?
    ensures MakeRow(k, task, today) == Ok(MakeRow(k, task, today).value)
    ensures MakeRow(k, task, today).value.origIdx == k
  {
  }

  /** The listing exists exactly when every task's entry does; otherwise it
      is the first failing task's error. */
  lemma DisplayListOk(tasks: seq<Task>, today: Date)
    requires Valid(today)
    ensures DisplayList(tasks, today).Ok? <==> forall k :: 0 <= k < |tasks| ==> MakeRow(k, tasks[k], today).Ok?
    ensures forall n :: 0 <= n < |tasks| && Rows(tasks[..n], today).Ok? && MakeRow(n, tasks[n], today).Err? ==>
      DisplayList(tasks, today) == Err(MakeRow(n, tasks[n], today).error)
  {
    RowsOfTasks(tasks, today);
    forall n | 0 <= n < |tasks| && Rows(tasks[..n], today).Ok? && MakeRow(n, tasks[n], today).Err?
      ensures Rows(tasks, today) == Err(MakeRow(n, tasks[n], today).error)
    {
      MapAllFirstError((i: int, task: Task) => MakeRow(i, task, today), tasks, n);
    }
  }

  /** The listing runs past, today, later, each section latest first and
      equal keys in task order. */
  lemma DisplayOrdered(tasks: seq<Task>, today: Date)
    requires Valid(today) && DisplayList(tasks, today).Ok?
    ensures Pairwise(ListedBefore, DisplayList(tasks, today).value)
  {
    RowsNumbered(tasks, today);
    ArrangeOrdered(Rows(tasks, today).value, AddDays(today, -7));
  }

  /** Task k is listed exactly when its entry is: always for today and
      later, and for the past only when done and at most a week old. */
  lemma DisplayMembers(tasks: seq<Task>, today: Date, k: int)
    requires Valid(today) && DisplayList(tasks, today).Ok? && 0 <= k < |tasks|
    ensures MakeRow(k, tasks[k], today).Ok?
    ensures var row, cutoff := MakeRow(k, tasks[k], today).value, AddDays(today, -7);
      row in DisplayList(tasks, today).value <==> Listed(row, cutoff)
  {
    var rows, cutoff := Rows(tasks, today).value, AddDays(today, -7);
    RowsNumbered(tasks, today);
    var row := rows[k];
    assert MakeRow(k, tasks[k], today) == Ok(row);
    ArrangeContents(rows, cutoff);
    assert row in multiset(Arrange(rows, cutoff)) <==> row in multiset(Filter((r: Row) => Listed(r, cutoff), rows));
    FilterMembers((r: Row) => Listed(r, cutoff), rows, row);
  }

  /** Every listed entry is the entry of the task its `orig_idx` names, and
      is listed because it is to be. */
  lemma DisplayRowsAreTasks(tasks: seq<Task>, today: Date)
    requires Valid(today) && DisplayList(tasks, today).Ok?
    ensures var d := DisplayList(tasks, today).value;
      forall i :: 0 <= i < |d| ==>
        && 0 <= d[i].origIdx < |tasks|
        && MakeRow(d[i].origIdx, tasks[d[i].origIdx], today) == Ok(d[i])
        && Listed(d[i], AddDays(today, -7))
  {
    var d := DisplayList(tasks, today).value;
    forall i | 0 <= i < |d|
      ensures 0 <= d[i].origIdx < |tasks| && MakeRow(d[i].origIdx, tasks[d[i].origIdx], today) == Ok(d[i])
      ensures Listed(d[i], AddDays(today, -7))
    {
      ListedRowIsTask(tasks, today, d[i]);
    }
  }

  lemma ListedRowIsTask(tasks: seq<Task>, today: Date, x: Row)
    requires Valid(today) && DisplayList(tasks, today).Ok? && x in DisplayList(tasks, today).value
    ensures 0 <= x.origIdx < |tasks| && MakeRow(x.origIdx, tasks[x.origIdx], today) == Ok(x)
    ensures Listed(x, AddDays(today, -7))
  {
    var rows, cutoff := Rows(tasks, today).value, AddDays(today, -7);
    ArrangedRowIsRow(rows, cutoff, x);
    RowsNumbered(tasks, today);
    var j :| 0 <= j < |rows| && rows[j] == x;
  }

  /** What the arranging keeps comes from the entries and is listed. */
  lemma ArrangedRowIsRow(rows: seq<Row>, cutoff: Date, x: Row)
    requires x in Arrange(rows, cutoff)
    ensures x in rows && Listed(x, cutoff)
  {
    ArrangeContents(rows, cutoff);
    assert x in multiset(Filter((r: Row) => Listed(r, cutoff), rows));
    FilterMembers((r: Row) => Listed(r, cutoff), rows, x);
  }

  /** No task is listed twice: the listing's `orig_idx` values are
      distinct. */
  lemma DisplayIndicesDistinct(tasks: seq<Task>, today: Date)
    requires Valid(today) && DisplayList(tasks, today).Ok?
    ensures var d := DisplayList(tasks, today).value;
      forall i, j :: 0 <= i < j < |d| ==> d[i].origIdx != d[j].origIdx
  {
    var d := DisplayList(tasks, today).value;
    DisplayOrdered(tasks, today);
    DisplayRowsAreTasks(tasks, today);
    forall i, j | 0 <= i < j < |d|
      ensures d[i].origIdx != d[j].origIdx
    {
      assert ListedBefore(d[i], d[j]);
    }
  }

  /** An entry's section agrees with its key: past exactly when the key is
      before today, later only when after it. */
  lemma RowSectionMatchesKey(i: int, task: Task, today: Date)
    requires Valid(today) && MakeRow(i, task, today).Ok?
    ensures var r := MakeRow(i, task, today).value;
      && (r.section == Past <==> Less(r.sortKey, today))
      && (r.section == Later ==> Less(today, r.sortKey))
      && (r.section == Today ==> !Less(r.sortKey, today))
  {
    SectionMatchesKey(ParseDue(task.due, today).value, today);
  }

  /** The past section lists only tasks done within the last week: keys from
      a week before today up to yesterday. */
  lemma ListedPastIsRecentDone(tasks: seq<Task>, today: Date)
    requires Valid(today) && DisplayList(tasks, today).Ok?
    ensures var d, cutoff := DisplayList(tasks, today).value, AddDays(today, -7);
      forall i :: 0 <= i < |d| && d[i].section == Past ==>
        d[i].stat == "done" && !Less(d[i].sortKey, cutoff) && Less(d[i].sortKey, today)
  {
    var d := DisplayList(tasks, today).value;
    DisplayRowsAreTasks(tasks, today);
    forall i | 0 <= i < |d| && d[i].section == Past
      ensures Less(d[i].sortKey, today)
    {
      RowSectionMatchesKey(d[i].origIdx, tasks[d[i].origIdx], today);
    }
  }

  /** `build_display_list` as written: one pass over the tasks appending to
      the three buckets, the past bucket filtered, then the sorted buckets
      concatenated. */
  method BuildDisplayList(tasks: seq<Task>, today: Date) returns (r: Result<seq<Row>>)
    requires Valid(today)
    ensures r == DisplayList(tasks, today)
  {
    var filled := FillBuckets(tasks, today);
    if filled.Err? {
      return Err(filled.error);
    }
    var display := ArrangeBuckets(filled.value, Rows(tasks, today).value, AddDays(today, -7));
    return Ok(display);
  }

  /** The builder's second half: the past bucket cut down to its recent
      done entries, then each bucket sorted, in the order past, today,
      later. */
  method ArrangeBuckets(buckets: map<Section, seq<Row>>, ghost rows: seq<Row>, cutoff: Date) returns (display: seq<Row>)
    requires forall s: Section :: s in buckets && buckets[s] == Bucket(rows, s)
    ensures display == Arrange(rows, cutoff)
  {
    var past := RecentDone(buckets[Past], cutoff);
    var lists := [past, buckets[Today], buckets[Later]];
    ghost var blocks := [SortDesc(lists[0]), SortDesc(lists[1]), SortDesc(lists[2])];
    display := [];
    for k := 0 to 3
      invariant display == if k == 0 then [] else if k == 1 then blocks[0]
        else if k == 2 then blocks[0] + blocks[1] else blocks[0] + blocks[1] + blocks[2]
    {
      display := display + SortDesc(lists[k]);
    }
  }

  /** The builder's first loop: each task's entry, appended to the bucket
      of its section; the first task whose entry fails ends the build. */
  method FillBuckets(tasks: seq<Task>, today: Date) returns (r: Result<map<Section, seq<Row>>>)
    requires Valid(today)
    ensures r.Ok? <==> Rows(tasks, today).Ok?
    ensures r.Err? ==> Rows(tasks, today) == Err(r.error)
    ensures r.Ok? ==> forall s: Section :: s in r.value && r.value[s] == Bucket(Rows(tasks, today).value, s)
  {
    var buckets: map<Section, seq<Row>> := map[Past := [], Today := [], Later := []];
    ghost var rows: seq<Row> := [];
    forall s: Section
      ensures s in buckets && buckets[s] == Bucket(rows, s)
    {
      assert s.Past? || s.Today? || s.Later?;
    }
    for idx := 0 to |tasks|
      invariant Rows(tasks[..idx], today) == Ok(rows)
      invariant forall s: Section :: s in buckets && buckets[s] == Bucket(rows, s)
    {
      MapAllStep((i: int, task: Task) => MakeRow(i, task, today), tasks, idx);
      var entry := BuildRow(idx, tasks[idx], today);
      if entry.Err? {
        MapAllFirstError((i: int, task: Task) => MakeRow(i, task, today), tasks, idx);
        return Err(entry.error);
      }
      var row := entry.value;
      BucketAppend(rows, row);
      buckets := buckets[row.section := buckets[row.section] + [row]];
      rows := rows + [row];
    }
    assert tasks[..|tasks|] == tasks;
    return Ok(buckets);
  }

  /** The body of the builder's loop for task idx: parse its due text, file
      it, label it and compute its sort key. */
  method BuildRow(idx: int, task: Task, today: Date) returns (r: Result<Row>)
    requires Valid(today)
    ensures r == MakeRow(idx, task, today)
  {
    var parsed := ParseDueInfo(task.due, today);
    if parsed.Err? {
      return Err(parsed.error);
    }
    var spec := parsed.value;
    var section: Section;
    if spec.ConcreteDate? {
      if Less(spec.date, today) {
        section := Past;
      } else if spec.date == today {
        section := Today;
      } else {
        section := Later;
      }
    } else {
      section := GroupTask(spec.indices, Weekday(today));
    }
    var disp := Label(spec, today);
    var sortKey: Date;
    if spec.ConcreteDate? {
      sortKey := spec.date;
    } else {
      if |spec.indices| == 0 {
        return Err(EmptyWeekdayList);
      }
      sortKey := MaxDate(WeekdayDates(spec.indices, today));
    }
    return Ok(Row(idx, section, task.desc, disp, task.stat, sortKey));
  }

  /** Appending an entry appends it to its own bucket only. */
  lemma BucketAppend(rows: seq<Row>, row: Row)
    ensures forall s: Section :: Bucket(rows + [row], s) == Bucket(rows, s) + (if row.section == s then [row] else [])
  {
    forall s: Section
      ensures Bucket(rows + [row], s) == Bucket(rows, s) + (if row.section == s then [row] else [])
    {
      assert (rows + [row])[..|rows|] == rows;
    }
  }
}
