/** `parse_due_info` (todo.py:67-100): what a task's due text means, either a
    concrete date of today's year or a list of weekday indices. */
module DueParser {
  import opened Outcomes
  import opened Dates
  import opened Text
  import opened Tables
  import opened Seqs

  /** The meaning of a due text. Python returns `([due.weekday()], due)` for
      a date and `(idxs, None)` otherwise; the index list that goes with a
      date is never used, so a date carries nothing else here. The list
      keeps the order and the repeats of the text. */
  datatype DueSpec = ConcreteDate(date: Date) | Weekdays(indices: seq<int>)

  predicate AllWeekdays(ws: seq<int>) {
    forall k :: 0 <= k < |ws| ==> 0 <= ws[k] <= 6
  }

  /** What the parser can return: a valid date, or weekday indices. */
  predicate WellFormed(spec: DueSpec) {
    match spec
    case ConcreteDate(d) => Valid(d)
    case Weekdays(ws) => AllWeekdays(ws)
  }

  /** `re.match(r'^([a-zA-Z]+)(\d{1,2})$', t)` with its two groups. The
      letters cannot be digits, so the digits are the one or two characters
      at the end. */
  function MonthDayMatch(t: string): Option<(string, string)> {
    if |t| == 0 || !IsDigit(t[|t| - 1]) then None
    else
      var n := if |t| >= 2 && IsDigit(t[|t| - 2]) then 2 else 1;
      var letters := t[..|t| - n];
      if |letters| > 0 && AllLetters(letters) then Some((letters, t[|t| - n..])) else None
  }

  /** The match succeeds exactly on one or more ASCII letters followed by one
      or two digits, and its groups are those two parts. */
  lemma MonthDayMatchIff(t: string, letters: string, digits: string)
    ensures MonthDayMatch(t) == Some((letters, digits)) <==>
      (t == letters + digits && |letters| > 0 && AllLetters(letters)
       && 1 <= |digits| <= 2 && AllDigits(digits))
  {
    if t == letters + digits && |letters| > 0 && AllLetters(letters) && 1 <= |digits| <= 2 && AllDigits(digits) {
      assert t[..|letters|] == letters && t[|letters|..] == digits;
      if |digits| == 1 {
        assert t[|t| - 2] == letters[|letters| - 1];
      }
    }
  }

  /** The index of one segment: `day_map[p.strip().lower()]`, if any. */
  function SegmentIndex(p: string): (r: seq<int>)
    ensures |r| <= 1 && AllWeekdays(r)
  {
    var key := Lower(Strip(p));
    if key in DayMap() then DayMapRange(key); [DayMap()[key]] else []
  }

  /** The `day_map` indices of the segments, in order; unknown segments
      contribute nothing. */
  function WeekdayIndices(parts: seq<string>): (ws: seq<int>)
    ensures AllWeekdays(ws)
  {
    SegmentsAreWeekdays(parts);
    FlatMap(SegmentIndex, parts)
  }

  lemma {:induction false} SegmentsAreWeekdays(parts: seq<string>)
    ensures AllWeekdays(FlatMap(SegmentIndex, parts))
    decreases |parts|
  {
    if |parts| > 0 {
      SegmentsAreWeekdays(parts[..|parts| - 1]);
      var last := SegmentIndex(parts[|parts| - 1]);
    }
  }

  /** Each segment contributes on its own: the list of a concatenation is
      the concatenation of the lists. */
  lemma WeekdayIndicesAppend(a: seq<string>, b: seq<string>)
    ensures WeekdayIndices(a + b) == WeekdayIndices(a) + WeekdayIndices(b)
  {
    FlatMapAppend(SegmentIndex, a, b);
  }

  /** A single segment's list is its own index, if any. */
  lemma WeekdayIndicesOne(p: string)
    ensures WeekdayIndices([p]) == SegmentIndex(p)
  {
    assert [p][..0] == [];
    assert FlatMap(SegmentIndex, [p]) == FlatMap(SegmentIndex, []) + SegmentIndex(p);
  }

  /** A segment that is not a `day_map` key adds nothing: the loop skips it
      and keeps the others' indices in order. */
  lemma UnknownSegmentDropped(a: seq<string>, p: string, b: seq<string>)
    requires Lower(Strip(p)) !in DayMap()
    ensures WeekdayIndices(a + [p] + b) == WeekdayIndices(a + b)
  {
    WeekdayIndicesAppend(a + [p], b);
    WeekdayIndicesAppend(a, [p]);
    WeekdayIndicesOne(p);
    WeekdayIndicesAppend(a, b);
  }

  /** A segment that is a `day_map` key adds its index, between those of the
      segments before and after it. */
  lemma KnownSegmentKept(a: seq<string>, p: string, b: seq<string>)
    requires Lower(Strip(p)) in DayMap()
    ensures WeekdayIndices(a + [p] + b)
         == WeekdayIndices(a) + [DayMap()[Lower(Strip(p))]] + WeekdayIndices(b)
  {
    WeekdayIndicesAppend(a + [p], b);
    WeekdayIndicesAppend(a, [p]);
    WeekdayIndicesOne(p);
  }

  /** Segments that each name one weekday give those weekdays, in order. */
  lemma {:induction false} IndicesOfSegments(parts: seq<string>, ws: seq<int>)
    requires |parts| == |ws| && forall k :: 0 <= k < |ws| ==> SegmentIndex(parts[k]) == [ws[k]]
    ensures WeekdayIndices(parts) == ws
    decreases |ws|
  {
    if |ws| > 0 {
      var n := |ws| - 1;
      IndicesOfSegments(parts[..n], ws[..n]);
      assert parts[..n] + [parts[n]] == parts;
      WeekdayIndicesAppend(parts[..n], [parts[n]]);
      WeekdayIndicesOne(parts[n]);
      assert ws[..n] + [ws[n]] == ws;
    }
  }

  /** Rule 1 on the stripped, lower-cased text t: letters that are a
      `month_map` key followed by one or two digits are that day of that
      month in today's year, or an error when the day does not exist.
      Nothing when the rule does not apply. */
  function MonthDayRule(t: string, today: Date): (r: Option<Result<DueSpec>>)
    ensures r.Some? && r.value.Ok? ==>
      r.value.value.ConcreteDate? && Valid(r.value.value.date) && r.value.value.date.year == today.year
    ensures r.Some? && r.value.Err? ==> r.value.error == InvalidDate
  {
    var m := MonthDayMatch(t);
    if m.Some? && Lower(m.value.0) in MonthMap() then
      var d := Date(today.year, MonthMap()[Lower(m.value.0)], DigitsValue(m.value.1));
      Some(if Valid(d) then Ok(ConcreteDate(d)) else Err(InvalidDate))
    else None
  }

  /** Rules 2 and 3 on the stripped, lower-cased text t: today, tomorrow, or
      the weekdays named between the separators. */
  function NamedDaysRule(t: string, today: Date): (r: DueSpec)
    requires Valid(today)
    ensures r.Weekdays? && AllWeekdays(r.indices)
  {
    if t == "today" || t == "tod" then Weekdays([Weekday(today)])
    else if t == "tomorrow" || t == "tom" then Weekdays([(Weekday(today) + 1) % 7])
    else Weekdays(WeekdayIndices(Split(t)))
  }

  /** `parse_due_info(text)`, with `today_date` a parameter. A date that does
      not exist (`date()` raises ValueError, and the retry in the `except`
      branch raises it again) is an error. */
  function ParseDue(text: string, today: Date): (r: Result<DueSpec>)
    requires Valid(today)
    ensures r.Ok? ==> WellFormed(r.value)
    ensures r.Ok? && r.value.ConcreteDate? ==> r.value.date.year == today.year
    ensures r.Err? ==> r.error == InvalidDate
  {
    var t := Lower(Strip(text));
    match MonthDayRule(t, today)
    case Some(r) => r
    case None => Ok(NamedDaysRule(t, today))
  }

  /** `parse_due_info` as written: the weekday rule appends each known
      segment's index in a loop. */
  method ParseDueInfo(text: string, today: Date) returns (r: Result<DueSpec>)
    requires Valid(today)
    ensures r == ParseDue(text, today)
  {
    var t := Lower(Strip(text));
    var monthDay := MonthDayRule(t, today);
    if monthDay.Some? {
      return monthDay.value;
    }
    if t == "today" || t == "tod" {
      return Ok(Weekdays([Weekday(today)]));
    }
    if t == "tomorrow" || t == "tom" {
      return Ok(Weekdays([(Weekday(today) + 1) % 7]));
    }
    var parts := Split(t);
    var idxs: seq<int> := [];
    for i := 0 to |parts|
      invariant idxs == WeekdayIndices(parts[..i])
    {
      var key := Lower(Strip(parts[i]));
      if key in DayMap() {
        idxs := idxs + [DayMap()[key]];
      }
      assert parts[..i + 1][..i] == parts[..i];
    }
    assert parts[..|parts|] == parts;
    return Ok(Weekdays(idxs));
  }

  lemma MonthKeysAreWordsAt(m: int)
    requires 1 <= m <= 12
    ensures |MonthKeys[m - 1]| > 0 && AllLetters(MonthKeys[m - 1]) && NoUpper(MonthKeys[m - 1])
    ensures |MonthAbbrKeys[m - 1]| > 0 && AllLetters(MonthAbbrKeys[m - 1]) && NoUpper(MonthAbbrKeys[m - 1])
  {
    MonthKeysAreWords();
  }

  /** Month-and-day text: a month name or abbreviation, in any case and with
      any surrounding whitespace, followed by one or two digits, means that
      day of that month in today's year, and is an error when that day does
      not exist. */
  lemma ParseMonthDay(text: string, today: Date, m: int, abbreviated: bool, digits: string)
    requires Valid(today) && 1 <= m <= 12
    requires 1 <= |digits| <= 2 && AllDigits(digits)
    requires Lower(Strip(text)) == (if abbreviated then MonthAbbrKeys[m - 1] else MonthKeys[m - 1]) + digits
    ensures var d := Date(today.year, m, DigitsValue(digits));
      ParseDue(text, today) == if Valid(d) then Ok(ConcreteDate(d)) else Err(InvalidDate)
  {
    var key := if abbreviated then MonthAbbrKeys[m - 1] else MonthKeys[m - 1];
    MonthDayRuleOnKey(Lower(Strip(text)), today, m, key, digits);
  }

  /** Rule 1 on the lower-cased name or abbreviation of month m followed by
      one or two digits. */
  lemma MonthDayRuleOnKey(t: string, today: Date, m: int, key: string, digits: string)
    requires 1 <= m <= 12 && (key == MonthAbbrKeys[m - 1] || key == MonthKeys[m - 1])
    requires 1 <= |digits| <= 2 && AllDigits(digits) && t == key + digits
    ensures var d := Date(today.year, m, DigitsValue(digits));
      MonthDayRule(t, today) == Some(if Valid(d) then Ok(ConcreteDate(d)) else Err(InvalidDate))
  {
    MonthKeysAreWordsAt(m);
    MonthDayMatchIff(t, key, digits);
    LowerNoUpper(key);
    MonthMapLookup(m);
  }

  /** A lower-case text without surrounding whitespace is its own
      `strip().lower()`. */
  lemma PlainText(text: string)
    requires NoUpper(text)
    requires |text| == 0 || (!IsSpace(text[0]) && !IsSpace(text[|text| - 1]))
    ensures Lower(Strip(text)) == text
  {
    StripUnspaced(text);
    LowerNoUpper(text);
  }

  /** "feb29" (in any case, with any surrounding whitespace) is an error
      exactly in the years that are not leap years. */
  lemma February29(text: string, today: Date)
    requires Valid(today) && Lower(Strip(text)) == "feb29"
    ensures ParseDue(text, today).Err? <==> !IsLeapYear(today.year)
    ensures ParseDue(text, today).Ok? ==> ParseDue(text, today).value == ConcreteDate(Date(today.year, 2, 29))
  {
    assert "feb29" == MonthAbbrKeys[1] + "29";
    ParseMonthDay(text, today, 2, true, "29");
  }

  /** "feb30" and "may0" never name a date. */
  lemma NonexistentDays(text: string, today: Date)
    requires Valid(today) && (Lower(Strip(text)) == "feb30" || Lower(Strip(text)) == "may0")
    ensures ParseDue(text, today) == Err(InvalidDate)
  {
    if Lower(Strip(text)) == "feb30" {
      assert "feb30" == MonthAbbrKeys[1] + "30";
      ParseMonthDay(text, today, 2, true, "30");
    } else {
      assert "may0" == MonthKeys[4] + "0";
      ParseMonthDay(text, today, 5, false, "0");
    }
  }

  /** "today" or "tod", in any case and with any surrounding whitespace,
      means today's weekday. */
  lemma ParseToday(text: string, today: Date)
    requires Valid(today)
    requires Lower(Strip(text)) == "today" || Lower(Strip(text)) == "tod"
    ensures ParseDue(text, today) == Ok(Weekdays([Weekday(today)]))
  {
  }

  /** "tomorrow" or "tom" means the weekday after today's, Sunday wrapping
      round to Monday. */
  lemma ParseTomorrow(text: string, today: Date)
    requires Valid(today)
    requires Lower(Strip(text)) == "tomorrow" || Lower(Strip(text)) == "tom"
    ensures ParseDue(text, today) == Ok(Weekdays([(Weekday(today) + 1) % 7]))
  {
  }

  /** Letters and digits whose letters are no month fall through to the
      weekday rule. */
  lemma UnknownMonthFallsThrough(text: string, today: Date, letters: string, digits: string)
    requires Valid(today)
    requires MonthDayMatch(Lower(Strip(text))) == Some((letters, digits))
    requires Lower(letters) !in MonthMap()
    ensures ParseDue(text, today) == Ok(Weekdays(WeekdayIndices(Split(Lower(Strip(text))))))
  {
    var t := Lower(Strip(text));
    assert IsDigit(t[|t| - 1]);
    assert t != "today" && t != "tod" && t != "tomorrow" && t != "tom" by {
      assert !IsDigit("today"[4]) && !IsDigit("tod"[2]) && !IsDigit("tomorrow"[7]) && !IsDigit("tom"[2]);
    }
  }
}
