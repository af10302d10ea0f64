/** The name tables of todo.py: `day_map`, `month_map`, and the English
    names that `calendar.day_name`, `calendar.month_name` and
    `calendar.month_abbr` give in the C locale (the only locale modelled). */
module Tables {
  import opened Text

  /** The entries of the `day_map` display, in order: the day names and
      abbreviations due text may use, with their weekday indices (Monday
      is 0). */
  const DayEntries: seq<(string, int)> := [
    ("monday", 0), ("mon", 0),
    ("tuesday", 1), ("tue", 1), ("tues", 1),
    ("wednesday", 2), ("wed", 2),
    ("thursday", 3), ("thu", 3), ("thur", 3), ("thurs", 3),
    ("friday", 4), ("fri", 4),
    ("saturday", 5), ("sat", 5),
    ("sunday", 6), ("sun", 6)]

  /** The dictionary the first k entries of the display build: later
      entries win. */
  function DayMapUpTo(k: int): map<string, int>
    requires 0 <= k <= |DayEntries|
  {
    if k == 0 then map[] else DayMapUpTo(k - 1)[DayEntries[k - 1].0 := DayEntries[k - 1].1]
  }

  /** `day_map`. */
  function DayMap(): map<string, int> {
    DayMapUpTo(|DayEntries|)
  }

  /** Every key of the first k entries maps to a weekday. */
  lemma {:induction false} DayMapUpToRange(k: int, key: string)
    requires 0 <= k <= |DayEntries| && key in DayMapUpTo(k)
    ensures 0 <= DayMapUpTo(k)[key] <= 6
  {
    if key != DayEntries[k - 1].0 {
      DayMapUpToRange(k - 1, key);
    }
  }

  /** With no key repeated, entry j's key maps to entry j's value. */
  lemma {:induction false} DayMapUpToFinds(k: int, j: int)
    requires 0 <= j < k <= |DayEntries|
    requires forall a, b :: 0 <= a < b < |DayEntries| ==> DayEntries[a].0 != DayEntries[b].0
    ensures DayEntries[j].0 in DayMapUpTo(k) && DayMapUpTo(k)[DayEntries[j].0] == DayEntries[j].1
  {
    if j < k - 1 {
      DayMapUpToFinds(k - 1, j);
    }
  }

  /** Every key of the first k entries is the name of one of them. */
  lemma {:induction false} DayMapUpToKeys(k: int, key: string)
    requires 0 <= k <= |DayEntries| && key in DayMapUpTo(k)
    ensures exists j :: 0 <= j < k && DayEntries[j].0 == key
  {
    if key != DayEntries[k - 1].0 {
      DayMapUpToKeys(k - 1, key);
    }
  }

  /** Every `day_map` key is a non-empty word of ASCII letters and none of
      the words for today or tomorrow. */
  lemma DayKeysAreWords(key: string)
    requires key in DayMap()
    ensures |key| > 0 && AllLetters(key)
    ensures key != "today" && key != "tod" && key != "tomorrow" && key != "tom"
  {
    DayMapUpToKeys(|DayEntries|, key);
    var j :| 0 <= j < |DayEntries| && DayEntries[j].0 == key;
    assert forall i :: 0 <= i < |DayEntries| ==> |DayEntries[i].0| > 0 && AllLetters(DayEntries[i].0);
  }

  /** `calendar.day_name`, Monday first. */
  const DayNames: seq<string> :=
    ["Monday", "Tuesday", "Wednesday", "Thursday", "Friday", "Saturday", "Sunday"]

  /** `calendar.month_name[1..12]`. */
  const MonthNames: seq<string> :=
    ["January", "February", "March", "April", "May", "June", "July",
     "August", "September", "October", "November", "December"]

  /** `calendar.month_name[i].lower()` for i in 1..12, the keys `month_map`
      gets from full names, and what `strftime('%B').lower()` gives. */
  const MonthKeys: seq<string> :=
    ["january", "february", "march", "april", "may", "june", "july",
     "august", "september", "october", "november", "december"]

  /** `calendar.month_abbr[i].lower()` for i in 1..12. */
  const MonthAbbrKeys: seq<string> :=
    ["jan", "feb", "mar", "apr", "may", "jun", "jul", "aug", "sep", "oct", "nov", "dec"]

  /** `month_map` after the first k rounds of the loop that fills it: each
      round adds the lower-cased full name and abbreviation of one month. */
  function MonthMapUpTo(k: int): map<string, int>
    requires 0 <= k <= 12
  {
    if k == 0 then map[]
    else MonthMapUpTo(k - 1)[MonthKeys[k - 1] := k][MonthAbbrKeys[k - 1] := k]
  }

  /** `month_map` once filled. */
  function MonthMap(): map<string, int> {
    MonthMapUpTo(12)
  }

  /** The module-level loop that fills `month_map`. */
  method BuildMonthMap() returns (monthMap: map<string, int>)
    ensures monthMap == MonthMap()
  {
    monthMap := map[];
    for i := 1 to 13
      invariant monthMap == MonthMapUpTo(i - 1)
    {
      monthMap := monthMap[MonthKeys[i - 1] := i];
      monthMap := monthMap[MonthAbbrKeys[i - 1] := i];
    }
  }

  /** No two months share a key. */
  lemma MonthKeysDistinct(i: int, j: int)
    requires 0 <= i < 12 && 0 <= j < 12 && i != j
    ensures MonthKeys[i] != MonthKeys[j] && MonthKeys[i] != MonthAbbrKeys[j]
    ensures MonthAbbrKeys[i] != MonthAbbrKeys[j]
  {
  }

  /** The full and abbreviated names of month m map to m. */
  lemma {:induction false} MonthMapUpToFinds(k: int, m: int)
    requires 1 <= m <= k <= 12
    ensures MonthKeys[m - 1] in MonthMapUpTo(k) && MonthMapUpTo(k)[MonthKeys[m - 1]] == m
    ensures MonthAbbrKeys[m - 1] in MonthMapUpTo(k) && MonthMapUpTo(k)[MonthAbbrKeys[m - 1]] == m
  {
    if m < k {
      MonthMapUpToFinds(k - 1, m);
      MonthKeysDistinct(m - 1, k - 1);
      MonthKeysDistinct(k - 1, m - 1);
    }
  }

  /** Every key of the first k rounds names one of the months 1..k. */
  lemma {:induction false} MonthMapUpToRange(k: int, key: string)
    requires 0 <= k <= 12
    requires key in MonthMapUpTo(k)
    ensures 1 <= MonthMapUpTo(k)[key] <= k
    ensures key == MonthKeys[MonthMapUpTo(k)[key] - 1] || key == MonthAbbrKeys[MonthMapUpTo(k)[key] - 1]
  {
    if key != MonthKeys[k - 1] && key != MonthAbbrKeys[k - 1] {
      MonthMapUpToRange(k - 1, key);
    }
  }

  /** `month_map[name]` is the month whose lower-cased full or abbreviated
      English name is `name`. */
  lemma MonthMapLookup(m: int)
    requires 1 <= m <= 12
    ensures MonthKeys[m - 1] in MonthMap() && MonthMap()[MonthKeys[m - 1]] == m
    ensures MonthAbbrKeys[m - 1] in MonthMap() && MonthMap()[MonthAbbrKeys[m - 1]] == m
  {
    MonthMapUpToFinds(12, m);
  }

  /** Every `month_map` key is the lower-cased full or abbreviated name of
      the month it maps to. */
  lemma MonthMapRange(key: string)
    requires key in MonthMap()
    ensures 1 <= MonthMap()[key] <= 12
    ensures key == MonthKeys[MonthMap()[key] - 1] || key == MonthAbbrKeys[MonthMap()[key] - 1]
  {
    MonthMapUpToRange(12, key);
  }

  /** The lower-cased month names are words of lower-case ASCII letters. */
  lemma MonthKeysAreWords()
    ensures forall i :: 0 <= i < 12 ==> |MonthKeys[i]| > 0 && AllLetters(MonthKeys[i]) && NoUpper(MonthKeys[i])
  {
  }

  /** Every `day_map` index is a weekday. */
  lemma DayMapRange(key: string)
    requires key in DayMap()
    ensures 0 <= DayMap()[key] <= 6
  {
    DayMapUpToRange(|DayEntries|, key);
  }

  /** The full day names in lower case, Monday first. */
  const DayKeys: seq<string> :=
    ["monday", "tuesday", "wednesday", "thursday", "friday", "saturday", "sunday"]

  /** Each day name is its lower-case name with a capital first letter. */
  lemma DayNameCapitalised(i: int)
    requires 0 <= i < 7
    ensures DayNames[i] == Capitalise(DayKeys[i])
  {
    var key := DayKeys[i];
    assert Capitalise(key) == [UpperChar(key[0])] + key[1..];
  }

  lemma DayKeysLowerCase()
    ensures forall i :: 0 <= i < 7 ==> NoUpper(DayKeys[i])
  {
  }

  lemma DayEntriesDistinct()
    ensures forall a, b :: 0 <= a < b < |DayEntries| ==> DayEntries[a].0 != DayEntries[b].0
  {
  }

  /** Lowered, each weekday's name is its full lower-case name. */
  lemma DayNameLowered(i: int)
    requires 0 <= i <= 6
    ensures Lower(DayNames[i]) == DayKeys[i]
  {
    DayNameCapitalised(i);
    DayKeysLowerCase();
    LowerCapitalise(DayKeys[i]);
  }

  /** Lower-cased, each entry of `calendar.day_name` is a `day_map` key for
      its own weekday. */
  lemma DayNamesInDayMap(i: int)
    requires 0 <= i <= 6
    ensures Lower(DayNames[i]) in DayMap() && DayMap()[Lower(DayNames[i])] == i
  {
    DayNameLowered(i);
    DayEntriesDistinct();
    DayMapUpToFinds(|DayEntries|, DayEntryOf(i));
  }

  /** Where the full name of weekday i sits among the `day_map` entries. */
  function DayEntryOf(i: int): (j: int)
    requires 0 <= i <= 6
    ensures 0 <= j < |DayEntries| && DayEntries[j] == (DayKeys[i], i)
  {
    if i == 0 then 0 else if i == 1 then 2 else if i == 2 then 5 else if i == 3 then 7
    else if i == 4 then 11 else if i == 5 then 13 else 15
  }
}
