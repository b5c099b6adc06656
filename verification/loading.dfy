/** `load_data`: the derived `month`, `day` and `hour` columns and the
    month and day-of-week filters applied to a city's table. Reading the
    file and parsing `Start Time` happen before this model starts: its input
    is the table with each row's start time already parsed. */
module Loading {
  import opened Trips
  import Mask

  /** The month names a month filter may use, in calendar order. */
  const Months: seq<string> := ["january", "february", "march", "april", "may", "june"]
  /** The day names a day filter may use, Monday first. */
  const Days: seq<string> := ["monday", "tuesday", "wednesday", "thursday", "friday", "saturday", "sunday"]

  /** A month filter `load_data` accepts: "all" or one of `Months`. */
  predicate MonthChoice(month: string) {
    month == "all" || month in Months
  }

  /** A day filter `load_data` accepts: "all" or one of `Days`. */
  predicate DayChoice(day: string) {
    day == "all" || day in Days
  }

  /** `list.index`: the first position of `x` in `xs`. */
  function IndexOf(xs: seq<string>, x: string): (i: nat)
    requires x in xs
    ensures i < |xs| && xs[i] == x
    ensures forall j :: 0 <= j < i ==> xs[j] != x
  {
    if xs[0] == x then 0 else 1 + IndexOf(xs[1..], x)
  }

  /** The derived `month` column of a row. */
  function MonthOf(t: Trip): MonthNum {
    t.start.month
  }

  /** The derived `day` column of a row. */
  function DayOf(t: Trip): WeekdayNum {
    t.start.weekday
  }

  /** The derived `hour` column of a row. */
  function HourOf(t: Trip): string {
    HourBucket(t.start.hour)
  }

  /** The month number a month name stands for: its position in `Months` plus one. */
  function MonthNumber(month: string): (n: MonthNum)
    requires month in Months
    ensures n <= 6 && Months[n - 1] == month
  {
    IndexOf(Months, month) + 1
  }

  /** The weekday number a day name stands for: its position in `Days`. */
  function DayNumber(day: string): (n: WeekdayNum)
    requires day in Days
    ensures Days[n] == day
  {
    IndexOf(Days, day)
  }

  /** Whether a row passes both filters. */
  predicate Matches(t: Trip, month: string, day: string)
    requires MonthChoice(month) && DayChoice(day)
  {
    && (month == "all" || MonthOf(t) == MonthNumber(month))
    && (day == "all" || DayOf(t) == DayNumber(day))
  }

  /** `Matches` as a mask over rows. */
  function Criterion(month: string, day: string): Trip -> bool
    requires MonthChoice(month) && DayChoice(day)
  {
    t => Matches(t, month, day)
  }

  /** The month test as a mask over rows; it holds everywhere for "all". */
  function MonthMask(month: string): Trip -> bool
    requires MonthChoice(month)
  {
    t => month == "all" || MonthOf(t) == MonthNumber(month)
  }

  /** The day test as a mask over rows; it holds everywhere for "all". */
  function DayMask(day: string): Trip -> bool
    requires DayChoice(day)
  {
    t => day == "all" || DayOf(t) == DayNumber(day)
  }

  /** The month filter: unchanged for "all", otherwise the rows whose month
      is the chosen one. */
  function FilterMonth(trips: seq<Trip>, month: string): seq<Trip>
    requires MonthChoice(month)
  {
    if month != "all" then Mask.Select(trips, MonthMask(month)) else trips
  }

  /** The day filter: unchanged for "all", otherwise the rows whose weekday
      is the chosen one. */
  function FilterDay(trips: seq<Trip>, day: string): seq<Trip>
    requires DayChoice(day)
  {
    if day != "all" then Mask.Select(trips, DayMask(day)) else trips
  }

  /** The table `load_data` returns: the month filter, then the day filter.
      The columns the table has are unchanged and no row is added. */
  function LoadData(f: Frame, month: string, day: string): (r: Frame)
    requires MonthChoice(month) && DayChoice(day)
    ensures r.hasGender == f.hasGender && r.hasBirthYear == f.hasBirthYear
    ensures |r.trips| <= |f.trips|
    ensures Conforms(f) ==> Conforms(r)
  {
    var byMonth := FilterMonth(f.trips, month);
    var byDay := FilterDay(byMonth, day);
    LoadDataSelects(f, month, day);
    f.(trips := byDay)
  }

  /** A row is in the filtered table exactly when it is in the loaded table
      and its month is the chosen month's position in `Months` plus one (any
      month for "all") and its weekday is the chosen day's position in `Days`
      (any day for "all"). */
  lemma LoadDataMatches(f: Frame, month: string, day: string, t: Trip)
    requires MonthChoice(month) && DayChoice(day)
    ensures t in LoadData(f, month, day).trips <==>
            && t in f.trips
            && (month != "all" ==> MonthOf(t) == IndexOf(Months, month) + 1)
            && (day != "all" ==> DayOf(t) == IndexOf(Days, day))
  {
    LoadDataSelects(f, month, day);
    if t in f.trips {
      var i :| 0 <= i < |f.trips| && f.trips[i] == t;
      assert Criterion(month, day)(f.trips[i]) == Matches(t, month, day);
    }
  }

  /** The two filters together select, in their original order, exactly the
      rows that match both. */
  lemma LoadDataSelects(f: Frame, month: string, day: string)
    requires MonthChoice(month) && DayChoice(day)
    ensures FilterDay(FilterMonth(f.trips, month), day) == Mask.Select(f.trips, Criterion(month, day))
  {
    var byMonth := FilterMonth(f.trips, month);
    if month == "all" {
      Mask.SelectAll(f.trips, MonthMask(month));
    }
    if day == "all" {
      Mask.SelectAll(byMonth, DayMask(day));
    }
    Mask.SelectThenSelect(f.trips, MonthMask(month), DayMask(day), Criterion(month, day));
  }

  /** `load_data` keeps exactly the matching rows, in order and unchanged:
      the result is the subsequence of the input at the positions whose row
      matches both filters. */
  lemma LoadDataKeepsMatchingPositions(f: Frame, month: string, day: string) returns (idx: seq<nat>)
    requires MonthChoice(month) && DayChoice(day)
    ensures var r := LoadData(f, month, day).trips;
            && |idx| == |r|
            && (forall k :: 0 <= k < |idx| ==> idx[k] < |f.trips| && r[k] == f.trips[idx[k]])
            && (forall k, l :: 0 <= k < l < |idx| ==> idx[k] < idx[l])
            && (forall i :: 0 <= i < |f.trips| ==> (i in idx <==> Matches(f.trips[i], month, day)))
  {
    var keep := Criterion(month, day);
    LoadDataSelects(f, month, day);
    idx := SelectedPositions(f.trips, keep, month, day);
  }

  /** The positions `Mask.Kept` picks for the combined filter, with the
      facts `LoadDataKeepsMatchingPositions` needs, stated for `Matches`. */
  lemma SelectedPositions(s: seq<Trip>, keep: Trip -> bool, month: string, day: string) returns (idx: seq<nat>)
    requires MonthChoice(month) && DayChoice(day)
    requires keep == Criterion(month, day)
    ensures |idx| == |Mask.Select(s, keep)|
    ensures forall k :: 0 <= k < |idx| ==> idx[k] < |s| && Mask.Select(s, keep)[k] == s[idx[k]]
    ensures forall k, l :: 0 <= k < l < |idx| ==> idx[k] < idx[l]
    ensures forall i :: 0 <= i < |s| ==> (i in idx <==> Matches(s[i], month, day))
  {
    idx := Mask.Kept(s, keep);
    Mask.SelectIsKeptPositions(s, keep);
  }

  /** Every row keeps its multiplicity when it matches and is dropped when
      it does not. */
  lemma LoadDataCounts(f: Frame, month: string, day: string, t: Trip)
    requires MonthChoice(month) && DayChoice(day)
    ensures multiset(LoadData(f, month, day).trips)[t] ==
            if Matches(t, month, day) then multiset(f.trips)[t] else 0
  {
    LoadDataSelects(f, month, day);
    Mask.SelectCount(f.trips, Criterion(month, day), t);
  }

  /** With "all" for both filters the table comes back whole. */
  lemma LoadDataAllKeepsEverything(f: Frame)
    ensures LoadData(f, "all", "all") == f
  {
  }

  /** Filtering an already filtered table again with the same choices
      changes nothing. */
  lemma LoadDataIdempotent(f: Frame, month: string, day: string)
    requires MonthChoice(month) && DayChoice(day)
    ensures LoadData(LoadData(f, month, day), month, day) == LoadData(f, month, day)
  {
    var r := LoadData(f, month, day);
    LoadDataSelects(f, month, day);
    LoadDataSelects(r, month, day);
    Mask.SelectIdempotent(f.trips, Criterion(month, day));
  }
}
