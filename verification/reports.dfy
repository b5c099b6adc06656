/** The statistics `time_stats`, `station_stats` and `user_stats` compute
    on the filtered table, before they are printed. */
module Reports {
  import opened Wrappers
  import opened Trips
  import opened Series
  import Loading

  /** One column of the table, `df[name]`. */
  function Column<T>(trips: seq<Trip>, get: Trip -> T): (c: seq<T>)
    ensures |c| == |trips|
  {
    seq(|trips|, i requires 0 <= i < |trips| => get(trips[i]))
  }

  function StartOf(t: Trip): string { t.startStation }
  function EndOf(t: Trip): string { t.endStation }
  function UserTypeOf(t: Trip): string { t.userType }

  /** The route label of a trip, `Start Station + " to " + End Station`. */
  function RouteOf(t: Trip): string {
    RouteLabel(t.startStation, t.endStation)
  }

  function RouteLabel(from: string, to: string): string {
    from + " to " + to
  }

  /** `longer` is `shorter` followed by text that agrees with " to " up to
      the end of the shorter of the two. Only then can a route from one to
      the other be labelled like its reverse. */
  predicate ExtendsBySeparator(shorter: string, longer: string) {
    && |shorter| < |longer|
    && longer[..|shorter|] == shorter
    && (longer[|shorter|..] <= " to " || " to " <= longer[|shorter|..])
  }

  /** The label of a route differs from the label of its reverse unless one
      station's name extends the other's as `ExtendsBySeparator` says: the
      direction of a trip is part of its route. */
  lemma RouteLabelDirected(a: string, b: string)
    requires a != b
    requires !ExtendsBySeparator(a, b) && !ExtendsBySeparator(b, a)
    ensures RouteLabel(a, b) != RouteLabel(b, a)
  {
    if |a| < |b| {
      SameLabelExtends(a, b);
    } else if |b| < |a| {
      SameLabelExtends(b, a);
    } else {
      assert RouteLabel(a, b)[..|a|] == a;
      assert RouteLabel(b, a)[..|b|] == b;
    }
  }

  lemma SameLabelExtends(a: string, b: string)
    requires |a| < |b|
    ensures RouteLabel(a, b) == RouteLabel(b, a) ==> ExtendsBySeparator(a, b)
  {
    var l, r := RouteLabel(a, b), RouteLabel(b, a);
    var w := b[|a|..];
    var m := if |w| < 4 then |w| else 4;
    assert l[..|a|] == a && r[..|a|] == b[..|a|];
    assert l[|a|..|a| + m] == " to "[..m];
    assert r[|a|..|a| + m] == w[..m];
    if l == r {
      assert w[..m] == " to "[..m];
      if |w| < 4 {
        assert w == w[..m];
        assert w <= " to ";
      } else {
        assert " to " <= w;
      }
    }
  }

  /** The condition is needed: "to" and "to to" give the same label in
      both directions. */
  lemma ReverseRouteCanShareLabel()
    ensures RouteLabel("to", "to to") == RouteLabel("to to", "to")
  {
  }

  /** The most popular month, weekday and start hour. */
  datatype TimeReport = TimeReport(month: MonthNum, day: WeekdayNum, hour: string)

  /** `time_stats`: each reported value is a most frequent value of its
      derived column. */
  function TimeStats(trips: seq<Trip>): (r: TimeReport)
    requires |trips| > 0
    ensures IsMode(Column(trips, Loading.MonthOf), r.month)
    ensures IsMode(Column(trips, Loading.DayOf), r.day)
    ensures IsMode(Column(trips, Loading.HourOf), r.hour)
  {
    TimeReport(
      Mode(Column(trips, Loading.MonthOf)),
      Mode(Column(trips, Loading.DayOf)),
      Mode(Column(trips, Loading.HourOf)))
  }

  /** The reported popular hour is the bucket of the start hour of some trip
      in the table. */
  lemma PopularHourIsBucket(trips: seq<Trip>)
    requires |trips| > 0
    ensures exists i :: 0 <= i < |trips| && TimeStats(trips).hour == HourBucket(trips[i].start.hour)
    ensures HourOfBucket(TimeStats(trips).hour).Some?
  {
    var col := Column(trips, Loading.HourOf);
    var h := TimeStats(trips).hour;
    var i :| 0 <= i < |col| && col[i] == h;
    assert h == HourBucket(trips[i].start.hour);
    HourBucketRoundTrip(trips[i].start.hour);
  }

  /** The most popular start station, end station and route. */
  datatype StationReport = StationReport(start: string, end: string, route: string)

  /** `station_stats`: each reported value is a most frequent value of its
      column; the route is taken over the per-row labels. */
  function StationStats(trips: seq<Trip>): (r: StationReport)
    requires |trips| > 0
    ensures IsMode(Column(trips, StartOf), r.start)
    ensures IsMode(Column(trips, EndOf), r.end)
    ensures IsMode(Column(trips, RouteOf), r.route)
  {
    StationReport(
      Mode(Column(trips, StartOf)),
      Mode(Column(trips, EndOf)),
      Mode(Column(trips, RouteOf)))
  }

  /** A trip between two stations, with any other fields. */
  function TripBetween(t: Trip, from: string, to: string): Trip {
    t.(startStation := from, endStation := to)
  }

  /** Three trips from `a` to `b` and one back make "a to b" the popular
      route. This holds for any two names: when the reverse route happens to
      share the label, all four rows carry that one label. */
  lemma PopularRouteFollowsDirection(t: Trip, a: string, b: string)
    ensures var ab, ba := TripBetween(t, a, b), TripBetween(t, b, a);
            StationStats([ab, ab, ab, ba]).route == RouteLabel(a, b)
  {
    var ab, ba := TripBetween(t, a, b), TripBetween(t, b, a);
    var trips := [ab, ab, ab, ba];
    var forward, backward := RouteLabel(a, b), RouteLabel(b, a);
    var col := Column(trips, RouteOf);
    assert RouteOf(ab) == forward && RouteOf(ba) == backward;
    assert col == [RouteOf(ab), RouteOf(ab), RouteOf(ab), RouteOf(ba)];
    if forward == backward {
      assert multiset(col) == multiset{forward, forward, forward, forward};
    } else {
      assert multiset(col) == multiset{forward, forward, forward, backward};
    }
    ModeOfDominant(col, forward);
  }

  /** Oldest, youngest and most common birth year. */
  datatype BirthYearReport = BirthYearReport(oldest: int, youngest: int, common: int)

  /** What `user_stats` computes: the user-type counts, and the gender counts
      and birth-year figures when the table has those columns. */
  datatype UserReport = UserReport(
    userTypes: seq<(string, nat)>,
    genders: Option<seq<(string, nat)>>,
    birthYears: Option<BirthYearReport>)

  /** The `Gender` column of a table that has one. */
  function Genders(f: Frame): (c: seq<string>)
    requires Conforms(f) && f.hasGender
    ensures |c| == |f.trips|
  {
    seq(|f.trips|, i requires 0 <= i < |f.trips| => assert f.trips[i] in f.trips; f.trips[i].gender.value)
  }

  /** The `Birth Year` column of a table that has one. */
  function BirthYears(f: Frame): (c: seq<int>)
    requires Conforms(f) && f.hasBirthYear
    ensures |c| == |f.trips|
  {
    seq(|f.trips|, i requires 0 <= i < |f.trips| => assert f.trips[i] in f.trips; f.trips[i].birthYear.value)
  }

  /** `min()`, `max()` and `mode()[0]` of a non-empty birth-year column. */
  function BirthYearStats(years: seq<int>): (r: BirthYearReport)
    requires |years| > 0
    ensures r.oldest in years && r.youngest in years
    ensures forall y :: y in years ==> r.oldest <= y <= r.youngest
    ensures IsMode(years, r.common)
    ensures r.oldest <= r.common <= r.youngest
  {
    BirthYearReport(Min(years), Max(years), Mode(years))
  }

  /** `user_stats`. A column the table lacks yields no figure instead of an
      error. A table with a `Birth Year` column must not be empty: there the
      program fails on an empty table. */
  function UserStats(f: Frame): (r: UserReport)
    requires Conforms(f)
    requires f.hasBirthYear ==> |f.trips| > 0
    ensures r.genders.Some? <==> f.hasGender
    ensures r.birthYears.Some? <==> f.hasBirthYear
    ensures forall x :: x in Keys(r.userTypes) <==> x in Column(f.trips, UserTypeOf)
    ensures forall i :: 0 <= i < |r.userTypes| ==>
              r.userTypes[i].1 == multiset(Column(f.trips, UserTypeOf))[r.userTypes[i].0]
    ensures Total(r.userTypes) == |f.trips|
    ensures r.genders.Some? ==>
              && (forall x :: x in Keys(r.genders.value) <==> x in Genders(f))
              && (forall i :: 0 <= i < |r.genders.value| ==>
                    r.genders.value[i].1 == multiset(Genders(f))[r.genders.value[i].0])
              && Total(r.genders.value) == |f.trips|
    ensures r.birthYears.Some? ==>
              var b := r.birthYears.value;
              b.oldest <= b.common <= b.youngest && b == BirthYearStats(BirthYears(f))
  {
    UserReport(
      ValueCounts(Column(f.trips, UserTypeOf)),
      if f.hasGender then Some(ValueCounts(Genders(f))) else None,
      if f.hasBirthYear then Some(BirthYearStats(BirthYears(f))) else None)
  }
}
