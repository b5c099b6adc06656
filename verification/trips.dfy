/** Trip records as they stand once a city's file has been read and its
    `Start Time` parsed, and the frame (table) that holds them. */
module Trips {
  import opened Wrappers

  /** Calendar month of a timestamp, as `dt.month` gives it. */
  type MonthNum = m: int | 1 <= m <= 12 witness 1
  /** Day of the week, as `dt.dayofweek` gives it: 0 is Monday, 6 is Sunday. */
  type WeekdayNum = d: int | 0 <= d <= 6
  /** Hour of the day of a timestamp. */
  type HourNum = h: int | 0 <= h <= 23

  /** The parts of a trip's `Start Time` that the program looks at. */
  datatype StartTime = StartTime(month: MonthNum, weekday: WeekdayNum, hour: HourNum)

  /** One row. `gender` and `birthYear` are `None` exactly when the city's
      file has no such column (see `Conforms`). */
  datatype Trip = Trip(
    start: StartTime,
    startStation: string,
    endStation: string,
    userType: string,
    gender: Option<string>,
    birthYear: Option<int>)

  /** A loaded table: whether its file has the optional `Gender` and
      `Birth Year` columns, and its rows in file order. */
  datatype Frame = Frame(hasGender: bool, hasBirthYear: bool, trips: seq<Trip>)

  /** Column presence is a property of the whole table: every row has a
      value in a column the table has, and none in a column it lacks. */
  predicate Conforms(f: Frame) {
    forall t :: t in f.trips ==> t.gender.Some? == f.hasGender && t.birthYear.Some? == f.hasBirthYear
  }

  function DigitChar(d: int): (c: char)
    requires 0 <= d <= 9
  {
    (d + '0' as int) as char
  }

  predicate IsDigit(c: char) {
    '0' <= c <= '9'
  }

  /** The `hour` column: the start hour formatted with `%H` (two digits,
      zero-padded) followed by ":00". */
  function HourBucket(h: HourNum): (b: string)
    ensures |b| == 5 && b[2..] == ":00" && IsDigit(b[0]) && IsDigit(b[1])
  {
    [DigitChar(h / 10), DigitChar(h % 10)] + ":00"
  }

  /** Reads an hour bucket back; `None` for a string of any other shape. */
  function HourOfBucket(b: string): Option<HourNum> {
    if |b| == 5 && b[2..] == ":00" && IsDigit(b[0]) && IsDigit(b[1]) then
      var h := (b[0] as int - '0' as int) * 10 + (b[1] as int - '0' as int);
      if h <= 23 then Some(h) else None
    else None
  }

  /** Formatting an hour and reading it back gives the same hour. */
  lemma HourBucketRoundTrip(h: HourNum)
    ensures HourOfBucket(HourBucket(h)) == Some(h)
  {
  }

  /** Every string that reads back as an hour is that hour's bucket, so the
      buckets are exactly the strings "00:00" .. "23:00". */
  lemma HourOfBucketExact(b: string, h: HourNum)
    requires HourOfBucket(b) == Some(h)
    ensures HourBucket(h) == b
  {
    var hb := HourBucket(h);
    assert hb[0] == b[0] && hb[1] == b[1];
    assert hb[2..] == b[2..];
    assert hb == hb[..2] + hb[2..] && b == b[..2] + b[2..];
  }

  /** Distinct hours fall into distinct buckets. */
  lemma HourBucketInjective(h: HourNum, k: HourNum)
    requires HourBucket(h) == HourBucket(k)
    ensures h == k
  {
    HourBucketRoundTrip(h);
    HourBucketRoundTrip(k);
  }
}
