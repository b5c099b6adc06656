# US bikeshare explorer — a Dafny model

`bikeshare_project.py` is an interactive command-line tool that explores
bicycle-share trip logs for Chicago, New York City and Washington. It asks
for a city, a month filter and a day-of-week filter. It then loads that
city's trips and filters them. Next it reports:

- the most popular month, weekday and start hour;
- the most popular start station, end station and route;
- user-type and gender counts;
- the oldest, youngest and most common birth year;
- the total and average trip duration (not modelled, see "Left out").

Finally it pages through the raw file five rows at a time, for as long as
the user answers "yes".

This project models the logic under the prompts and the printing:

| module | models |
|---|---|
| `Trips` (trips.dfy) | A trip record with its already-parsed start time (month 1–12, weekday 0 = Monday … 6, hour 0–23), its stations and user type, and its optional gender and birth year. A `Frame` is a city's table, and it records whether the table has a `Gender` and a `Birth Year` column at all. The derived `hour` column is the `"HH:00"` bucket. |
| `Mask` (mask.dfy) | Boolean-mask selection `df[mask]`: the rows where the mask holds, in their original order. |
| `Loading` (loading.dfy) | `load_data` after the file is read: the month filter (a name from january–june maps to its position plus one) and the day filter (a name from monday–sunday maps to its 0-based position), each switched off by `"all"`. |
| `Series` (series.dfy) | `mode()[0]`, `value_counts()`, `min()` and `max()` over a column. The number of times a value occurs is `multiset(column)[value]`. |
| `Reports` (reports.dfy) | What `time_stats`, `station_stats` and `user_stats` compute, before printing. The route is the per-row label `start + " to " + end`. |
| `Prompts` (prompts.dfy) | The `get_filters` validators. An answer is stripped and lower-cased. Each prompt repeats until the answer is one of a fixed list: 3 cities, 7 month options, 8 day options. |
| `Pager` (pager.dfy) | The `raw_data` loop over `count`, `start` and `end`. The first "yes" shows `df.loc[0:4]`, each further "yes" shows the next five rows, and any other answer stops the loop. |

The keyboard is modelled as a sequence of answer strings. A prompt that
runs out of answers before one is accepted yields no choice. The pager stops
when the answers run out.

Two facts about the code shape the contracts:

- The popular values are `mode()[0]`, and pandas orders the result of
  `mode()` itself. The model promises only that the value reported is a most
  frequent one.
- The program has no guard for an empty table. In `time_stats` and
  `station_stats`, `mode()[0]` on an empty column raises an error that nothing
  catches, so `TimeStats` and `StationStats` require a non-empty table. In
  `user_stats` the `KeyError` from `mode()[0]` is caught (lines 203-206), but
  `min()` of an empty `Birth Year` column is NaN and `int(oldest)` then fails
  (lines 201 and 223). So `UserStats` requires a non-empty table only when the
  table has a `Birth Year` column.

## Model

| member | source | states |
|---|---|---|
| Trips.Conforms | bikeshare_project.py:191-206 | Definition: a table either has a `Gender` (`Birth Year`) value on every row or lacks the column, which the program detects by catching `KeyError`. |
| Trips.HourBucket | bikeshare_project.py:84 | The hour bucket is five characters: two decimal digits followed by ":00". |
| Trips.HourBucketRoundTrip | bikeshare_project.py:84 | Reading the two digits of a bucket back gives the start hour it was made from. |
| Trips.HourOfBucketExact | bikeshare_project.py:84 | Any string that reads as an hour bucket is exactly the bucket of that hour. |
| Trips.HourBucketInjective | bikeshare_project.py:84 | Different start hours get different buckets. |
| Mask.Select | bikeshare_project.py:93 | The rows `df[mask]` keeps all come from the table and pass the mask, every row that passes is kept, and no rows are added. |
| Mask.SelectIsKeptPositions | bikeshare_project.py:93 | The selection is the subsequence of the table at the strictly increasing positions where the mask holds, and exactly those positions. |
| Mask.KeptPositions | bikeshare_project.py:93 | The kept positions are in range, strictly increasing, and exactly the positions where the mask holds. |
| Mask.SelectAtKept | bikeshare_project.py:93 | The k-th kept row is the table's row at the k-th kept position, unchanged. |
| Mask.SelectCount | bikeshare_project.py:93 | A row keeps its number of occurrences when it passes the mask and has none otherwise. |
| Mask.SelectAll | bikeshare_project.py:87 | A mask that holds on every row keeps the table unchanged. |
| Mask.SelectThenSelect | bikeshare_project.py:93-102 | Selecting by one mask and then by a second is selecting once by their conjunction. |
| Mask.SelectIdempotent | bikeshare_project.py:93 | Selecting twice by the same mask is selecting once. |
| Loading.IndexOf | bikeshare_project.py:90 | `list.index`: the position returned holds the name, and no earlier position does. |
| Loading.MonthOf | bikeshare_project.py:82 | Definition: the derived `month` column of a row. |
| Loading.DayOf | bikeshare_project.py:83 | Definition: the derived `day` column of a row, 0 for Monday. |
| Loading.HourOf | bikeshare_project.py:84 | Definition: the derived `hour` column of a row, its start hour's bucket. |
| Loading.Matches | bikeshare_project.py:87-102 | Definition: a row passes the month test (skipped for "all") and the day test (skipped for "all"). |
| Loading.FilterMonth | bikeshare_project.py:87-93 | Definition: the table unchanged for "all", otherwise the rows whose month is the chosen one. |
| Loading.FilterDay | bikeshare_project.py:96-102 | Definition: the table unchanged for "all", otherwise the rows whose weekday is the chosen one. |
| Loading.MonthMask | bikeshare_project.py:93 | Definition: the mask `df['month'] == month`, true everywhere for "all". |
| Loading.DayMask | bikeshare_project.py:102 | Definition: the mask `df['day'] == day`, true everywhere for "all". |
| Loading.MonthNumber | bikeshare_project.py:89-90 | A month name maps to a month number from 1 to 6 whose name, at that position minus one, is the given one. |
| Loading.DayNumber | bikeshare_project.py:98-99 | A day name maps to the weekday number at whose position the name stands. |
| Loading.LoadData | bikeshare_project.py:86-104 | Filtering keeps the table's columns, never adds rows, and keeps the optional-column shape of every row. |
| Loading.LoadDataMatches | bikeshare_project.py:87-102 | A trip is in the result exactly when it is in the table, its month equals the month name's index plus one (unless "all") and its weekday equals the day name's index (unless "all"). |
| Loading.LoadDataSelects | bikeshare_project.py:86-102 | The month filter followed by the day filter is one selection by "month matches and day matches". |
| Loading.LoadDataKeepsMatchingPositions | bikeshare_project.py:86-104 | The result is the input's rows at strictly increasing positions, unchanged, and a position is among them exactly when its row matches both filters. |
| Loading.SelectedPositions | bikeshare_project.py:93-102 | The positions picked by the combined filter are increasing, point at the selected rows, and are exactly the matching positions. |
| Loading.LoadDataCounts | bikeshare_project.py:93-102 | A matching row keeps its multiplicity; a non-matching row disappears. |
| Loading.LoadDataAllKeepsEverything | bikeshare_project.py:87-96 | With "all" for month and day the table comes back unchanged. |
| Loading.LoadDataIdempotent | bikeshare_project.py:86-104 | Filtering the filtered table again with the same month and day changes nothing. |
| Series.MostFrequent | bikeshare_project.py:111 | The chosen candidate occurs at least as often as every other candidate. |
| Series.Mode | bikeshare_project.py:111 | `mode()[0]` of a non-empty column occurs in it, and at least as often as any value. |
| Series.ModeOfDominant | bikeshare_project.py:145 | A value that occurs strictly more often than every other is the mode. |
| Series.Distinct | bikeshare_project.py:188 | The distinct values are exactly the values of the column, each once. |
| Series.Tally | bikeshare_project.py:188 | The tally holds one entry per given value, in the given order. |
| Series.ValueCounts | bikeshare_project.py:188 | `value_counts()`: each distinct value of the column appears once with its positive number of occurrences, and the counts sum to the column's length. |
| Series.ValueCountsFacts | bikeshare_project.py:188 | Proves the counting facts `ValueCounts` states. |
| Series.DistinctOccur | bikeshare_project.py:188 | Every distinct value occurs in the column at least once, so no count `value_counts()` reports is zero. |
| Series.TallyCounts | bikeshare_project.py:188 | Every tally entry's count is that value's number of occurrences in the column. |
| Series.TallyGrow | bikeshare_project.py:188 | Appending a row to the column makes the tally total grow by the row's multiplicity among the tallied values. |
| Series.TotalValueCounts | bikeshare_project.py:188 | The counts of all distinct values add up to the number of rows. |
| Series.Min | bikeshare_project.py:201 | `min()` is a value of the column and no value is smaller. |
| Series.Max | bikeshare_project.py:202 | `max()` is a value of the column and no value is larger. |
| Reports.Column | bikeshare_project.py:111 | A column has one entry per row of the table. |
| Reports.TimeStats | bikeshare_project.py:110-117 | The popular month, weekday and start hour are each a most frequent value of their derived column. |
| Reports.PopularHourIsBucket | bikeshare_project.py:117 | The popular hour is the bucket of some trip's start hour and reads back as an hour. |
| Reports.StationStats | bikeshare_project.py:138-145 | The popular start station, end station and route are each a most frequent value of their column. The route is taken over the per-row labels. |
| Reports.StartOf | bikeshare_project.py:139 | Definition: the `Start Station` entry of a row. |
| Reports.EndOf | bikeshare_project.py:142 | Definition: the `End Station` entry of a row. |
| Reports.UserTypeOf | bikeshare_project.py:188 | Definition: the `User Type` entry of a row. |
| Reports.RouteLabel | bikeshare_project.py:145 | Definition: the start station, " to ", then the end station. |
| Reports.RouteOf | bikeshare_project.py:145 | Definition: the route label of one row. |
| Reports.RouteLabelDirected | bikeshare_project.py:145 | For two different station names, a route's label differs from its reverse's label when neither name extends the other by text that looks like " to ". |
| Reports.SameLabelExtends | bikeshare_project.py:145 | If a route and its reverse share a label, the longer name is the shorter one followed by text agreeing with " to ". |
| Reports.ReverseRouteCanShareLabel | bikeshare_project.py:145 | The stations "to" and "to to" give the same label in both directions, so the condition above is needed. |
| Reports.PopularRouteFollowsDirection | bikeshare_project.py:145 | For any two station names, three trips from A to B and one from B to A make "A to B" the popular route. |
| Reports.Genders | bikeshare_project.py:193 | The `Gender` column of a table that has one has one entry per row. |
| Reports.BirthYears | bikeshare_project.py:201-203 | The `Birth Year` column of a table that has one has one entry per row. |
| Reports.BirthYearStats | bikeshare_project.py:201-203 | Oldest and youngest are values of the column that bound every value. The common year is a most frequent value. oldest <= common <= youngest. |
| Reports.UserStats | bikeshare_project.py:187-229 | The gender and birth-year results are present exactly when the table has the column, rather than an error. The user-type and gender counts cover exactly the column's values with their true counts and add up to the number of rows. The birth-year figures are ordered oldest <= common <= youngest. |
| Prompts.SkipLeading | bikeshare_project.py:25 | The first non-whitespace position at or after the start; everything before it is whitespace. |
| Prompts.SkipTrailing | bikeshare_project.py:25 | The end of the last non-whitespace character; everything after it is whitespace. |
| Prompts.StripKeepsMiddle | bikeshare_project.py:25 | `strip()` keeps one contiguous piece of the answer that neither starts nor ends with whitespace, and removes only whitespace. |
| Prompts.IsSpace | bikeshare_project.py:25 | Definition: the characters Python's `str.isspace` accepts, which `strip()` removes. |
| Prompts.Strip | bikeshare_project.py:25 | Definition: `strip()`, the answer from its first to its last non-whitespace character. |
| Prompts.Lower | bikeshare_project.py:25 | Definition: `lower()` on the letters A to Z. |
| Prompts.Normalize | bikeshare_project.py:25 | Definition: `strip()` followed by `lower()`. |
| Prompts.Accepted | bikeshare_project.py:26 | Definition: the validator; an answer is accepted when its stripped, lower-cased form is one of the options (also lines 39 and 52). |
| Prompts.LowerFacts | bikeshare_project.py:25 | `lower()` keeps the length and turns each capital into its own small letter, leaving no capital. It changes nothing else, and whitespace stays whitespace. |
| Prompts.NormalizeAll | bikeshare_project.py:25-28 | Every answer is normalised and none is dropped. |
| Prompts.FirstIn | bikeshare_project.py:26-28 | The position found holds an accepted answer and no earlier one is accepted; no position means none is. |
| Prompts.FirstInSome | bikeshare_project.py:26-28 | The first accepted position is the one found. |
| Prompts.FirstInNone | bikeshare_project.py:26-28 | With no accepted answer nothing is found. |
| Prompts.FirstAcceptedAnswer | bikeshare_project.py:25-28 | A prompt settles on answer k exactly when answer k is accepted and no earlier answer is. |
| Prompts.Ask | bikeshare_project.py:25-28 | The retry loop returns the normalised first accepted answer after reading exactly up to it; with no accepted answer it reads everything and returns none. |
| Prompts.Chosen | bikeshare_project.py:23-62 | Definition: the first accepted city, then the first accepted month after it, then the first accepted day after that. |
| Prompts.AnswersRead | bikeshare_project.py:23-62 | Definition: the answers read, up to and including the accepted day, or all of them when a prompt runs out. |
| Prompts.GetFilters | bikeshare_project.py:23-62 | City, month and day are asked in turn from one answer stream, each prompt continuing where the previous one stopped. It reads exactly up to the accepted day, or every answer when a prompt runs out. |
| Prompts.ChosenIsValid | bikeshare_project.py:62 | Whatever `get_filters` returns is a known city with month and day filters `load_data` understands. |
| Prompts.OptionsMatchLoader | bikeshare_project.py:39 | The accepted month answers are exactly the month filters `load_data` handles, and likewise the day answers. |
| Prompts.SkipLeadingPadding | bikeshare_project.py:25 | Leading whitespace ends where the first non-whitespace character stands. |
| Prompts.SkipTrailingPadding | bikeshare_project.py:25 | Trailing whitespace starts right after the last non-whitespace character. |
| Prompts.NormalizeIgnoresPadding | bikeshare_project.py:25 | An answer with whitespace around it normalises like the answer without it. |
| Prompts.NormalizeIdempotent | bikeshare_project.py:25 | Normalising an answer twice is normalising it once. |
| Prompts.KelvinSignNotLowered | bikeshare_project.py:25-26 | "new yor" + U+212A + " city" is not accepted by the model, although Python lower-cases the Kelvin sign to 'k' and the program accepts it (see Left out). |
| Prompts.PaddedCityAccepted | bikeshare_project.py:25-26 | " Chicago\n" normalises to "chicago" and is accepted as a city. |
| Pager.Rows | bikeshare_project.py:248 | `df.loc[first:last]` is never longer than the table. |
| Pager.Window | bikeshare_project.py:248-256 | Definition: window n is `df.loc[5n:5n+4]`. |
| Pager.IsYes | bikeshare_project.py:245-246 | Definition: the stripped, lower-cased answer is "yes". |
| Pager.RawData | bikeshare_project.py:241-258 | The pager shows one window per leading "yes". Window n holds rows 5n to 5n+4, and the first other answer ends it. The windows shown are, in order, the first 5n rows of the file (or all of it). |
| Pager.YesRunStops | bikeshare_project.py:244-258 | After i "yes" answers followed by another answer or none, exactly i windows are shown. |
| Pager.WindowsTile | bikeshare_project.py:248-256 | Consecutive windows are contiguous and disjoint: together the first n are exactly the first 5n rows. |
| Pager.WindowSize | bikeshare_project.py:254 | A window past the end of the file is empty; one starting inside holds one to five rows, beginning at row 5n. |

## Left out

- Reading the CSV file, parsing `Start Time` and the city-to-file mapping (`CITY_DATA`, `read_csv`, `to_datetime`) are file I/O and library parsing. Trips arrive with their start month, weekday and hour already parsed, and the model's ranges for those are the datatype's.
- `trip_duration_stats` (lines 159-179; the total and average trip duration) is left out: its sum, mean, division, `% 24` and rounding are floating-point display arithmetic.
- Printing, the banner lines and the `calendar.month_name` / `calendar.day_name` lookups are presentation only.
- `main`'s restart loop only repeats the whole run.
- The `try/except` wrappers in `get_filters` are left out because they cannot fire on string input.
- Series.Mode: pandas' tie-breaking among equally frequent values is not modelled; the contract says only that the result is a most frequent value.
- Reports.BirthYears: `Birth Year` is modelled as an integer. pandas reads the column as floating point, and `int()` at lines 223-225 truncates it for printing; for whole-number years the two agree.
- Missing values inside a column that is present are not modelled: a table either has a `Gender`/`Birth Year` value on every row or has no such column.
- Series.ValueCounts: the pairs are in first-occurrence order; the descending-count order in which pandas prints them is not modelled.
- Prompts.Lower: only A–Z are lower-cased. Python's `str.lower` also maps non-ASCII capitals, which the model leaves unchanged. The visible effect: the program accepts "new yor" + U+212A (Kelvin sign) + " city" as "new york city", but the model rejects it (Prompts.KelvinSignNotLowered).
- Prompts.Ask: end of input, which raises `EOFError` in the program, is modelled as the answer sequence running out and yields no choice.
- Pager.RawData: end of input, which raises `EOFError` at the prompt (line 245), is modelled as the pager stopping when the answer sequence runs out.
- Reports.TimeStats and Reports.StationStats require a non-empty table, because `mode()[0]` fails there with an uncaught error. Reports.UserStats requires a non-empty table when a `Birth Year` column exists, because `int(oldest)` fails on the NaN that `min()` gives for an empty column.
- Reports.RouteLabelDirected holds only for distinct station names where neither extends the other by text that looks like " to ". The route label `start + " to " + end` can make a route and its reverse collide, as Reports.ReverseRouteCanShareLabel shows.
