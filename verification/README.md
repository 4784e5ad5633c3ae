# Station temperature analysis — a Dafny model

This project models `index.py`, a script that analyses monthly temperature readings of
weather stations. Each CSV file holds one row per station, with a `STATION_NAME` column
and one column per month from `January` to `December`. The script works in four steps:

1. It reshapes every file from wide form to long form: one record per station and month.
2. It tags each record with its month number and its season.
3. It concatenates the long tables of all files.
4. It writes three reports from the unified table:
   - the mean temperature per season;
   - the stations tied at the largest temperature range;
   - the stations tied at the smallest and at the largest standard deviation.

The script writes no report when the unified table is empty.

The model is split into five modules:

- `Util` (`util.dfy`): `Option`/`Result`, maximum, minimum, sum and mean of a sequence, and
  order-preserving filtering and de-duplication.
- `Seasons` (`seasons.dfy`): the month-to-season mapping and the fixed report order of the
  seasons. The labels put December to February in "Summer", as the program does.
- `Load` (`load.dfy`):
  - a parsed file (`WideFrame`) and its rows (`WideRow`);
  - the reshape (`Melt`);
  - the specification of the whole load (`LoadSpec`);
  - the loading loop (`LoadAllData`), proved equal to `LoadSpec`.

  An empty cell (NaN) is a month key missing from a row's `cells`. It gives a record with
  no temperature (`None`). The reshape emits records month-major, as `melt` does: all rows'
  January records in row order, then all February records, and so on. No report depends on
  this order, since every report groups by key.
- `Aggregate` (`aggregate.dfy`): the groupings and the selections.
  - The NaN-skipping readings of a season or a station.
  - The rounded season means.
  - Each station's maximum, minimum and rounded range.
  - Each station's rounded standard deviation.
  - Generic "every key tied at the highest or lowest defined score" selection (`Tied`).
    A NaN extreme matches no key.
- `Report` (`report.dfy`): the three report writers, each a loop that emits structured lines,
  and `Run`, which stands for `main`.

Rounding to one decimal (`round`) and the sample standard deviation (`sd`) are parameters of
the model. The model never computes them; the proofs hold for any supplied functions.

## Model

| member | source | states |
|---|---|---|
| Seasons.GetSeason | index.py:8-16 | a month gets a season exactly when it is in 1..12; any other value gets none |
| Seasons.SeasonIsQuarterFromDecember | index.py:8-16 | counting from December, month m falls in season number (m mod 12) div 3 of Summer, Autumn, Winter, Spring |
| Seasons.ThreeMonthsPerSeason | index.py:8-16 | every season is made of exactly three months |
| Seasons.SeasonsPartitionYear | index.py:8-16 | the month groups of different seasons are disjoint and together cover 1..12 |
| Load.MonthNumber | index.py:36 | parsing a month name gives a number in 1..12 that names that column, and fails exactly on a name outside the twelve |
| Load.MonthNumberOfName | index.py:36 | the j-th month column parses to j+1 |
| Load.MonthRecord | index.py:29-37 | the record for a row and month column carries the row's station and the column's 1-based number, and its season is always defined (the full tagging is `MonthRecordTagged`) |
| Load.MonthRecordTagged | index.py:29-37 | the record for a row and month column carries the row's station, the column's name and cell (NaN when empty), the parsed month number, and that number's season, which is always defined |
| Load.MeltRows | index.py:29-35 | the reshape of n rows has 12·n records |
| Load.MeltRowsAt | index.py:29-35 | the record for row i and month column j sits at position j·n+i |
| Load.MeltRowsContains | index.py:29-35 | no (row, month) pair is lost by the reshape |
| Load.MeltOneRow | index.py:29-35 | a single station row becomes its twelve monthly records, January first |
| Load.MeltRowsWellFormed | index.py:36-37 | every reshaped record has a month number in 1..12 matching its month name, and a defined season that is the season of that number |
| Load.Melt | index.py:27-35 | the reshape of a file fails exactly when a required column is absent from its header, and then names every absent column; on success it has 12 records per row |
| Load.LoadSpec | index.py:25-40 | the load specification: files are reshaped in turn and concatenated, the first failing file stops the load, and a successful load has 12 records per wide row over all files |
| Load.LoadSpecErrorSticks | index.py:25-38 | once a file fails, the whole load fails with that file's error |
| Load.LoadSpecCount | index.py:25-40 | the load succeeds exactly when every file's reshape succeeds; the unified table then holds 12 records per wide row over all files, with nothing dropped or de-duplicated |
| Load.LoadSpecKeepsRecord | index.py:25-40 | every record reshaped from every row of every file is in the unified table |
| Load.LoadSpecWellFormed | index.py:36-38 | every record of the unified table is well formed |
| Load.LoadAllData | index.py:19-40 | the loading loop returns exactly the load specification: the concatenation of the reshaped files, or the first failure; an empty file list gives the empty table |
| Aggregate.Readings | index.py:44 | the NaN-skipping column of a group has at most one reading per record (its values and their counts are given by `ReadingsMembership` and `ReadingsCount`) |
| Aggregate.ReadingsMembership | index.py:44 | the readings of a group are exactly the present (non-NaN) temperatures of its records |
| Aggregate.ReadingsCount | index.py:44 | each value occurs in a group's readings exactly as many times as the group has records holding it, so duplicates weigh in the mean and the deviation |
| Aggregate.SeasonHasReading | index.py:44 | a season has a reading exactly when one of its records has a present temperature |
| Aggregate.SeasonMean | index.py:44 | a season's rounded mean is NaN exactly when every record of that season has an empty cell |
| Aggregate.SeasonMeans | index.py:44 | the grouping by season has a key for exactly the seasons present in the table, each mapped to its rounded mean, or NaN when it has no reading |
| Aggregate.SeasonMeanWithinReadings | index.py:44 | a season's unrounded mean lies between its coldest and its warmest reading, and those readings are that season's present temperatures |
| Aggregate.EverySeasonPresent | index.py:29-37 | a non-empty unified table holds all four seasons, because any wide row yields all twelve months |
| Aggregate.StationsOf | index.py:52 | the station groups are the distinct stations of the table, each once |
| Aggregate.Highest | index.py:54 | the NaN-skipping maximum is NaN exactly when no station has a score; otherwise some station attains it and none exceeds it |
| Aggregate.Lowest | index.py:65 | the NaN-skipping minimum is NaN exactly when no station has a score; otherwise some station attains it and none undercuts it |
| Aggregate.Tied | index.py:55 | the selection keeps exactly the stations whose score equals the target, each once; a NaN target keeps none |
| Aggregate.TiedAtHighest | index.py:54-55 | the stations tied at the maximum are exactly those with a score that no station exceeds, and there is one as soon as any station has a score |
| Aggregate.TiedAtLowest | index.py:65-67 | the stations tied at the minimum are exactly those with a score that no station undercuts, and there is one as soon as any station has a score |
| Aggregate.StationRange | index.py:52-53 | a station has a maximum, minimum and range exactly when it has a present reading |
| Aggregate.StationRangeBounds | index.py:52-53 | the maximum and minimum are readings of the station and bound all its readings; max − min ≥ 0; the range is the rounded max − min |
| Aggregate.RangeScore | index.py:53 | a station's rounded range is defined exactly when the station has a reading |
| Aggregate.LargestRangeStations | index.py:54-55 | the stations tied at the largest range are distinct stations of the table, each with a defined range (fully characterised by `LargestRangeSelection`) |
| Aggregate.LargestRangeSelection | index.py:51-55 | the reported stations are exactly the stations with a range that no station exceeds (all ties kept), each once |
| Aggregate.LargestRangeNonEmpty | index.py:54-55 | a table with at least one reading reports at least one station |
| Aggregate.StdDevScore | index.py:64 | a station's rounded deviation is defined exactly when it has at least two readings; fewer gives NaN |
| Aggregate.MinStdDev | index.py:65 | the smallest deviation is NaN exactly when no station has two readings |
| Aggregate.MaxStdDev | index.py:66 | the largest deviation is NaN exactly when no station has two readings |
| Aggregate.MostStableStations | index.py:67 | the most stable stations are distinct stations of the table, each with at least two readings (fully characterised by `StabilitySelection`) |
| Aggregate.MostVariableStations | index.py:68 | the most variable stations are distinct stations of the table, each with at least two readings (fully characterised by `StabilitySelection`) |
| Aggregate.StdDevExtremesOrdered | index.py:64-68 | the smallest deviation is defined exactly when the largest is, and is at most the largest; a non-empty "most stable" or "most variable" list has a defined value |
| Aggregate.StabilitySelection | index.py:63-68 | "most stable" is exactly the stations with a defined deviation that none undercuts, and "most variable" those that none exceeds. Every stable deviation is at most every variable one. When all defined deviations are equal, every such station is in both lists. Both lists are non-empty once a station has two readings |
| Report.SeasonLinesBelowInOrder | index.py:46-48 | after k seasons, the emitted lines name seasons among the first k of the report order, strictly in that order |
| Report.SeasonLinesBelowMeans | index.py:47-48 | every emitted line carries a season of the grouping with its mean |
| Report.SeasonLinesBelowComplete | index.py:46-48 | after k seasons, every season of the grouping among the first k has a line |
| Report.SeasonLinesBelowFull | index.py:46-48 | when every season has a mean, the walk over the first k seasons emits k lines |
| Report.WriteSeasonLines | index.py:46-48 | the writing loop emits a line for exactly the seasons of the grouping, in the order Summer, Autumn, Winter, Spring, each with its mean; four lines when all seasons are grouped |
| Report.CalculateSeasonalAverage | index.py:43-48 | the seasonal report lists exactly the seasons present in the table, in report order, each with its rounded mean; all four when every season is present |
| Report.WriteRangeLines | index.py:57-60 | one line per selected station, in selection order, with that station's range, maximum and minimum |
| Report.FindLargestTempRange | index.py:51-60 | the report lists the tied stations in selection order, each with its own statistics, and no station with readings has a larger range than a reported one |
| Report.WriteStabilityLines | index.py:70-74 | the "most stable" lines come first, one per stable station with the smallest value; the "most variable" lines follow, one per variable station with the largest value; every stable value is at most every variable value |
| Report.FindTemperatureStability | index.py:63-74 | the stability report lists every most-stable station with the minimum deviation, then every most-variable station with the maximum, and each stable value is at most each variable value |
| Report.Run | index.py:76-84 | a failed load produces no report. An empty table stops without reports, and exactly then. Otherwise all three reports are those of the loaded table, each with its full contract (seasons and means, tied stations and their statistics, stability lists and extremes); the seasonal report then has all four seasons, so the skip at line 47 is never taken, and the range report is non-empty when any reading is present |
| Util.MaxOf | index.py:52 | the maximum of a non-empty sequence is one of its elements and bounds all of them |
| Util.MinOf | index.py:52 | the minimum of a non-empty sequence is one of its elements and is bounded by all of them |
| Util.MeanBetweenExtremes | index.py:44 | the mean of a non-empty sequence lies between its minimum and its maximum |
| Util.Distinct | index.py:52 | de-duplication keeps exactly the elements of the input, each once |
| Util.Filter | index.py:55 | filtering keeps exactly the elements that satisfy the test, and keeps them distinct if they were |

## Left out

- File discovery (`glob`), CSV parsing and writing of the report files are not modelled. A file
  is given as its parsed header and rows, and a report is a sequence of structured lines. The
  "No CSV files found." branch is the load of an empty file list, which gives the empty table.
- Console messages are not modelled.
- Formatting a value to one decimal with a degree sign is not modelled.
- Floating point is not modelled. Temperatures are reals; rounding and the sample standard
  deviation are uninterpreted parameters.
- Month names are parsed with a fixed English table instead of the locale-dependent `%B` format.
  Month numbers and seasons are therefore always defined.
- A non-numeric temperature cell is not modelled: a cell is a number or empty.
- An empty station name, which the grouping would drop as NaN, is not modelled.
- Run: a missing column is reported as a failed load (`LoadFailed`). The program instead raises
  a `KeyError` out of `melt` and stops.
- Aggregate.StationsOf: the station groups appear in order of first appearance, not in pandas'
  sorted key order. Station names are not sorted, so the order of tied stations within a report
  is not modelled.
- Report.FindTemperatureStability: the "most stable" and "most variable" lists and their values
  come from `StdDevScore`, which treats a station with fewer than two readings as NaN. That is
  where pandas' sample standard deviation is undefined. The value of `sd` for two or more
  readings is left abstract.
