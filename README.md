# Immigration warehouse ETL — a Dafny model of its transformation core

`etl.py` is a PySpark script. It turns I-94 immigration records, city temperature
observations and city demographics into a small dimensional warehouse: the fact table
`fact_immigration`, partitioned by residence state `i94addr`, and the dimension tables
`personal`, `airline`, `vis_dim`, `dim_temperature` and `demographics`. This project
models two parts of it as pure functions and proves properties about them.

- The date reconciler `fix_date`. It turns a numeric day offset into the calendar date
  1960-01-01 plus that many days. When the conversion fails it returns the sentinel
  1900-01-01.
- The table builders. Each is a chain of dataframe steps (`select`, `distinct`,
  `monotonically_increasing_id`, `lit`, `where`, `to_date`/`year`/`month`,
  `partitionBy`), here written over a sequence of rows.

Modules, leaf to root:

- `Wrappers` (wrappers.dfy): `Option`, used for nullable values.
- `Dates` (dates.dfy): proleptic-Gregorian arithmetic. The day number is the count of
  days from 1960-01-01, in closed form. `PlusDays` adds days one calendar day at a time.
  The two are proved inverse, and calendar order is proved to match day-number order.
- `DateReconciler` (reconciler.dfy): `fix_date` over a tagged input `Days(n) | Unparseable`.
  The representable range is written out.
- `Frames` (frames.dfy): the dataframe operations, with row-set and multiplicity lemmas.
- `Cells` (cells.dfy): column values (`Null | Num | Text`) and the constant `'United States'`.
- `ImmigrationTables` (immigration.dfy): the reconciled frame, the fact table and its
  partitions, and the personal, airline and visa tables.
- `TemperatureTable` (temperature.dfy) and `DemographicsTable` (demographics.dfy).

Modelling choices:

- Row order is not part of any table's meaning. Statements about tables are about their
  row sets (`Frames.Image`, `Frames.Rows`), their sizes and their multiplicities.
- `monotonically_increasing_id` is modelled as the row position (`Frames.WithIds`).
  The only property claimed is that identifiers are pairwise distinct within a table.
- Spark's `to_date` on the temperature `dt` string is a parameter,
  `parse: string -> Option<Date>`. A null result stands for Spark's null on a string
  it cannot read.
- The representable range of `fix_date` is from −103098 to 106751 days inclusive. It comes from
  pandas' signed 64-bit nanosecond arithmetic:
  - a day count converts to a time span only when its magnitude is at most 106751;
  - the sum must not fall before the earliest timestamp, 1677-09-21 00:12:43.
  Lemmas show the ends are 1677-09-22 and 2252-04-10.

Some consequences of the code that are easy to miss:

- Offset 20819 gives 2016-12-31 by the arithmetic of `etl.py:20`; 2017-01-01 is offset
  20820 (see `FixDateNewYearsEve2016` and `FixDateNewYear2017`).
- `vis_dim` is not deduplicated: `etl.py:88-89` only selects and renames, so `VisaTable`
  keeps one row per input row (`VisaTableKeepsDuplicates`).
- Offset −21914 also gives 1900-01-01, the same date as the fallback for a value that
  cannot be converted (`SentinelIsAlsoADate`).
- A temperature `dt` that does not parse gives a null date, and then a null year and
  month (`TemperatureDateParts`).

## Model

| member | source | states |
|---|---|---|
| `DateReconciler.FixDate` | etl.py:17-22 | The result is always a valid date. For a representable offset `n`, it is the date whose day number from 1960-01-01 is `n`, so reading the result back as a day count returns the offset. For an unparseable or out-of-range input, it is the sentinel 1900-01-01. |
| `DateReconciler.FixDateZero` | etl.py:20 | Offset 0 gives 1960-01-01. |
| `DateReconciler.FixDateExact` | etl.py:20 | For a representable `n` and a valid date `d`: `fix_date(n) == d` exactly when `d` lies `n` days after the epoch. |
| `DateReconciler.FixDateMonotone` | etl.py:20 | Between representable offsets, the date for `n` is earlier than the date for `m` exactly when `n < m`. So a larger offset never gives an earlier date. |
| `DateReconciler.FixDateRoundTrip` | etl.py:20 | Every valid date with a representable day number is produced by that day number, so no representable date is missed. |
| `DateReconciler.FixDateNewYear2017` | etl.py:20 | Offset 20820 gives 2017-01-01. |
| `DateReconciler.FixDateNewYearsEve2016` | etl.py:20 | Offset 20819 gives 2016-12-31. |
| `DateReconciler.FixDateFirstRepresentable` | etl.py:19-22 | The lowest representable offset gives 1677-09-22. One day lower gives the sentinel. |
| `DateReconciler.FixDateLastRepresentable` | etl.py:19-22 | The highest representable offset gives 2252-04-10. One day higher gives the sentinel. |
| `DateReconciler.SentinelIsAlsoADate` | etl.py:20-22 | Offset −21914 and an unparseable value both give 1900-01-01. |
| `Dates.PlusDays` | etl.py:20 | Epoch plus `n` days, one calendar day at a time. The result is valid, and its day number is the start's plus `n`. |
| `Dates.NextDay` | etl.py:20 | The next calendar day is valid, later, and one day number further. |
| `Dates.PrevDay` | etl.py:20 | The previous calendar day is valid, earlier, and one day number back. |
| `Dates.DayNumberOrder` | etl.py:20 | For valid dates, calendar order and day-number order agree, in both directions. |
| `Dates.DayNumberInjective` | etl.py:20 | Two valid dates with the same day number are equal. |
| `Dates.PlusDaysOfDayNumber` | etl.py:20 | Every valid date is the epoch plus its own day number. |
| `Dates.PlusDaysMonotone` | etl.py:20 | Epoch plus `n` days is earlier than epoch plus `m` days exactly when `n < m`. |
| `ImmigrationTables.ReconcileDates` | etl.py:39-40 | `arrdate` and `depdate` are each reconciled on their own, by `fix_date` then truncation to a date. Both results are valid dates. Every other column is unchanged. |
| `ImmigrationTables.ReconciledFrame` | etl.py:39-40 | The frame every immigration builder starts from: `ReconcileDates` applied to each record. Its properties are those of `ReconcileDates` and `Frames.Select`. |
| `ImmigrationTables.AddCountry` | etl.py:48 | `withColumn('country', lit('United States'))` on one labelled fact row; `FactCountry` states the result. |
| `ImmigrationTables.FactTable` | etl.py:42-48 | The `fact_immigration` builder: select nine columns of the reconciled frame, `distinct`, attach `immigration_id`, add `country`. Its properties are stated by `FactTableRows`, `FactIdsUnique`, `FactCountry` and `SameFactDifferentFlight`. |
| `ImmigrationTables.PartitionKey` | etl.py:51 | The partition a value of `i94addr` is written to: the value itself, except that the empty string shares the null value's default partition. `FactPartitionsCorrect` and `EmptyStateInNullPartition` state its effect. |
| `ImmigrationTables.FactPartitions` | etl.py:51 | The fact table split by the partition of its `i94addr`; `FactPartitionsCorrect` states its keys and contents. |
| `ImmigrationTables.FactTableRows` | etl.py:42-44 | Ignoring `immigration_id` and `country`, the fact table's row set is exactly the set of reconciled input rows projected onto the nine columns. No two rows agree on those columns. The row count equals the number of distinct projections and is at most the input size. |
| `ImmigrationTables.FactIdsUnique` | etl.py:44 | `immigration_id` values are pairwise distinct. |
| `ImmigrationTables.FactCountry` | etl.py:48 | Every fact row has `country` = 'United States'. |
| `ImmigrationTables.FactPartitionsCorrect` | etl.py:51 | The partition names are exactly the `i94addr` values of the input, with the empty string folded into null. Each fact row lies in the partition of its own `i94addr` and in no other, and every partition row is a fact row. |
| `ImmigrationTables.EmptyStateInNullPartition` | etl.py:51 | Fact rows with a null `i94addr` and fact rows with an empty `i94addr` land in the same partition. |
| `ImmigrationTables.PersonalTable` | etl.py:70-72 | The `personal` builder: select six columns, `distinct`, attach `personal_id`. Its properties are stated by `PersonalTableRows` and `VisaTableKeepsDuplicates`. |
| `ImmigrationTables.PersonalTableRows` | etl.py:70-72 | The personal table's row set is exactly the input projected onto its six columns. No duplicates, one row per distinct projection, and `personal_id` is unique. |
| `ImmigrationTables.AirlineTable` | etl.py:82 | The `airline` builder: select four columns, `distinct`, attach `immi_airline_id`. Its properties are stated by `AirlineTableRows` and `SameFactDifferentFlight`. |
| `ImmigrationTables.AirlineTableRows` | etl.py:82 | The airline table's row set is exactly the input projected onto its four columns. No duplicates, one row per distinct projection, and `immi_airline_id` is unique. |
| `ImmigrationTables.SameFactDifferentFlight` | etl.py:42-43 | Two records that agree on the fact columns but not on the airline columns give one fact row and two airline rows. |
| `ImmigrationTables.VisaTable` | etl.py:88-89 | The `vis_dim` builder: select `i94visa` and `visapost`, rename the first to `Visa_id`. Its properties are stated by `VisaTableRows` and `VisaTableKeepsDuplicates`. |
| `ImmigrationTables.VisaTableRows` | etl.py:88-89 | One visa row per input row, in order. `Visa_id` is the row's `i94visa` and `visapost` is its `visapost`. |
| `ImmigrationTables.VisaTableKeepsDuplicates` | etl.py:88-89 | A record read twice gives two equal visa rows. The personal table has one row for it. |
| `TemperatureTable.InUnitedStates` | etl.py:101 | The filter predicate: the `Country` cell is the text 'United States' (a null country fails it). `TemperatureCountry` and `OtherCountriesDropped` state its effect. |
| `TemperatureTable.WithDateParts` | etl.py:106-108 | Parse `dt`, then take its year and month; `TemperatureDateParts` states the result. |
| `TemperatureTable.Temperature` | etl.py:101-108 | The `dim_temperature` builder: filter, select five columns, `distinct`, then parse `dt` and add `year` and `month`. Its properties are stated by `TemperatureCountry`, `OtherCountriesDropped`, `TemperatureRows`, `TemperatureDateParts`, `TemperatureNoDuplicates` and `DistinctBeforeParse`. |
| `TemperatureTable.TemperatureCountry` | etl.py:101 | Every temperature row has `Country` = 'United States'. |
| `TemperatureTable.OtherCountriesDropped` | etl.py:101 | Adding rows of other countries (a 'Canada' row, say) does not change the table. |
| `TemperatureTable.TemperatureRows` | etl.py:101-106 | The row set is exactly what the builder makes of the United States input rows. The row count equals the number of distinct five-column projections of those rows. |
| `TemperatureTable.TemperatureDateParts` | etl.py:106-108 | `year` and `month` are the components of the parsed `dt`. They are null exactly when `dt` is. |
| `TemperatureTable.TemperatureNoDuplicates` | etl.py:102-106 | If every United States date parses, and no two different date strings among the United States rows parse to the same date, no two output rows are equal. The parser itself may be many-to-one (it may read `2016-01-01` and `2016-1-1` alike); only the strings present matter. |
| `TemperatureTable.DistinctBeforeParse` | etl.py:102-106 | Deduplication runs on the raw `dt`. Two rows that differ only in how the date is written stay two rows, and they become equal rows once both strings parse to the same date. |
| `DemographicsTable.Demographics` | etl.py:125-127 | The `demographics` builder: select eight columns, `distinct`, attach `demog_pop_id`. Its properties are stated by `DemographicsRows`. |
| `DemographicsTable.DemographicsRows` | etl.py:125-127 | The demographics row set is exactly the input projected onto its eight columns. No duplicates, one row per distinct projection, and `demog_pop_id` is unique. |
| `Frames.Select` | etl.py:42 | `select`: one output row per input row, the projection of that row, so the row set of the result is exactly the set of projections of the input rows. |
| `Frames.Distinct` | etl.py:43 | `distinct`: no duplicates, the same rows as the input, and no more of them. |
| `Frames.DistinctOfNoDuplicates` | etl.py:43 | `distinct` leaves a duplicate-free table unchanged. |
| `Frames.DistinctIdempotent` | etl.py:43 | Running `distinct` twice is the same as running it once. |
| `Frames.DistinctRows` | etl.py:43 | `distinct` keeps the row set and has exactly as many rows as that set. |
| `Frames.NoDuplicatesSize` | etl.py:43 | A duplicate-free table has as many rows as its row set has elements. |
| `Frames.SelectImage` | etl.py:42 | Any view h of a projection f is the view h∘f of the input. |
| `Frames.DistinctImage` | etl.py:43 | `distinct` changes no view of the row set. |
| `Frames.WithIds` | etl.py:44 | `monotonically_increasing_id`: every row keeps its columns and gets an identifier no other row has. |
| `Frames.WithIdsImage` | etl.py:44 | Attaching identifiers changes no view of the columns. |
| `Frames.LabelledDistinct` | etl.py:70-72 | For `select(...).distinct().withColumn(id, ...)`: the column tuples are exactly the input projections. No two rows share columns or an identifier. One row per distinct projection, at most the input size. |
| `Frames.Where` | etl.py:101 | `where`: exactly the input rows that satisfy the predicate, each as often as in the input. |
| `Frames.WhereSnoc` | etl.py:101 | Filtering a table with one row appended keeps that row exactly when it satisfies the predicate. |
| `Frames.WhereAppend` | etl.py:101 | Filtering distributes over concatenation. |
| `Frames.Partition` | etl.py:51 | A partition holds exactly the rows with its key, each as often as in the table. |
| `Frames.PartitionBy` | etl.py:51 | `partitionBy`: one non-empty partition per key value present, each the rows with that key. |
| `Frames.PartitionByCorrect` | etl.py:51 | Each row is in exactly the partition named by its key. Each row occurs there as often as in the table and nowhere else, so together the partitions are the table. |

## Left out

- Spark session setup, package configuration and `main` (etl.py:134-151): framework setup.
- Reading the SAS and CSV sources (etl.py:31-32, 59-60, 97-98, 120-121): input I/O.
  The tables' inputs are sequences of rows. The `immi_data` path string built at
  etl.py:31 and 59 is never used; `tempe_data` and `demog_data` are the paths read at
  etl.py:98 and 121.
- Parquet writes, overwrite mode and output paths (etl.py:51-52, 76-77, 85, 91, 111-112,
  129-130): output I/O. Only the partitioning itself is modelled, as `Frames.PartitionBy`
  over `ImmigrationTables.PartitionKey`.
- `ImmigrationTables.FactPartitions`: a row written to the default partition keeps its
  `i94addr` cell in the model. The value is encoded in the directory name, so reading the
  written table back gives a null `i94addr` for an empty one; that read is not modelled.
  The escaping of other special characters in directory names is not modelled either.
- `print` progress messages and the global path variables (etl.py:14-15): no effect on
  any table.
- The `to_date` conversions of `dtadfile` and `dtaddto` (etl.py:36-37, 63-64). Neither
  column reaches any output, so both sit in `others`. The second call writes a new column
  `dtadddto` (one `d` too many) and leaves `dtaddto` as it was, which makes no difference
  to any output.
- Raw columns that no output selects (for example `i94bir`, `visatype`, and the
  temperature file's latitude and longitude) are grouped in an `others` field.
- `DateReconciler.FixDate`: fractional-day float offsets and NaN are not modelled. A null
  SAS value is covered: `pd.to_timedelta(None, unit='D')` gives `None`, adding it to the
  epoch timestamp raises, and the bare `except` returns 1900-01-01, which is the
  `Unparseable` case. A NaN, by contrast, becomes `NaT` without raising inside `fix_date`;
  converting `NaT` to a Spark timestamp then raises, so the build fails; the model has no
  such case. The representable bounds come from the int64
  nanosecond limits and are whole days, so the sub-day part of the earliest timestamp is
  not modelled.
- `ImmigrationTables.ReconcileDates`: the model takes `to_date(fix_date(...))` to be the
  calendar day of the pandas timestamp. In Spark the naive timestamp the UDF returns is
  read in the Python worker's local time zone and `to_date` cuts it in the session time
  zone; the model assumes the two zones agree. Where they differ, a date can come out one
  day off, which the model does not represent.
- `TemperatureTable.Temperature`: the string format Spark's `to_date` accepts is a
  parameter (`parse`), not a parser.
- `Frames.WithIds`: the bit layout and partition dependence of
  `monotonically_increasing_id` are not modelled; only distinctness is claimed. Ids are
  not stable between runs in Spark, which the model does not represent.
- Floating-point column values: SAS numbers are `real` in `Cells.Cell`, so rounding and
  NaN are not represented.
- Distributed execution, lazy evaluation and row order: each builder is a function of its
  input rows, and no statement depends on the order of rows.
