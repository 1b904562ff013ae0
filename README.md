# youless-logger: ingestion and merge, modelled in Dafny

The youless-logger polls a YouLess energy meter for reports and stores them in
SQLite. A report is `{un, tm, dt, val}`: a unit, an anchor time, an interval in
seconds and a list of sample strings. This project models the path from there
to the database:

- **Decoding a report** (`convert_data`). Slot `i` stands for time `tm + i * dt`. Empty samples and the `*` sentinel yield no reading but still advance the clock. Other samples are read with `float` after decimal commas become points.
- **The profiles.** The granularity map (minute, hour, day) gives the page parameter and page count. The five loggers fix the meter path (`V` or `W`), their table and their granularity.
- **Collection** (`fetch_data`). Pages `1 .. n` are requested in order, decoded, and concatenated.
- **The merge engine** (`store_data`):
  - an empty batch is ignored;
  - a missing table is created from the batch;
  - into an existing table, the batch is first written to the scratch table `tmp`, replacing what it held;
  - then rows whose time appears in `tmp` have their energy updated (first matching row, unit kept, committed);
  - then the `tmp` rows with times new to the table are appended (committed); `tmp` is left in the database.
- **The driver.** It runs the three energy loggers, then the two gas loggers when gas is enabled. The first failure stops it.
- **The legacy script.** It skips only empty samples, reads with `int`, fetches three pages with parameter `w`, and appends only the rows later than the latest stored time. An empty batch, or an existing but empty table, makes it raise before writing.

Modules:
- `Wrappers`: Option and Result.
- `Samples`: exact parsing of `float`/`int` literals to `Decimal(mantissa, scale)`.
- `Reports`: the decoder. It is parameterised by a `SampleRule`, which says which samples are missing and how the others parse. `LoggerRule` and `LegacyRule` fix the two scripts' rules.
- `Collector`: pagination.
- `Profiles`: the constant tables.
- `Store`: specification functions, plus the class `Database` with a `tables` map that its methods update.
- `Logger`: `fetch_data` and the driver.
- `Legacy`: the legacy script.

Inputs from outside:
- The network is a parameter `respond: Request -> Report`, the report the meter answers to a request.
- Timestamps are integer seconds.
- The gas switch of the configuration is a boolean parameter of the driver.

Three behaviours of the code that the model keeps as written:
- The UPDATE's `LIMIT 1` without `ORDER BY` takes the first matching batch row, in batch order (`Store.FirstOccurrenceWins`).
- Update and insert are two separate commits, which the model keeps as two state changes (`Store.Database.UpdateExisting`, `Store.Database.InsertNew`).
- Because the INSERT's `SELECT` is evaluated before inserting, a batch with a repeated new time inserts every copy (`Store.DuplicateNewTimesInserted`). Uniqueness of times is therefore proved only for batches without repeated times.
- The legacy script cannot run as written: `main.py:48` reads `if __name__ = 'main':`, which is a syntax error. The model covers its three functions as they are written, and not its entry block.

## Model

| member | source | states |
|---|---|---|
| `Samples.ParseFloatPointLiteral` | logger.py:82 | `float` accepts whitespace, an optional sign, digits, one point, digits, whitespace (at least one digit), giving mantissa = all digits, scale = digits after the point, negated for `-` |
| `Samples.ParseFloatIntegerLiteral` | logger.py:82 | `float` accepts padded, optionally signed digit strings as that integer, scale 0 |
| `Samples.ParseFloatAccepts` | logger.py:82 | conversely, everything `float` accepts is a padded, optionally signed literal with at most one point and at least one digit |
| `Samples.ParseFloatAlphabet` | logger.py:82 | what `float` accepts consists of whitespace, digits, points and signs only, so `x27` and `27a` are rejected |
| `Samples.DecimalSampleAlphabet` | logger.py:82 | what the logger reads as a number consists of whitespace, digits, points, commas and signs only |
| `Samples.ParseFloatRejectsBlank` | logger.py:82 | a whitespace-only string is rejected by `float` |
| `Samples.CommaAndPointAgree` | logger.py:82 | a comma and a point in the same place give the same sample value |
| `Samples.PlainDigitsSample` | logger.py:82 | a plain digit string is read as its integer value |
| `Samples.DecimalSampleCommaExample` | test/test_logger.py:65 | `' 27,1'` and `' 27.1'` both read as exactly 27.1 |
| `Samples.DecimalSampleIntegerExample` | test/test_logger.py:65 | `' 33'` reads as exactly 33 |
| `Samples.ParseIntLiteral` | main.py:17 | `int` accepts padded, optionally signed digit strings as that integer |
| `Samples.ParseIntRejectsSymbol` | main.py:17 | `int` rejects any string containing a character other than whitespace, a digit or a sign (so `*`, `27.1` and `27,1` fail) |
| `Samples.ParseIntAlphabet` | main.py:17 | what `int` accepts consists of whitespace, digits and signs only |
| `Samples.ParseIntIsFloat` | main.py:17 | whatever `int` accepts, `float` accepts with the same value |
| `Samples.IntSampleIsDecimalSample` | main.py:17 | a sample `int` accepts is read by the logger's comma-normalising `float` as the same value |
| `Reports.PresentSlots` | logger.py:77-78 | the slots that yield a reading are exactly the non-missing ones, strictly increasing |
| `Reports.ConvertData` | logger.py:72-88 | the loop with a running timestamp, proved equal to the reference decoding `Decode`, including the error at the first malformed sample |
| `Reports.DecodePrefixMeaning` | logger.py:77-86 | decoding `n` slots succeeds iff every present sample parses; then one reading per present slot, in order, each at `tm + slot * dt`; otherwise the error names the first unparsable present slot |
| `Reports.DecodeSucceedsIff` | logger.py:77-85 | a report decodes iff every non-missing sample parses |
| `Reports.DecodeReadings` | logger.py:76-86 | the `k`-th reading comes from the `k`-th present slot `i`: time `tm + i * dt`, the sample's value, the report's unit |
| `Reports.DecodeFailsAtFirstMalformed` | logger.py:82 | a failing decode names a present, unparsable slot before which every present sample parses |
| `Reports.DecodeUnits` | logger.py:83 | every reading carries the report's unit |
| `Reports.DecodeWithoutGaps` | logger.py:77-86 | with no missing sample there are exactly `len(val)` readings, the `i`-th at `tm + i * dt` |
| `Reports.DecodeFirstAtAnchor` | logger.py:76-80 | a present first sample yields a first reading at `tm` |
| `Reports.DecodeTimesIncrease` | logger.py:86 | with `dt > 0` the readings' times strictly increase |
| `Reports.DecodeAllPresent` | logger.py:77-86 | when every sample is present and parses, reading `i` is the reading of slot `i` |
| `Reports.DecodeSkipsSentinel` | logger.py:78 | samples `a, *, b` give two readings, at `tm` and `tm + 2 * dt`: the skipped sentinel still advances the clock |
| `Reports.DecodeRejectsBlankSample` | logger.py:78-82 | a non-empty whitespace-only sample is neither skipped nor readable, so the page fails |
| `Reports.DecodeUnitTestReport` | test/test_logger.py:61-79 | the unit test's report decodes to 27.1 at `tm` and 33 at `tm + 3600`, both in `Watt` |
| `Reports.DecodePrefixAgree` | logger.py:77-85 | two sample rules that agree on a report's samples decode it alike |
| `Collector.PageRequests` | logger.py:63-67 | exactly `pages` requests, for pages 1..n in order, each to the endpoint with `f=j` and the page parameter |
| `Collector.CollectedMeaning` | logger.py:63-68 | collection succeeds iff every page decodes; then the result is the pages' readings concatenated in page order; otherwise the error names the first failing page |
| `Collector.CollectedAppend` | logger.py:68 | collecting two runs of requests concatenates their readings, and an error stops the collection |
| `Collector.CollectedConstant` | test/test_logger.py:44 | a meter that always answers with the same report yields its readings once per page |
| `Collector.FetchPages` | logger.py:62-69 | the page loop equals the reference collection; it issues the requests in order, all of them on success, and stops at the failing page otherwise |
| `Profiles.GranularityMap` | logger.py:17-21 | every granularity has a one-letter parameter and at least one page (minute `h`/20, hour `d`/70, day `m`/12) |
| `Profiles.GranularityParamsDistinct` | logger.py:17-21 | different granularities use different page parameters |
| `Profiles.TablesDistinct` | logger.py:162-189 | no two of the five loggers share a table |
| `Profiles.ProfileRequestsShape` | logger.py:57-67 | a profile issues as many requests as its granularity has pages, to `http://192.168.1.14/<path>`, pages 1..n, with its parameter |
| `Profiles.DayRequests` | test/test_logger.py:51 | a day logger issues 12 requests with parameter `m` |
| `Store.FirstIndex` | logger.py:126-129 | the index of the first batch row at a time, or none when no batch row has that time |
| `Store.FindFirst` | logger.py:124-130 | the lookup loop finds exactly that first row |
| `Store.ContainsTime` | logger.py:148-151 | the existence loop decides whether some row has the time |
| `Store.SelectNew` | logger.py:145-151 | the selection loop yields exactly the batch rows with times absent from the table, in batch order |
| `Store.Database.StageBatch` | logger.py:119-120 | `to_sql('tmp', if_exists='replace')`: the scratch table holds exactly the batch, every other table is unchanged |
| `Store.Database.UpdateExisting` | logger.py:122-141 | the UPDATE and its commit: every row takes its value from the staged `tmp` rows, only the named table changes, and the count is the number of rows whose time is in `tmp` |
| `Store.Database.InsertNew` | logger.py:143-157 | the INSERT and its commit: the `tmp` rows new to the table are appended after the existing ones, and the count is their number |
| `Store.Database.StoreData` | logger.py:106-159 | the database ends as `Stored`: unchanged for an empty batch, created from the batch, or merged with `tmp` left holding the batch; the returned `StoreOutcome` stands for the counts the function logs (logger.py:141, 159), since `store_data` itself returns `None` |
| `Store.StoredCases` | logger.py:107-159 | an empty batch is a no-op; a missing table becomes exactly the batch, with count `len(batch)`; otherwise the table is merged and `tmp` holds the batch (storing into `tmp` itself leaves it with first-occurrence values); no table other than the named one and, on a merge, `tmp` changes |
| `Store.StoredAgree` | logger.py:106-159 | what storing into a table makes of it depends only on that table; storing elsewhere leaves any table but `tmp` alone |
| `Store.MergeExistingRow` | logger.py:123-136 | an existing row keeps its time and unit, takes the energy of the first batch row with its time, or is unchanged when no batch row has it |
| `Store.MergeUpdatesMatched` | logger.py:124-130 | for a batch without repeated times, a row at the time of batch row `j` gets exactly `j`'s energy and keeps its unit |
| `Store.NewRowsMeaning` | logger.py:145-151 | a batch row is inserted iff no table row has its time |
| `Store.NewRowsAppend` | logger.py:145-151 | the selection keeps batch order: selecting from two batches in a row is selecting from each in turn |
| `Store.MergeShape` | logger.py:143-157 | the merged table is the old rows, in place, followed by the new rows |
| `Store.MergeCoversBatch` | logger.py:122-157 | after a merge every batch time occurs in the table |
| `Store.MergeIdempotent` | logger.py:122-157 | for a batch without repeated times, merging it again inserts nothing and leaves the table unchanged |
| `Store.MergeKeepsUnique` | logger.py:122-157 | a table without repeated times stays so after merging a batch without repeated times |
| `Store.MergeExample` | logger.py:122-157 | table `{A, B}` merged with `{C, A'}` gives `{A with A's new value and old unit, B, C}` |
| `Store.DuplicateNewTimesInserted` | logger.py:145-151 | two batch rows at the same new time are both inserted |
| `Store.FirstOccurrenceWins` | logger.py:124-130 | of two batch rows at a row's time, the first one's value is taken |
| `Logger.FetchData` | logger.py:60-70 | a round issues the profile's requests and, when every page decodes, stores the collected batch once into its table; otherwise nothing changes |
| `Logger.Run` | logger.py:192-204 | the driver equals `RunProfiles` over the energy loggers, then the gas loggers when enabled, stopping at the first failure |
| `Logger.RunTouchesOnlyProfileTables` | logger.py:192-204 | a run changes no table but its profiles' tables and the scratch table `tmp` |
| `Logger.RunAllSucceed` | logger.py:192-204 | when every collection succeeds, the run ends without error |
| `Logger.RunStoresEachBatch` | logger.py:192-204 | with distinct tables, none of them `tmp`, each profile's table ends as storing its own batch makes it |
| `Logger.DriverTables` | logger.py:192-204 | the driver runs 3 loggers, or 5 with gas, all on distinct tables other than `tmp` |
| `Logger.GasDisabledKeepsGasTables` | logger.py:200-204 | with gas disabled the gas tables are untouched |
| `Logger.DayFetchAgainstConstantMeter` | test/test_logger.py:19-52 | a day logger against a constant meter issues 12 requests with `m` and collects the report's readings 12 times |
| `Legacy.LegacyMissingOnlyEmpty` | main.py:14 | the legacy decoder skips exactly the empty sample; `*` is not skipped |
| `Legacy.LegacySentinelMalformed` | main.py:14-17 | a `*` sample makes the legacy decode fail, unlike the logger's |
| `Legacy.LegacyDecimalMalformed` | main.py:17 | a sample with a point or a comma makes the legacy decode fail |
| `Legacy.LegacyValuesIntegral` | main.py:12-20 | legacy readings have scale 0 and are the integer parse of their slot's sample |
| `Legacy.LegacyAgreesWithLogger` | main.py:9-22 | wherever the legacy decoder succeeds, the logger's decoder gives the same readings |
| `Legacy.FetchData` | main.py:25-32 | three requests `w=1..3` to `http://youless/V` with `f=j`, readings concatenated in page order |
| `Legacy.MaxTime` | main.py:38 | the latest stored time: no row is later, and some row has it |
| `Legacy.StoreData` | main.py:35-45 | an empty batch, or an existing but empty table, fails and changes nothing; otherwise the rows later than the latest stored time are appended to `youless`; the returned count stands for the number the function logs (main.py:44), since it returns `None` |
| `Legacy.LegacyStoredCases` | main.py:35-45 | the empty batch fails with no `time` column; an existing empty table fails on its `NULL` maximum; a missing table takes the 1900-01-01 fallback; otherwise the rows later than the stored maximum are appended; no other table changes |
| `Legacy.NewerThanMeaning` | main.py:43 | a batch row is kept iff it is later than the bound |
| `Legacy.NewerThanAppend` | main.py:43-45 | the filter keeps batch order |
| `Legacy.LegacyAppendOnly` | main.py:43-45 | stored rows stay unchanged and in place, and every appended row is later than every stored row |
| `Legacy.LegacyFallback` | main.py:39-41 | without a table, the whole batch (all of it after 1900-01-01) becomes the new table |
| `Legacy.LegacyRestoreAppendsNothing` | main.py:38-45 | storing the same batch a second time leaves the tables unchanged, or raises if the first store left the table empty |

## Left out

- HTTP requests, JSON decoding and their failures: the meter is the `respond` parameter, which always answers with a well-formed report.
- Calendar parsing of `tm` (`'%Y-%m-%dT%H:%M:%S'`): times are integer seconds. The legacy fallback `'1900-01-01'` is `-2208988800`.
- Python's `float` beyond plain decimals: exponents, `inf`, `nan` and underscores are not accepted. Whitespace is ASCII only, and digits are ASCII only. The same holds for `int`, which also does not accept underscores here. Values are exact decimals, not binary floats.
- SQLite, pandas and the connection handling: the database is an in-memory map from table names to row sequences. Table existence is membership in that map. Times compare as integers rather than as stored text. The pandas index column that the legacy `to_sql` writes is not modelled.
- Logging (all `logger.info` and `logger.warning` calls), the logger names, and the configuration file.
- Atomicity and concurrency: the two commits of a merge are two successive state changes, and nothing is claimed about a failure between them.
- Legacy.StoreData: the exception raised on an existing but empty `youless` table is modelled as the error `NoLatestTime`. `MAX(time)` is `NULL`, and comparing the `time` column with `None` raises a `TypeError` before `to_sql` runs. The exception's type and message are not modelled.
- The legacy entry block (main.py:48-52) is not part of this model because the file does not parse.
- helpers/, app.py and config.py (charts, read-side SQL and app wiring) are not part of this model.
