# London crime dashboard: scraper core in Dafny

The scraper of the London crime dashboard fetches the "recorded crime summary" dataset
page of the London Datastore. For each configured file pattern (borough, LSOA and ward
level crime) it picks the newest CSV, downloads every file found, and loads each one
into a SQLite table, cleaning the column names on the way. When every load succeeds, it
builds `crime_borough_combined` from the historical borough table and the ward table.
That table is a long-format count per borough, crime category and month. A small service
script restarts the scraper on the 30th of each month.

This project models that core and proves its properties. Modules, in dependency order:

| module | file | models |
|---|---|---|
| `Wrappers` | wrappers.dfy | `Option` and `Result` |
| `Text` | text.dfy | the Python string operations the code uses: `strip`, `lower`, `title`, `in`, `split(sep)`, `split()`, string order |
| `Calendar` | calendar.dfy | naive `datetime` values, their order, and the instant each stands for |
| `NextRun` | next_run.dfy | `calculate_next_run_time` of run_monthly_scraper.py |
| `ColumnNames` | column_names.dfy | the column-name cleaning of `csv_to_sqlite` |
| `Patterns` | patterns.dfy | `FILENAME_PATTERNS`, the `.csv` test and the "historical" test |
| `CoverageDates` | coverage_dates.dfy | the end date read from an item's temporal-coverage texts |
| `Selection` | selection.dfy | the item loop of `find_latest_files` |
| `Aggregation` | aggregation.dfy | `groupby(...).sum()` on sorted keys, and boolean masks |
| `Combine` | combine.dfy | `create_combined_borough_table` |
| `Scraper` | scraper.dfy | `csv_to_sqlite` and the `__main__` block: `files_to_process`, the processing loop, the combination step, the exit code |

The loops the source runs step by step are methods with loop invariants:
- the item loop, the date loop and the pattern loop of `find_latest_files`;
- the processing loop of `__main__`.

Each method is proved equal to a function over the sequence it walks. The lemmas are then
stated about that function: `Selection.Run`, `CoverageDates.FirstCoverageDate` and
`Scraper.LoadAll`. The other parts are written as functions, as in the source:
- column cleaning;
- the pandas pipeline of the combination;
- the next-run date.

The database is a map from table name to table.

The program's environment is passed in as parameters:
- the page's resource items (`None` when fetching the page failed);
- the clock reading `now`;
- `fetch`, the outcome of downloading a file and reading it with `pd.read_csv`.

Points where the code does something other than a first reading suggests:
- A historical borough file does not always win. The comments at main.py:154 and main.py:191 say historical files are used "regardless of date" and "always". In the code such a file replaces the selection but does not raise `max_dates`, so a later, newer non-historical file still displaces it (`Selection.NewerFileDisplacesHistorical`).
- An item with no parseable coverage date is dated `datetime.now()` (main.py:178-180).
- The file name is taken from the URL path alone (main.py:141-143).
- The combination needs the ward table as well as the historical table; it returns False when either is missing.
- A month column that `pd.to_datetime(..., format='%Y%m')` rejects makes the whole combination fail; no row is dropped for it.
- Only the two crime categories are title-cased. Borough names are kept as read, and no internal whitespace is collapsed.
- The final table is in (borough, major, minor, month) order.
- `csv_to_sqlite` changes only the column names. It drops no column and trims no cell.
- An empty CSV (`EmptyDataError`) makes `csv_to_sqlite` return False, so it counts as an error.
- A CSV that is read but refused by `to_sql` leaves no table behind. `if_exists='replace'` drops the old table before the failing CREATE (`Scraper.LoadAllDropped`).
- In `date_parts[1].strip().split()[0]` the `strip()` changes nothing (`Text.FirstTokenStrip`).

## Model

| member | source | states |
|---|---|---|
| NextRun.Replace | run_monthly_scraper.py:33-39 | `datetime.replace` succeeds exactly when the new date exists. Its result has the requested year, month and day and keeps the time of day. The year error occurs exactly when the year is outside 1..9999. |
| NextRun.NextRunTime | run_monthly_scraper.py:21-41 | A produced run time is a valid 30th at `now`'s time of day. The call raises exactly in February before the 30th, on 31 January, and on 31 December 9999. |
| NextRun.NextRunCases | run_monthly_scraper.py:25-39 | `now` itself on the 30th; the 30th of the same month before it; the 30th of the next month after it, or 30 January of the next year after 31 December. |
| NextRun.NextRunNotEarlier | run_monthly_scraper.py:21-41 | The run time is never before `now`. The wait is never negative, and it is zero exactly on the 30th. |
| NextRun.NextRunIsEarliest | run_monthly_scraper.py:21-41 | No 30th at `now`'s time of day lies between `now` and the produced run time. |
| ColumnNames.KeepCleanChars | main.py:285 | The regex replacement leaves only `[a-z0-9_]`, never lengthens the name, and leaves an already clean name as it is. |
| ColumnNames.KeepCleanCharsConcat | main.py:285 | The regex replacement works character by character: it distributes over concatenation. |
| ColumnNames.KeepCleanCharsOne | main.py:285 | A single character survives exactly when it is in `[a-z0-9_]`. |
| ColumnNames.CleanColumn | main.py:285 | A cleaned column name contains only `[a-z0-9_]` and is no longer than the original. |
| ColumnNames.CleanColumns | main.py:285 | Cleaning keeps the number and order of columns and cleans each name on its own. |
| ColumnNames.CleanColumnOfPlainName | main.py:285 | For a name made, after stripping, of ASCII letters, digits, `_` and spaces, cleaning keeps every character in place: letters lower-cased, spaces turned into `_`. |
| ColumnNames.CleanFixedPoints | main.py:285 | Cleaning leaves a name unchanged exactly when the name is already clean. |
| ColumnNames.CleanIdempotent | main.py:285 | Cleaning twice gives the same name as cleaning once. |
| Text.TrimStart | main.py:170 | `lstrip` removes a leading run of whitespace and nothing else. |
| Text.TrimEnd | main.py:170 | `rstrip` removes a trailing run of whitespace and nothing else. |
| Text.SplitOnJoin | main.py:167 | Joining the pieces of `split(sep)` with `sep` gives back the text. |
| Text.SplitOnPieces | main.py:167 | No piece of `split(sep)` contains the separator. |
| Text.TokensAreWords | main.py:170 | Each token of `split()` is a non-empty run of non-whitespace characters. |
| Text.FirstTokenOfTokens | main.py:170 | The first token is `split()[0]`, and there is none exactly when `split()` is empty. |
| Text.FirstTokenStrip | main.py:170 | Stripping before `split()` does not change the first token. |
| Text.FirstTokenOfWord | main.py:170 | After leading whitespace, a word followed by whitespace or the end is the first token. |
| Text.TitleAt | main.py:406-407 | `str.title` upper-cases each letter that follows an uncased character and lower-cases every other letter. |
| Text.TitleIdempotent | main.py:406-407 | Title-casing twice gives the same text as title-casing once. |
| Patterns.DotStarCsvFromMeans | main.py:26-28 | Matching `.*\.csv` from an index succeeds exactly when `.csv` (in any case) occurs there or later with no line break before it. |
| Patterns.MatchesMeans | main.py:26-28 | `pattern.match(name)` succeeds exactly when `name` starts with the prefix ignoring case and a `.csv` follows on the same line. |
| Patterns.FirstMatchFrom | main.py:187-188 | Returns the first index at or after `from` whose pattern matches, or None when no later pattern matches. |
| Patterns.Category | main.py:187-188 | The key found is that of a matching pattern with no matching pattern before it. None means no pattern matches. |
| Patterns.CategoryIsFirstMatch | main.py:187-203 | The first matching pattern decides the key, whatever later patterns also match. |
| Patterns.ConfiguredPatternsExclusive | main.py:25-29 | No name matches two of the three configured patterns. |
| Patterns.HistoricalMarker | main.py:156 | The `"(historical)"` test adds nothing to the `"historical"` test. |
| CoverageDates.ParseDayMonthYear | main.py:171 | A parsed `%d/%m/%Y` date is a real calendar date at midnight. |
| CoverageDates.ParseFormatted | main.py:171 | Every calendar date written as `dd/mm/yyyy` parses back to that date at midnight. |
| CoverageDates.ParsedFields | main.py:171 | Conversely, a token that parses is day, `/`, month, `/`, year in the `strptime` field forms, and gives the calendar date those fields spell, at midnight. |
| CoverageDates.ParseCoverage | main.py:164-175 | A date parses only from a text that `split("To")` cuts in exactly two, and the date is valid. |
| CoverageDates.SplitOnceAtTo | main.py:166-168 | A text with exactly one `To` contains `To`, and `split("To")` gives the parts before and after it. |
| CoverageDates.ParseCoverageOf | main.py:164-171 | A text `a + "To" + w + dd/mm/yyyy + c` parses to that date at midnight, when `a` and `c` hold no other `To`, `w` is whitespace, and `c` is empty or starts with whitespace. |
| CoverageDates.FirstCoverageDate | main.py:161-175 | Any date found is valid. |
| CoverageDates.FirstCoverageDateNone | main.py:161-181 | No date is found exactly when no coverage text parses. |
| CoverageDates.FirstParseWins | main.py:163-173 | The date found belongs to the first text that parses, because the loop breaks there. |
| CoverageDates.EndDate | main.py:160-183 | The date loop returns the date of the first text that parses, or `now` when none does. The result is valid when `now` is. |
| Selection.Classify | main.py:136-188 | An item is filed under a key only if that key is configured, the item has a link, its name ends in `.csv`, and that key's pattern is the first one to match. |
| Selection.Observe | main.py:136-203 | An observation has the item's URL and file name and at most a configured key, and its date is valid when `now` is. |
| Selection.Observed | main.py:122-203 | One observation per item, in page order, each filed under a configured key. |
| Selection.Initial | main.py:53-54 | Every key starts with no file and `datetime.min`. |
| Selection.Step | main.py:186-203 | One item keeps the state's shape: one file slot and one date per key. |
| Selection.Run | main.py:122-203 | After any number of items, the state still has one slot and one date per key. |
| Selection.MatchingKey | main.py:187-203 | The pattern loop stops at the key of the first matching pattern. |
| Selection.VisitItem | main.py:126-203 | The loop body changes `latest_files` and `max_dates` exactly as one step of `Run` does. |
| Selection.FindLatestFiles | main.py:53-217 | Returns None when the page could not be fetched. Otherwise returns the state `Run` reaches over all items, with one entry per key. |
| Selection.MaxDateBound | main.py:198-200 | `max_dates[k]` is never older than a non-forced item filed under `k`. |
| Selection.MaxDateAttained | main.py:198-200 | `max_dates[k]` is `datetime.min` or the date of a non-forced item filed under `k`. |
| Selection.MaxDateIsMaximum | main.py:198-200 | `max_dates[k]` is valid, at least every competitor's date, and either attained or `datetime.min`. |
| Selection.BeatsMaxDate | main.py:198 | An item beats `max_dates[k]` exactly when it is newer than `datetime.min` and every earlier competitor. |
| Selection.LastStep | main.py:186-203 | The last item replaces the entry for `k` exactly when it is an update: a forced file, or a record date. |
| Selection.LatestNoneIffNoUpdate | main.py:186-215 | The entry for `k` stays None exactly when no item updates it. |
| Selection.LatestIsLastUpdate | main.py:186-203 | The entry for `k` is None exactly when nothing updates it. Otherwise it is the tuple of the last item that updates it. |
| Selection.LatestCarriesMaxDate | main.py:197-202 | Without forced items, the stored tuple carries `max_dates[k]`, and there is one exactly when `max_dates[k]` moved. |
| Selection.FirstNewestWins | main.py:197-203 | Without forced items, the first of the newest relevant files is chosen. There is none exactly when every relevant file is dated `datetime.min`. |
| Selection.LastHistoricalWins | main.py:191-195 | A forced historical file with no relevant item after it is the selection. |
| Selection.NewerFileDisplacesHistorical | main.py:191-202 | A later record file displaces a forced historical file. |
| Selection.SelectedIsRelevant | main.py:136-202 | A selected tuple belongs to one of the page's items, has a link and a `.csv` name, and is filed under its key. |
| Aggregation.KeyLessTransitive | main.py:443 | The key order is transitive. |
| Aggregation.KeyLessTotal | main.py:443 | The key order is total. |
| Aggregation.GroupSumSorted | main.py:439-443 | `groupby` output is strictly sorted by key. |
| Aggregation.GroupSumLookup | main.py:439 | A key has a group exactly when some row has that key, and the group holds the sum of those rows' counts. |
| Aggregation.FilterSorted | main.py:441 | A mask keeps a sorted table sorted and keeps exactly the accepted entries. |
| Aggregation.FilterKeys | main.py:441 | A mask adds no keys. |
| Aggregation.SortedDeterminedByLookup | main.py:443 | Two sorted tables with the same contents are equal, so `sort_values` changes nothing afterwards. |
| Combine.IndexOf | main.py:342-345 | Returns the first column with the name, or None exactly when there is none. |
| Combine.CleanMonthColumn | main.py:354 | On cleaned names, `^\d{6}$` means exactly six digits. |
| Combine.MonthColumns | main.py:354 | The positions of exactly the month columns, in column order. |
| Combine.ParseMonthLabel | main.py:367 | A parsed label gives a month from 1 to 12 that a pandas Timestamp can hold. |
| Combine.MonthLabelRoundTrip | main.py:367 | Every month in range has one `YYYYMM` label that parses back to it, and a label that parses is that month's label. |
| Combine.ParseMonths | main.py:367 | A month for every month column, or None exactly when some label fails to parse. |
| Combine.MeltLength | main.py:361-365 | The melt has one row per (month column, row) pair. |
| Combine.MeltLayout | main.py:361-370 | The cell of row `r` in month column `p` becomes long row `p * rows + r`, with that row's labels and count. |
| Combine.TransformHistorical | main.py:341-376 | Each error occurs exactly when its condition holds: no borough column; no month column; missing `majortext`/`minortext`; an invalid month with rows present. |
| Combine.TransformWard | main.py:379-393 | Each error occurs exactly when its condition holds: no month column; a missing `id_vars_ward` column; an invalid month with rows present. |
| Combine.TransformShape | main.py:361-393 | A successful transform has one row per (row, month column) pair. |
| Combine.TransformHistoricalRows | main.py:341-370 | In a successful historical transform, the cell of row `i` in the `p`-th month column becomes long row `p * rows + i`. It carries the borough label from `boroughname`, or from `lookup_boroughname` when there is no `boroughname`; the `majortext` and `minortext` labels; the month named by the column; and the cell as a count. |
| Combine.TransformWardRows | main.py:379-392 | In a successful ward transform, all five `id_vars_ward` columns exist, and the cell of row `i` in the `p`-th month column becomes long row `p * rows + i`, with the `lookup_boroughname`, `majortext` and `minortext` labels, the month named by the column, and the cell as a count. |
| Combine.KeyedKeys | main.py:396 | The keys `groupby` sees are exactly those of the long rows with no NaN label. |
| Combine.KeyedSum | main.py:396 | The sum `groupby` forms under a key is the total count of the long rows with that key. |
| Combine.WardGroupsSpec | main.py:396-401 | The ward groups are sorted. A key has a group exactly when some ward row has that key and their total count is positive; the group holds that total. |
| Combine.PositiveRows | main.py:401 | Keeps exactly the rows with a positive count. |
| Combine.PositiveRowsMultiset | main.py:401 | The mask keeps each positive-count row as many times as it occurs, and no other row. |
| Combine.MinorMappingSettled | main.py:410-432 | No mapped name is mapped again, so the one-pass replacement is final and idempotent. |
| Combine.BurglaryVariantsMerge | main.py:419-420 | Both household-burglary spellings become "Domestic Burglary". |
| Combine.FinalTableSpec | main.py:436-448 | The final table is sorted. A key is present exactly when some standardized row has it, the total count of those rows is positive and the borough is not excluded; it holds that total. |
| Combine.FinalTableUnique | main.py:436-448 | The final table is the only sorted table with those contents. |
| Combine.StandardizedKeys | main.py:404-432 | A standardized key has a title-cased major category and a minor category that the mapping does not rename. |
| Combine.FinalTableRows | main.py:400-453 | Every row has a positive count, a non-excluded borough, a title-cased major category and a settled minor category. |
| Combine.CombinedTableContents | main.py:341-453 | A successful combination writes exactly the contents that `FinalTableSpec` describes, computed from the two stored tables. |
| Combine.CombineTables | main.py:317-453 | The historical-table error occurs exactly when that table is missing, the ward-table error exactly when only the ward table is missing, and success exactly when both are present and both transforms succeed. |
| Scraper.TableNameReadBack | main.py:500-513 | The historical table is written by the key "borough" (or the default name of "borough_historical"); the ward table is written by the key "ward" only. |
| Scraper.ConfiguredTablesDistinct | main.py:500-504 | The three configured keys load into three different tables. |
| Scraper.LoadTable | main.py:279-303 | Loading succeeds exactly when the cleaned names are distinct. It keeps the rows and stores the cleaned names. |
| Scraper.LoadTableSettles | main.py:285-290 | Stored names are clean, and loading a stored table again stores the same table. |
| Scraper.FilesToProcess | main.py:493 | Each entry is a configured key with its found tuple. |
| Scraper.FilesToProcessComplete | main.py:493 | Every key with a found file is processed. |
| Scraper.FilesToProcessDistinct | main.py:493 | No key is processed twice. |
| Scraper.LoadAllCounts | main.py:506-531 | Each file counts once. Successes are the files that load; no errors occur exactly when every file loads. |
| Scraper.LoadAllTableNames | main.py:510-531 | A table exists afterwards only when it existed before or some file loaded into it; when no file for it was refused, also conversely. |
| Scraper.LastLoadWins | main.py:513-518 | The last file's table holds its loaded form. |
| Scraper.ProcessTableNames | main.py:513-531 | One iteration writes its table when the file loads, drops it when the file is read but refused, and touches no other table. |
| Scraper.LoadAllTables | main.py:510-531 | A table holds the loaded form of a file that loads into it when no later file for that table is read. |
| Scraper.LoadAllUntouched | main.py:510-531 | A table for which no file is read is present afterwards exactly when it was before, with the same contents. |
| Scraper.LoadAllDropped | main.py:288-290 | A table whose last read file is refused does not exist afterwards, whatever the database held before. |
| Scraper.HitsMeans | main.py:510-531 | "Some file for the table loads" (or "is refused") holds exactly when some index of the file list has such a file. |
| Scraper.ExitCodeMeaning | main.py:489-555 | The exit code is 0 or 1. It is 0 exactly when the file information was retrieved and either nothing was found, or every file loaded and the combination succeeded. |
| Scraper.CombinedOnlyAfterAllLoads | main.py:537-547 | A combined table is produced only after every file loads, from the tables those loads left. A successful run that found files produces one. |
| Scraper.ProcessFiles | main.py:506-531 | The processing loop ends with the counters and tables that `LoadAll` gives. |
| Scraper.RunMain | main.py:487-555 | The whole `__main__` run ends as `Finish` says: exit code, database and combined table. |

## Left out

- Network, HTML and URLs:
  - the cookie visits;
  - the HTTP/2 and cloudscraper clients;
  - the 403 fallback dictionary of fixed URLs;
  - `raise_for_status`;
  - BeautifulSoup;
  - `urljoin`, `urlparse` and `unquote`.

  These are I/O or third-party code. The model starts from the page's resource items. Each item is its absolute link (empty when missing), the decoded file name and its coverage texts. An item whose link or title tag is missing is taken to be absent from that list.
- `download_file` and `pd.read_csv`: I/O. The `fetch` parameter gives each file's outcome: download failed; unreadable (`EmptyDataError`, `ParserError`, encoding); or the frame read.
- Database writes: `to_sql` replacing a table is a map update, and a refused load removes the table. Other SQLite failures (locked or unwritable database) are not modelled; a load fails only on duplicate cleaned column names.
- `crime_borough_combined`: the combined table is returned as `RunResult.combined`, as rows of key and count. It is not stored as a table of the map. The `date` column is a `Month`, not a Timestamp.
- `datetime.now()`: read once per run as `now`. The code reads it for each item without a date; those readings are taken to be equal.
- Logging, `os.makedirs` and `os.remove` have no effect on the results and are left out.
- The `main()` loop of run_monthly_scraper.py: `subprocess.run`, `time.sleep`, the second clock reading and the environment variable are process control and are left out. `NextRun.WaitMicroseconds` gives the wait it computes.
- Unicode: case mapping (`lower`, `title`, `re.IGNORECASE`) is modelled on ASCII letters only. `\d` and `strptime` digits are ASCII only. Whitespace is Python's `str.isspace` set.
- Counts: cells read back from SQLite are integers, texts or NULL. Floats, float strings, signs and surrounding spaces are not modelled; `Combine.Count` gives 0 for any text other than plain digits. Integers are unbounded, so int64 overflow in sums is not modelled.
- Label cells: a label that is numeric in SQLite is treated as missing (NaN) rather than converted.
- `pd.melt` column-name collisions between `id_vars` and the new `month_str`/`count` columns are not modelled. Duplicate column names cannot reach the combination, because `Scraper.LoadTable` refuses them.
- `sort_values`: modelled as the identity. `Aggregation.GroupSumSorted` and `Aggregation.SortedDeterminedByLookup` prove the grouped table is already in that order.
- Scraper.LoadTable: does not model `to_sql` failures other than duplicate column names.
- Selection.Run: states the page loop on observations; the `except Exception` around the whole loop (a crash inside parsing) is not modelled.
