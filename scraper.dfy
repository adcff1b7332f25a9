/**
 * The `__main__` block of main.py: find the latest files, download each one and load it
 * into its SQLite table through `csv_to_sqlite`, combine the borough tables when every
 * load succeeded, and exit with 0 or 1.
 *
 * The database is a map from table name to table. Downloading a file and reading it with
 * `pd.read_csv` happen outside the model: `fetch` gives the outcome for each file.
 */
module Scraper {
  import opened Wrappers
  import opened Calendar
  import opened ColumnNames
  import opened Patterns
  import opened Selection
  import opened Aggregation
  import opened Combine

  /** What downloading a file and reading it as CSV gives. */
  datatype Fetched =
    | DownloadFailed   // `download_file` returned False
    | Unreadable       // `pd.read_csv` raised (EmptyDataError, ParserError, ...)
    | Read(frame: Frame)

  /** One entry of `files_to_process`. */
  datatype FileToProcess = FileToProcess(key: string, desc: Descriptor)

  /** The counters and the database while the files are processed. */
  datatype Progress = Progress(successes: nat, errors: nat, tables: map<string, Frame>)

  /** How a run ends: the exit code, the database, and the combined table if one was written. */
  datatype RunResult = RunResult(exitCode: int, tables: map<string, Frame>, combined: Option<seq<Row>>)

  predicate Distinct(s: seq<string>) {
    forall i, j :: 0 <= i < j < |s| ==> s[i] != s[j]
  }

  /** `table_names.get(key, f"crime_{key}")`. */
  function TableName(key: string): string {
    if key == "borough" then HistoricalTable
    else if key == "lsoa" then "crime_lsoa"
    else if key == "ward" then WardTable
    else "crime_" + key
  }

  /**
   * The tables the combination reads are written by the "borough" and "ward" files, and
   * by a file under the key "borough_historical", whose default name collides with the
   * historical table.
   */
  lemma TableNameReadBack(key: string)
    ensures TableName(key) == HistoricalTable <==> key == "borough" || key == "borough_historical"
    ensures TableName(key) == WardTable <==> key == "ward"
  {
    if key != "borough" && key != "lsoa" && key != "ward" {
      var t := "crime_" + key;
      assert t[..6] == "crime_" && t[6..] == key;
      assert HistoricalTable == HistoricalTable[..6] + HistoricalTable[6..];
      assert HistoricalTable[..6] == "crime_" && HistoricalTable[6..] == "borough_historical";
      assert WardTable[6..] == "ward";
      assert t == t[..6] + t[6..];
    }
  }

  /** The configured keys load into three different tables. */
  lemma ConfiguredTablesDistinct(i: nat, j: nat)
    requires i < |FilenamePatterns| && j < |FilenamePatterns|
    requires TableName(FilenamePatterns[i].key) == TableName(FilenamePatterns[j].key)
    ensures i == j
  {
  }

  /**
   * `csv_to_sqlite` once the CSV is read: the columns are cleaned, and `to_sql` fails
   * when two cleaned names coincide, since SQLite refuses a duplicate column name.
   */
  function LoadTable(f: Frame): (r: Option<Frame>)
    ensures r.Some? <==> Distinct(CleanColumns(f.columns))
    ensures r.Some? ==> r.value.rows == f.rows && r.value.columns == CleanColumns(f.columns)
  {
    var cleaned := Table(CleanColumns(f.columns), f.rows);
    if Distinct(cleaned.columns) then Some(cleaned) else None
  }

  /**
   * A stored table has clean column names, and reading it back and loading it again
   * stores the same table.
   */
  lemma LoadTableSettles(f: Frame)
    requires LoadTable(f).Some?
    ensures forall i :: 0 <= i < |LoadTable(f).value.columns| ==> IsClean(LoadTable(f).value.columns[i])
    ensures LoadTable(LoadTable(f).value) == LoadTable(f)
  {
    var t := LoadTable(f).value;
    forall i | 0 <= i < |t.columns| ensures CleanColumn(t.columns[i]) == t.columns[i] {
      CleanIdempotent(f.columns[i]);
    }
    assert CleanColumns(t.columns) == t.columns;
  }

  /** Whether the file is downloaded, read and loaded. */
  predicate Loads(f: FileToProcess, fetch: FileToProcess -> Fetched) {
    fetch(f).Read? && LoadTable(fetch(f).frame).Some?
  }

  /**
   * Whether the file is read but refused by `to_sql`. With `if_exists='replace'` the old
   * table is dropped before the new one is created, so the refusal leaves no table.
   */
  predicate Drops(f: FileToProcess, fetch: FileToProcess -> Fetched) {
    fetch(f).Read? && LoadTable(fetch(f).frame).None?
  }

  /** One iteration of the processing loop. */
  function Process(p: Progress, f: FileToProcess, fetch: FileToProcess -> Fetched): Progress {
    if Loads(f, fetch) then
      Progress(p.successes + 1, p.errors, p.tables[TableName(f.key) := LoadTable(fetch(f).frame).value])
    else if Drops(f, fetch) then
      Progress(p.successes, p.errors + 1, p.tables - {TableName(f.key)})
    else
      Progress(p.successes, p.errors + 1, p.tables)
  }

  /** The processing loop over `files`, from the database `tables`. */
  function LoadAll(files: seq<FileToProcess>, fetch: FileToProcess -> Fetched, tables: map<string, Frame>): Progress
    decreases |files|
  {
    if files == [] then Progress(0, 0, tables)
    else Process(LoadAll(files[..|files| - 1], fetch, tables), files[|files| - 1], fetch)
  }

  /** `files_to_process`: the keys, in pattern order, under which a file was found. */
  function FilesToProcess(latest: map<string, Option<Descriptor>>, keys: seq<string>): (r: seq<FileToProcess>)
    ensures forall i :: 0 <= i < |r| ==> r[i].key in keys && r[i].key in latest && latest[r[i].key] == Some(r[i].desc)
    decreases |keys|
  {
    if keys == [] then []
    else
      var rest := FilesToProcess(latest, keys[1..]);
      assert forall k :: k in keys[1..] ==> k in keys;
      if keys[0] in latest && latest[keys[0]].Some? then [FileToProcess(keys[0], latest[keys[0]].value)] + rest
      else rest
  }

  /** Every key under which a file was found is processed. */
  lemma {:induction false} FilesToProcessComplete(latest: map<string, Option<Descriptor>>, keys: seq<string>, k: string)
    requires k in keys && k in latest && latest[k].Some?
    ensures exists i :: 0 <= i < |FilesToProcess(latest, keys)| && FilesToProcess(latest, keys)[i].key == k
    decreases |keys|
  {
    var r := FilesToProcess(latest, keys);
    var rest := FilesToProcess(latest, keys[1..]);
    var head := keys[0] in latest && latest[keys[0]].Some?;
    if k == keys[0] {
      assert r[0].key == k;
    } else {
      FilesToProcessComplete(latest, keys[1..], k);
      var i :| 0 <= i < |rest| && rest[i].key == k;
      if head {
        assert r[i + 1] == rest[i];
      } else {
        assert r[i] == rest[i];
      }
    }
  }

  /** No key is processed twice. */
  predicate DistinctFiles(files: seq<FileToProcess>) {
    forall i, j :: 0 <= i < j < |files| ==> files[i].key != files[j].key
  }

  lemma DistinctTail(keys: seq<string>)
    requires Distinct(keys) && keys != []
    ensures Distinct(keys[1..]) && keys[0] !in keys[1..]
  {
    forall i, j | 0 <= i < j < |keys[1..]| ensures keys[1..][i] != keys[1..][j] {
      assert keys[1..][i] == keys[i + 1] && keys[1..][j] == keys[j + 1];
    }
    forall m | 0 <= m < |keys[1..]| ensures keys[1..][m] != keys[0] {
      assert keys[1..][m] == keys[m + 1];
    }
  }

  /** Distinct keys give distinct entries: each file is processed once. */
  lemma {:induction false} FilesToProcessDistinct(latest: map<string, Option<Descriptor>>, keys: seq<string>)
    requires Distinct(keys)
    ensures DistinctFiles(FilesToProcess(latest, keys))
    decreases |keys|
  {
    if keys != [] {
      DistinctTail(keys);
      var rest := FilesToProcess(latest, keys[1..]);
      FilesToProcessDistinct(latest, keys[1..]);
      if keys[0] in latest && latest[keys[0]].Some? {
        var r := [FileToProcess(keys[0], latest[keys[0]].value)] + rest;
        assert FilesToProcess(latest, keys) == r;
        forall i, j | 0 <= i < j < |r| ensures r[i].key != r[j].key {
          assert r[j] == rest[j - 1];
          if i == 0 {
            assert r[0].key == keys[0];
            assert rest[j - 1].key in keys[1..];
          } else {
            assert r[i] == rest[i - 1];
            assert rest[i - 1].key != rest[j - 1].key;
          }
        }
      }
    }
  }

  /** The number of files that load. */
  function LoadedCount(files: seq<FileToProcess>, fetch: FileToProcess -> Fetched): nat
    decreases |files|
  {
    if files == [] then 0
    else LoadedCount(files[..|files| - 1], fetch) + (if Loads(files[|files| - 1], fetch) then 1 else 0)
  }

  /** Each file counts once, as a success when it loads and as an error otherwise. */
  lemma {:induction false} LoadAllCounts(files: seq<FileToProcess>, fetch: FileToProcess -> Fetched, tables: map<string, Frame>)
    ensures LoadAll(files, fetch, tables).successes == LoadedCount(files, fetch)
    ensures LoadAll(files, fetch, tables).successes + LoadAll(files, fetch, tables).errors == |files|
    ensures LoadAll(files, fetch, tables).errors == 0 <==> forall i :: 0 <= i < |files| ==> Loads(files[i], fetch)
    decreases |files|
  {
    if files != [] {
      var init := files[..|files| - 1];
      LoadAllCounts(init, fetch, tables);
      assert forall i :: 0 <= i < |init| ==> init[i] == files[i];
    }
  }

  /** Some file satisfies `hit`. */
  predicate Hits(files: seq<FileToProcess>, hit: FileToProcess -> bool)
    decreases |files|
  {
    files != [] && (Hits(files[..|files| - 1], hit) || hit(files[|files| - 1]))
  }

  lemma {:induction false} HitsMeans(files: seq<FileToProcess>, hit: FileToProcess -> bool)
    ensures Hits(files, hit) <==> exists i :: 0 <= i < |files| && hit(files[i])
    decreases |files|
  {
    if files != [] {
      var n := |files| - 1;
      var init := files[..n];
      HitsMeans(init, hit);
      if Hits(init, hit) {
        var i :| 0 <= i < |init| && hit(init[i]);
        assert files[i] == init[i];
      }
      if exists i :: 0 <= i < |files| && hit(files[i]) {
        var i :| 0 <= i < |files| && hit(files[i]);
        if i < n {
          assert init[i] == files[i];
        }
      }
    }
  }

  /** Some file loads into the table `name`. */
  predicate LoadsInto(files: seq<FileToProcess>, fetch: FileToProcess -> Fetched, name: string) {
    Hits(files, (f: FileToProcess) => TableName(f.key) == name && Loads(f, fetch))
  }

  /** Some file is read but refused by the table `name`. */
  predicate DropsInto(files: seq<FileToProcess>, fetch: FileToProcess -> Fetched, name: string) {
    Hits(files, (f: FileToProcess) => TableName(f.key) == name && Drops(f, fetch))
  }

  /**
   * A table is present after the loop only when it was before or some file loaded into
   * it; when no file is refused by it, also conversely.
   */
  lemma {:induction false} LoadAllTableNames(files: seq<FileToProcess>, fetch: FileToProcess -> Fetched,
                                             tables: map<string, Frame>, name: string)
    ensures name in LoadAll(files, fetch, tables).tables ==> name in tables || LoadsInto(files, fetch, name)
    ensures !DropsInto(files, fetch, name) ==>
              (name in LoadAll(files, fetch, tables).tables <==> name in tables || LoadsInto(files, fetch, name))
    decreases |files|
  {
    if files != [] {
      var init, last := files[..|files| - 1], files[|files| - 1];
      LoadAllTableNames(init, fetch, tables, name);
      ProcessTableNames(LoadAll(init, fetch, tables), last, fetch, name);
    }
  }

  /** One iteration keeps, writes or drops the table of its file, and no other. */
  lemma ProcessTableNames(p: Progress, f: FileToProcess, fetch: FileToProcess -> Fetched, name: string)
    ensures name in Process(p, f, fetch).tables
            <==> if TableName(f.key) == name then Loads(f, fetch) || (!Drops(f, fetch) && name in p.tables)
                 else name in p.tables
  {
  }

  /** A table into which the last file loads holds that file's loaded form. */
  lemma LastLoadWins(files: seq<FileToProcess>, fetch: FileToProcess -> Fetched, tables: map<string, Frame>)
    requires files != [] && Loads(files[|files| - 1], fetch)
    ensures var out := LoadAll(files, fetch, tables).tables;
            var last := files[|files| - 1];
            TableName(last.key) in out && out[TableName(last.key)] == LoadTable(fetch(last).frame).value
  {
  }

  /**
   * A table is the loaded form of the last file that loads into it, or the table the
   * database held before when no file does.
   */
  lemma {:induction false} LoadAllTables(files: seq<FileToProcess>, fetch: FileToProcess -> Fetched,
                                         tables: map<string, Frame>, name: string, i: nat)
    requires i < |files| && TableName(files[i].key) == name && Loads(files[i], fetch)
    requires forall j :: i < j < |files| && TableName(files[j].key) == name ==> !fetch(files[j]).Read?
    ensures var out := LoadAll(files, fetch, tables).tables;
            name in out && out[name] == LoadTable(fetch(files[i]).frame).value
    decreases |files|
  {
    var init := files[..|files| - 1];
    if i < |files| - 1 {
      assert init[i] == files[i];
      assert forall j :: i < j < |init| ==> init[j] == files[j];
      LoadAllTables(init, fetch, tables, name, i);
    }
  }

  /**
   * A table whose last read file is refused is gone after the loop, whatever the
   * database held before.
   */
  lemma {:induction false} LoadAllDropped(files: seq<FileToProcess>, fetch: FileToProcess -> Fetched,
                                          tables: map<string, Frame>, name: string, i: nat)
    requires i < |files| && TableName(files[i].key) == name && Drops(files[i], fetch)
    requires forall j :: i < j < |files| && TableName(files[j].key) == name ==> !fetch(files[j]).Read?
    ensures name !in LoadAll(files, fetch, tables).tables
    decreases |files|
  {
    var init := files[..|files| - 1];
    if i < |files| - 1 {
      assert init[i] == files[i];
      assert forall j :: i < j < |init| ==> init[j] == files[j];
      LoadAllDropped(init, fetch, tables, name, i);
    }
  }

  /**
   * A table no file reaches (every file for it failed to download or to be read) is as
   * the database held it: present with the same contents, or absent.
   */
  lemma {:induction false} LoadAllUntouched(files: seq<FileToProcess>, fetch: FileToProcess -> Fetched,
                                            tables: map<string, Frame>, name: string)
    requires forall i :: 0 <= i < |files| && TableName(files[i].key) == name ==> !fetch(files[i]).Read?
    ensures var out := LoadAll(files, fetch, tables).tables;
            (name in out <==> name in tables) && (name in tables ==> out[name] == tables[name])
    decreases |files|
  {
    if files != [] {
      var init := files[..|files| - 1];
      assert forall i :: 0 <= i < |init| ==> init[i] == files[i];
      LoadAllUntouched(init, fetch, tables, name);
    }
  }

  /** How the run ends once `find_latest_files` has returned `found`. */
  function Finish(found: Option<map<string, Option<Descriptor>>>, keys: seq<string>,
                  fetch: FileToProcess -> Fetched, tables: map<string, Frame>): RunResult
  {
    if found.None? then RunResult(1, tables, None)
    else
      var files := FilesToProcess(found.value, keys);
      if files == [] then RunResult(0, tables, None)
      else
        var p := LoadAll(files, fetch, tables);
        if p.errors == 0 && p.successes > 0 then
          match CombineTables(p.tables)
          case Success(rows) => RunResult(0, p.tables, Some(rows))
          case Failure(_) => RunResult(1, p.tables, None)
        else RunResult(if p.errors > 0 then 1 else 0, p.tables, None)
  }

  /**
   * The run exits 0 exactly when the file information was retrieved and either nothing
   * was found, or every file found loaded and the combined table was written.
   */
  lemma ExitCodeMeaning(found: Option<map<string, Option<Descriptor>>>, keys: seq<string>,
                        fetch: FileToProcess -> Fetched, tables: map<string, Frame>)
    ensures var r := Finish(found, keys, fetch, tables);
            r.exitCode == 0 || r.exitCode == 1
    ensures var r := Finish(found, keys, fetch, tables);
            r.exitCode == 0 <==>
              found.Some?
              && var files := FilesToProcess(found.value, keys);
                 files == []
                 || ((forall i :: 0 <= i < |files| ==> Loads(files[i], fetch))
                     && CombineTables(LoadAll(files, fetch, tables).tables).Success?)
  {
    if found.Some? {
      var files := FilesToProcess(found.value, keys);
      LoadAllCounts(files, fetch, tables);
    }
  }

  /**
   * The combined table is written only after every file found has loaded, and it is
   * built from the tables those loads left.
   */
  lemma CombinedOnlyAfterAllLoads(found: Option<map<string, Option<Descriptor>>>, keys: seq<string>,
                                  fetch: FileToProcess -> Fetched, tables: map<string, Frame>)
    ensures var r := Finish(found, keys, fetch, tables);
            r.combined.Some? ==>
              r.exitCode == 0 && found.Some?
              && var files := FilesToProcess(found.value, keys);
                 files != [] && (forall i :: 0 <= i < |files| ==> Loads(files[i], fetch))
                 && CombineTables(r.tables) == Success(r.combined.value)
    ensures var r := Finish(found, keys, fetch, tables);
            r.exitCode == 0 && found.Some? && FilesToProcess(found.value, keys) != [] ==> r.combined.Some?
  {
    if found.Some? {
      LoadAllCounts(FilesToProcess(found.value, keys), fetch, tables);
    }
  }

  /** The processing loop of `__main__`. */
  method ProcessFiles(files: seq<FileToProcess>, fetch: FileToProcess -> Fetched, tables: map<string, Frame>)
    returns (successCount: nat, errorCount: nat, tables': map<string, Frame>)
    ensures Progress(successCount, errorCount, tables') == LoadAll(files, fetch, tables)
  {
    successCount, errorCount, tables' := 0, 0, tables;
    var i := 0;
    while i < |files|
      invariant 0 <= i <= |files|
      invariant Progress(successCount, errorCount, tables') == LoadAll(files[..i], fetch, tables)
    {
      var f := files[i];
      assert files[..i + 1][..i] == files[..i];
      var fetched := fetch(f);
      if fetched.Read? && LoadTable(fetched.frame).Some? {
        tables' := tables'[TableName(f.key) := LoadTable(fetched.frame).value];
        successCount := successCount + 1;
      } else if fetched.Read? {
        tables' := tables' - {TableName(f.key)};
        errorCount := errorCount + 1;
      } else {
        errorCount := errorCount + 1;
      }
      i := i + 1;
    }
    assert files[..i] == files;
  }

  /**
   * The whole `__main__` block: `page` is the dataset page's resource items, or None when
   * fetching it failed; `now` is the clock reading for items without a coverage date.
   */
  method RunMain(page: Option<seq<Item>>, patterns: seq<Pattern>, now: DateTime,
                 fetch: FileToProcess -> Fetched, tables: map<string, Frame>)
    returns (r: RunResult)
    ensures var found := if page.None? then None
                         else Some(Run(Observed(page.value, patterns, now), KeySet(patterns)).latest);
            r == Finish(found, Keys(patterns), fetch, tables)
  {
    var latestFilesInfo := FindLatestFiles(page, patterns, now);
    if latestFilesInfo.None? {
      return RunResult(1, tables, None);
    }
    var files := FilesToProcess(latestFilesInfo.value, Keys(patterns));
    if files == [] {
      return RunResult(0, tables, None);
    }
    var successCount, errorCount, tables' := ProcessFiles(files, fetch, tables);
    var combined: Option<seq<Row>> := None;
    if errorCount == 0 && successCount > 0 {
      var outcome := CombineTables(tables');
      if outcome.Success? {
        combined := Some(outcome.value);
      } else {
        errorCount := errorCount + 1;
      }
    }
    var exitCode := if errorCount > 0 then 1 else 0;
    r := RunResult(exitCode, tables', combined);
  }
}
