/** `load_data_into_tables` of the ingestion script: for each CSV file, in
    the fixed order, skip it if it is missing, sanitise it, count its rows,
    skip it if the catalog has no columns for its table, bulk-load it, and
    report the row counts; a load error is caught and the loop goes on. */
module Ingest {
  import opened Sanitizer
  import opened RowCounts
  import opened LoadRun

  /** `get_table_columns`: the catalog's ordered column list, empty for a
      table the catalog does not know. */
  function TableColumns(catalog: Catalog, table: string): seq<string>
  {
    if table in catalog.columns then catalog.columns[table] else []
  }

  /** The rows of the sanitised copy of `file`, counted as the records written
      minus the header. `count_rows_in_csv` re-reads the copy with a reader
      that knows no escape character, so a field holding a line break (written
      as a backslash and the line break) would count as two records there; the
      model counts the records written. */
  function SanitisedRows(env: Env, isNumber: NumberTest, file: string): int
    requires file in env.files
  {
    ExpectedRows(SanitizeRecords(isNumber, env.files[file]))
  }

  /** The situation in which the report line divides by zero: the file is
      there, its table has columns, its load succeeded, and the sanitised
      file holds only a header. */
  predicate DividesByZero(env: Env, file: string)
  {
    && file in env.files
    && TableColumns(env.catalog, Stem(file)) != []
    && Stem(file) !in env.catalog.loadErrors
    && |env.files[file]| == 1
  }

  /** One pass of the loop body, as written: the percentage divides by the
      expected row count without a guard, and the ZeroDivisionError this
      raises is not the database error the `try` catches. */
  function ProcessFile(env: Env, isNumber: NumberTest, file: string): (r: Step)
    ensures r.Crash? <==> DividesByZero(env, file)
    ensures r.Done? ==> r.outcome.file == file
    ensures r.Done? ==> (r.outcome.FileMissing? <==> file !in env.files)
    ensures r.Done? && r.outcome.NoColumns? <==> file in env.files && TableColumns(env.catalog, Stem(file)) == []
    ensures r.Done? && r.outcome.LoadFailed? <==>
              file in env.files && TableColumns(env.catalog, Stem(file)) != [] && Stem(file) in env.catalog.loadErrors
    ensures file in env.files && TableColumns(env.catalog, Stem(file)) == [] ==>
              r == Done(NoColumns(file, Stem(file)))
    ensures file in env.files && TableColumns(env.catalog, Stem(file)) != [] && Stem(file) in env.catalog.loadErrors ==>
              r == Done(LoadFailed(file, Stem(file), env.catalog.loadErrors[Stem(file)]))
    ensures file in env.files && TableColumns(env.catalog, Stem(file)) != [] && Stem(file) !in env.catalog.loadErrors
            && |env.files[file]| != 1 ==>
              r.Done? && r.outcome.Loaded? && r.outcome.table == Stem(file)
    ensures r.Done? && r.outcome.Loaded? ==>
              && file in env.files
              && r.outcome.table == Stem(file)
              && r.outcome.report.expected == |env.files[file]| - 1
              && r.outcome.report.difference == r.outcome.report.expected - r.outcome.report.actual
              && r.outcome.report.percent * (r.outcome.report.expected as real)
                 == 100.0 * (r.outcome.report.actual as real)
              && (Stem(file) in env.catalog.tableRows ==>
                    r.outcome.report.actual == env.catalog.tableRows[Stem(file)])
              && (Stem(file) !in env.catalog.tableRows ==>
                    r.outcome.report.actual == -1 && r.outcome.report.difference == r.outcome.report.expected + 1)
  {
    if file !in env.files then Done(FileMissing(file))
    else
      var table := Stem(file);
      var expected := SanitisedRows(env, isNumber, file);
      var columns := TableColumns(env.catalog, table);
      if columns == [] then Done(NoColumns(file, table))
      else if table in env.catalog.loadErrors then Done(LoadFailed(file, table, env.catalog.loadErrors[table]))
      else
        var actual := TableRowCount(env.catalog.tableRows, table);
        if expected == 0 then Crash(file)
        else Done(Loaded(file, table, Reconcile(expected, actual)))
  }

  /** The whole loop, as written. */
  function LoadDataIntoTables(env: Env, isNumber: NumberTest): (r: Run)
    ensures |r.outcomes| <= |CsvFiles|
    ensures r.Completed? ==> |r.outcomes| == |CsvFiles|
    ensures forall i :: 0 <= i < |r.outcomes| ==>
              r.outcomes[i].file == CsvFiles[i] && Done(r.outcomes[i]) == ProcessFile(env, isNumber, CsvFiles[i])
    ensures r.Aborted? <==> exists i :: 0 <= i < |CsvFiles| && DividesByZero(env, CsvFiles[i])
    ensures r.Aborted? ==> |r.outcomes| < |CsvFiles| && DividesByZero(env, CsvFiles[|r.outcomes|])
  {
    RunFiles(f => ProcessFile(env, isNumber, f), CsvFiles)
  }

  /** The loop body with the division guarded, as the per-file isolation of
      the loop evidently intends: an empty file reports 0 percent. */
  function ProcessFileGuarded(env: Env, isNumber: NumberTest, file: string): (r: Step)
    ensures r.Done?
    ensures r.outcome.file == file
    ensures !DividesByZero(env, file) ==> r == ProcessFile(env, isNumber, file)
    ensures DividesByZero(env, file) ==>
              r.outcome == Loaded(file, Stem(file),
                                  Report(0, TableRowCount(env.catalog.tableRows, Stem(file)),
                                         -TableRowCount(env.catalog.tableRows, Stem(file)), 0.0))
  {
    match ProcessFile(env, isNumber, file)
    case Done(o) => Done(o)
    case Crash(_) =>
      var actual := TableRowCount(env.catalog.tableRows, Stem(file));
      Done(Loaded(file, Stem(file), Report(0, actual, 0 - actual, 0.0)))
  }

  /** The loop with the guarded body: every file gets exactly one outcome, in
      the fixed order, whatever the other files hold; where the loop as
      written completes, the two agree. */
  function LoadDataIntoTablesGuarded(env: Env, isNumber: NumberTest): (r: seq<FileOutcome>)
    ensures |r| == |CsvFiles|
    ensures forall i :: 0 <= i < |CsvFiles| ==>
              r[i].file == CsvFiles[i] && Done(r[i]) == ProcessFileGuarded(env, isNumber, CsvFiles[i])
    ensures LoadDataIntoTables(env, isNumber).Completed? ==> r == LoadDataIntoTables(env, isNumber).outcomes
  {
    var run := RunFiles(f => ProcessFileGuarded(env, isNumber, f), CsvFiles);
    assert run.Completed?;
    CompletedRunsAgree(f => ProcessFile(env, isNumber, f), f => ProcessFileGuarded(env, isNumber, f), CsvFiles);
    run.outcomes
  }

  /** The sanitiser writes exactly one record per record read, so counted as
      records written, the sanitised copy has the expected row count of the
      original file. */
  lemma SanitisingKeepsRowCount(env: Env, isNumber: NumberTest, file: string)
    requires file in env.files
    ensures SanitisedRows(env, isNumber, file) == ExpectedRows(env.files[file])
  {
  }

  /** A Menu.csv holding only its header stops the whole run at Menu.csv:
      Dish.csv, MenuPage.csv and MenuItem.csv are never loaded, although the
      guarded loop loads Dish.csv normally. */
  lemma HeaderOnlyMenuStopsRun(isNumber: NumberTest)
    ensures var env := Env(map["Menu.csv" := [["id"]], "Dish.csv" := [["id"], ["1"]]],
                           Catalog(map["Menu" := ["id"], "Dish" := ["id"]], map[], map["Menu" := 0, "Dish" := 1]));
            && LoadDataIntoTables(env, isNumber) == Aborted([], "Menu.csv")
            && LoadDataIntoTablesGuarded(env, isNumber)[1] == Loaded("Dish.csv", "Dish", Report(1, 1, 0, 100.0))
  {
    var env := Env(map["Menu.csv" := [["id"]], "Dish.csv" := [["id"], ["1"]]],
                   Catalog(map["Menu" := ["id"], "Dish" := ["id"]], map[], map["Menu" := 0, "Dish" := 1]));
    TableNames();
    assert DividesByZero(env, CsvFiles[0]);
    var r := LoadDataIntoTables(env, isNumber);
    assert |r.outcomes| == 0;
    assert !DividesByZero(env, CsvFiles[1]);
    var d := ProcessFile(env, isNumber, CsvFiles[1]);
    assert d.Done? && d.outcome.Loaded?;
    assert d.outcome.report.expected == 1 && d.outcome.report.actual == 1;
    assert d.outcome.report.percent * 1.0 == 100.0;
  }

  /** A three-line file (header and two rows) whose second row the database
      rejected: two rows expected, one in the table, one skipped, and the
      printed percentage is 50. */
  lemma OneRejectedRowOfTwo(isNumber: NumberTest)
    ensures var env := Env(map["Dish.csv" := [["id", "name"], ["1", "Alice"], ["2", "O'Brien"]]],
                           Catalog(map["Dish" := ["id", "name"]], map[], map["Dish" := 1]));
            ProcessFile(env, isNumber, "Dish.csv") == Done(Loaded("Dish.csv", "Dish", Report(2, 1, 1, 50.0)))
  {
    StemOfSuffixed("Dish", "csv");
    assert "Dish" + "." + "csv" == "Dish.csv";
    var env := Env(map["Dish.csv" := [["id", "name"], ["1", "Alice"], ["2", "O'Brien"]]],
                   Catalog(map["Dish" := ["id", "name"]], map[], map["Dish" := 1]));
    assert TableColumns(env.catalog, "Dish") != [];
    var r := ProcessFile(env, isNumber, "Dish.csv");
    assert r.Done? && r.outcome.Loaded?;
    var report := r.outcome.report;
    assert report.expected == 2 && report.actual == 1 && report.difference == 1;
    assert report.percent * 2.0 == 100.0;
  }
}
