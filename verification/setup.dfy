/** `load_data_into_tables` of the setup script: for each CSV file, in the
    fixed order, skip it if it is missing, count its rows, bulk-load it as it
    is (no sanitising, no column mapping), and report the rows missing from
    the table; a load error is caught and the loop goes on. */
module Setup {
  import opened RowCounts
  import opened LoadRun

  /** The situation in which the report line divides by zero: the file is
      there, its load succeeded, and the catalog reports zero rows for the
      table. */
  predicate DividesByZero(env: Env, file: string)
  {
    && file in env.files
    && Stem(file) !in env.catalog.loadErrors
    && TableRowCount(env.catalog.tableRows, Stem(file)) == 0
  }

  /** One pass of the loop body, as written: the percentage divides by the
      loaded row count without a guard, and the ZeroDivisionError this raises
      is not the database error the `try` catches. */
  function ProcessFile(env: Env, file: string): (r: Step)
    ensures r.Crash? <==> DividesByZero(env, file)
    ensures r.Done? ==> r.outcome.file == file && !r.outcome.NoColumns?
    ensures r.Done? ==> (r.outcome.FileMissing? <==> file !in env.files)
    ensures r.Done? && r.outcome.LoadFailed? <==> file in env.files && Stem(file) in env.catalog.loadErrors
    ensures file in env.files && Stem(file) in env.catalog.loadErrors ==>
              r == Done(LoadFailed(file, Stem(file), env.catalog.loadErrors[Stem(file)]))
    ensures file in env.files && Stem(file) !in env.catalog.loadErrors
            && TableRowCount(env.catalog.tableRows, Stem(file)) != 0 ==>
              r.Done? && r.outcome.Loaded? && r.outcome.table == Stem(file)
    ensures Stem(file) !in env.catalog.tableRows ==> r.Done?
    ensures r.Done? && r.outcome.Loaded? ==>
              && file in env.files
              && r.outcome.table == Stem(file)
              && r.outcome.report.expected == |env.files[file]| - 1
              && r.outcome.report.difference == r.outcome.report.expected - r.outcome.report.actual
              && r.outcome.report.percent * (r.outcome.report.actual as real)
                 == 100.0 * (r.outcome.report.difference as real)
              && (Stem(file) in env.catalog.tableRows ==>
                    r.outcome.report.actual == env.catalog.tableRows[Stem(file)] != 0)
              && (Stem(file) !in env.catalog.tableRows ==>
                    r.outcome.report.actual == -1 && r.outcome.report.difference == r.outcome.report.expected + 1)
  {
    if file !in env.files then Done(FileMissing(file))
    else
      var table := Stem(file);
      var expected := ExpectedRows(env.files[file]);
      if table in env.catalog.loadErrors then Done(LoadFailed(file, table, env.catalog.loadErrors[table]))
      else
        var actual := TableRowCount(env.catalog.tableRows, table);
        var difference := expected - actual;
        if actual == 0 then Crash(file)
        else Done(Loaded(file, table, Report(expected, actual, difference, Percent(difference, actual))))
  }

  /** The whole loop, as written. */
  function LoadDataIntoTables(env: Env): (r: Run)
    ensures |r.outcomes| <= |CsvFiles|
    ensures r.Completed? ==> |r.outcomes| == |CsvFiles|
    ensures forall i :: 0 <= i < |r.outcomes| ==>
              r.outcomes[i].file == CsvFiles[i] && Done(r.outcomes[i]) == ProcessFile(env, CsvFiles[i])
    ensures r.Aborted? <==> exists i :: 0 <= i < |CsvFiles| && DividesByZero(env, CsvFiles[i])
    ensures r.Aborted? ==> |r.outcomes| < |CsvFiles| && DividesByZero(env, CsvFiles[|r.outcomes|])
  {
    RunFiles(f => ProcessFile(env, f), CsvFiles)
  }

  /** The loop body with the division guarded: a table that ended up empty
      reports 0 percent instead of stopping the run. */
  function ProcessFileGuarded(env: Env, file: string): (r: Step)
    ensures r.Done?
    ensures r.outcome.file == file
    ensures !DividesByZero(env, file) ==> r == ProcessFile(env, file)
    ensures DividesByZero(env, file) ==>
              r.outcome == Loaded(file, Stem(file), Report(|env.files[file]| - 1, 0, |env.files[file]| - 1, 0.0))
  {
    match ProcessFile(env, file)
    case Done(o) => Done(o)
    case Crash(_) =>
      var expected := ExpectedRows(env.files[file]);
      Done(Loaded(file, Stem(file), Report(expected, 0, expected, 0.0)))
  }

  /** The loop with the guarded body: every file gets exactly one outcome, in
      the fixed order; where the loop as written completes, the two agree. */
  function LoadDataIntoTablesGuarded(env: Env): (r: seq<FileOutcome>)
    ensures |r| == |CsvFiles|
    ensures forall i :: 0 <= i < |CsvFiles| ==>
              r[i].file == CsvFiles[i] && Done(r[i]) == ProcessFileGuarded(env, CsvFiles[i])
    ensures LoadDataIntoTables(env).Completed? ==> r == LoadDataIntoTables(env).outcomes
  {
    var run := RunFiles(f => ProcessFileGuarded(env, f), CsvFiles);
    assert run.Completed?;
    CompletedRunsAgree(f => ProcessFile(env, f), f => ProcessFileGuarded(env, f), CsvFiles);
    run.outcomes
  }

  /** The catalog of the example below: Menu counts no row, Dish one. */
  function EmptyMenuEnv(): Env
  {
    Env(map["Menu.csv" := [["id"], ["1"]], "Dish.csv" := [["id"], ["1"]]],
        Catalog(map[], map[], map["Menu" := 0, "Dish" := 1]))
  }

  lemma EmptyMenuAborts()
    ensures LoadDataIntoTables(EmptyMenuEnv()) == Aborted([], "Menu.csv")
  {
    TableNames();
    var env := EmptyMenuEnv();
    assert DividesByZero(env, CsvFiles[0]);
    var run := LoadDataIntoTables(env);
    assert |run.outcomes| == 0 && run.Aborted?;
    assert run.crashedOn == CsvFiles[0];
  }

  lemma EmptyMenuGuardedLoadsDish()
    ensures LoadDataIntoTablesGuarded(EmptyMenuEnv())[1] == Loaded("Dish.csv", "Dish", Report(1, 1, 0, 0.0))
  {
    TableNames();
    var env := EmptyMenuEnv();
    assert !DividesByZero(env, CsvFiles[1]);
    var d := ProcessFile(env, CsvFiles[1]);
    assert d.Done? && d.outcome.Loaded?;
    assert d.outcome.report.expected == 1 && d.outcome.report.actual == 1 && d.outcome.report.difference == 0;
    assert d.outcome.report.percent * 1.0 == 0.0;
    assert Done(LoadDataIntoTablesGuarded(env)[1]) == ProcessFileGuarded(env, CsvFiles[1]) == d;
  }

  /** A Menu table that the catalog counts as empty after a successful load
      stops the whole run at Menu.csv, although Dish.csv would load. */
  lemma EmptyMenuTableStopsRun()
    ensures var env := Env(map["Menu.csv" := [["id"], ["1"]], "Dish.csv" := [["id"], ["1"]]],
                           Catalog(map[], map[], map["Menu" := 0, "Dish" := 1]));
            && LoadDataIntoTables(env) == Aborted([], "Menu.csv")
            && LoadDataIntoTablesGuarded(env)[1] == Loaded("Dish.csv", "Dish", Report(1, 1, 0, 0.0))
  {
    EmptyMenuAborts();
    EmptyMenuGuardedLoadsDish();
  }

  /** Missing files do not stop the run: each gets its own outcome and the
      loop reaches the end. */
  lemma MissingFilesAreSkipped()
    ensures var env := Env(map["Menu.csv" := [["id"], ["1"]]], Catalog(map[], map[], map["Menu" := 1]));
            LoadDataIntoTables(env) == Completed([
              Loaded("Menu.csv", "Menu", Report(1, 1, 0, 0.0)),
              FileMissing("Dish.csv"), FileMissing("MenuPage.csv"), FileMissing("MenuItem.csv")])
  {
    TableNames();
    var env := Env(map["Menu.csv" := [["id"], ["1"]]], Catalog(map[], map[], map["Menu" := 1]));
    assert ProcessFile(env, CsvFiles[0]) == Done(Loaded("Menu.csv", "Menu", Report(1, 1, 0, 0.0)));
    assert ProcessFile(env, CsvFiles[1]) == Done(FileMissing("Dish.csv"));
    assert ProcessFile(env, CsvFiles[2]) == Done(FileMissing("MenuPage.csv"));
    assert ProcessFile(env, CsvFiles[3]) == Done(FileMissing("MenuItem.csv"));
    var r := LoadDataIntoTables(env);
    assert r.Completed?;
  }
}
