/** What both loading scripts share: the fixed list of CSV files, the table
    named by each file, the per-file outcome, and the loop that visits the
    files in order until one of them raises an exception the loop does not
    catch. */
module LoadRun {
  import opened RowCounts

  /** The files, in the order their tables' foreign keys require. */
  const CsvFiles: seq<string> := ["Menu.csv", "Dish.csv", "MenuPage.csv", "MenuItem.csv"]

  /** Index of the last `c` in `s`, or -1. */
  function LastIndexOf(s: string, c: char): (i: int)
    ensures -1 <= i < |s|
    ensures i >= 0 ==> s[i] == c && forall k :: i < k < |s| ==> s[k] != c
    ensures i == -1 ==> c !in s
  {
    if |s| == 0 then -1
    else if s[|s| - 1] == c then |s| - 1
    else
      var i := LastIndexOf(s[..|s| - 1], c);
      assert s == s[..|s| - 1] + [s[|s| - 1]];
      i
  }

  /** `Path(name).stem`: the name without its last suffix; a leading dot or a
      trailing dot does not start a suffix. */
  function Stem(name: string): (r: string)
    ensures r <= name
    ensures r != name ==> name[|r|] == '.' && '.' !in name[|r| + 1..] && 0 < |r| < |name| - 1
    ensures r == name ==> forall k :: 0 < k < |name| - 1 && name[k] == '.' ==> '.' in name[k + 1..]
  {
    var i := LastIndexOf(name, '.');
    if 0 < i < |name| - 1 then name[..i]
    else
      assert forall k :: 0 < k < |name| - 1 && name[k] == '.' ==> name[|name| - 1] == '.' && name[k + 1..][|name| - k - 2] == '.';
      name
  }

  /** A non-empty base name followed by a dot and a dot-free extension loses
      exactly the dot and the extension. */
  lemma StemOfSuffixed(base: string, ext: string)
    requires base != [] && ext != [] && '.' !in ext
    ensures Stem(base + "." + ext) == base
  {
    var name := base + "." + ext;
    assert name[|base|] == '.';
    assert forall k :: |base| < k < |name| ==> name[k] == ext[k - |base| - 1];
    assert LastIndexOf(name, '.') == |base|;
    assert name[..|base|] == base;
  }

  /** The table each file is loaded into. */
  lemma TableNames()
    ensures Stem(CsvFiles[0]) == "Menu"
    ensures Stem(CsvFiles[1]) == "Dish"
    ensures Stem(CsvFiles[2]) == "MenuPage"
    ensures Stem(CsvFiles[3]) == "MenuItem"
  {
    StemOfSuffixed("Menu", "csv");
    assert CsvFiles[0] == "Menu" + "." + "csv";
    StemOfSuffixed("Dish", "csv");
    assert CsvFiles[1] == "Dish" + "." + "csv";
    StemOfSuffixed("MenuPage", "csv");
    assert CsvFiles[2] == "MenuPage" + "." + "csv";
    StemOfSuffixed("MenuItem", "csv");
    assert CsvFiles[3] == "MenuItem" + "." + "csv";
  }

  /** The database as the scripts observe it: the catalog's column list per
      table, the error (if any) the bulk load of a table raises, and the
      catalog's row count per table after its load. */
  datatype Catalog = Catalog(
    columns: map<string, seq<string>>,
    loadErrors: map<string, string>,
    tableRows: map<string, int>)

  /** The CSV files present in the ingestion directory, each as the records
      the CSV reader yields, header first. */
  datatype Env = Env(files: map<string, seq<seq<string>>>, catalog: Catalog)

  /** How the processing of one file ended. */
  datatype FileOutcome =
    | FileMissing(file: string)
    | NoColumns(file: string, table: string)
    | LoadFailed(file: string, table: string, error: string)
    | Loaded(file: string, table: string, report: Report)

  /** One file's processing either ends with an outcome or raises an exception
      that escapes the loop. */
  datatype Step = Done(outcome: FileOutcome) | Crash(file: string)

  /** The run: either every file has an outcome, or the run stopped at the
      file that raised, after the outcomes of the files before it. */
  datatype Run = Completed(outcomes: seq<FileOutcome>) | Aborted(outcomes: seq<FileOutcome>, crashedOn: string)

  /** The `for file_name in CSV_FILES` loop: every file is processed on its
      own, in order; a file that ends with an outcome (however bad) does not
      stop the loop, a file that raises does. */
  function RunFiles(step: string -> Step, files: seq<string>): (r: Run)
    ensures r.Completed? <==> forall i :: 0 <= i < |files| ==> step(files[i]).Done?
    ensures r.Completed? ==> |r.outcomes| == |files|
    ensures r.Aborted? ==> |r.outcomes| < |files| && step(files[|r.outcomes|]).Crash?
                           && r.crashedOn == files[|r.outcomes|]
    ensures forall i :: 0 <= i < |r.outcomes| ==> step(files[i]) == Done(r.outcomes[i])
  {
    if |files| == 0 then Completed([])
    else match step(files[0])
      case Crash(_) => Aborted([], files[0])
      case Done(o) =>
        match RunFiles(step, files[1..])
        case Completed(os) => Completed([o] + os)
        case Aborted(os, f) => Aborted([o] + os, f)
  }

  /** Two loop bodies that agree on every file the first one finishes give
      the same completed run. */
  lemma CompletedRunsAgree(s1: string -> Step, s2: string -> Step, files: seq<string>)
    requires forall i :: 0 <= i < |files| && s1(files[i]).Done? ==> s2(files[i]) == s1(files[i])
    ensures RunFiles(s1, files).Completed? ==> RunFiles(s2, files) == RunFiles(s1, files)
  {
    var r1, r2 := RunFiles(s1, files), RunFiles(s2, files);
    if r1.Completed? {
      assert r2.Completed?;
      assert forall i :: 0 <= i < |files| ==> Done(r2.outcomes[i]) == Done(r1.outcomes[i]);
      assert r2.outcomes == r1.outcomes;
    }
  }
}
