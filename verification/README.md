# NYPL menu dataset: CSV-to-MySQL ingestion, modelled in Dafny

This project models the string handling and control flow of the two scripts that load the
New York Public Library menu dataset (Menu, Dish, MenuPage and MenuItem CSV files) into MySQL:

- the **field sanitiser** of the ingestion script: each CSV field is escaped (backslash and
  backtick get a backslash in front), passed through bare if it reads as a number, otherwise
  wrapped in backticks, and the quoted-empty token becomes a true empty field (`Sanitizer`);
- the **column mapping** of its `LOAD DATA` statement: field `i` goes into the user variable
  `@col{i}` and the `i`-th catalog column is set from `NULLIF(@col{i}, '')` (`LoadQuery`);
- the **schema-script splitter** `run_sql_file`, shared by both scripts: split on `;`, strip,
  drop empty pieces, execute the rest in order (`SqlScript`);
- the **per-file load loops** of both scripts, with their row-count reconciliation
  (`RowCounts`, `LoadRun`, `Ingest` for the ingestion script, `Setup` for the setup script).

Python's `str` operations that the scripts use (`replace`, `split`, `join`, `strip`, `str(n)`)
are modelled in `Strings`. The number test `is_number` (Python's `float()`) is a parameter
`isNumber: string -> bool`. The only thing assumed about it is `Sanitizer.NumbersArePlain`: a
string it accepts contains neither `\` nor a backtick. The database is a parameter too: a
`LoadRun.Catalog` gives each table's column list, the error its load raises (if any), and its
row count after the load.

## Model

| member | source | states |
|---|---|---|
| Strings.Split | scripts/setupDatabase.py:29 | `str.split(';')` gives one more piece than there are separators; no piece contains the separator; joining the pieces with it (`Strings.Join`, which models `str.join`) gives back the script |
| Strings.SplitOfJoin | scripts/setupDatabase.py:29 | the converse: splitting a join of separator-free pieces gives back exactly those pieces |
| Strings.Strip | scripts/setupDatabase.py:30 | `str.strip()` returns a slice of its input; only white space (Python's `isspace` set) lies before and after it; it starts and ends with a non-space; it adds no character |
| Strings.DecimalRoundTrip | operation_history/scripts/build_database/load_dataset.py:116 | the decimal text of a position (`str(i+1)`, modelled by `Strings.Decimal`, a non-empty run of digits) reads back as that position |
| Sanitizer.EscapeIsCharwise | operation_history/scripts/build_database/load_dataset.py:78-80 | `Sanitizer.Escape`, the two `replace` passes (each a `Strings.ReplaceChar`, backslashes first), equals the one-pass character-wise escape: a backslash is doubled, a backtick gets one backslash in front, every other character is unchanged |
| Sanitizer.ReversedPassesDoubleEscape | operation_history/scripts/build_database/load_dataset.py:79 | why the pass order matters: with backticks replaced first, a backtick would come out as `\\` followed by a backtick, whereas the script emits one backslash before it |
| Sanitizer.EscapeLength | operation_history/scripts/build_database/load_dataset.py:79 | the escaped length is the input length plus the number of backslashes plus the number of backticks |
| Sanitizer.EscapeIdentityIff | operation_history/scripts/build_database/load_dataset.py:79 | escaping leaves a string unchanged if and only if it contains no backslash and no backtick |
| Sanitizer.EscapeKeepsSpecials | operation_history/scripts/build_database/load_dataset.py:79 | a string with a backslash or a backtick still has one after escaping |
| Sanitizer.EscapeEmptyIff | operation_history/scripts/build_database/load_dataset.py:79 | only the empty field escapes to the empty string |
| Sanitizer.UnescapeEscape | operation_history/scripts/build_database/load_dataset.py:79 | a left-to-right unescape recovers the original field exactly |
| Sanitizer.EscapeUnescape | operation_history/scripts/build_database/load_dataset.py:79 | whatever the unescape accepts is the escape of what it returns, so escaping is a bijection onto the accepted strings |
| Sanitizer.EscapeNotQuotedEmpty | operation_history/scripts/build_database/load_dataset.py:92-93 | an escaped field is never the two-backtick token |
| Sanitizer.SanitizeField | operation_history/scripts/build_database/load_dataset.py:91-93 | the empty field stays empty (never two backticks); a non-empty field whose escape is numeric is emitted bare; any other field is emitted as backtick, escaped field, backtick; the result is never two backticks |
| Sanitizer.NumericFieldUnchanged | operation_history/scripts/build_database/load_dataset.py:71-76 | given that numbers contain no backslash or backtick, a numeric field is emitted exactly as it came in, and sanitising that output again changes nothing |
| Sanitizer.FieldRoundTrip | operation_history/scripts/build_database/load_dataset.py:90-94 | every field (number, text or empty) is recovered from its sanitised form by stripping the quotes and unescaping |
| Sanitizer.SanitizeRow | operation_history/scripts/build_database/load_dataset.py:89-94 | a row keeps its field count and order, and field `j` of the output is the sanitised field `j` |
| Sanitizer.SanitizeRecords | operation_history/scripts/build_database/load_dataset.py:88-95 | every input row, header included, yields exactly one output row, in order |
| Sanitizer.PreprocessRow | operation_history/scripts/build_database/load_dataset.py:90-94 | the field loop writes one sanitised field per input field, in order |
| Sanitizer.PreprocessCsv | operation_history/scripts/build_database/load_dataset.py:82-95 | the nested row and field loops write one row per input row with one sanitised field per input field, which is the functional definition |
| Sanitizer.RowRoundTrip | operation_history/scripts/build_database/load_dataset.py:88-95 | a whole sanitised row reads back as the original row |
| LoadQuery.VarNameRoundTrip | operation_history/scripts/build_database/load_dataset.py:116 | `@col{i}` reads back as position `i`, also after the blank that `, ` leaves |
| LoadQuery.VarNameInjective | operation_history/scripts/build_database/load_dataset.py:116 | distinct positions get distinct user variables |
| LoadQuery.UserVarNames | operation_history/scripts/build_database/load_dataset.py:116 | for N columns there are exactly N user variables and the `i`-th is `@col{i+1}` |
| LoadQuery.UserVarsRoundTrip | operation_history/scripts/build_database/load_dataset.py:116 | the `user_vars` text (`LoadQuery.UserVars`: the names joined by `, `), split on its commas, binds exactly the positions 1..N in order |
| LoadQuery.SetClauses | operation_history/scripts/build_database/load_dataset.py:117 | there is one SET clause per column, and clause `i` assigns column `i` from `NULLIF(@col{i+1}, '')`; `LoadQuery.SetStatements` joins them with `,\n  ` |
| LoadQuery.SetClauseRoundTrip | operation_history/scripts/build_database/load_dataset.py:117 | whatever the column name, its clause reads back, from the right, as that column and that position |
| LoadQuery.ColumnMappingAligned | operation_history/scripts/build_database/load_dataset.py:116-117 | the positional invariant: the `i`-th SET clause assigns the `i`-th catalog column from the variable bound to the `i`-th CSV field |
| SqlScript.KeepStatements | scripts/setupDatabase.py:29-31 | keeping the stripped non-empty pieces yields no more statements than pieces, each non-empty, without `;` and without surrounding white space |
| SqlScript.Statements | scripts/setupDatabase.py:29-31 | a script yields at most one statement more than it has `;`, and no statement is empty, contains `;` or has leading or trailing white space |
| SqlScript.NonEmptyPositions | scripts/setupDatabase.py:31 | the `if cmd:` filter (`SqlScript.NonEmpty`) keeps exactly the non-empty strings in order: each kept one comes from an increasing position, and no non-empty string is skipped |
| SqlScript.KeepStatementsSelects | scripts/setupDatabase.py:29-31 | the same selection for any list of `;`-free pieces: the kept statements are the non-blank stripped pieces, all of them, in order, through the position map `SqlScript.NonEmptyPositions` |
| SqlScript.StatementsArePieces | scripts/setupDatabase.py:29-31 | the statements of any script are exactly its `;`-pieces that are not blank once stripped, stripped (`SqlScript.StripEach`), in script order: statement `j` is stripped piece `idx[j]`, the positions strictly increase, and every non-blank stripped piece has its position in `idx` |
| SqlScript.SingleStatement | scripts/setupDatabase.py:29-31 | a script without `;` yields no statement if it is blank and otherwise exactly the stripped script |
| SqlScript.StatementsOfJoin | scripts/setupDatabase.py:29-31 | clean statements joined with `;` split back into exactly those statements, in order |
| SqlScript.RunPieces | scripts/setupDatabase.py:29-35 | the loop over the `;`-pieces logs exactly the kept statements, in order, each with its own server reply, and an error does not stop it |
| SqlScript.RunSqlFile | scripts/setupDatabase.py:24-36 | the loop executes exactly the statements of the script, in order, each once, recording each server error without stopping |
| RowCounts.Percent | operation_history/scripts/build_database/load_dataset.py:141 | `100 / whole * part` is defined only for a non-zero whole; times the whole it gives 100 times the part (the same formula prints `100 / actual * difference` in scripts/setupDatabase.py:89) |
| RowCounts.Reconcile | operation_history/scripts/build_database/load_dataset.py:135-141 | skipped rows plus rows in the table equal rows in the file (`RowCounts.ExpectedRows`: records minus the header); the percentage times the expected count is 100 times the loaded count; a complete load reports 0 skipped and 100 percent |
| LoadRun.Stem | operation_history/scripts/build_database/load_dataset.py:107 | `Path.stem`: when the last dot lies strictly inside the name, the stem is the name cut just before it; when the name is kept whole, every inner dot has another dot after it (so the last dot, if any, starts or ends the name) |
| LoadRun.StemOfSuffixed | operation_history/scripts/build_database/load_dataset.py:107 | a non-empty base name plus a dot and a dot-free extension has that base name as its stem |
| LoadRun.TableNames | operation_history/scripts/build_database/load_dataset.py:11 | the four files load into the tables Menu, Dish, MenuPage and MenuItem |
| LoadRun.RunFiles | operation_history/scripts/build_database/load_dataset.py:98-149 | files are visited in list order; each outcome is that file's own; the run completes if and only if no file raises, and otherwise stops at the first file that raises |
| Ingest.ProcessFile | operation_history/scripts/build_database/load_dataset.py:99-144 | a missing file is skipped; the file is skipped as having no columns exactly when the catalog column list (`Ingest.TableColumns`) is empty; a load failure is recorded exactly when the table has columns and its load raises; a present file with columns, no load error and at least one data row is always Loaded into the table named by its stem; a loaded file reports expected = records − 1, actual = the catalog count (−1 when the catalog has no row, so then difference = expected + 1), difference = expected − actual, and a percentage that times expected gives 100 times actual; the body raises exactly when a loaded file holds only its header |
| Ingest.LoadDataIntoTables | operation_history/scripts/build_database/load_dataset.py:97-149 | the outcomes follow the order Menu, Dish, MenuPage, MenuItem, each being that file's own; with the division as the only escaping exception modelled, the run stops early if and only if some file divides by zero, and then at that file |
| Ingest.ProcessFileGuarded | operation_history/scripts/build_database/load_dataset.py:141 | with the division guarded, every file ends with an outcome, equal to the one as written wherever that one does not raise |
| Ingest.LoadDataIntoTablesGuarded | operation_history/scripts/build_database/load_dataset.py:97-149 | with the guard, every file gets exactly one outcome, in order, and the result equals the loop as written whenever that loop completes |
| Ingest.HeaderOnlyMenuStopsRun | operation_history/scripts/build_database/load_dataset.py:141-144 | a header-only Menu.csv stops the run before Dish.csv is loaded, while the guarded loop loads Dish.csv |
| Ingest.OneRejectedRowOfTwo | operation_history/scripts/build_database/load_dataset.py:109-141 | a header plus two rows, one of them rejected, reports 2 expected, 1 loaded, 1 skipped and 50 percent |
| Setup.ProcessFile | scripts/setupDatabase.py:62-91 | a missing file is skipped; a load failure is recorded exactly when the load raises; a present file whose load succeeded and whose catalog count is not 0 is always Loaded into the table named by its stem; a table with no catalog row never raises (actual = −1, difference = expected + 1); a loaded file reports expected = records − 1, actual = the (non-zero) catalog count, difference = expected − actual, and a percentage that times actual gives 100 times difference; the body raises exactly when the catalog count is 0 |
| Setup.LoadDataIntoTables | scripts/setupDatabase.py:59-91 | the outcomes follow the order Menu, Dish, MenuPage, MenuItem, each being that file's own; the run stops early if and only if some table reports zero rows after a successful load, and then at that file |
| Setup.ProcessFileGuarded | scripts/setupDatabase.py:89 | with the division guarded, every file ends with an outcome, equal to the one as written wherever that one does not raise |
| Setup.LoadDataIntoTablesGuarded | scripts/setupDatabase.py:59-91 | with the guard, every file gets exactly one outcome, in order, and the result equals the loop as written whenever that loop completes |
| Setup.EmptyMenuTableStopsRun | scripts/setupDatabase.py:83-91 | a Menu table holding no rows after its load stops the run before Dish.csv is loaded, while the guarded loop loads Dish.csv |
| Setup.MissingFilesAreSkipped | scripts/setupDatabase.py:61-65 | missing Dish, MenuPage and MenuItem files are each recorded as missing and the run still completes |

## Behaviour worth knowing

- The report percentage. One might expect a zero count to be reported as 0 %. Neither script
  guards its division (see Findings). The ingestion script prints `100 / expected * actual`, which
  is the loaded share, on its "Rows skipped" line. The setup script divides the missing rows by
  the *loaded* count.
- Deleting the temporary file. One might expect the sanitised copy to be deleted on every path.
  When a table has no columns, the ingestion script skips the rest of the loop body (`continue`),
  so the `unlink` is never reached and the copy stays behind. The copy also stays behind when the
  report line raises.
- Column resolution. An unknown table does not raise: the catalog query returns an empty column
  list, and the file is skipped (`Ingest.ProcessFile`, `NoColumns`).
- The setup script loads the raw CSV. It has no column mapping and no `IGNORE 1 LINES`, so the
  server receives the header line too. This model does not cover the server, but the expected
  count still subtracts one for the header.

## Findings

| source | as written | input that shows it | evidently intended | confidence | as-written member | corrected member |
|---|---|---|---|---|---|---|
| operation_history/scripts/build_database/load_dataset.py:141 | the report divides by `expected_rows` unguarded; the ZeroDivisionError is not a `mysql.connector.Error`, so the per-file `try` does not catch it and the whole run stops | Menu.csv holding only its header row, table Menu with columns, load succeeds: the run stops at Menu.csv and Dish.csv, MenuPage.csv and MenuItem.csv are never loaded | one file's report never stops the run (a zero expected count reports 0 %) | medium, not executed | Ingest.LoadDataIntoTables, Ingest.HeaderOnlyMenuStopsRun | Ingest.LoadDataIntoTablesGuarded |
| scripts/setupDatabase.py:89 | the report divides by `actual_rows` unguarded, with the same uncaught ZeroDivisionError | Menu.csv is present and its load succeeds, but the catalog reports 0 rows for Menu: the run stops at Menu.csv and Dish.csv is never loaded | one file's report never stops the run (an empty table reports 0 %) | medium, not executed | Setup.LoadDataIntoTables, Setup.EmptyMenuTableStopsRun | Setup.LoadDataIntoTablesGuarded |

## Left out

- The MySQL connection, configuration loading, the `secure_file_priv` check and `main`. These
  are external services or I/O. The catalog's column lists, load errors and row counts come in
  as the `LoadRun.Catalog` parameter.
- How the server parses `LOAD DATA`. The statement declares `ENCLOSED BY '"' ESCAPED BY '"'`
  while the sanitiser quotes with backticks, so nothing is claimed about a round trip through
  the server.
- The text of the `LOAD DATA` statement around the variable list and the SET clauses (file path,
  table name, field and line options). It is a fixed template plus file-system paths.
- The CSV reader and writer (`csv23`/`csv`, `QUOTE_NONE`, `escapechar`). These are library code.
  A record is an already-split `seq<string>`.
- Ingest.ProcessFile: the expected count is the sanitised records written minus one
  (`Ingest.SanitisedRows`), not what `count_rows_in_csv` reads back. The writer escapes a line
  break inside a field as a backslash followed by the line break. The reader that counts has no
  escape character, so it starts a new record there. For each field holding a line break, the
  script's expected count is therefore one higher than the model's, and so is its "Rows skipped"
  figure. Modelling this needs the CSV library's quoting rules, which are left out above.
- Python's `float()` grammar. It is the `isNumber` parameter, constrained only by
  `NumbersArePlain`.
- Floating-point arithmetic and the `:.2f` formatting of the percentages. These are modelled as
  exact reals.
- The printed progress and error lines. The `FileOutcome` values stand for them.
- File-system work: `copy_csvs`, the temporary file's creation and `unlink`, `cleanup_temp_files`
  and path resolution.
- The effects of executing schema statements on later statements, and the final `commit`. The
  server's reply to each statement is the `execute` parameter.
- A NULL `table_rows` in the catalog. The catalog count is an integer or absent. A NULL would
  make the subtraction raise a `TypeError` that escapes the loop in both scripts.
- Ingest.LoadDataIntoTables: the division at line 141 is the only exception modelled as escaping
  the per-file `try`. Two more escape it in the script and stop the whole run. First, a database
  error from the column query at line 111, which runs before the `try` at line 129; the model's
  catalog answers that query without error. Second, the `csv.Error` that `writerow` at line 95
  raises for a record made of one empty field. With `QUOTE_NONE` (line 86) such a record cannot
  be written, and an input line `""` sanitises to exactly that record; the model's writer
  accepts every record. Errors reading or decoding a CSV file escape in both scripts as well.
- LoadQuery.UserVarsRoundTrip: stated for at least one column only. The script never builds the
  variable list for an empty column list, because it skips such a table first.
- LoadQuery.SetStatements: the joined SET text is not read back, because every clause itself
  contains `, `. The positional property is stated clause by clause (`SetClauses`,
  `ColumnMappingAligned`).
