/** Row-count reconciliation after a bulk load: the rows the CSV file holds,
    the rows the catalog reports for the table, their difference, and the
    percentage printed beside it. */
module RowCounts {

  /** `count_rows_in_csv`: the records the CSV reader yields, minus the
      header; an empty file gives -1. */
  function ExpectedRows(records: seq<seq<string>>): int
  {
    |records| - 1
  }

  /** `get_table_row_count`: the catalog's row count for `table`, or -1 when
      the catalog has no row for it. */
  function TableRowCount(tableRows: map<string, int>, table: string): int
  {
    if table in tableRows then tableRows[table] else -1
  }

  /** What the scripts print for one loaded file: rows in the file, rows in
      the table, their difference, and a percentage. */
  datatype Report = Report(expected: int, actual: int, difference: int, percent: real)

  /** `100 / whole * part`, the percentage both scripts print: the ingestion
      script takes the loaded rows of the expected ones, the setup script the
      missing rows of the loaded ones. Defined only for a non-zero `whole`;
      Python raises ZeroDivisionError otherwise. */
  function Percent(part: int, whole: int): (p: real)
    requires whole != 0
    ensures p * (whole as real) == 100.0 * (part as real)
  {
    100.0 / (whole as real) * (part as real)
  }

  /** The reconciliation of one load: the difference is the expected count
      minus the catalog count, and the printed percentage is the loaded share. */
  function Reconcile(expected: int, actual: int): (r: Report)
    requires expected != 0
    ensures r.expected == expected && r.actual == actual
    ensures r.difference + r.actual == r.expected
    ensures r.percent * (expected as real) == 100.0 * (actual as real)
    ensures actual == expected ==> r.difference == 0 && r.percent == 100.0
  {
    Report(expected, actual, expected - actual, Percent(actual, expected))
  }
}
