/** The exceptions the report pipeline's core raises, one per error path of
    the Python code. Every one of them aborts the whole run. */
module Errors {

  datatype Error =
      /** `lines[0]` on a region report with no lines (IndexError). */
    | EmptyReport
      /** A totals line that does not unpack into label and value (ValueError). */
    | MalformedTotals(line: string)
      /** A manifest file name that no extracted path contains (ValueError). */
    | ReportNotFound(name: string)
      /** No extracted path names the summary file (ValueError). */
    | SummaryNotFound
      /** A manifest record without the column the assembler reads (KeyError). */
    | MissingColumn(column: string)
}
