/**
 * The linter's report records as the modelled code reads them: a violation
 * with its location (1-based row and column, an optional end position and
 * the optional source text), and the report summary.  Their package,
 * pkg/report, is not part of this model beyond these fields.
 */
module ReportTypes {
  import opened Wrappers

  datatype Position = Position(row: int, column: int)

  datatype Location = Location(file: string, row: int, column: int, end: Option<Position>, text: Option<string>)

  datatype RelatedResource = RelatedResource(description: string, reference: string)

  datatype Violation = Violation(
    title: string,
    description: string,
    category: string,
    level: string,
    relatedResources: seq<RelatedResource>,
    location: Location)

  datatype Notice = Notice(title: string, description: string, category: string, severity: string)

  datatype Summary = Summary(filesScanned: int, filesFailed: int, rulesSkipped: int, numViolations: int)

  /** A report; `violations` is None for Go's nil slice. */
  datatype Report = Report(violations: Option<seq<Violation>>, notices: seq<Notice>, summary: Summary)
}
