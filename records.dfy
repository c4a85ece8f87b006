/** A specimen record as the cleaner sees it: one row of a spreadsheet read with
    every column as text, where a cell may be missing (pandas' NaN). */
module Records {

  datatype Option<T> = None | Some(value: T) {
    /** `d.get(key, default)` once the lookup has been done. */
    function GetOr(default: T): T {
      if Some? then value else default
    }
  }

  /** A cell: pandas' missing value, a text value, or the boolean that the
      pipeline writes into the review flag column. */
  datatype Cell = Null | Text(text: string) | Flag(flag: bool)

  /** A row maps column labels to cells. A label that is not a key is a column
      the row does not have (`row.get(col)` gives `None`). */
  type Row = map<string, Cell>

  // Column labels of the specimen sheet.
  const SPECIES := "Species"
  const ORDER := "ORDER"
  const FAMILY := "FAMILY"
  const GENUS := "GENUS"

  // Columns the pipeline adds.
  const REVIEW_FIELDS := "review_fields"
  const SUSPICIOUS_FIELDS := "suspicious_fields"
  const HIERARCHY_ISSUES := "taxonomy_hierarchy_issues"
  const VALIDATION_STATUS := "species_validation_status"
  const CORRECTION_NOTE := "correction_note"
  const ISSUE_SUMMARY := "row_issue_summary"
  const NEEDS_REVIEW := "needs_review"

  /** The three ranks that are compared with, and corrected from, the authority. */
  const RANKS := [ORDER, FAMILY, GENUS]

  /** Python's `str()` of a cell value: NaN prints as "nan", booleans as
      "True" and "False". */
  function Show(c: Cell): string {
    match c
    case Null => "nan"
    case Text(s) => s
    case Flag(b) => if b then "True" else "False"
  }

  /** `row.get(col)` with pandas' null test applied: `None` when the column is
      absent or the cell is NaN, otherwise the cell's `str()`. */
  function Get(row: Row, col: string): Option<string> {
    if col in row && !row[col].Null? then Some(Show(row[col])) else None
  }
}
