/** The row summary and the review flag (`summarize_issues` and the
    `needs_review` column, app.py lines 110-120). */
module Summary {
  import opened Strings
  import opened Records

  /** Python truthiness of `row.get(col)`: an absent column is falsy, a NaN
      cell is truthy, text is truthy when non-empty. */
  predicate Truthy(row: Row, col: string): (r: bool)
    ensures r ==> col in row
    ensures col in row && row[col] == Null ==> r
    ensures col in row && row[col].Text? ==> (r <==> row[col].text != "")
  {
    col in row &&
    match row[col]
    case Null => true
    case Text(s) => s != ""
    case Flag(b) => b
  }

  /** One segment of the summary, present when its source column is truthy. */
  function Segment(row: Row, col: string, heading: string): seq<string> {
    if Truthy(row, col) then [heading + Show(row[col])] else []
  }

  /** The summary's segments: missing, suspicious, taxonomy, in that order.
      There is one per truthy issue column, and none of them is empty. */
  function Segments(row: Row): (r: seq<string>)
    ensures |r| <= 3
    ensures forall k :: 0 <= k < |r| ==> |r[k]| >= 9
    ensures r == [] <==>
      !Truthy(row, REVIEW_FIELDS) && !Truthy(row, SUSPICIOUS_FIELDS) && !Truthy(row, HIERARCHY_ISSUES)
  {
    Segment(row, REVIEW_FIELDS, "Missing: ")
      + Segment(row, SUSPICIOUS_FIELDS, "Suspicious: ")
      + Segment(row, HIERARCHY_ISSUES, "Taxonomy: ")
  }

  /** `summarize_issues`: the segments joined with " | ". It is empty exactly
      when no issue column is truthy. */
  function SummarizeIssues(row: Row): (r: string)
    ensures r == "" <==>
      !Truthy(row, REVIEW_FIELDS) && !Truthy(row, SUSPICIOUS_FIELDS) && !Truthy(row, HIERARCHY_ISSUES)
  {
    JoinEmptyIff(Segments(row), " | ");
    Join(Segments(row), " | ")
  }

  /** The row with the summary and the review flag written: the flag is
      `bool(summary)`. No other column changes. */
  function WithSummary(row: Row): (r: Row)
    ensures ISSUE_SUMMARY in r && r[ISSUE_SUMMARY] == Text(SummarizeIssues(row))
    ensures NEEDS_REVIEW in r && r[NEEDS_REVIEW] == Flag(r[ISSUE_SUMMARY] != Text(""))
    ensures forall col :: col != ISSUE_SUMMARY && col != NEEDS_REVIEW ==>
      (col in r <==> col in row) && (col in row ==> r[col] == row[col])
  {
    var summary := SummarizeIssues(row);
    row[ISSUE_SUMMARY := Text(summary)][NEEDS_REVIEW := Flag(summary != "")]
  }

  /** On a row whose three issue columns hold text, as the driver leaves
      every row: each segment is present exactly when its column is non-empty,
      in the order missing, suspicious, taxonomy; the summary is non-empty
      exactly when some issue column is; and the review flag says so. */
  lemma {:induction false} SummaryOfIssueText(row: Row, missing: string, suspicious: string, taxonomy: string)
    requires REVIEW_FIELDS in row && row[REVIEW_FIELDS] == Text(missing)
    requires SUSPICIOUS_FIELDS in row && row[SUSPICIOUS_FIELDS] == Text(suspicious)
    requires HIERARCHY_ISSUES in row && row[HIERARCHY_ISSUES] == Text(taxonomy)
    ensures Segments(row) ==
      (if missing != "" then ["Missing: " + missing] else [])
      + (if suspicious != "" then ["Suspicious: " + suspicious] else [])
      + (if taxonomy != "" then ["Taxonomy: " + taxonomy] else [])
    ensures SummarizeIssues(row) != "" <==> missing != "" || suspicious != "" || taxonomy != ""
    ensures WithSummary(row)[NEEDS_REVIEW] ==
      Flag(missing != "" || suspicious != "" || taxonomy != "")
    ensures WithSummary(row)[ISSUE_SUMMARY] == Text(SummarizeIssues(row))
  {
    var segs := Segments(row);
    JoinEmptyIff(segs, " | ");
  }
}
