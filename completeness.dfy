/** The completeness check: which required columns of a record are empty
    (`identify_missing_fields`, app.py lines 22-29). */
module Completeness {
  import opened Strings
  import opened Records

  /** The required columns, in the order the report lists them. */
  const IMPORTANT_COLUMNS: seq<string> := [
    "Original Catalog Number", ORDER, FAMILY, "SUBFAMILY",
    SPECIES, "Common Name", "AGE", "CONDITION",
    "COMPLETENESS", "RANK", "PHOTO?"
  ]

  /** A column is blank when it is absent or NaN, or its text is whitespace only. */
  predicate IsBlank(row: Row, col: string): (r: bool)
    ensures r <==> Get(row, col).None? || AllSpace(Get(row, col).value)
  {
    var v := Get(row, col);
    assert v.Some? ==> (Strip(v.value) == "" <==> AllSpace(v.value)) by {
      if v.Some? {
        StripEmptyIffAllSpace(v.value);
      }
    }
    v.None? || Strip(v.value) == ""
  }

  /** The entries of `cols` that are blank in `row`, kept in the order of `cols`. */
  function BlankAmong(row: Row, cols: seq<string>): (r: seq<string>)
    ensures forall c :: c in r <==> c in cols && IsBlank(row, c)
    ensures Subsequence(r, cols)
  {
    if cols == [] then []
    else if IsBlank(row, cols[0]) then [cols[0]] + BlankAmong(row, cols[1..])
    else BlankAmong(row, cols[1..])
  }

  /** The required columns that are blank, in the required-column order. */
  function MissingColumns(row: Row): (r: seq<string>)
    ensures forall c :: c in r <==> c in IMPORTANT_COLUMNS && IsBlank(row, c)
    ensures Subsequence(r, IMPORTANT_COLUMNS)
  {
    BlankAmong(row, IMPORTANT_COLUMNS)
  }

  /** The `review_fields` text: the blank required columns joined with ", ",
      and "" exactly when every required column has a value. */
  function MissingFields(row: Row): (r: string)
    ensures r == "" <==> forall c :: c in IMPORTANT_COLUMNS ==> !IsBlank(row, c)
  {
    var missing := MissingColumns(row);
    NoEmptyColumnNames(missing);
    JoinEmptyIff(missing, ", ");
    assert missing != [] ==> missing[0] in IMPORTANT_COLUMNS && IsBlank(row, missing[0]);
    Join(missing, ", ")
  }

  lemma NoEmptyColumnNames(cols: seq<string>)
    requires forall c :: c in cols ==> c in IMPORTANT_COLUMNS
    ensures forall k :: 0 <= k < |cols| ==> cols[k] != ""
  {
    forall k | 0 <= k < |cols| ensures cols[k] != "" {
      var c := cols[k];
      assert c in IMPORTANT_COLUMNS;
      var j :| 0 <= j < |IMPORTANT_COLUMNS| && IMPORTANT_COLUMNS[j] == c;
    }
  }
}
