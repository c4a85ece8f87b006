/** The pipeline driver over the whole table (app.py lines 17-21 and 100-124):
    derive GENUS when the sheet has none, run the four checks on every row,
    summarize, and move the correction note to the last column. The table is
    updated in place, as the source does with its data frame. */
module Pipeline {
  import opened Strings
  import opened Records
  import opened Authority
  import opened Completeness
  import opened Suspicion
  import opened Hierarchy
  import opened Correction
  import opened Summary

  /** The authority's answers to the two calls the source makes for one row:
      the validator's and the corrector's. They are separate requests and need
      not agree. */
  datatype Answers = Answers(validation: Lookup, correction: Lookup)

  // ---------------------------------------------------------------------------
  // GENUS derivation

  /** `df["Species"].astype(str)` for one row: the species as the other steps
      read it, and "nan" when it is NaN or the column is absent. */
  function SpeciesText(row: Row): (r: string)
    ensures Get(row, SPECIES).Some? ==> r == Get(row, SPECIES).value
    ensures Get(row, SPECIES).None? ==> r == "nan"
  {
    if SPECIES in row then Show(row[SPECIES]) else "nan"
  }

  /** `.str.strip().str.split().str[0]`: the first word, or NaN when there is
      none. A derived genus is never empty and never holds whitespace. */
  function GenusFromSpecies(row: Row): (r: Cell)
    ensures r.Null? || (r.Text? && r.text != "" && NoSpace(r.text))
  {
    var words := Words(Strip(SpeciesText(row)));
    if words == [] then Null else Text(words[0])
  }

  /** The derived genus is the first whitespace-delimited token of the trimmed
      species: non-empty, free of whitespace, a prefix of the trimmed species
      that ends at whitespace or at the end. A blank species gives NaN. */
  lemma GenusIsFirstToken(row: Row, species: string)
    requires SPECIES in row && row[SPECIES] == Text(species)
    ensures AllSpace(species) <==> GenusFromSpecies(row) == Null
    ensures !AllSpace(species) ==>
      var t := Strip(species);
      GenusFromSpecies(row).Text? &&
      var g := GenusFromSpecies(row).text;
      g != "" && NoSpace(g) && |g| <= |t| && g == t[..|g|] && (|g| == |t| || IsSpace(t[|g|]))
  {
    var t := Strip(species);
    StripEmptyIffAllSpace(species);
    FirstWord(t);
  }

  /** A NaN species gives the genus "nan", the text pandas makes of NaN. */
  lemma GenusOfNullSpecies(row: Row)
    requires SPECIES !in row || row[SPECIES] == Null
    ensures GenusFromSpecies(row) == Text("nan")
  {
    var s := SpeciesText(row);
    assert s == "nan";
    assert !IsSpace(s[0]) && !IsSpace(s[2]);
    assert TrimStart(s) == s;
    assert TrimEnd(s) == s;
    FirstWord(s);
  }

  // ---------------------------------------------------------------------------
  // The column schema

  /** `df.at[i, col] = v` adds `col` as a new last column when it is not a
      column yet. */
  function WithColumn(cols: seq<string>, col: string): (r: seq<string>)
    ensures forall c :: c in r <==> c in cols || c == col
    ensures |cols| <= |r| && r[..|cols|] == cols
    ensures Distinct(cols) ==> Distinct(r)
  {
    if col in cols then cols else cols + [col]
  }

  /** The schema after writing the columns `news`, in that order. */
  function AddColumns(cols: seq<string>, news: seq<string>): (r: seq<string>)
    ensures forall c :: c in r <==> c in cols || c in news
    ensures Distinct(cols) ==> Distinct(r)
    decreases |news|
  {
    if news == [] then cols
    else
      var init := news[..|news| - 1];
      assert forall c :: c in news <==> c in init || c == news[|news| - 1];
      WithColumn(AddColumns(cols, init), news[|news| - 1])
  }

  lemma {:induction false} AddColumnsAppend(cols: seq<string>, xs: seq<string>, ys: seq<string>)
    ensures AddColumns(cols, xs + ys) == AddColumns(AddColumns(cols, xs), ys)
    decreases |ys|
  {
    if ys == [] {
      assert xs + ys == xs;
    } else {
      assert (xs + ys)[..|xs + ys| - 1] == xs + ys[..|ys| - 1];
      AddColumnsAppend(cols, xs, ys[..|ys| - 1]);
    }
  }

  /** The schema without `col`, the others kept in order. */
  function Without(cols: seq<string>, col: string): (r: seq<string>)
    ensures forall c :: c in r <==> c in cols && c != col
    ensures Distinct(cols) ==> Distinct(r)
  {
    if cols == [] then []
    else
      var rest := Without(cols[1..], col);
      DistinctCons(cols[0], cols[1..]);
      assert cols == [cols[0]] + cols[1..];
      if cols[0] == col then rest
      else
        DistinctCons(cols[0], rest);
        [cols[0]] + rest
  }

  /** `df.pop(col)` followed by `df[col] = ...`: the column moves to the end. */
  function MoveToEnd(cols: seq<string>, col: string): (r: seq<string>)
    ensures forall c :: c in r <==> c in cols
    ensures Distinct(cols) ==> Distinct(r)
    ensures col in cols ==> r[|r| - 1] == col && r[..|r| - 1] == Without(cols, col)
  {
    if col in cols then Without(cols, col) + [col] else cols
  }

  // ---------------------------------------------------------------------------
  // One row of the driver loop

  /** A row with the three check columns, the corrector's writes and the
      correction note recorded, given what each step computed. */
  function Annotated(row: Row, missing: string, suspicious: string, issues: string, o: Outcome): (r: Row)
    ensures CORRECTION_NOTE in r && r[CORRECTION_NOTE] == Text(Note(o))
    ensures RanksOnly(o) ==>
      REVIEW_FIELDS in r && r[REVIEW_FIELDS] == Text(missing) &&
      SUSPICIOUS_FIELDS in r && r[SUSPICIOUS_FIELDS] == Text(suspicious) &&
      HIERARCHY_ISSUES in r && r[HIERARCHY_ISSUES] == Text(issues)
  {
    var t := row[REVIEW_FIELDS := Text(missing)][SUSPICIOUS_FIELDS := Text(suspicious)]
      [HIERARCHY_ISSUES := Text(issues)];
    var written := AfterOutcome(t, o);
    assert RanksOnly(o) ==>
      REVIEW_FIELDS in written && written[REVIEW_FIELDS] == Text(missing) &&
      SUSPICIOUS_FIELDS in written && written[SUSPICIOUS_FIELDS] == Text(suspicious) &&
      HIERARCHY_ISSUES in written && written[HIERARCHY_ISSUES] == Text(issues) by {
      if RanksOnly(o) {
        AddedAreNotRanks();
        AfterOutcomeFrame(t, o);
      }
    }
    written[CORRECTION_NOTE := Text(Note(o))]
  }

  /** A row after one pass of the driver loop: every step decided from the
      snapshot `row`. */
  function ProcessRow(row: Row, answers: Answers): (r: Row)
    ensures REVIEW_FIELDS in r && r[REVIEW_FIELDS] == Text(MissingFields(row))
    ensures SUSPICIOUS_FIELDS in r && r[SUSPICIOUS_FIELDS] == Text(Join(Flagged(row, SUSPICIOUS_TERMS), ", "))
    ensures HIERARCHY_ISSUES in r && r[HIERARCHY_ISSUES] == Text(ValidateHierarchy(row, answers.validation))
    ensures CORRECTION_NOTE in r && r[CORRECTION_NOTE] == Text(Note(Decide(row, answers.correction)))
  {
    Annotated(row, MissingFields(row), Join(Flagged(row, SUSPICIOUS_TERMS), ", "),
      ValidateHierarchy(row, answers.validation), Decide(row, answers.correction))
  }

  /** The columns one pass writes, in order. */
  function RowColumns(row: Row, answers: Answers): seq<string> {
    [REVIEW_FIELDS, SUSPICIOUS_FIELDS, HIERARCHY_ISSUES]
      + Written(Decide(row, answers.correction)) + [CORRECTION_NOTE]
  }

  /** The schema after the driver loop has passed over `rs`. */
  function ColumnsAfterRows(cols: seq<string>, rs: seq<Row>, answers: seq<Answers>): (r: seq<string>)
    requires |rs| == |answers|
    ensures Distinct(cols) ==> Distinct(r)
    ensures forall c :: c in cols ==> c in r
    ensures rs != [] ==> CORRECTION_NOTE in r
    decreases |rs|
  {
    if rs == [] then cols
    else
      var n := |rs| - 1;
      AddColumns(ColumnsAfterRows(cols, rs[..n], answers[..n]), RowColumns(rs[n], answers[n]))
  }

  lemma ColumnsAfterOneMore(cols: seq<string>, rs: seq<Row>, answers: seq<Answers>, i: int)
    requires 0 <= i < |rs| == |answers|
    ensures ColumnsAfterRows(cols, rs[..i + 1], answers[..i + 1])
      == AddColumns(ColumnsAfterRows(cols, rs[..i], answers[..i]), RowColumns(rs[i], answers[i]))
  {
    assert rs[..i + 1][..i] == rs[..i];
    assert answers[..i + 1][..i] == answers[..i];
  }

  lemma RowColumnsStep(start: seq<string>, written: seq<string>)
    ensures AddColumns(start, [REVIEW_FIELDS, SUSPICIOUS_FIELDS, HIERARCHY_ISSUES] + written + [CORRECTION_NOTE])
      == WithColumn(AddColumns(WithColumn(WithColumn(WithColumn(start, REVIEW_FIELDS),
           SUSPICIOUS_FIELDS), HIERARCHY_ISSUES), written), CORRECTION_NOTE)
  {
    var checks := [REVIEW_FIELDS, SUSPICIOUS_FIELDS, HIERARCHY_ISSUES];
    assert [REVIEW_FIELDS] + [SUSPICIOUS_FIELDS] == [REVIEW_FIELDS, SUSPICIOUS_FIELDS];
    assert [REVIEW_FIELDS, SUSPICIOUS_FIELDS] + [HIERARCHY_ISSUES] == checks;
    AddColumnsAppend(start, [REVIEW_FIELDS], [SUSPICIOUS_FIELDS]);
    AddColumnsAppend(start, [REVIEW_FIELDS, SUSPICIOUS_FIELDS], [HIERARCHY_ISSUES]);
    AddColumnsAppend(start, checks, written);
    AddColumnsAppend(start, checks + written, [CORRECTION_NOTE]);
    AddOne(start, REVIEW_FIELDS);
    AddOne(AddColumns(start, [REVIEW_FIELDS]), SUSPICIOUS_FIELDS);
    AddOne(AddColumns(start, [REVIEW_FIELDS, SUSPICIOUS_FIELDS]), HIERARCHY_ISSUES);
    AddOne(AddColumns(start, checks + written), CORRECTION_NOTE);
  }

  lemma AddOne(cols: seq<string>, col: string)
    ensures AddColumns(cols, [col]) == WithColumn(cols, col)
  {
    assert [col][..0] == [];
  }

  // ---------------------------------------------------------------------------
  // The whole run

  /** A row as the driver loop finds it: with the derived genus when the sheet
      had no GENUS column. */
  function Prepared(cols: seq<string>, row: Row): (r: Row)
    ensures GENUS in cols ==> r == row
    ensures GENUS !in cols ==> GENUS in r && r[GENUS] == GenusFromSpecies(row)
    ensures forall col :: col != GENUS ==> (col in r <==> col in row) && (col in row ==> r[col] == row[col])
  {
    if GENUS in cols then row else row[GENUS := GenusFromSpecies(row)]
  }

  function PreparedRows(cols: seq<string>, rs: seq<Row>): (r: seq<Row>)
    ensures |r| == |rs|
    ensures forall k :: 0 <= k < |rs| ==> r[k] == Prepared(cols, rs[k])
  {
    seq(|rs|, k requires 0 <= k < |rs| => Prepared(cols, rs[k]))
  }

  /** A row after a whole run: it holds the correction note, the issue summary
      and the review flag, which is set exactly when the summary is not empty. */
  function Cleaned(cols: seq<string>, row: Row, answers: Answers): (r: Row)
    ensures CORRECTION_NOTE in r && ISSUE_SUMMARY in r && NEEDS_REVIEW in r
    ensures r[NEEDS_REVIEW] == Flag(r[ISSUE_SUMMARY] != Text(""))
  {
    WithSummary(ProcessRow(Prepared(cols, row), answers))
  }

  /** The schema after a whole run. It keeps every original column, adds
      GENUS and the two summary columns, holds no column twice when the sheet
      did not, and ends with the correction note whenever there was a row. */
  function CleanedColumns(cols: seq<string>, rs: seq<Row>, answers: seq<Answers>): (r: seq<string>)
    requires |rs| == |answers|
    ensures forall col :: col in cols ==> col in r
    ensures GENUS in r && ISSUE_SUMMARY in r && NEEDS_REVIEW in r
    ensures Distinct(cols) ==> Distinct(r)
    ensures rs != [] ==> r[|r| - 1] == CORRECTION_NOTE
  {
    var looped := ColumnsAfterRows(WithColumn(cols, GENUS), PreparedRows(cols, rs), answers);
    MoveToEnd(WithColumn(WithColumn(looped, ISSUE_SUMMARY), NEEDS_REVIEW), CORRECTION_NOTE)
  }

  /** The spreadsheet being cleaned: its column schema, in order, and its rows.
      Every key of a row is a column; a column a row lacks is NaN there. */
  class Table {
    var columns: seq<string>
    const rows: array<Row>

    ghost predicate Valid()
      reads this, rows
    {
      Distinct(columns) &&
      forall i, col :: 0 <= i < rows.Length && col in rows[i] ==> col in columns
    }

    constructor (columns: seq<string>, rows: seq<Row>)
      requires Distinct(columns)
      requires forall i, col :: 0 <= i < |rows| && col in rows[i] ==> col in columns
      ensures Valid() && fresh(this.rows)
      ensures this.columns == columns && this.rows[..] == rows
    {
      this.columns := columns;
      this.rows := new Row[|rows|](i requires 0 <= i < |rows| => rows[i]);
    }

    /** `df.at[i, col] = v`. */
    method Put(i: int, col: string, v: Cell)
      requires Valid() && 0 <= i < rows.Length
      modifies this, rows
      ensures Valid()
      ensures rows[i] == old(rows[i])[col := v]
      ensures forall k :: 0 <= k < rows.Length && k != i ==> rows[k] == old(rows[k])
      ensures columns == WithColumn(old(columns), col)
    {
      rows[i] := rows[i][col := v];
      columns := WithColumn(columns, col);
    }

    /** `check_and_update` for one rank of row `i`, reading the snapshot `row`:
        overwrites the rank with the trimmed authority value when that value is
        non-empty and differs ignoring case, and returns the change made. */
    method CheckAndUpdate(i: int, row: Row, rank: string, auth: Option<string>)
      returns (changed: seq<Change>)
      requires Valid() && 0 <= i < rows.Length
      modifies this, rows
      ensures Valid()
      ensures changed == ChangeIf(row, rank, auth)
      ensures rows[i] == Apply(old(rows[i]), changed)
      ensures forall k :: 0 <= k < rows.Length && k != i ==> rows[k] == old(rows[k])
      ensures columns == AddColumns(old(columns), Ranks(changed))
    {
      var original := LocalValue(row, rank);
      var clean := AuthorityValue(auth);
      if Lower(original) != Lower(clean) && clean != "" {
        changed := [Change(rank, original, clean)];
        Put(i, rank, Text(clean));
        assert Ranks(changed) == [rank];
        AddOne(old(columns), rank);
      } else {
        changed := [];
      }
    }

    /** `compare_and_correct` on row `i` with the snapshot `row`: ORDER, FAMILY
        and GENUS in turn; returns the log of the changes. */
    method CompareAndCorrect(i: int, row: Row, resp: Response) returns (log: string)
      requires Valid() && 0 <= i < rows.Length
      modifies this, rows
      ensures Valid()
      ensures log == Log(Changes(row, resp))
      ensures rows[i] == Apply(old(rows[i]), Changes(row, resp))
      ensures forall k :: 0 <= k < rows.Length && k != i ==> rows[k] == old(rows[k])
      ensures columns == AddColumns(old(columns), Ranks(Changes(row, resp)))
    {
      ghost var before := rows[i];
      var o := CheckAndUpdate(i, row, ORDER, resp.order);
      var f := CheckAndUpdate(i, row, FAMILY, resp.family);
      var g := CheckAndUpdate(i, row, GENUS, resp.genus);
      var correctionLog := o + f + g;
      ChangesAreThreeChecks(row, resp);
      ApplyAppend(before, o, f);
      ApplyAppend(before, o + f, g);
      AddColumnsAppend(old(columns), Ranks(o), Ranks(f));
      AddColumnsAppend(old(columns), Ranks(o) + Ranks(f), Ranks(g));
      RanksAppend(o, f);
      RanksAppend(o + f, g);
      log := Log(correctionLog);
    }

    /** `auto_correct_row` on row `i` with the snapshot `row` and the
        authority's answer: returns the correction note. */
    method AutoCorrectRow(i: int, row: Row, lookup: Lookup) returns (note: string)
      requires Valid() && 0 <= i < rows.Length
      modifies this, rows
      ensures Valid()
      ensures note == Note(Decide(row, lookup))
      ensures rows[i] == AfterOutcome(old(rows[i]), Decide(row, lookup))
      ensures forall k :: 0 <= k < rows.Length && k != i ==> rows[k] == old(rows[k])
      ensures columns == AddColumns(old(columns), Written(Decide(row, lookup)))
    {
      var species := Get(row, SPECIES);
      if species.None? || IsGeneric(species.value) {
        assert Decide(row, lookup) == Skipped;
        return SKIPPED_NOTE;
      }
      match lookup {
        case Failed =>
          assert Decide(row, lookup) == LookupFailed;
          Put(i, VALIDATION_STATUS, Text(LOOKUP_ERROR));
          AddOne(old(columns), VALIDATION_STATUS);
          note := LOOKUP_ERROR_NOTE;
        case Found(resp) =>
          DecideFound(row, resp);
          note := RecordReply(i, row, resp);
      }
    }

    /** `auto_correct_row` once the authority has answered for a row it does
        not skip: records the status, then corrects only on a confident reply. */
    method RecordReply(i: int, row: Row, resp: Response) returns (note: string)
      requires Valid() && 0 <= i < rows.Length
      modifies this, rows
      ensures Valid()
      ensures note == if Confident(resp) then Log(Changes(row, resp)) else NOT_CONFIDENT_NOTE
      ensures var marked := old(rows[i])[VALIDATION_STATUS := Text(StatusOf(resp))];
        rows[i] == if Confident(resp) then Apply(marked, Changes(row, resp)) else marked
      ensures forall k :: 0 <= k < rows.Length && k != i ==> rows[k] == old(rows[k])
      ensures columns ==
        AddColumns(old(columns), [VALIDATION_STATUS] + if Confident(resp) then Ranks(Changes(row, resp)) else [])
    {
      Put(i, VALIDATION_STATUS, Text(resp.matchType.GetOr("Unknown")));
      AddOne(old(columns), VALIDATION_STATUS);
      if resp.matchType == Some("EXACT") && resp.confidence.GetOr(0) >= 90 {
        note := CompareAndCorrect(i, row, resp);
        AddColumnsAppend(old(columns), [VALIDATION_STATUS], Ranks(Changes(row, resp)));
      } else {
        assert [VALIDATION_STATUS] + [] == [VALIDATION_STATUS];
        note := NOT_CONFIDENT_NOTE;
      }
    }

    /** One pass of the driver loop over row `i`: the three checks and the
        corrector, each given the snapshot taken before any of them writes. */
    method CheckRow(i: int, answers: Answers)
      requires Valid() && 0 <= i < rows.Length
      modifies this, rows
      ensures Valid()
      ensures rows[i] == ProcessRow(old(rows[i]), answers)
      ensures forall k :: 0 <= k < rows.Length && k != i ==> rows[k] == old(rows[k])
      ensures columns == AddColumns(old(columns), RowColumns(old(rows[i]), answers))
    {
      var row := rows[i];
      var missing := MissingFields(row);
      Put(i, REVIEW_FIELDS, Text(missing));
      var suspicious := SuspiciousFields(row);
      Put(i, SUSPICIOUS_FIELDS, Text(suspicious));
      Put(i, HIERARCHY_ISSUES, Text(ValidateHierarchy(row, answers.validation)));
      var note := AutoCorrectRow(i, row, answers.correction);
      Put(i, CORRECTION_NOTE, Text(note));
      RowColumnsStep(old(columns), Written(Decide(row, answers.correction)));
    }

    /** The driver loop: every row once, in order. */
    method ProcessRows(answers: seq<Answers>)
      requires Valid() && |answers| == rows.Length
      modifies this, rows
      ensures Valid()
      ensures forall k :: 0 <= k < rows.Length ==> rows[k] == ProcessRow(old(rows[k]), answers[k])
      ensures columns == ColumnsAfterRows(old(columns), old(rows[..]), answers)
    {
      ghost var before := rows[..];
      for i := 0 to rows.Length
        invariant Valid()
        invariant forall k :: 0 <= k < rows.Length ==> rows[k] == if k < i then ProcessRow(before[k], answers[k]) else before[k]
        invariant columns == ColumnsAfterRows(old(columns), before[..i], answers[..i])
      {
        CheckRow(i, answers[i]);
        ColumnsAfterOneMore(old(columns), before, answers, i);
      }
      assert before[..rows.Length] == before;
      assert answers[..rows.Length] == answers;
    }

    /** The summary and review-flag columns, written for every row. */
    method SummarizeRows()
      requires Valid()
      modifies this, rows
      ensures Valid()
      ensures forall k :: 0 <= k < rows.Length ==> rows[k] == WithSummary(old(rows[k]))
      ensures columns == WithColumn(WithColumn(old(columns), ISSUE_SUMMARY), NEEDS_REVIEW)
    {
      columns := WithColumn(WithColumn(columns, ISSUE_SUMMARY), NEEDS_REVIEW);
      for i := 0 to rows.Length
        invariant Valid()
        invariant columns == WithColumn(WithColumn(old(columns), ISSUE_SUMMARY), NEEDS_REVIEW)
        invariant forall k :: 0 <= k < i ==> rows[k] == WithSummary(old(rows[k]))
        invariant forall k :: i <= k < rows.Length ==> rows[k] == old(rows[k])
      {
        SummarizeRow(i);
      }
    }

    /** `summarize_issues` and `needs_review` for row `i`, once both columns exist. */
    method SummarizeRow(i: int)
      requires Valid() && 0 <= i < rows.Length
      requires ISSUE_SUMMARY in columns && NEEDS_REVIEW in columns
      modifies rows
      ensures Valid()
      ensures rows[i] == WithSummary(old(rows[i]))
      ensures forall k :: 0 <= k < rows.Length && k != i ==> rows[k] == old(rows[k])
    {
      rows[i] := WithSummary(rows[i]);
    }

    /** Moves the correction note column, when there is one, to the end. */
    method MoveCorrectionNoteLast()
      requires Valid()
      modifies this
      ensures Valid()
      ensures columns == MoveToEnd(old(columns), CORRECTION_NOTE)
    {
      if CORRECTION_NOTE in columns {
        columns := Without(columns, CORRECTION_NOTE) + [CORRECTION_NOTE];
      }
    }

    /** Adds the GENUS column derived from each row's species. */
    method DeriveGenus()
      requires Valid() && GENUS !in columns
      modifies this, rows
      ensures Valid()
      ensures columns == old(columns) + [GENUS]
      ensures forall k :: 0 <= k < rows.Length ==>
        rows[k] == old(rows[k])[GENUS := GenusFromSpecies(old(rows[k]))]
    {
      columns := columns + [GENUS];
      for i := 0 to rows.Length
        invariant Valid()
        invariant columns == old(columns) + [GENUS]
        invariant forall k :: 0 <= k < rows.Length ==>
          rows[k] == if k < i then old(rows[k])[GENUS := GenusFromSpecies(old(rows[k]))] else old(rows[k])
      {
        Put(i, GENUS, GenusFromSpecies(rows[i]));
      }
    }

    /** One run of the cleaner on an uploaded sheet: refused when there is no
        Species column; otherwise GENUS derivation, the driver loop, the
        summary and the column move. */
    method Clean(answers: seq<Answers>) returns (started: bool)
      requires Valid() && |answers| == rows.Length
      modifies this, rows
      ensures Valid()
      ensures started == (SPECIES in old(columns))
      ensures !started ==> columns == old(columns) && rows[..] == old(rows[..])
      ensures started ==> columns == CleanedColumns(old(columns), old(rows[..]), answers)
      ensures started ==> forall k :: 0 <= k < rows.Length ==>
        rows[k] == Cleaned(old(columns), old(rows[k]), answers[k])
    {
      if SPECIES !in columns {
        return false;
      }
      ghost var cols := columns;
      ghost var original := rows[..];
      if GENUS !in columns {
        DeriveGenus();
      }
      assert columns == WithColumn(cols, GENUS);
      assert rows[..] == PreparedRows(cols, original);
      ProcessRows(answers);
      SummarizeRows();
      MoveCorrectionNoteLast();
      started := true;
    }
  }

  // ---------------------------------------------------------------------------
  // What a run promises

  /** Besides the four columns the driver loop writes from the snapshot (see
      `ProcessRow`), a pass changes only the status and the ranks, and the ranks
      only on a confident reply. */
  lemma ProcessRowReadsSnapshot(row: Row, answers: Answers)
    ensures var p := ProcessRow(row, answers);
      forall col :: col !in Added() && col !in RANKS ==>
        (col in p <==> col in row) && (col in row ==> p[col] == row[col])
    ensures var p := ProcessRow(row, answers);
      !(answers.correction.Found? && Confident(answers.correction.response)) ==>
        forall rank :: rank in RANKS ==> Get(p, rank) == Get(row, rank)
  {
    var o := Decide(row, answers.correction);
    var m, s, h := MissingFields(row), Join(Flagged(row, SUSPICIOUS_TERMS), ", "),
      ValidateHierarchy(row, answers.validation);
    AnnotatedFrame(row, m, s, h, o);
    if !o.Corrected? {
      AnnotatedKeepsRanks(row, m, s, h, o);
    }
  }

  lemma AnnotatedFrame(row: Row, missing: string, suspicious: string, issues: string, o: Outcome)
    requires RanksOnly(o)
    ensures var p := Annotated(row, missing, suspicious, issues, o);
      forall col :: col !in Added() && col !in RANKS ==>
        (col in p <==> col in row) && (col in row ==> p[col] == row[col])
  {
    var t := row[REVIEW_FIELDS := Text(missing)][SUSPICIOUS_FIELDS := Text(suspicious)]
      [HIERARCHY_ISSUES := Text(issues)];
    AfterOutcomeFrame(t, o);
  }

  lemma AnnotatedKeepsRanks(row: Row, missing: string, suspicious: string, issues: string, o: Outcome)
    requires !o.Corrected?
    ensures var p := Annotated(row, missing, suspicious, issues, o);
      forall rank :: rank in RANKS ==> Get(p, rank) == Get(row, rank)
  {
    var t := row[REVIEW_FIELDS := Text(missing)][SUSPICIOUS_FIELDS := Text(suspicious)]
      [HIERARCHY_ISSUES := Text(issues)];
    AddedAreNotRanks();
    AfterOutcomeFrame(t, o);
  }

  lemma AddedAreNotRanks()
    ensures forall col :: col in RANKS ==>
      col != REVIEW_FIELDS && col != SUSPICIOUS_FIELDS && col != HIERARCHY_ISSUES &&
      col != VALIDATION_STATUS && col != CORRECTION_NOTE
  {
  }

  /** The columns a run adds to the sheet besides GENUS. */
  function Added(): seq<string> {
    [REVIEW_FIELDS, SUSPICIOUS_FIELDS, HIERARCHY_ISSUES, VALIDATION_STATUS, CORRECTION_NOTE,
     ISSUE_SUMMARY, NEEDS_REVIEW]
  }

  /** After a run a record needs review exactly when a required column is
      blank, a lexicon column holds a suspicious term, or the hierarchy check
      reported something, all judged on the record the loop saw. */
  lemma {:induction false} NeedsReviewIffIssue(cols: seq<string>, row: Row, answers: Answers)
    ensures var p := Prepared(cols, row);
      var c := Cleaned(cols, row, answers);
      NEEDS_REVIEW in c &&
      c[NEEDS_REVIEW] == Flag(
        (exists col :: col in IMPORTANT_COLUMNS && IsBlank(p, col)) ||
        (exists k :: 0 <= k < |SUSPICIOUS_TERMS| && Suspicious(p, SUSPICIOUS_TERMS[k])) ||
        ValidateHierarchy(p, answers.validation) != "")
  {
    var p := Prepared(cols, row);
    ProcessRowReadsSnapshot(p, answers);
    FlaggedTextEmptyIff(p);
    SummaryOfIssueText(ProcessRow(p, answers), MissingFields(p),
      Join(Flagged(p, SUSPICIOUS_TERMS), ", "), ValidateHierarchy(p, answers.validation));
  }

  /** A second pass converges: after a confident correction that is not a proxy
      match, asking the validator with the same reply finds no mismatch, and
      the corrector would change nothing more. The reply's rank values must not
      be blank: the corrector ignores a blank value but the validator still
      compares against it. */
  lemma {:induction false} SecondPassConverges(row: Row, answers: Answers)
    requires answers.correction.Found?
    requires Confident(answers.correction.response) && !answers.correction.response.proxy
    requires Resolvable(row)
    requires forall rank :: rank in RANKS && RankOf(answers.correction.response, rank).Some? ==>
      Strip(RankOf(answers.correction.response, rank).value) != ""
    ensures ValidateHierarchy(ProcessRow(row, answers), answers.correction) == ""
    ensures Changes(ProcessRow(row, answers), answers.correction.response) == []
  {
    var resp := answers.correction.response;
    var p := ProcessRow(row, answers);
    var fixed := Apply(row, Changes(row, resp));
    assert !SkipsLookup(row);
    PassWritesCorrectedRanks(row, answers);
    SameRanksSameVerdicts(p, fixed, resp);
    CorrectionIsIdempotent(row, resp);
    CorrectedRowAgrees(row, resp);
    PassKeepsSpecies(row, answers);
    ValidationLadder(p, answers.correction);
    assert Mismatches(p, resp) == NonEmpty(Verdicts(p, resp));
    assert Mismatches(fixed, resp) == NonEmpty(Verdicts(fixed, resp));
  }

  /** The pass leaves the species column alone. */
  lemma PassKeepsSpecies(row: Row, answers: Answers)
    ensures Get(ProcessRow(row, answers), SPECIES) == Get(row, SPECIES)
    ensures Resolvable(row) ==> Resolvable(ProcessRow(row, answers))
  {
    var o := Decide(row, answers.correction);
    assert SPECIES !in Added() && SPECIES !in RANKS;
    AnnotatedFrame(row, MissingFields(row), Join(Flagged(row, SUSPICIOUS_TERMS), ", "),
      ValidateHierarchy(row, answers.validation), o);
  }

  /** The corrected snapshot agrees with the reply on every rank for which the
      reply gives a non-blank value or none. */
  lemma CorrectedRowAgrees(row: Row, resp: Response)
    requires forall rank :: rank in RANKS && RankOf(resp, rank).Some? ==>
      Strip(RankOf(resp, rank).value) != ""
    ensures Mismatches(Apply(row, Changes(row, resp)), resp) == []
  {
    var fixed := Apply(row, Changes(row, resp));
    assert RankOf(resp, ORDER) == resp.order && RankOf(resp, FAMILY) == resp.family
      && RankOf(resp, GENUS) == resp.genus;
    AgreesAfterCorrection(row, row, resp, ORDER);
    AgreesAfterCorrection(row, row, resp, FAMILY);
    AgreesAfterCorrection(row, row, resp, GENUS);
    NoMismatchWhenEachAgrees(fixed, resp);
  }

  /** After a confident reply, the pass leaves each rank as correcting the
      snapshot would, and leaves the species alone. */
  lemma PassWritesCorrectedRanks(row: Row, answers: Answers)
    requires answers.correction.Found? && Confident(answers.correction.response)
    requires !SkipsLookup(row)
    ensures forall rank :: rank in RANKS ==>
      Get(ProcessRow(row, answers), rank) == Get(Apply(row, Changes(row, answers.correction.response)), rank)
  {
    var o := Decide(row, answers.correction);
    var m, s, h := MissingFields(row), Join(Flagged(row, SUSPICIOUS_TERMS), ", "),
      ValidateHierarchy(row, answers.validation);
    assert ProcessRow(row, answers) == Annotated(row, m, s, h, o);
    assert o.changes == Changes(row, answers.correction.response);
    AnnotatedRanks(row, m, s, h, o);
  }

  lemma AnnotatedRanks(row: Row, missing: string, suspicious: string, issues: string, o: Outcome)
    requires o.Corrected?
    ensures forall rank :: rank in RANKS ==>
      Get(Annotated(row, missing, suspicious, issues, o), rank) == Get(Apply(row, o.changes), rank)
  {
    var t := row[REVIEW_FIELDS := Text(missing)][SUSPICIOUS_FIELDS := Text(suspicious)]
      [HIERARCHY_ISSUES := Text(issues)][VALIDATION_STATUS := Text(o.status)];
    forall rank | rank in RANKS
      ensures Get(Annotated(row, missing, suspicious, issues, o), rank) == Get(Apply(row, o.changes), rank)
    {
      ApplySameAt(t, row, o.changes, rank);
    }
  }

  /** A derived GENUS keeps the species' first word unless the corrector
      overwrote it with the authority's genus. */
  lemma DerivedGenusKept(cols: seq<string>, row: Row, answers: Answers)
    requires GENUS !in cols
    ensures var p := Prepared(cols, row);
      var c := Cleaned(cols, row, answers);
      var o := Decide(p, answers.correction);
      GENUS in c &&
      c[GENUS] == if o.Corrected? && Differs(p, GENUS, answers.correction.response.genus)
        then Text(AuthorityValue(answers.correction.response.genus))
        else GenusFromSpecies(row)
  {
    var p := Prepared(cols, row);
    GenusAfterPass(p, answers);
  }

  lemma GenusAfterPass(p: Row, answers: Answers)
    requires GENUS in p
    ensures var c := ProcessRow(p, answers);
      var o := Decide(p, answers.correction);
      GENUS in c &&
      c[GENUS] == if o.Corrected? && Differs(p, GENUS, answers.correction.response.genus)
        then Text(AuthorityValue(answers.correction.response.genus))
        else p[GENUS]
  {
    var t := p[REVIEW_FIELDS := Text(MissingFields(p))]
      [SUSPICIOUS_FIELDS := Text(Join(Flagged(p, SUSPICIOUS_TERMS), ", "))]
      [HIERARCHY_ISSUES := Text(ValidateHierarchy(p, answers.validation))];
    assert GENUS in t && t[GENUS] == p[GENUS];
    GenusAfterOutcome(t, p, answers.correction);
  }

  lemma GenusAfterOutcome(target: Row, row: Row, lookup: Lookup)
    requires GENUS in target
    ensures var o := Decide(row, lookup);
      var r := AfterOutcome(target, o);
      GENUS in r &&
      r[GENUS] == if o.Corrected? && Differs(row, GENUS, lookup.response.genus)
        then Text(AuthorityValue(lookup.response.genus))
        else target[GENUS]
  {
    var o := Decide(row, lookup);
    if o.Corrected? {
      var resp := lookup.response;
      var cs := o.changes;
      assert RankOf(resp, GENUS) == resp.genus;
      ChangesHaveDistinctRanks(row, resp);
      if Differs(row, GENUS, resp.genus) {
        assert GENUS in Ranks(cs);
        var k :| 0 <= k < |cs| && Ranks(cs)[k] == GENUS;
        assert cs[k] == ChangeFor(row, resp, GENUS);
      } else {
        assert GENUS !in Ranks(cs);
      }
    }
  }
}
