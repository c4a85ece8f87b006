# Taxonomy cleaner, modelled in Dafny

The taxonomy cleaner takes a spreadsheet of museum specimen records and checks
each record in four ways:

- which required columns are blank;
- which descriptive columns hold a low-confidence term ("unknown", "sp.", "fragment", ...);
- whether the record's ORDER, FAMILY and GENUS agree with the species-matching
  authority (GBIF);
- and, when the authority answers with an exact and confident match, it
  corrects the three ranks in place and logs what it changed.

It then writes a one-line issue summary and a review flag for every record,
and moves the correction note to the last column.

The model is split into one module per part of `app.py`:

| file | module | part of the cleaner |
|---|---|---|
| `strings.dfy` | `Strings` | `str.strip`, `str.lower`, `str.split`, the substring test and `join`, with ASCII whitespace and case |
| `records.dfy` | `Records` | cells (text, NaN, the review flag) and rows as maps from column label to cell |
| `authority.dfy` | `Authority` | the fields of the authority's reply that the cleaner reads; a call either fails or yields a reply |
| `completeness.dfy` | `Completeness` | `identify_missing_fields` |
| `suspicion.dfy` | `Suspicion` | `identify_suspicious_fields` and its lexicon |
| `hierarchy.dfy` | `Hierarchy` | `compare_field` and `validate_taxonomic_hierarchy` |
| `correction.dfy` | `Correction` | what `compare_and_correct` and `auto_correct_row` decide and write |
| `summary.dfy` | `Summary` | `summarize_issues` and the `needs_review` column |
| `pipeline.dfy` | `Pipeline` | the table updated in place: the Species check, GENUS derivation, the driver loop, the summary pass and the column move |

Design decisions:

- **The table is a class.** The source mutates its data frame cell by cell, so
  `Pipeline.Table` has two parts. The first is a column schema (`columns`, a
  sequence, in order). The second is an array of rows. Its methods
  (`Put`, `CheckAndUpdate`, `CompareAndCorrect`, `AutoCorrectRow`, `CheckRow`,
  `ProcessRows`, ...) change them in place.
- **Methods are proved against functions.** Each method is tied to a pure
  function of the old state (`ProcessRow`, `Apply`, `AfterOutcome`,
  `WithSummary`, `ColumnsAfterRows`, ...). The lemmas state what the cleaner
  promises about those functions.
- **Each row is checked against its snapshot.** The driver loop reads a row
  once and hands that snapshot to all four checks. So the validator never sees
  the corrector's writes, and `check_and_update` compares against the snapshot
  while it writes into the table. The model keeps this: every step takes the
  snapshot `row` as a parameter and writes into `rows[i]`.
- **Authority answers are inputs.** The source makes two separate authority
  calls per row: one from the validator, one from the corrector. The model
  takes both answers as inputs (`Pipeline.Answers`). Each answer is a failure
  or a decoded reply, so the two need not agree.
- **Blank species.** The validator treats a NaN or whitespace-only species as
  missing (app.py:52). The corrector skips only a NaN or generic species
  (app.py:83), so it still looks up a whitespace-only one. The model keeps
  both tests as written (`Hierarchy.Resolvable`, `Correction.SkipsLookup`);
  `Correction.LookupAgreesUpToBlank` shows this is the only record that one
  of them looks up and the other does not.
- **GENUS for a missing species.** GENUS is derived after `astype(str)`
  (app.py:21). A NaN species therefore gives the genus "nan", and a blank one
  gives NaN. The model keeps both (`Pipeline.GenusOfNullSpecies`,
  `Pipeline.GenusIsFirstToken`).

## Model

| member | source | states |
|---|---|---|
| Pipeline.Table.Clean | app.py:17-124 | A sheet without a Species column is refused and left untouched. Otherwise the schema becomes the cleaned schema and every row becomes the cleaned row: GENUS derived if absent, the four checks, the summary, the column move. |
| Pipeline.Table.DeriveGenus | app.py:20-21 | Appends the GENUS column and writes into every row the first word of its stripped species text; no other cell changes. |
| Pipeline.GenusIsFirstToken | app.py:21 | The derived genus is NaN exactly when the species is whitespace only. Otherwise it is non-empty, has no whitespace, is a prefix of the stripped species, and ends where the species ends or at whitespace. |
| Pipeline.GenusOfNullSpecies | app.py:21 | A NaN or absent species gives the genus "nan", because the column is converted to text before splitting. |
| Pipeline.DerivedGenusKept | app.py:20-21 | After a run on a sheet without GENUS, a row's GENUS is the authority's genus if the corrector changed it, and otherwise the first word of the species. |
| Completeness.IsBlank | app.py:28 | A column counts as blank exactly when it is absent, NaN or whitespace only. |
| Completeness.BlankAmong | app.py:28 | Keeps exactly the given columns that are absent, NaN or whitespace only, in the given order. |
| Completeness.MissingColumns | app.py:22-28 | The blank required columns, as a subsequence of the required-column list. |
| Completeness.MissingFields | app.py:27-29 | The `review_fields` text is "" exactly when every required column has a non-blank value. |
| Suspicion.Probe | app.py:40 | The probed text is "" for an absent column, as long as the cell's text otherwise, and has no upper-case letter. |
| Suspicion.Suspicious | app.py:41 | A column is suspicious exactly when one of its terms occurs in its probed text. |
| Suspicion.Flagged | app.py:37-42 | A column is flagged exactly when its lowercased text contains one of its lexicon terms; flagged columns keep lexicon order. |
| Suspicion.SuspiciousFields | app.py:37-43 | The loop over the lexicon returns the flagged columns joined with ", ". |
| Suspicion.FlaggedTextEmptyIff | app.py:30-43 | The `suspicious_fields` text is "" exactly when no lexicon column holds one of its terms. |
| Suspicion.FlaggedEmptyIff | app.py:38-43 | For any lexicon with non-empty labels, the joined flagged text is "" exactly when no entry is suspicious. |
| Suspicion.NullIsNeverSuspicious | app.py:40-41 | A lexicon column that is absent or NaN is never flagged. |
| Suspicion.NoTermInNull | app.py:30-36 | Neither "" nor "nan" contains any lexicon term. |
| Hierarchy.Normalize | app.py:47 | Trimming and lowercasing can be done in either order, and a normalised name is already normal. |
| Hierarchy.IsGeneric | app.py:55 | A species is generic exactly when one of the four markers occurs in its lowercased text. |
| Hierarchy.ValidateHierarchy | app.py:50-68 | An unresolvable species gets "Missing species" or "Generic/Undetermined species". Any other answer than the four fixed ones comes from a resolvable species and a non-proxy reply, and is the joined mismatch report. |
| Hierarchy.CompareField | app.py:44-49 | The result is either "" or "<rank> mismatch". |
| Hierarchy.CompareFieldVerdict | app.py:44-49 | A mismatch is reported exactly when both sides are present and differ once trimmed and lowercased. The comparison is symmetric. |
| Hierarchy.CompareFieldIgnoresCaseAndPadding | app.py:47 | Surrounding whitespace and letter case never make a mismatch. |
| Hierarchy.Verdicts | app.py:63-65 | Three verdicts, for ORDER, FAMILY, GENUS in that order; each is "" or that rank's mismatch label. |
| Hierarchy.Mismatches | app.py:66 | The kept verdicts are mismatch labels, in rank order. |
| Hierarchy.KeptLabelsInOrder | app.py:66 | Dropping the empty entries of a list of "" and positional labels leaves labels only, in label order. |
| Hierarchy.MismatchesReportEachRank | app.py:62-66 | A rank's label is in the report exactly when its comparison gave a verdict; the report is empty exactly when none did. |
| Hierarchy.MismatchReportIsNoSentinel | app.py:52-68 | A joined mismatch report never equals one of the validator's fixed answers. |
| Hierarchy.ValidationLadder | app.py:50-68 | Each fixed answer ("Missing species", "Generic/Undetermined species", "GBIF error", "Proxy match") is given exactly on its own rung, in both directions. An unresolvable species gets its answer whatever the authority says. Otherwise the answer is the mismatch report. |
| Correction.LocalValue | app.py:72 | The local value as the corrector reads it is trimmed, and "" for NaN or an absent column. |
| Correction.AuthorityValue | app.py:73 | The authority value is trimmed; it is "" exactly when the reply has no value or only whitespace. |
| Correction.Differs | app.py:74 | A rank is to be overwritten exactly when the reply's value is not blank and, trimmed and lowercased, differs from the lowercased local value. |
| Correction.ChangeIf | app.py:71-76 | `check_and_update` records at most one change, for its own rank, exactly when the values differ; a recorded change never writes "" and never rewrites a value equal up to case. |
| Correction.ChangeFor | app.py:72-75 | The change made to a rank names that rank; when the rank is overwritten, the new value is non-empty and differs up to case from the old one. |
| Correction.ChangesAreThreeChecks | app.py:77-79 | The changes are the three `check_and_update` calls' results, ORDER then FAMILY then GENUS. |
| Correction.LogEntry | app.py:75 | A log entry starts with the rank's name and is longer than it. |
| Correction.Log | app.py:80 | The log is "" exactly when nothing changed, and otherwise starts with the first change's entry. |
| Correction.ChangedRanks | app.py:74 | A rank is overwritten exactly when the authority's trimmed value is non-empty and differs from the local one ignoring case; ranks keep their order. |
| Correction.Changes | app.py:69-79 | The changes are exactly the overwritten ranks, ORDER then FAMILY then GENUS, each with its trimmed old value and trimmed authority value. |
| Correction.Apply | app.py:76 | Writing the changes touches only the changed ranks; with distinct ranks, each changed rank ends up holding its new value. |
| Correction.ChangesHaveDistinctRanks | app.py:77-79 | No rank is changed twice in one correction. |
| Correction.CorrectedRankValue | app.py:71-76 | After the correction a rank reads as the authority's trimmed value if it differed, and is otherwise unchanged. |
| Correction.CorrectionIsIdempotent | app.py:69-80 | Correcting again with the same reply changes nothing and logs "". |
| Correction.NoSecondChange | app.py:74 | No rank differs from the reply after it has been corrected. |
| Correction.AgreesAfterCorrection | app.py:44-49 | After a correction the comparison reports no mismatch on a rank for which the reply gives a non-blank value or none. |
| Correction.LookupAgreesUpToBlank | app.py:82-83 | Every record the validator would look up is looked up by the corrector; a record looked up only by the corrector has a whitespace-only species. |
| Correction.Confident | app.py:89 | A confident reply leaves the status "EXACT". |
| Correction.StatusOf | app.py:88 | The status reads as the validator's failure marker only if the authority itself sent that match type. |
| Correction.Decide | app.py:81-96 | The corrector skips exactly the NaN or generic species and corrects exactly on a confident reply; a correction changes only the three ranks, each at most once. |
| Correction.Note | app.py:84-96 | Each fixed note belongs to exactly one non-correcting outcome; a correction's note is "" exactly when nothing changed. |
| Correction.AfterOutcome | app.py:86-95 | The written columns are present afterwards and no other column changes. |
| Correction.Written | app.py:86-95 | Nothing is written when the corrector skips; otherwise the status is written first. |
| Correction.CorrectorContract | app.py:81-96 | Covers the corrector's decisions. A null or generic species is skipped whatever the authority says, and nothing is written. Otherwise the status is always written: "GBIF error" on a failed call, else the match type or "Unknown". Ranks change only on an exact match with confidence at least 90. Nothing besides the status and the ranks changes. |
| Correction.NoteIdentifiesOutcome | app.py:84-96 | Each fixed note is returned exactly on its own path. |
| Correction.LogIsNoSentinel | app.py:75-80 | A correction log never equals one of the fixed notes. |
| Summary.Truthy | app.py:112-116 | Python truthiness of `row.get(col)`: an absent column is falsy, a NaN cell is truthy, and a text cell is truthy exactly when it is non-empty. |
| Summary.Segments | app.py:111-117 | At most three segments, each at least nine characters long, so none is empty; there are none exactly when no issue column is truthy. |
| Summary.SummarizeIssues | app.py:110-118 | The summary is "" exactly when none of the three issue columns is truthy. |
| Summary.WithSummary | app.py:119-120 | The row gains the summary and the flag, the flag is set exactly when the summary is not "", and no other cell changes. |
| Summary.SummaryOfIssueText | app.py:110-120 | The three segments ("Missing: ", "Suspicious: ", "Taxonomy: ") appear exactly for the non-empty issue columns, in that order. The summary is non-empty, and the review flag true, exactly when some issue column is non-empty. |
| Pipeline.NeedsReviewIffIssue | app.py:101-120 | After a run a row needs review exactly when one of three things holds on the record the loop saw: a required column is blank, a lexicon column holds a suspicious term, or the hierarchy check reported something. |
| Pipeline.Table.Put | app.py:103-106 | Writing one cell changes only that cell of that row, and adds the column at the end if it is new. |
| Pipeline.Table.CheckAndUpdate | app.py:71-76 | Returns the change for one rank (when the authority's value differs) and writes it into the table row; the schema gains the rank if it was missing. |
| Pipeline.Table.CompareAndCorrect | app.py:69-80 | Returns the log of the three checks' changes, and leaves the table row as those changes applied in order. |
| Pipeline.Table.AutoCorrectRow | app.py:81-96 | Returns the note for the corrector's decision and leaves the table row as that decision's writes applied. |
| Pipeline.Table.RecordReply | app.py:86-93 | After a reply the status is written, and the ranks are corrected only on a confident reply. |
| Pipeline.Table.CheckRow | app.py:101-106 | One pass over a row leaves it as `ProcessRow` of its snapshot, and extends the schema by the written columns in write order. |
| Pipeline.Table.ProcessRows | app.py:101-106 | After the loop every row has been processed exactly once from its own snapshot, and the schema has grown row by row. |
| Pipeline.Table.SummarizeRows | app.py:110-120 | Every row gets its summary and flag; the schema gains the two columns. |
| Pipeline.Table.SummarizeRow | app.py:119-120 | One row gets its summary and flag; no other row changes. |
| Pipeline.Table.MoveCorrectionNoteLast | app.py:121-124 | The correction note column, if present, is moved to the end and the others keep their order. |
| Pipeline.ProcessRow | app.py:101-106 | The four columns a pass writes hold the missing fields, the suspicious fields, the hierarchy verdict and the correction note, each computed from the snapshot. |
| Pipeline.Annotated | app.py:103-106 | The note column holds the corrector's note; when the corrector writes only the status and the ranks, the three check columns hold the checks' results. |
| Pipeline.ProcessRowReadsSnapshot | app.py:101-106 | Every column besides the added ones and the ranks is unchanged by a pass. The ranks change only on a confident reply. |
| Pipeline.SpeciesText | app.py:21 | `astype(str)` of the species: its text when present, "nan" when it is NaN or absent. |
| Pipeline.GenusFromSpecies | app.py:21 | The derived genus is NaN or a non-empty word without whitespace. |
| Pipeline.Prepared | app.py:20-21 | A sheet with GENUS keeps the row as it is; otherwise the row gains the derived genus and nothing else changes. |
| Pipeline.Cleaned | app.py:101-124 | A cleaned row holds the correction note, the summary and the flag, and the flag is set exactly when the summary is not "". |
| Pipeline.CleanedColumns | app.py:20-124 | The cleaned schema keeps every original column and has GENUS and the two summary columns. It holds no column twice when the sheet did not, and ends with the correction note whenever there was a row. |
| Pipeline.SecondPassConverges | app.py:50-96 | After a confident, non-proxy correction, validating the corrected row against the same reply finds no mismatch, and correcting it again changes nothing. This requires the reply's rank values to be non-blank. |
| Pipeline.CorrectedRowAgrees | app.py:44-79 | The corrected snapshot has no mismatch against the reply when the reply's rank values are non-blank. |
| Pipeline.PassWritesCorrectedRanks | app.py:89-90 | After a confident reply, each rank in the table holds what correcting the snapshot gives. |
| Pipeline.PassKeepsSpecies | app.py:101-106 | A pass never changes the species, so a resolvable record stays resolvable. |
| Correction.SameRanksSameVerdicts | app.py:63-79 | The validator's verdicts and the corrector's changes depend on a row only through its three ranks. |
| Pipeline.GenusAfterPass | app.py:79 | After a pass GENUS holds the authority's genus if the corrector changed it, and is otherwise unchanged. |
| Pipeline.ColumnsAfterRows | app.py:101-106 | The schema after the loop keeps every earlier column, holds none twice, and contains the correction note once a row has been processed. |
| Pipeline.WithColumn | app.py:103-106 | Writing to a new column appends it; existing columns keep their order and no column appears twice. |
| Pipeline.MoveToEnd | app.py:122-124 | `pop` then reassign: the same columns, with the moved one last and the rest in their old order. |
| Pipeline.Without | app.py:123 | `pop` removes exactly that column and keeps the others in order. |
| Strings.StripEmptyIffAllSpace | app.py:28 | `strip()` gives "" exactly for a whitespace-only string. |
| Strings.StripIgnoresPadding | app.py:47 | Whitespace around a string does not survive `strip()`. |
| Strings.StripIdempotent | app.py:73 | Stripping twice is stripping once. |
| Strings.LowerStrip | app.py:47 | Lowering and stripping commute. |
| Strings.ContainsIffOccurs | app.py:41 | The substring test holds exactly when the term occurs at some position. |
| Strings.JoinEmptyIff | app.py:29 | Joining non-empty strings gives "" exactly for the empty list. |
| Strings.Words | app.py:21 | `split()` yields non-empty runs without whitespace. |
| Strings.FirstWord | app.py:21 | A string without leading whitespace has words exactly when it is non-empty; its first word runs to the first whitespace. |

## Left out

- The user interface: the file uploader, buttons, messages, previews, progress bar, the 10 ms sleep and the download button (app.py:6-16, 97-99, 107-109, 125-135).
- Reading and writing Excel. The model starts from the sheet as read with every column as text (app.py:13) and stops before the workbook is written out.
- The HTTP request, URL quoting, the 10-second timeout and JSON decoding (app.py:58-59, 86-87). Each authority call is an input: a failure or a decoded reply (`Authority.Lookup`).
- Replies whose fields are JSON null or not strings. Two cases are affected. A null `confidence` would make `>= 90` raise, so the catch-all sets "GBIF error" after the status was written. A null `matchType` would write NaN rather than "Unknown". The model reads an absent or null confidence as 0 and an absent match type as "Unknown".
- Unicode. Whitespace is the ASCII part of Python's `str.isspace` (tab through carriage return, 28-31, space), and `lower()` maps only A-Z.
- Columns a row lacks. The table treats a column a row lacks as NaN. For the suspicion check such a column reads as "" rather than "nan", and neither contains any lexicon term (`Suspicion.NullIsNeverSuspicious`).
- An empty sheet. The model adds the summary and flag columns and nothing else; how pandas' row-wise `apply` behaves on an empty frame is not modelled.
- Pipeline.SecondPassConverges: requires the reply's rank values to be non-blank. For a blank value the corrector writes nothing but the validator still compares against it, so the second pass can still report a mismatch.
