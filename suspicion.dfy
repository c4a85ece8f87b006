/** The suspicion check: which columns hold a low-confidence term
    (`identify_suspicious_fields`, app.py lines 30-43). */
module Suspicion {
  import opened Strings
  import opened Records

  /** A column label with the lowercase terms that make its value suspicious. */
  type Entry = (string, seq<string>)

  /** The lexicon, in the order its columns are reported. */
  const SUSPICIOUS_TERMS: seq<Entry> := [
    (SPECIES, ["undetermined", "unknown", "sp.", "cf."]),
    ("Common Name", ["undetermined", "unknown"]),
    ("AGE", ["indeterminate", "unknown"]),
    ("CONDITION", ["poor", "fair"]),
    ("COMPLETENESS", ["fragment", "element"])
  ]

  /** The text a column is searched in: `str(row.get(col, "")).lower()`. An
      absent column reads as "", a NaN cell as "nan"; the text has no capitals. */
  function Probe(row: Row, col: string): (r: string)
    ensures col !in row ==> r == ""
    ensures col in row ==> |r| == |Show(row[col])|
    ensures forall k :: 0 <= k < |r| ==> !('A' <= r[k] <= 'Z')
  {
    Lower(if col in row then Show(row[col]) else "")
  }

  /** The entry's column holds at least one of the entry's terms: some term
      occurs at some position of the column's lowercased text. */
  predicate Suspicious(row: Row, entry: Entry): (r: bool)
    ensures r <==> exists k, i :: 0 <= k < |entry.1| && OccursAt(Probe(row, entry.0), entry.1[k], i)
  {
    ContainsAny(Probe(row, entry.0), entry.1)
  }

  function Labels(lexicon: seq<Entry>): (r: seq<string>)
    ensures |r| == |lexicon|
    ensures forall k :: 0 <= k < |r| ==> r[k] == lexicon[k].0
  {
    seq(|lexicon|, k requires 0 <= k < |lexicon| => lexicon[k].0)
  }

  /** The columns of `lexicon` that are suspicious in `row`, in lexicon order. */
  function Flagged(row: Row, lexicon: seq<Entry>): (r: seq<string>)
    ensures forall c :: c in r <==>
      exists k :: 0 <= k < |lexicon| && lexicon[k].0 == c && Suspicious(row, lexicon[k])
    ensures Subsequence(r, Labels(lexicon))
  {
    if lexicon == [] then []
    else
      var init := lexicon[..|lexicon| - 1];
      var last := lexicon[|lexicon| - 1];
      var earlier := Flagged(row, init);
      assert Labels(lexicon) == Labels(init) + [last.0];
      SubsequenceSnoc(earlier, Labels(init), last.0);
      assert forall k :: 0 <= k < |init| ==> init[k] == lexicon[k];
      var flagged := Suspicious(row, last);
      var r := if flagged then earlier + [last.0] else earlier;
      assert forall c :: c in r <==> c in earlier || (flagged && c == last.0);
      r
  }

  /** `identify_suspicious_fields`: walks the lexicon once, collecting the
      flagged columns, and joins them with ", ". */
  method SuspiciousFields(row: Row) returns (s: string)
    ensures s == Join(Flagged(row, SUSPICIOUS_TERMS), ", ")
  {
    var flagged: seq<string> := [];
    for i := 0 to |SUSPICIOUS_TERMS|
      invariant flagged == Flagged(row, SUSPICIOUS_TERMS[..i])
    {
      var (col, terms) := SUSPICIOUS_TERMS[i];
      var text := Probe(row, col);
      if ContainsAny(text, terms) {
        flagged := flagged + [col];
      }
      assert SUSPICIOUS_TERMS[..i + 1][..i] == SUSPICIOUS_TERMS[..i];
    }
    assert SUSPICIOUS_TERMS[..|SUSPICIOUS_TERMS|] == SUSPICIOUS_TERMS;
    s := Join(flagged, ", ");
  }

  /** The `suspicious_fields` text is empty exactly when no entry of the
      lexicon is suspicious. */
  lemma FlaggedTextEmptyIff(row: Row)
    ensures Join(Flagged(row, SUSPICIOUS_TERMS), ", ") == "" <==>
      forall k :: 0 <= k < |SUSPICIOUS_TERMS| ==> !Suspicious(row, SUSPICIOUS_TERMS[k])
  {
    var terms := SUSPICIOUS_TERMS;
    assert forall k :: 0 <= k < |terms| ==> terms[k].0 != "";
    FlaggedEmptyIff(row, terms, ", ");
  }

  lemma FlaggedEmptyIff(row: Row, lexicon: seq<Entry>, sep: string)
    requires forall k :: 0 <= k < |lexicon| ==> lexicon[k].0 != ""
    ensures Join(Flagged(row, lexicon), sep) == "" <==>
      forall k :: 0 <= k < |lexicon| ==> !Suspicious(row, lexicon[k])
  {
    var flagged := Flagged(row, lexicon);
    forall j | 0 <= j < |flagged| ensures flagged[j] != "" {
      assert flagged[j] in flagged;
    }
    JoinEmptyIff(flagged, sep);
    if exists k :: 0 <= k < |lexicon| && Suspicious(row, lexicon[k]) {
      var k :| 0 <= k < |lexicon| && Suspicious(row, lexicon[k]);
      assert lexicon[k].0 in flagged;
    }
    if flagged != [] {
      assert flagged[0] in flagged;
    }
  }

  /** A lexicon column that is absent or NaN is never flagged: neither "" nor
      "nan" contains any term of the lexicon. */
  lemma NullIsNeverSuspicious(row: Row, col: string)
    requires col !in row || row[col] == Null
    ensures col !in Flagged(row, SUSPICIOUS_TERMS)
  {
    var text := Probe(row, col);
    assert text == "" || text == "nan" by {
      if col in row {
        assert Lower("nan") == "nan";
      }
    }
    forall k | 0 <= k < |SUSPICIOUS_TERMS| && SUSPICIOUS_TERMS[k].0 == col
      ensures !Suspicious(row, SUSPICIOUS_TERMS[k])
    {
      var terms := SUSPICIOUS_TERMS[k].1;
      forall j | 0 <= j < |terms| ensures !Contains(text, terms[j]) {
        NoTermInNull(text, terms[j]);
      }
    }
  }

  lemma NoTermInNull(text: string, term: string)
    requires text == "" || text == "nan"
    requires term in ["undetermined", "unknown", "sp.", "cf.", "indeterminate", "poor",
                      "fair", "fragment", "element"]
    ensures !Contains(text, term)
  {
    if term == "sp." || term == "cf." {
      if text == "nan" {
        assert text[..3][0] == 'n' != term[0];
        assert text[1..] == "an";
      }
    }
  }
}
