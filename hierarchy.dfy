/** The hierarchy validator: compares a record's ORDER, FAMILY and GENUS with
    the authority's answer (`compare_field` and `validate_taxonomic_hierarchy`,
    app.py lines 44-68). */
module Hierarchy {
  import opened Strings
  import opened Records
  import opened Authority

  /** Substrings marking a species name as not resolved to a species. */
  const GENERIC_MARKERS := ["sp.", "cf.", "undetermined", "unknown"]

  /** The species text contains a generic marker, ignoring case: some marker
      occurs at some position of the lowercased species. */
  predicate IsGeneric(species: string): (r: bool)
    ensures r <==> exists k, i :: 0 <= k < |GENERIC_MARKERS| && OccursAt(Lower(species), GENERIC_MARKERS[k], i)
  {
    ContainsAny(Lower(species), GENERIC_MARKERS)
  }

  // The validator's fixed answers.
  const MISSING_SPECIES := "Missing species"
  const GENERIC_SPECIES := "Generic/Undetermined species"
  const LOOKUP_ERROR := "GBIF error"
  const PROXY_MATCH := "Proxy match"

  /** The form in which two names are compared: trimmed, then lowercased. The
      order of the two steps does not matter, and the form is already normal. */
  function Normalize(s: string): (r: string)
    ensures r == Strip(Lower(s))
    ensures Lower(Strip(r)) == r
  {
    var t := Strip(s);
    LowerStrip(s);
    StripIdempotent(s);
    LowerStrip(t);
    LowerIdempotent(t);
    Lower(t)
  }

  /** `compare_field`: no verdict ("") when either side is null, otherwise
      "<rank> mismatch" or "". */
  function CompareField(local: Option<string>, auth: Option<string>, rank: string): (r: string)
    ensures r == "" || r == rank + " mismatch"
  {
    if local.None? || auth.None? then ""
    else if Normalize(local.value) != Normalize(auth.value) then rank + " mismatch"
    else ""
  }

  /** The comparison reports a mismatch exactly when both sides are present and
      differ once trimmed and lowercased; it does not care which side is which. */
  lemma CompareFieldVerdict(local: Option<string>, auth: Option<string>, rank: string)
    ensures CompareField(local, auth, rank) == CompareField(auth, local, rank)
    ensures CompareField(local, auth, rank) != "" <==>
      local.Some? && auth.Some? && Lower(Strip(local.value)) != Lower(Strip(auth.value))
  {
  }

  /** Surrounding whitespace and letter case never make a mismatch. */
  lemma {:induction false} CompareFieldIgnoresCaseAndPadding(
    p: string, s: string, q: string, t: string, rank: string)
    requires AllSpace(p) && AllSpace(q)
    requires Lower(s) == Lower(t)
    ensures CompareField(Some(p + s + q), Some(t), rank) == ""
  {
    StripIgnoresPadding(p, s, q);
    LowerStrip(s);
    LowerStrip(t);
  }

  /** The three mismatch labels, in the order they are reported. */
  const MISMATCH_LABELS := [ORDER + " mismatch", FAMILY + " mismatch", GENUS + " mismatch"]

  /** The verdicts for ORDER, FAMILY and GENUS, in that order. */
  function Verdicts(row: Row, resp: Response): (vs: seq<string>)
    ensures |vs| == 3
    ensures forall k :: 0 <= k < 3 ==> vs[k] == "" || vs[k] == MISMATCH_LABELS[k]
  {
    [ CompareField(Get(row, ORDER), resp.order, ORDER),
      CompareField(Get(row, FAMILY), resp.family, FAMILY),
      CompareField(Get(row, GENUS), resp.genus, GENUS) ]
  }

  /** `[m for m in mismatches if m]`: the mismatch labels that were reported. */
  function Mismatches(row: Row, resp: Response): (ms: seq<string>)
    ensures forall m :: m in ms ==> m in MISMATCH_LABELS
    ensures Subsequence(ms, MISMATCH_LABELS)
  {
    var vs := Verdicts(row, resp);
    KeptLabelsInOrder(vs, MISMATCH_LABELS);
    NonEmpty(vs)
  }

  /** Keeping the non-empty entries of a list whose every entry is either ""
      or the label at its position yields labels only, in label order. */
  lemma {:induction false} KeptLabelsInOrder(vs: seq<string>, labels: seq<string>)
    requires |vs| == |labels|
    requires forall k :: 0 <= k < |vs| ==> vs[k] == "" || vs[k] == labels[k]
    ensures Subsequence(NonEmpty(vs), labels)
    ensures forall m :: m in NonEmpty(vs) ==> m in labels
  {
    if vs != [] {
      KeptLabelsInOrder(vs[1..], labels[1..]);
      SubsequenceMembers(NonEmpty(vs), labels);
    }
  }

  lemma NoMismatchWhenEachAgrees(row: Row, resp: Response)
    requires CompareField(Get(row, ORDER), resp.order, ORDER) == ""
    requires CompareField(Get(row, FAMILY), resp.family, FAMILY) == ""
    requires CompareField(Get(row, GENUS), resp.genus, GENUS) == ""
    ensures Mismatches(row, resp) == []
  {
    MismatchesReportEachRank(row, resp);
    assert Verdicts(row, resp) == ["", "", ""];
  }

  /** A rank is reported as mismatched exactly when its comparison gives a
      verdict, and the report is empty exactly when no comparison does. */
  lemma MismatchesReportEachRank(row: Row, resp: Response)
    ensures forall k :: 0 <= k < 3 ==>
      (MISMATCH_LABELS[k] in Mismatches(row, resp) <==> Verdicts(row, resp)[k] != "")
    ensures Mismatches(row, resp) == [] <==>
      forall k :: 0 <= k < 3 ==> Verdicts(row, resp)[k] == ""
  {
    var vs := Verdicts(row, resp);
    var ms := Mismatches(row, resp);
    assert ms == NonEmpty(vs);
    assert MISMATCH_LABELS[0][0] == 'O' && MISMATCH_LABELS[1][0] == 'F'
      && MISMATCH_LABELS[2][0] == 'G';
    forall k | 0 <= k < 3
      ensures MISMATCH_LABELS[k] in ms <==> vs[k] != ""
    {
      if vs[k] != "" {
        assert vs[k] in vs;
      }
    }
    if ms != [] {
      assert ms[0] in vs && ms[0] != "";
    }
  }

  /** `validate_taxonomic_hierarchy` with the authority's answer as input. */
  function ValidateHierarchy(row: Row, lookup: Lookup): (r: string)
    ensures !Resolvable(row) ==> r == MISSING_SPECIES || r == GENERIC_SPECIES
    ensures r !in [MISSING_SPECIES, GENERIC_SPECIES, LOOKUP_ERROR, PROXY_MATCH] ==>
      Resolvable(row) && lookup.Found? && !lookup.response.proxy &&
      r == Join(Mismatches(row, lookup.response), ", ")
  {
    var species := Get(row, SPECIES);
    if species.None? || Strip(species.value) == "" then MISSING_SPECIES
    else if IsGeneric(species.value) then GENERIC_SPECIES
    else match lookup
      case Failed => LOOKUP_ERROR
      case Found(resp) =>
        if resp.proxy then PROXY_MATCH else Join(Mismatches(row, resp), ", ")
  }

  /** The species is present, not blank and not generic, so the authority is asked. */
  predicate Resolvable(row: Row) {
    var species := Get(row, SPECIES);
    species.Some? && Strip(species.value) != "" && !IsGeneric(species.value)
  }

  /** A mismatch report never reads as one of the fixed answers. */
  lemma {:induction false} MismatchReportIsNoSentinel(ms: seq<string>)
    requires forall m :: m in ms ==> m in MISMATCH_LABELS
    ensures Join(ms, ", ") !in [MISSING_SPECIES, GENERIC_SPECIES, LOOKUP_ERROR, PROXY_MATCH]
  {
    var r := Join(ms, ", ");
    if ms != [] {
      var first := ms[0];
      assert first in MISMATCH_LABELS;
      assert |first| >= 14;
      assert r[..|first|] == first;
      assert r[0] == first[0] && r[1] == first[1] by {
        assert r[..|first|][0] == r[0] && r[..|first|][1] == r[1];
      }
      if first == MISMATCH_LABELS[0] {
        assert r[0] == 'O';
      } else if first == MISMATCH_LABELS[1] {
        assert r[0] == 'F';
      } else {
        assert r[0] == 'G' && r[1] == 'E';
      }
    }
  }

  /** The validator's ladder, in both directions: each fixed answer is given
      exactly on its rung, an unresolvable species gives its answer whatever the
      authority would say, and otherwise the answer is the mismatch report. */
  lemma {:induction false} ValidationLadder(row: Row, lookup: Lookup)
    ensures var species := Get(row, SPECIES);
      ValidateHierarchy(row, lookup) == MISSING_SPECIES <==>
        species.None? || Strip(species.value) == ""
    ensures var species := Get(row, SPECIES);
      ValidateHierarchy(row, lookup) == GENERIC_SPECIES <==>
        species.Some? && Strip(species.value) != "" && IsGeneric(species.value)
    ensures ValidateHierarchy(row, lookup) == LOOKUP_ERROR <==>
      Resolvable(row) && lookup.Failed?
    ensures ValidateHierarchy(row, lookup) == PROXY_MATCH <==>
      Resolvable(row) && lookup.Found? && lookup.response.proxy
    ensures Resolvable(row) && lookup.Found? && !lookup.response.proxy ==>
      ValidateHierarchy(row, lookup) == Join(Mismatches(row, lookup.response), ", ")
    ensures !Resolvable(row) ==>
      forall other :: ValidateHierarchy(row, other) == ValidateHierarchy(row, lookup)
  {
    if Resolvable(row) && lookup.Found? && !lookup.response.proxy {
      MismatchReportIsNoSentinel(Mismatches(row, lookup.response));
    }
  }
}
