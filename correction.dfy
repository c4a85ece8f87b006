/** The auto-corrector's decisions, as functions of the record snapshot and the
    authority's answer (`compare_and_correct` and `auto_correct_row`, app.py
    lines 69-96). The methods that carry them out on the table are in the
    Pipeline module. */
module Correction {
  import opened Strings
  import opened Records
  import opened Authority
  import opened Hierarchy

  /** One overwritten rank: the trimmed value it had and the trimmed authority
      value it gets. */
  datatype Change = Change(rank: string, before: string, after: string)

  /** The local value as the corrector reads it: trimmed, and "" for null. */
  function LocalValue(row: Row, rank: string): (r: string)
    ensures Get(row, rank).None? ==> r == ""
    ensures r == [] || (!IsSpace(r[0]) && !IsSpace(r[|r| - 1]))
  {
    var v := Get(row, rank);
    if v.None? then "" else Strip(v.value)
  }

  /** The authority value as the corrector reads it: trimmed, and "" for a
      missing or empty value. It is "" exactly when the reply has no value or
      only whitespace. */
  function AuthorityValue(v: Option<string>): (r: string)
    ensures r == "" <==> v.None? || AllSpace(v.value)
    ensures r == [] || (!IsSpace(r[0]) && !IsSpace(r[|r| - 1]))
  {
    assert v.Some? ==> (Strip(v.value) == "" <==> AllSpace(v.value)) by {
      if v.Some? {
        StripEmptyIffAllSpace(v.value);
      }
    }
    if v.None? || v.value == "" then "" else Strip(v.value)
  }

  /** The authority gives a non-empty value that differs, ignoring case, from
      the local one: the reply has a value that is not only whitespace, and its
      normal form differs from the lowercased local value. */
  predicate Differs(row: Row, rank: string, auth: Option<string>): (r: bool)
    ensures r <==> (auth.Some? && !AllSpace(auth.value) &&
                    Lower(LocalValue(row, rank)) != Lower(Strip(auth.value)))
  {
    AuthorityValue(auth) != "" && Lower(LocalValue(row, rank)) != Lower(AuthorityValue(auth))
  }

  /** `check_and_update` for one rank: the change it records, when the
      authority value differs. A recorded change never writes "" and never
      writes a value equal to the old one up to case. */
  function ChangeIf(row: Row, rank: string, auth: Option<string>): (r: seq<Change>)
    ensures r != [] <==> Differs(row, rank, auth)
    ensures |r| <= 1
    ensures r != [] ==> r[0].rank == rank && r[0].after != "" && Lower(r[0].before) != Lower(r[0].after)
  {
    if Differs(row, rank, auth) then [Change(rank, LocalValue(row, rank), AuthorityValue(auth))] else []
  }

  function Ranks(cs: seq<Change>): (r: seq<string>)
    ensures |r| == |cs|
    ensures forall k :: 0 <= k < |cs| ==> r[k] == cs[k].rank
  {
    seq(|cs|, k requires 0 <= k < |cs| => cs[k].rank)
  }

  /** The entries of `ranks` that `check_and_update` overwrites, in order. */
  function ChangedRanks(row: Row, resp: Response, ranks: seq<string>): (r: seq<string>)
    ensures forall rank :: rank in r <==> rank in ranks && Differs(row, rank, RankOf(resp, rank))
    ensures Subsequence(r, ranks)
  {
    if ranks == [] then []
    else if Differs(row, ranks[0], RankOf(resp, ranks[0]))
    then [ranks[0]] + ChangedRanks(row, resp, ranks[1..])
    else ChangedRanks(row, resp, ranks[1..])
  }

  /** The change `check_and_update` makes to a rank it overwrites. */
  function ChangeFor(row: Row, resp: Response, rank: string): (r: Change)
    ensures r.rank == rank
    ensures Differs(row, rank, RankOf(resp, rank)) ==>
      r.after != "" && Lower(r.before) != Lower(r.after)
  {
    Change(rank, LocalValue(row, rank), AuthorityValue(RankOf(resp, rank)))
  }

  /** `compare_and_correct`'s changes: one per rank whose authority value
      differs, in the order ORDER, FAMILY, GENUS, each recording its trimmed
      old and new values. `ChangesAreThreeChecks` shows this is what the three
      calls of `check_and_update` produce. */
  function Changes(row: Row, resp: Response): (cs: seq<Change>)
    ensures Ranks(cs) == ChangedRanks(row, resp, RANKS)
    ensures forall k :: 0 <= k < |cs| ==> cs[k] == ChangeFor(row, resp, cs[k].rank)
  {
    var rs := ChangedRanks(row, resp, RANKS);
    seq(|rs|, k requires 0 <= k < |rs| => ChangeFor(row, resp, rs[k]))
  }

  /** The log line for one change: it starts with the rank's name. */
  function LogEntry(c: Change): (r: string)
    ensures |c.rank| < |r| && r[..|c.rank|] == c.rank
  {
    c.rank + ": '" + c.before + "' → '" + c.after + "'"
  }

  /** The correction log: the entries joined with "; ". It is "" exactly when
      nothing changed, and otherwise starts with the first change's entry. */
  function Log(cs: seq<Change>): (r: string)
    ensures r == "" <==> cs == []
    ensures cs != [] ==> |LogEntry(cs[0])| <= |r| && r[..|LogEntry(cs[0])|] == LogEntry(cs[0])
  {
    var entries := seq(|cs|, k requires 0 <= k < |cs| => LogEntry(cs[k]));
    JoinEmptyIff(entries, "; ");
    Join(entries, "; ")
  }

  /** The row after writing each change's new value into its rank's column. */
  function Apply(target: Row, cs: seq<Change>): (r: Row)
    decreases |cs|
    ensures forall col :: col in Ranks(cs) ==> col in r
    ensures forall col :: col !in Ranks(cs) ==>
      (col in r <==> col in target) && (col in target ==> r[col] == target[col])
    ensures Distinct(Ranks(cs)) ==>
      forall k :: 0 <= k < |cs| ==> cs[k].rank in r && r[cs[k].rank] == Text(cs[k].after)
  {
    if cs == [] then target
    else
      var rest := cs[1..];
      var r := Apply(target[cs[0].rank := Text(cs[0].after)], rest);
      assert Ranks(cs) == [cs[0].rank] + Ranks(rest);
      DistinctCons(cs[0].rank, Ranks(rest));
      assert Distinct(Ranks(cs)) ==>
        forall k :: 0 <= k < |cs| ==> cs[k].rank in r && r[cs[k].rank] == Text(cs[k].after) by {
        if Distinct(Ranks(cs)) {
          forall k | 0 <= k < |cs| ensures cs[k].rank in r && r[cs[k].rank] == Text(cs[k].after) {
            if k > 0 {
              assert cs[k] == rest[k - 1];
            }
          }
        }
      }
      r
  }

  /** The changes are the three `check_and_update` calls' results, in order. */
  lemma ChangesAreThreeChecks(row: Row, resp: Response)
    ensures Changes(row, resp) ==
      ChangeIf(row, ORDER, resp.order) + ChangeIf(row, FAMILY, resp.family) + ChangeIf(row, GENUS, resp.genus)
  {
    var o, f, g := ChangeIf(row, ORDER, resp.order), ChangeIf(row, FAMILY, resp.family),
      ChangeIf(row, GENUS, resp.genus);
    ThreeChecksRanks(row, resp);
    ThreeChecksFaithful(row, resp);
    RanksAppend(o, f);
    RanksAppend(o + f, g);
    FaithfulAppend(row, resp, o, f);
    FaithfulAppend(row, resp, o + f, g);
    FaithfulEqual(row, resp, Changes(row, resp), o + f + g);
  }

  lemma ThreeChecksRanks(row: Row, resp: Response)
    ensures ChangedRanks(row, resp, RANKS) == Ranks(ChangeIf(row, ORDER, resp.order))
      + Ranks(ChangeIf(row, FAMILY, resp.family)) + Ranks(ChangeIf(row, GENUS, resp.genus))
  {
    assert RankOf(resp, ORDER) == resp.order && RankOf(resp, FAMILY) == resp.family
      && RankOf(resp, GENUS) == resp.genus;
    assert RANKS == [ORDER] + [FAMILY, GENUS];
    assert [FAMILY, GENUS] == [FAMILY] + [GENUS];
    assert [GENUS] == [GENUS] + [];
    ChangedRanksCons(row, resp, ORDER, [FAMILY, GENUS]);
    ChangedRanksCons(row, resp, FAMILY, [GENUS]);
    ChangedRanksCons(row, resp, GENUS, []);
    ChangeIfRanks(row, ORDER, resp.order);
    ChangeIfRanks(row, FAMILY, resp.family);
    ChangeIfRanks(row, GENUS, resp.genus);
    ConcatAssoc(Ranks(ChangeIf(row, ORDER, resp.order)), Ranks(ChangeIf(row, FAMILY, resp.family)),
      Ranks(ChangeIf(row, GENUS, resp.genus)));
  }

  lemma ChangedRanksCons(row: Row, resp: Response, rank: string, rest: seq<string>)
    ensures ChangedRanks(row, resp, [rank] + rest) ==
      (if Differs(row, rank, RankOf(resp, rank)) then [rank] else []) + ChangedRanks(row, resp, rest)
  {
    assert ([rank] + rest)[1..] == rest;
  }

  lemma ChangeIfRanks(row: Row, rank: string, auth: Option<string>)
    ensures Ranks(ChangeIf(row, rank, auth)) == if Differs(row, rank, auth) then [rank] else []
  {
  }

  lemma ThreeChecksFaithful(row: Row, resp: Response)
    ensures Faithful(row, resp, ChangeIf(row, ORDER, resp.order))
    ensures Faithful(row, resp, ChangeIf(row, FAMILY, resp.family))
    ensures Faithful(row, resp, ChangeIf(row, GENUS, resp.genus))
  {
    assert RankOf(resp, ORDER) == resp.order && RankOf(resp, FAMILY) == resp.family
      && RankOf(resp, GENUS) == resp.genus;
    ChangeIfAgrees(row, resp, ORDER);
    ChangeIfAgrees(row, resp, FAMILY);
    ChangeIfAgrees(row, resp, GENUS);
  }

  /** Every change in `cs` is the one `check_and_update` makes for its rank. */
  predicate Faithful(row: Row, resp: Response, cs: seq<Change>) {
    forall k :: 0 <= k < |cs| ==> cs[k] == ChangeFor(row, resp, cs[k].rank)
  }

  lemma ChangeIfAgrees(row: Row, resp: Response, rank: string)
    requires rank in RANKS
    ensures Ranks(ChangeIf(row, rank, RankOf(resp, rank))) ==
      if Differs(row, rank, RankOf(resp, rank)) then [rank] else []
    ensures Faithful(row, resp, ChangeIf(row, rank, RankOf(resp, rank)))
  {
  }

  lemma FaithfulAppend(row: Row, resp: Response, xs: seq<Change>, ys: seq<Change>)
    requires Faithful(row, resp, xs) && Faithful(row, resp, ys)
    ensures Faithful(row, resp, xs + ys)
  {
    forall k | 0 <= k < |xs + ys| ensures (xs + ys)[k] == ChangeFor(row, resp, (xs + ys)[k].rank) {
      if k >= |xs| {
        assert (xs + ys)[k] == ys[k - |xs|];
      }
    }
  }

  lemma ConcatAssoc<T>(a: seq<T>, b: seq<T>, c: seq<T>)
    ensures a + (b + c) == a + b + c
  {
  }

  lemma FaithfulEqual(row: Row, resp: Response, xs: seq<Change>, ys: seq<Change>)
    requires Faithful(row, resp, xs) && Faithful(row, resp, ys) && Ranks(xs) == Ranks(ys)
    ensures xs == ys
  {
    assert |xs| == |Ranks(xs)|;
    forall k | 0 <= k < |xs| ensures xs[k] == ys[k] {
      assert xs[k].rank == Ranks(xs)[k] == Ranks(ys)[k] == ys[k].rank;
    }
  }

  lemma RanksAppend(xs: seq<Change>, ys: seq<Change>)
    ensures Ranks(xs + ys) == Ranks(xs) + Ranks(ys)
  {
  }

  lemma {:induction false} ApplyAppend(target: Row, xs: seq<Change>, ys: seq<Change>)
    ensures Apply(target, xs + ys) == Apply(Apply(target, xs), ys)
    decreases |xs|
  {
    if xs == [] {
      assert xs + ys == ys;
    } else {
      assert (xs + ys)[0] == xs[0];
      assert (xs + ys)[1..] == xs[1..] + ys;
      ApplyAppend(target[xs[0].rank := Text(xs[0].after)], xs[1..], ys);
    }
  }

  /** Two rows that agree on a column still agree on it after the same changes. */
  lemma {:induction false} ApplySameAt(t1: Row, t2: Row, cs: seq<Change>, col: string)
    requires (col in t1 <==> col in t2) && (col in t1 ==> t1[col] == t2[col])
    ensures var a1, a2 := Apply(t1, cs), Apply(t2, cs);
      (col in a1 <==> col in a2) && (col in a1 ==> a1[col] == a2[col])
    decreases |cs|
  {
    if cs != [] {
      var v := Text(cs[0].after);
      ApplySameAt(t1[cs[0].rank := v], t2[cs[0].rank := v], cs[1..], col);
    }
  }

  /** The validator's verdicts and the corrector's changes read a row only
      through its three ranks. */
  lemma SameRanksSameVerdicts(x: Row, y: Row, resp: Response)
    requires forall rank :: rank in RANKS ==> Get(x, rank) == Get(y, rank)
    ensures Verdicts(x, resp) == Verdicts(y, resp)
    ensures Changes(x, resp) == Changes(y, resp)
  {
    assert Get(x, ORDER) == Get(y, ORDER) && Get(x, FAMILY) == Get(y, FAMILY)
      && Get(x, GENUS) == Get(y, GENUS);
    SameRanksSameChangedRanks(x, y, resp, RANKS);
    var rs := ChangedRanks(x, resp, RANKS);
    var cx, cy := Changes(x, resp), Changes(y, resp);
    assert |cx| == |Ranks(cx)| == |rs| == |Ranks(cy)| == |cy|;
    forall k | 0 <= k < |cx| ensures cx[k] == cy[k] {
      assert cx[k].rank == rs[k] == cy[k].rank;
      assert rs[k] in RANKS;
      assert LocalValue(x, rs[k]) == LocalValue(y, rs[k]);
    }
  }

  lemma {:induction false} SameRanksSameChangedRanks(x: Row, y: Row, resp: Response, ranks: seq<string>)
    requires forall rank :: rank in ranks ==> Get(x, rank) == Get(y, rank)
    ensures ChangedRanks(x, resp, ranks) == ChangedRanks(y, resp, ranks)
  {
    if ranks != [] {
      assert LocalValue(x, ranks[0]) == LocalValue(y, ranks[0]);
      SameRanksSameChangedRanks(x, y, resp, ranks[1..]);
    }
  }

  /** Distinct ranks: each rank is changed at most once. */
  lemma ChangesHaveDistinctRanks(row: Row, resp: Response)
    ensures Distinct(Ranks(Changes(row, resp)))
  {
    assert Distinct(RANKS);
    SubsequenceDistinct(Ranks(Changes(row, resp)), RANKS);
  }

  lemma {:induction false} SubsequenceDistinct(xs: seq<string>, ys: seq<string>)
    requires Subsequence(xs, ys) && Distinct(ys)
    ensures Distinct(xs)
    decreases |ys|
  {
    if xs != [] {
      if xs[0] == ys[0] && Subsequence(xs[1..], ys[1..]) {
        SubsequenceDistinct(xs[1..], ys[1..]);
        SubsequenceMembers(xs[1..], ys[1..]);
        assert forall k :: 1 <= k < |xs| ==> xs[k] in xs[1..];
        assert forall y :: y in ys[1..] ==> y != ys[0];
      } else {
        SubsequenceDistinct(xs, ys[1..]);
      }
    }
  }

  /** The value a rank has after the correction, read back as the corrector and
      the validator read it. */
  lemma CorrectedRankValue(target: Row, row: Row, resp: Response, rank: string)
    requires rank in RANKS
    ensures var fixed := Apply(target, Changes(row, resp));
      Get(fixed, rank) ==
        if Differs(row, rank, RankOf(resp, rank)) then Some(AuthorityValue(RankOf(resp, rank)))
        else Get(target, rank)
  {
    if Differs(row, rank, RankOf(resp, rank)) {
      ChangedRankWritten(target, row, resp, rank);
    } else {
      UnchangedRankKept(target, row, resp, rank);
    }
  }

  lemma ChangedRankWritten(target: Row, row: Row, resp: Response, rank: string)
    requires rank in RANKS && Differs(row, rank, RankOf(resp, rank))
    ensures var fixed := Apply(target, Changes(row, resp));
      rank in fixed && fixed[rank] == Text(AuthorityValue(RankOf(resp, rank)))
  {
    var cs := Changes(row, resp);
    ChangesHaveDistinctRanks(row, resp);
    assert rank in Ranks(cs);
    var k :| 0 <= k < |cs| && Ranks(cs)[k] == rank;
    assert cs[k] == ChangeFor(row, resp, rank);
  }

  lemma UnchangedRankKept(target: Row, row: Row, resp: Response, rank: string)
    requires !Differs(row, rank, RankOf(resp, rank))
    ensures var fixed := Apply(target, Changes(row, resp));
      (rank in fixed <==> rank in target) && (rank in target ==> fixed[rank] == target[rank])
  {
    assert rank !in Ranks(Changes(row, resp));
  }

  /** Correcting converges: applying `compare_and_correct` a second time with the
      same authority answer changes nothing and logs nothing. */
  lemma CorrectionIsIdempotent(row: Row, resp: Response)
    ensures Changes(Apply(row, Changes(row, resp)), resp) == []
    ensures Log(Changes(Apply(row, Changes(row, resp)), resp)) == ""
  {
    var fixed := Apply(row, Changes(row, resp));
    forall rank | rank in RANKS ensures !Differs(fixed, rank, RankOf(resp, rank)) {
      NoSecondChange(row, resp, rank);
    }
    var rs := Ranks(Changes(fixed, resp));
    assert forall rank :: rank !in rs;
    assert |rs| == 0;
  }

  lemma NoSecondChange(row: Row, resp: Response, rank: string)
    requires rank in RANKS
    ensures !Differs(Apply(row, Changes(row, resp)), rank, RankOf(resp, rank))
  {
    CorrectedRankValue(row, row, resp, rank);
    var auth := RankOf(resp, rank);
    if Differs(row, rank, auth) {
      StripIdempotent(auth.value);
    }
  }

  /** After a correction the validator finds no mismatch on any rank for which
      the authority gave a non-blank value (or none at all). */
  lemma AgreesAfterCorrection(target: Row, row: Row, resp: Response, rank: string)
    requires rank in RANKS
    requires Get(target, rank) == Get(row, rank)
    requires RankOf(resp, rank).Some? ==> Strip(RankOf(resp, rank).value) != ""
    ensures CompareField(Get(Apply(target, Changes(row, resp)), rank), RankOf(resp, rank), rank) == ""
  {
    var auth := RankOf(resp, rank);
    var fixed := Get(Apply(target, Changes(row, resp)), rank);
    CorrectedRankValue(target, row, resp, rank);
    if auth.Some? {
      var a := auth.value;
      assert a != "" && AuthorityValue(auth) == Strip(a);
      if Differs(row, rank, auth) {
        StripIdempotent(a);
        assert fixed == Some(Strip(a));
        assert Normalize(fixed.value) == Normalize(a);
      } else if fixed.Some? {
        assert fixed == Get(row, rank);
        assert Lower(LocalValue(row, rank)) == Lower(Strip(a));
        assert Normalize(fixed.value) == Normalize(a);
      }
    }
  }

  /** What the corrector decides for one record. */
  datatype Outcome =
    | Skipped                                           // null or generic species
    | LookupFailed                                      // the authority call failed
    | NotConfident(status: string)                      // reply too weak to trust
    | Corrected(status: string, changes: seq<Change>)   // changes applied

  const SKIPPED_NOTE := "Skipped - generic name"
  const LOOKUP_ERROR_NOTE := "GBIF lookup error"
  const NOT_CONFIDENT_NOTE := "No confident match"

  /** The corrector does not ask the authority about a null or generic species. */
  predicate SkipsLookup(row: Row): (r: bool)
  {
    var species := Get(row, SPECIES);
    species.None? || IsGeneric(species.value)
  }

  /** Every record the validator would look up is looked up by the corrector
      too; the one record looked up by the corrector that the validator rejects
      as missing is one whose species is whitespace only. */
  lemma LookupAgreesUpToBlank(row: Row)
    ensures Resolvable(row) ==> !SkipsLookup(row)
    ensures !SkipsLookup(row) && !Resolvable(row) ==>
      Get(row, SPECIES).Some? && AllSpace(Get(row, SPECIES).value)
  {
    var species := Get(row, SPECIES);
    if species.Some? {
      StripEmptyIffAllSpace(species.value);
    }
  }

  /** The reply is an exact match with confidence (0 when absent) of at least
      90; the status it leaves is then "EXACT". */
  predicate Confident(resp: Response): (r: bool)
    ensures r ==> StatusOf(resp) == "EXACT"
  {
    resp.matchType == Some("EXACT") && resp.confidence.GetOr(0) >= 90
  }

  /** The status written for a reply: its match type, or "Unknown". It reads
      as the failure marker only if the authority itself answered so. */
  function StatusOf(resp: Response): (r: string)
    ensures r == LOOKUP_ERROR ==> resp.matchType == Some(LOOKUP_ERROR)
  {
    resp.matchType.GetOr("Unknown")
  }

  /** `auto_correct_row`'s decision. Skipping depends on the species alone;
      a correction happens exactly on a confident reply, and then changes only
      the three ranks, each at most once. */
  function Decide(row: Row, lookup: Lookup): (r: Outcome)
    ensures r.Skipped? <==> SkipsLookup(row)
    ensures r.Corrected? <==> !SkipsLookup(row) && lookup.Found? && Confident(lookup.response)
    ensures r.Corrected? ==>
      Distinct(Ranks(r.changes)) && forall k :: 0 <= k < |r.changes| ==> r.changes[k].rank in RANKS
  {
    if SkipsLookup(row) then Skipped
    else match lookup
      case Failed => LookupFailed
      case Found(resp) =>
        if Confident(resp) then
          var cs := Changes(row, resp);
          ChangesHaveDistinctRanks(row, resp);
          assert forall k :: 0 <= k < |cs| ==> cs[k].rank == Ranks(cs)[k];
          Corrected(StatusOf(resp), cs)
        else NotConfident(StatusOf(resp))
  }

  /** The correction note `auto_correct_row` returns. Each fixed note belongs
      to one outcome; a correction's note is "" exactly when nothing changed. */
  function Note(o: Outcome): (r: string)
    ensures !o.Corrected? ==>
      (r == SKIPPED_NOTE <==> o.Skipped?) && (r == LOOKUP_ERROR_NOTE <==> o.LookupFailed?) &&
      (r == NOT_CONFIDENT_NOTE <==> o.NotConfident?)
    ensures o.Corrected? ==> (r == "" <==> o.changes == [])
  {
    match o
    case Skipped => SKIPPED_NOTE
    case LookupFailed => LOOKUP_ERROR_NOTE
    case NotConfident(_) => NOT_CONFIDENT_NOTE
    case Corrected(_, cs) => Log(cs)
  }

  /** The table row after `auto_correct_row`'s writes: the validation status,
      then the changed ranks. Exactly the written columns are touched. */
  function AfterOutcome(target: Row, o: Outcome): (r: Row)
    ensures forall col :: col in Written(o) ==> col in r
    ensures forall col :: col !in Written(o) ==>
      (col in r <==> col in target) && (col in target ==> r[col] == target[col])
  {
    match o
    case Skipped => target
    case LookupFailed => target[VALIDATION_STATUS := Text(LOOKUP_ERROR)]
    case NotConfident(status) => target[VALIDATION_STATUS := Text(status)]
    case Corrected(status, cs) => Apply(target[VALIDATION_STATUS := Text(status)], cs)
  }

  /** The columns `auto_correct_row` writes, in the order it writes them: none
      when it skips, and otherwise the status first. */
  function Written(o: Outcome): (r: seq<string>)
    ensures r == [] <==> o.Skipped?
    ensures r != [] ==> r[0] == VALIDATION_STATUS
  {
    match o
    case Skipped => []
    case LookupFailed => [VALIDATION_STATUS]
    case NotConfident(_) => [VALIDATION_STATUS]
    case Corrected(_, cs) => [VALIDATION_STATUS] + Ranks(cs)
  }

  /** Once the species passes, the decision is read off the authority's answer. */
  lemma DecideFound(row: Row, resp: Response)
    requires !SkipsLookup(row)
    ensures Decide(row, Found(resp)) ==
      if Confident(resp) then Corrected(StatusOf(resp), Changes(row, resp)) else NotConfident(StatusOf(resp))
  {
  }

  /** The corrector only ever changes the three ranks. */
  predicate RanksOnly(o: Outcome) {
    o.Corrected? ==> forall k :: 0 <= k < |o.changes| ==> o.changes[k].rank in RANKS
  }

  lemma AfterOutcomeFrame(target: Row, o: Outcome)
    requires RanksOnly(o)
    ensures forall col :: col != VALIDATION_STATUS && col !in RANKS ==>
        (col in AfterOutcome(target, o) <==> col in target) &&
        (col in target ==> AfterOutcome(target, o)[col] == target[col])
    ensures !o.Corrected? ==> forall rank :: rank in RANKS ==> Get(AfterOutcome(target, o), rank) == Get(target, rank)
  {
    if o.Corrected? {
      assert forall col :: col in Ranks(o.changes) ==> col in RANKS;
    }
  }

  /** The corrector's contract. A null or generic species is skipped whatever
      the authority would say and nothing is written; otherwise the status is
      always written: "GBIF error" on a failed call, else the match type or
      "Unknown". Ranks change only on a confident reply. Nothing outside the
      status and the three ranks changes. */
  lemma {:induction false} CorrectorContract(target: Row, row: Row, lookup: Lookup)
    ensures var o := Decide(row, lookup);
      (o.Skipped? <==> SkipsLookup(row)) &&
      (o.Skipped? ==> AfterOutcome(target, o) == target &&
                      forall other :: Decide(row, other) == o)
    ensures var o := Decide(row, lookup);
      !SkipsLookup(row) ==>
        (VALIDATION_STATUS in AfterOutcome(target, o) &&
         AfterOutcome(target, o)[VALIDATION_STATUS] ==
           Text(if lookup.Failed? then LOOKUP_ERROR else StatusOf(lookup.response)))
    ensures var o := Decide(row, lookup);
      !(lookup.Found? && Confident(lookup.response)) ==>
        forall rank :: rank in RANKS ==> Get(AfterOutcome(target, o), rank) == Get(target, rank)
    ensures var o := Decide(row, lookup);
      forall col :: col != VALIDATION_STATUS && col !in RANKS ==>
        (col in AfterOutcome(target, o) <==> col in target) &&
        (col in target ==> AfterOutcome(target, o)[col] == target[col])
  {
    var o := Decide(row, lookup);
    if o.Corrected? {
      var cs := o.changes;
      ChangesHaveDistinctRanks(row, lookup.response);
      assert forall col :: col in Ranks(cs) ==> col in RANKS;
      assert VALIDATION_STATUS !in Ranks(cs);
    }
  }

  /** The note tells the outcome apart: each fixed note is returned exactly on
      its own path, and a correction log is never mistaken for one. */
  lemma {:induction false} NoteIdentifiesOutcome(row: Row, lookup: Lookup)
    ensures Note(Decide(row, lookup)) == SKIPPED_NOTE <==> Decide(row, lookup).Skipped?
    ensures Note(Decide(row, lookup)) == LOOKUP_ERROR_NOTE <==> Decide(row, lookup).LookupFailed?
    ensures Note(Decide(row, lookup)) == NOT_CONFIDENT_NOTE <==> Decide(row, lookup).NotConfident?
  {
    var o := Decide(row, lookup);
    if o.Corrected? {
      LogIsNoSentinel(o.changes);
    }
  }

  lemma LogIsNoSentinel(cs: seq<Change>)
    requires forall k :: 0 <= k < |cs| ==> cs[k].rank in RANKS
    ensures Log(cs) !in [SKIPPED_NOTE, LOOKUP_ERROR_NOTE, NOT_CONFIDENT_NOTE]
  {
    var entries := seq(|cs|, k requires 0 <= k < |cs| => LogEntry(cs[k]));
    var r := Log(cs);
    if cs != [] {
      var first := entries[0];
      var rank := cs[0].rank;
      assert first == rank + ": '" + cs[0].before + "' → '" + cs[0].after + "'";
      assert |rank| >= 5;
      assert first[0] == rank[0] && first[1] == rank[1];
      assert r[..|first|] == first;
      assert r[0] == first[0] && r[1] == first[1] by {
        assert r[..|first|][0] == r[0] && r[..|first|][1] == r[1];
      }
      if rank == ORDER {
        assert r[0] == 'O';
      } else if rank == FAMILY {
        assert r[0] == 'F';
      } else {
        assert r[0] == 'G' && r[1] == 'E';
      }
    }
  }
}
