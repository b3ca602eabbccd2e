/** concurrency/scenarios.go: the checks that decide a compare-and-set run from the stored version and
    the ledger, and exactly which histories they accept. */
module Oracles {
  import opened Sums
  import opened Causality
  import opened Ledgers

  datatype Check = Check(name: string, passed: bool, skipped: bool)

  predicate ChecksPassed(checks: seq<Check>) {
    forall i :: 0 <= i < |checks| ==> checks[i].skipped || checks[i].passed
  }

  function CounterChecks(version: int, s: LedgerSnapshot): seq<Check> {
    [
      Check("storedVersionEqualsMatched", version == s.matched, s.indeterminate > 0),
      Check("everyMatchModified", s.modified == s.matched, false),
      Check("oneMatchPerObservedGeneration", s.cas.duplicateMatches == 0, false),
      Check("matchedEdgesAreSuccessive", s.cas.invalidEdges == 0 && s.cas.matchedEdges == s.matched, false),
      Check("matchedEdgesFormCompleteChain", version == 0 || s.cas.highestObserved == version - 1, s.indeterminate > 0)
    ]
  }

  function FieldDivergentCounterChecks(version: int, s: LedgerSnapshot): seq<Check> {
    [
      Check("storedVersionEqualsUniqueObservedChain", version == s.cas.uniqueObserved, s.indeterminate > 0),
      Check("everyMatchModified", s.modified == s.matched, false),
      Check("matchedEdgesAreSuccessive", s.cas.invalidEdges == 0 && s.cas.matchedEdges == s.matched, false),
      Check("observedGenerationsFormCompleteChain", version == 0 || s.cas.highestObserved == version - 1,
            s.indeterminate > 0)
    ]
  }

  function StrictCasClientOutcomeChecks(s: LedgerSnapshot): seq<Check> {
    [
      Check("refusedCASReturnsNoMatch", s.rejected == 0, false),
      Check("everyConclusiveCASAttemptHasCommandResult", s.matched + s.noMatch == s.attempts - s.indeterminate, false)
    ]
  }

  /** The extra check of divergent-cas: the final value was written by a matched operation. */
  function FinalValueCheck(value: int, s: LedgerSnapshot): Check {
    Check("finalValueBelongsToAcceptedOperation", 0 < value <= s.attempts && s.cas.OperationMatched(value),
          s.indeterminate > 0)
  }

  /** NoMode is the run that sets no merge mode. */
  datatype MergeMode = NoMode | DocumentTouched | FieldTouched | FieldDivergent | DocumentDivergent

  /** The modes in which a refused update must come back as no match. */
  predicate Strict(mode: MergeMode) {
    mode == DocumentTouched || mode == DocumentDivergent
  }

  function PayloadCheck(retained: bool): Check {
    Check("payloadRetained", retained, false)
  }

  function StrictPart(mode: MergeMode, s: LedgerSnapshot): seq<Check> {
    if Strict(mode) then StrictCasClientOutcomeChecks(s) else []
  }

  /** The checks of the cas scenario. */
  function CasChecks(mode: MergeMode, version: int, retained: bool, s: LedgerSnapshot): seq<Check> {
    (if mode == FieldDivergent || mode == DocumentDivergent then FieldDivergentCounterChecks(version, s)
     else CounterChecks(version, s))
    + StrictPart(mode, s) + [PayloadCheck(retained)]
  }

  /** The checks of the divergent-cas scenario. */
  function DivergentCasChecks(mode: MergeMode, version: int, value: int, retained: bool,
                              s: LedgerSnapshot): seq<Check> {
    CounterChecks(version, s) + StrictPart(mode, s) + [FinalValueCheck(value, s)] + [PayloadCheck(retained)]
  }

  lemma ChecksPassedConcat(a: seq<Check>, b: seq<Check>)
    ensures ChecksPassed(a + b) <==> ChecksPassed(a) && ChecksPassed(b)
  {
    if ChecksPassed(a + b) {
      forall i | 0 <= i < |a| ensures a[i].skipped || a[i].passed { assert (a + b)[i] == a[i]; }
      forall i | 0 <= i < |b| ensures b[i].skipped || b[i].passed { assert (a + b)[|a| + i] == b[i]; }
    }
  }

  // ---------------------------------------------------------------- what the counters reveal about the outcomes

  /** The outcome tells of a step from one generation to the next, within the bound it gives. */
  predicate Successive(o: Outcome) {
    && o.cas.Some?
    && 0 <= o.cas.value.observed
    && o.cas.value.proposed == o.cas.value.observed + 1
    && (o.bounded ==> o.cas.value.observed <= o.maximum)
  }

  /** A match modified the document and left a successive edge within its bound. */
  predicate CleanMatch(o: Outcome) {
    o.kind == Matched ==> o.modified && Successive(o)
  }

  ghost predicate CleanMatches(history: seq<Outcome>) {
    forall o :: o in history ==> CleanMatch(o)
  }

  function Observed(history: seq<Outcome>): seq<int> {
    Generations(Edges(history))
  }

  lemma GenerationsConcat(a: seq<Edge>, b: seq<Edge>)
    requires |b| <= 1
    ensures Generations(a + b) == Generations(a) + Generations(b)
  {
    if b == [] {
      assert a + b == a;
    } else {
      assert (a + b)[..|a| + |b| - 1] == a + b[..|b| - 1];
      assert b[..0] == [] && a + [] == a;
    }
  }

  /** The counters agree exactly when every match is clean. */
  lemma {:induction false} CountersRevealCleanMatches(history: seq<Outcome>)
    requires forall o :: o in history ==> Acceptable(o)
    ensures |Observed(history)| <= |Edges(history)| <= Tally(history, Matched)
    ensures Sum(history, IsModified()) <= Tally(history, Matched)
    ensures CleanMatches(history) <==>
            && Sum(history, IsModified()) == Tally(history, Matched)
            && |Edges(history)| == Tally(history, Matched)
            && |Observed(history)| == |Edges(history)|
  {
    if history != [] {
      var init, o := history[..|history| - 1], history[|history| - 1];
      assert history == init + [o];
      CountersRevealCleanMatches(init);
      HistoryStep(init, o);
      GenerationsConcat(Edges(init), EdgeOf(o));
      assert o in history && Acceptable(o);
      assert CleanMatches(history) <==> CleanMatches(init) && CleanMatch(o);
    }
  }

  // ---------------------------------------------------------------- exactness

  function Upto(n: nat): seq<int> {
    seq(n, i => i)
  }

  /** Generations 0, ..., version-1, each once, in any order. */
  ghost predicate IsChain(gens: seq<int>, version: int) {
    0 <= version && multiset(gens) == multiset(Upto(version))
  }

  /** As many distinct generations as the version, the highest just below it, fill the chain. */
  lemma ChainByCounting(gens: seq<int>, version: int)
    requires forall g :: g in gens ==> 0 <= g
    ensures IsChain(gens, version) <==>
            |gens| == version && |Distinct(gens)| == |gens| && (version == 0 || Highest(gens) == version - 1)
  {
    if |gens| == version && |Distinct(gens)| == |gens| && (version == 0 || Highest(gens) == version - 1) {
      Pigeonhole(Distinct(gens), version);
      DistinctSize(gens);
      forall g ensures multiset(gens)[g] == multiset(Upto(version))[g] {
        OccursOnce(gens, g);
        UptoOccurs(version, g);
        assert g in gens <==> g in Distinct(gens);
      }
    }
    if IsChain(gens, version) {
      assert |gens| == |multiset(gens)| == |multiset(Upto(version))| == |Upto(version)|;
      forall g ensures g in gens <==> 0 <= g < version {
        UptoOccurs(version, g);
        assert g in gens <==> g in multiset(gens);
      }
      assert Distinct(gens) == Below(version);
      if version > 0 { assert version - 1 in gens; }
    }
  }

  lemma UptoOccurs(n: nat, g: int)
    ensures multiset(Upto(n))[g] == if 0 <= g < n then 1 else 0
  {
    OccursOnce(Upto(n), g);
    assert g in Upto(n) <==> 0 <= g < n by {
      if 0 <= g < n { assert Upto(n)[g] == g; }
    }
  }

  /** counterChecks accepts a run exactly when every match is a clean edge, no generation was matched
      twice and, unless an outcome is unknown, the matched generations are 0, ..., version-1 in some order. */
  lemma CounterChecksExact(version: int, s: LedgerSnapshot, history: seq<Outcome>)
    requires Reports(s, history) && forall o :: o in history ==> Acceptable(o)
    ensures ChecksPassed(CounterChecks(version, s)) <==>
            && CleanMatches(history)
            && |Distinct(Observed(history))| == |Observed(history)|
            && (Tally(history, Indeterminate) == 0 ==> IsChain(Observed(history), version))
  {
    TalliesBalance(history);
    CountersRevealCleanMatches(history);
    DistinctSize(Observed(history));
    ChainByCounting(Observed(history), version);
    CounterChecksMeaning(version, s);
  }

  lemma CounterChecksMeaning(version: int, s: LedgerSnapshot)
    ensures ChecksPassed(CounterChecks(version, s)) <==>
            && (s.indeterminate > 0 || (version == s.matched && (version == 0 || s.cas.highestObserved == version - 1)))
            && s.modified == s.matched == s.cas.matchedEdges && s.cas.duplicateMatches == 0 && s.cas.invalidEdges == 0
  {
    var checks := CounterChecks(version, s);
    assert ChecksPassed(checks) <==>
           (checks[0].skipped || checks[0].passed) && checks[1].passed && checks[2].passed && checks[3].passed
           && (checks[4].skipped || checks[4].passed);
  }

  /** In the convergent modes a generation may be matched repeatedly: the checks accept exactly the runs
      whose clean edges cover 0, ..., version-1. */
  lemma FieldDivergentChecksExact(version: int, s: LedgerSnapshot, history: seq<Outcome>)
    requires Reports(s, history) && forall o :: o in history ==> Acceptable(o)
    ensures ChecksPassed(FieldDivergentCounterChecks(version, s)) <==>
            && CleanMatches(history)
            && (Tally(history, Indeterminate) == 0 ==> 0 <= version && Distinct(Observed(history)) == Below(version))
  {
    TalliesBalance(history);
    CountersRevealCleanMatches(history);
    SetByCounting(Observed(history), version);
    FieldDivergentChecksMeaning(version, s);
  }

  lemma FieldDivergentChecksMeaning(version: int, s: LedgerSnapshot)
    ensures ChecksPassed(FieldDivergentCounterChecks(version, s)) <==>
            && (s.indeterminate > 0
                || (version == s.cas.uniqueObserved && (version == 0 || s.cas.highestObserved == version - 1)))
            && s.modified == s.matched == s.cas.matchedEdges && s.cas.invalidEdges == 0
  {
    var checks := FieldDivergentCounterChecks(version, s);
    assert ChecksPassed(checks) <==>
           (checks[0].skipped || checks[0].passed) && checks[1].passed && checks[2].passed
               && (checks[3].skipped || checks[3].passed);
  }

  lemma SetByCounting(gens: seq<int>, version: int)
    requires forall g :: g in gens ==> 0 <= g
    ensures 0 <= version && Distinct(gens) == Below(version) <==>
            version == |Distinct(gens)| && (version == 0 || Highest(gens) == version - 1)
  {
    if version == |Distinct(gens)| && (version == 0 || Highest(gens) == version - 1) {
      Pigeonhole(Distinct(gens), version);
    }
    if 0 < version && Distinct(gens) == Below(version) {
      assert version - 1 in Distinct(gens) && Highest(gens) in Distinct(gens);
    }
  }

  /** On a ledger that balances, the second strict check says no more than the first. */
  lemma StrictChecksExact(s: LedgerSnapshot, history: seq<Outcome>)
    requires ReportsTotals(s, history) && forall o :: o in history ==> Acceptable(o)
    ensures ChecksPassed(StrictCasClientOutcomeChecks(s)) <==> forall o :: o in history ==> o.kind != Rejected
  {
    SnapshotsValidate(s, history);
    NoneOfKind(history, Rejected);
    var checks := StrictCasClientOutcomeChecks(s);
    assert ChecksPassed(checks) <==> checks[0].passed && checks[1].passed;
  }

  lemma StrictPartExact(mode: MergeMode, s: LedgerSnapshot, history: seq<Outcome>)
    requires ReportsTotals(s, history) && forall o :: o in history ==> Acceptable(o)
    ensures ChecksPassed(StrictPart(mode, s)) <==> Strict(mode) ==> s.rejected == 0
  {
    if Strict(mode) {
      StrictChecksExact(s, history);
      NoneOfKind(history, Rejected);
    }
  }

  lemma {:induction false} NoneOfKind(history: seq<Outcome>, kind: OutcomeKind)
    ensures 0 <= Tally(history, kind)
    ensures Tally(history, kind) == 0 <==> forall o :: o in history ==> o.kind != kind
  {
    if history != [] {
      var init, o := history[..|history| - 1], history[|history| - 1];
      assert history == init + [o];
      NoneOfKind(init, kind);
      HistoryStep(init, o);
    }
  }

  // ---------------------------------------------------------------- the verdicts, said of the outcomes alone

  /** Outcome i is a match that tells of a step from generation g. */
  predicate Observes(history: seq<Outcome>, i: nat, g: int) {
    && i < |history| && history[i].kind == Matched && Successive(history[i])
    && history[i].cas.value.observed == g
  }

  ghost predicate ObservedIn(history: seq<Outcome>, g: int) {
    exists i: nat :: Observes(history, i, g)
  }

  /** No two matches tell of a step from the same generation. */
  ghost predicate NoneTwice(history: seq<Outcome>) {
    forall i: nat, j: nat, g :: Observes(history, i, g) && Observes(history, j, g) ==> i == j
  }

  /** The matches tell of a step from each of 0, ..., version-1 and from no other generation. */
  ghost predicate Covers(history: seq<Outcome>, version: int) {
    0 <= version && forall g :: ObservedIn(history, g) <==> 0 <= g < version
  }

  lemma ObservesStep(init: seq<Outcome>, o: Outcome, i: nat, g: int)
    ensures Observes(init + [o], i, g) <==>
            Observes(init, i, g) || (i == |init| && o.kind == Matched && Successive(o) && o.cas.value.observed == g)
  {
  }

  lemma ObservedInStep(init: seq<Outcome>, o: Outcome, g: int)
    ensures ObservedIn(init + [o], g) <==>
            ObservedIn(init, g) || (o.kind == Matched && Successive(o) && o.cas.value.observed == g)
  {
    forall i: nat ensures Observes(init + [o], i, g) <==>
      Observes(init, i, g) || (i == |init| && o.kind == Matched && Successive(o) && o.cas.value.observed == g)
    {
      ObservesStep(init, o, i, g);
    }
    if o.kind == Matched && Successive(o) && o.cas.value.observed == g {
      assert Observes(init + [o], |init|, g);
    }
  }

  lemma NoneTwiceStep(init: seq<Outcome>, o: Outcome)
    ensures NoneTwice(init + [o]) <==>
            NoneTwice(init) && (o.kind == Matched && Successive(o) ==> !ObservedIn(init, o.cas.value.observed))
  {
    forall i: nat, g ensures Observes(init + [o], i, g) <==>
      Observes(init, i, g) || (i == |init| && o.kind == Matched && Successive(o) && o.cas.value.observed == g)
    {
      ObservesStep(init, o, i, g);
    }
    if o.kind == Matched && Successive(o) && ObservedIn(init, o.cas.value.observed) {
      var i: nat :| Observes(init, i, o.cas.value.observed);
      assert Observes(init + [o], i, o.cas.value.observed);
      assert Observes(init + [o], |init|, o.cas.value.observed);
    }
  }

  /** The step a new outcome makes in the list of observed generations. */
  lemma ObservedStep(init: seq<Outcome>, o: Outcome)
    ensures Observed(init + [o]) ==
            Observed(init) + if o.kind == Matched && Successive(o) then [o.cas.value.observed] else []
  {
    HistoryStep(init, o);
    GenerationsConcat(Edges(init), EdgeOf(o));
    if o.kind == Matched && o.cas.Some? {
      var none: seq<Edge> := [];
      assert none + [EdgeOf(o)[0]] == EdgeOf(o);
      GenerationsStep(none, EdgeOf(o)[0]);
    }
  }

  /** The generations of the ledger are those the matches tell of. */
  lemma {:induction false} ObservedOutcomes(history: seq<Outcome>)
    ensures forall g :: g in Observed(history) <==> ObservedIn(history, g)
  {
    if history != [] {
      var init, o := history[..|history| - 1], history[|history| - 1];
      assert history == init + [o];
      ObservedOutcomes(init);
      ObservedStep(init, o);
      forall g ensures g in Observed(history) <==> ObservedIn(history, g) { ObservedInStep(init, o, g); }
    }
  }

  /** They repeat exactly when two matches tell of one. */
  lemma {:induction false} ObservedOnce(history: seq<Outcome>)
    ensures |Distinct(Observed(history))| == |Observed(history)| <==> NoneTwice(history)
  {
    if history == [] {
      assert Distinct(Observed(history)) == {};
    } else {
      var init, o := history[..|history| - 1], history[|history| - 1];
      assert history == init + [o];
      ObservedOnce(init);
      ObservedStep(init, o);
      NoneTwiceStep(init, o);
      if o.kind == Matched && Successive(o) {
        ObservedOutcomes(init);
        DistinctSnoc(Observed(init), o.cas.value.observed);
        DistinctSize(Observed(init));
      } else {
        assert Observed(history) == Observed(init);
      }
    }
  }

  lemma CoversIffDistinct(history: seq<Outcome>, version: int)
    ensures Covers(history, version) <==> 0 <= version && Distinct(Observed(history)) == Below(version)
  {
    ObservedOutcomes(history);
    assert forall g :: g in Distinct(Observed(history)) <==> ObservedIn(history, g);
  }

  lemma ChainIffCovers(history: seq<Outcome>, version: int)
    requires NoneTwice(history)
    ensures IsChain(Observed(history), version) <==> Covers(history, version)
  {
    ObservedOnce(history);
    CoversIffDistinct(history, version);
    SetByCounting(Observed(history), version);
    ChainByCounting(Observed(history), version);
  }

  /** Every outcome told what became of the update. */
  predicate AllKnown(history: seq<Outcome>) {
    forall o :: o in history ==> o.kind != Indeterminate
  }

  predicate NothingRejected(history: seq<Outcome>) {
    forall o :: o in history ==> o.kind != Rejected
  }

  lemma PayloadDecides(retained: bool)
    ensures ChecksPassed([PayloadCheck(retained)]) <==> retained
  {
    assert [PayloadCheck(retained)][0] == PayloadCheck(retained);
  }

  lemma CounterVerdict(version: int, s: LedgerSnapshot, history: seq<Outcome>)
    requires Reports(s, history) && forall o :: o in history ==> Acceptable(o)
    ensures ChecksPassed(CounterChecks(version, s)) <==>
            CleanMatches(history) && NoneTwice(history) && (AllKnown(history) ==> Covers(history, version))
  {
    CounterChecksExact(version, s, history);
    NoneOfKind(history, Indeterminate);
    ObservedOnce(history);
    if NoneTwice(history) { ChainIffCovers(history, version); }
  }

  lemma FieldDivergentVerdict(version: int, s: LedgerSnapshot, history: seq<Outcome>)
    requires Reports(s, history) && forall o :: o in history ==> Acceptable(o)
    ensures ChecksPassed(FieldDivergentCounterChecks(version, s)) <==>
            CleanMatches(history) && (AllKnown(history) ==> Covers(history, version))
  {
    FieldDivergentChecksExact(version, s, history);
    NoneOfKind(history, Indeterminate);
    CoversIffDistinct(history, version);
  }

  lemma StrictVerdict(mode: MergeMode, s: LedgerSnapshot, history: seq<Outcome>)
    requires ReportsTotals(s, history) && forall o :: o in history ==> Acceptable(o)
    ensures ChecksPassed(StrictPart(mode, s)) <==>
            (mode == DocumentTouched || mode == DocumentDivergent ==> NothingRejected(history))
  {
    StrictPartExact(mode, s, history);
    NoneOfKind(history, Rejected);
  }

  /** Which reports of whatever history the cas scenario accepts, in every merge mode. */
  lemma CasChecksExact(mode: MergeMode, version: int, retained: bool, s: LedgerSnapshot, history: seq<Outcome>)
    requires Reports(s, history) && forall o :: o in history ==> Acceptable(o)
    ensures ChecksPassed(CasChecks(mode, version, retained, s)) <==>
            && CleanMatches(history)
            && (mode != FieldDivergent && mode != DocumentDivergent ==> NoneTwice(history))
            && (AllKnown(history) ==> Covers(history, version))
            && (mode == DocumentTouched || mode == DocumentDivergent ==> NothingRejected(history))
            && retained
  {
    CounterVerdict(version, s, history);
    FieldDivergentVerdict(version, s, history);
    StrictVerdict(mode, s, history);
    PayloadDecides(retained);
    var counters := if mode == FieldDivergent || mode == DocumentDivergent
                    then FieldDivergentCounterChecks(version, s) else CounterChecks(version, s);
    ChecksPassedConcat(counters, StrictPart(mode, s));
    ChecksPassedConcat(counters + StrictPart(mode, s), [PayloadCheck(retained)]);
  }

  /** A recorded match of this operation tells of a successive step. */
  predicate MatchedBy(history: seq<Outcome>, i: nat, sequence: int) {
    i < |history| && history[i].kind == Matched && Successive(history[i]) && history[i].sequence == sequence
  }

  lemma {:induction false} RecordedMatchIff(history: seq<Outcome>, sequence: int)
    ensures RecordedMatch(Edges(history), sequence) <==> exists i: nat :: MatchedBy(history, i, sequence)
  {
    if history != [] {
      var init, o := history[..|history| - 1], history[|history| - 1];
      assert history == init + [o];
      RecordedMatchIff(init, sequence);
      HistoryStep(init, o);
      forall i: nat | MatchedBy(init, i, sequence) ensures MatchedBy(history, i, sequence) {}
      forall i: nat | MatchedBy(history, i, sequence) && i < |init| ensures MatchedBy(init, i, sequence) {}
      if EdgeOf(o) != [] {
        RecordedMatchStep(Edges(init), EdgeOf(o)[0], sequence);
        if Successive(o) && o.sequence == sequence { assert MatchedBy(history, |init|, sequence); }
      } else {
        assert Edges(history) == Edges(init);
      }
    }
  }

  /** The bit the report holds for an operation says whether a recorded match came from it. */
  lemma FinalValueVerdict(value: int, s: LedgerSnapshot, history: seq<Outcome>)
    requires Reports(s, history) && forall o :: o in history ==> Acceptable(o)
    ensures ChecksPassed([FinalValueCheck(value, s)]) <==>
            AllKnown(history) ==> 0 < value <= |history| && exists i: nat :: MatchedBy(history, i, value)
  {
    NoneOfKind(history, Indeterminate);
    RecordedMatchIff(history, value);
    assert s.cas.OperationMatched(value) <==> 0 < value && RecordedMatch(Edges(history), value);
    var check := FinalValueCheck(value, s);
    assert [check][0] == check;
  }

  /** Which reports of whatever history the divergent-cas scenario accepts. */
  lemma DivergentCasChecksExact(mode: MergeMode, version: int, value: int, retained: bool, s: LedgerSnapshot,
                                history: seq<Outcome>)
    requires Reports(s, history) && forall o :: o in history ==> Acceptable(o)
    ensures ChecksPassed(DivergentCasChecks(mode, version, value, retained, s)) <==>
            && CleanMatches(history) && NoneTwice(history)
            && (AllKnown(history) ==> Covers(history, version))
            && (mode == DocumentTouched || mode == DocumentDivergent ==> NothingRejected(history))
            && (AllKnown(history) ==> 0 < value <= |history| && exists i: nat :: MatchedBy(history, i, value))
            && retained
  {
    CounterVerdict(version, s, history);
    StrictVerdict(mode, s, history);
    FinalValueVerdict(value, s, history);
    PayloadDecides(retained);
    var counters, strict, final := CounterChecks(version, s), StrictPart(mode, s), [FinalValueCheck(value, s)];
    ChecksPassedConcat(counters, strict);
    ChecksPassedConcat(counters + strict, final);
    ChecksPassedConcat(counters + strict + final, [PayloadCheck(retained)]);
  }

  // ---------------------------------------------------------------- what each check says

  predicate EveryMatchModified(history: seq<Outcome>) {
    forall o :: o in history && o.kind == Matched ==> o.modified
  }

  predicate EveryMatchSuccessive(history: seq<Outcome>) {
    forall o :: o in history && o.kind == Matched ==> Successive(o)
  }

  lemma {:induction false} MatchesModified(history: seq<Outcome>)
    requires forall o :: o in history ==> Acceptable(o)
    ensures Sum(history, IsModified()) <= Tally(history, Matched)
    ensures Sum(history, IsModified()) == Tally(history, Matched) <==>
            EveryMatchModified(history)
  {
    if history != [] {
      var init, o := history[..|history| - 1], history[|history| - 1];
      assert history == init + [o];
      MatchesModified(init);
      HistoryStep(init, o);
      assert o in history && Acceptable(o);
    }
  }

  lemma {:induction false} MatchesSuccessive(history: seq<Outcome>)
    ensures |Observed(history)| <= |Edges(history)| <= Tally(history, Matched)
    ensures |Observed(history)| == |Edges(history)| == Tally(history, Matched) <==>
            EveryMatchSuccessive(history)
  {
    if history != [] {
      var init, o := history[..|history| - 1], history[|history| - 1];
      assert history == init + [o];
      MatchesSuccessive(init);
      HistoryStep(init, o);
      ObservedStep(init, o);
      assert o in history;
    }
  }

  lemma CountersSay(s: LedgerSnapshot, history: seq<Outcome>)
    requires Reports(s, history) && forall o :: o in history ==> Acceptable(o)
    ensures s.matched == Tally(history, Matched) && s.cas.highestObserved == Highest(Observed(history))
    ensures s.indeterminate > 0 <==> !AllKnown(history)
    ensures s.modified == s.matched <==> EveryMatchModified(history)
    ensures s.cas.duplicateMatches == 0 <==> NoneTwice(history)
    ensures s.cas.invalidEdges == 0 && s.cas.matchedEdges == s.matched <==>
            EveryMatchSuccessive(history)
  {
    NoneOfKind(history, Indeterminate);
    MatchesModified(history);
    MatchesSuccessive(history);
    ObservedOnce(history);
  }

  /** What each check of the exact chain finds out about the outcomes. */
  lemma CounterChecksSay(version: int, s: LedgerSnapshot, history: seq<Outcome>)
    requires Reports(s, history) && forall o :: o in history ==> Acceptable(o)
    ensures var checks := CounterChecks(version, s);
            && |checks| == 5
            && (checks[0].passed <==> version == Tally(history, Matched))
            && (checks[1].passed <==> EveryMatchModified(history))
            && (checks[2].passed <==> NoneTwice(history))
            && (checks[3].passed <==> EveryMatchSuccessive(history))
            && (checks[4].passed <==> version == 0 || version - 1 == Highest(Observed(history)))
            && !checks[1].skipped && !checks[2].skipped && !checks[3].skipped
            && (checks[0].skipped <==> !AllKnown(history)) && (checks[4].skipped <==> !AllKnown(history))
  {
    CountersSay(s, history);
  }
}
