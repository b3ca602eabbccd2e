/** concurrency/ledger.go: classifying and counting outcomes. A ledger is described by the history of
    the outcomes it accepted. */
module Ledgers {
  import opened Common
  import opened Sums
  import opened Causality

  /** A kind is a string; any other than the four known ones is refused. */
  datatype OutcomeKind = Matched | NoMatch | Rejected | Indeterminate | Unknown(name: string)

  datatype Outcome = Outcome(kind: OutcomeKind, modified: bool, error: Option<string>, sequence: int, worker: int,
                             cas: Option<CasOperation>, maximum: int, bounded: bool)

  datatype WriteException = WriteException(concernError: bool, writeErrors: nat)

  /** What can be found in the chain of an error; one error may answer to several descriptions. */
  datatype UpdateError = UpdateError(message: string, canceled: bool, deadlineExceeded: bool, network: bool,
                                     command: bool, write: Option<WriteException>)

  /** The write was done, but not as widely as asked. */
  predicate WriteConcernOnly(e: UpdateError) {
    e.write.Some? && e.write.value.concernError && e.write.value.writeErrors == 0
  }

  /** The write may have been done although nobody said so. */
  predicate LeavesFateOpen(e: UpdateError) {
    e.canceled || e.deadlineExceeded || e.network || WriteConcernOnly(e)
  }

  /** The server answered for the write itself. */
  predicate Answered(e: UpdateError) {
    e.command || e.write.Some?
  }

  predicate Refuses(e: UpdateError) {
    Answered(e) && !LeavesFateOpen(e)
  }

  /** An error that leaves the fate of the write open is indeterminate, whatever else it says. */
  function UpdateOutcome(matched: nat, modified: nat, error: Option<UpdateError>): (o: Outcome)
    ensures o.kind == Rejected <==> error.Some? && Refuses(error.value)
    ensures o.kind == Indeterminate <==> error.Some? && !Refuses(error.value)
    ensures o.kind == Matched <==> error == None && matched > 0
    ensures o.kind == NoMatch <==> error == None && matched == 0
    ensures o.modified <==> o.kind == Matched && modified > 0
    ensures o.cas == None && o.error == if error.Some? then Some(error.value.message) else None
  {
    var blank := Outcome(NoMatch, false, None, 0, 0, None, 0, false);
    if error.Some? then
      var e := error.value;
      var failed := blank.(error := Some(e.message));
      if e.canceled || e.deadlineExceeded || e.network || WriteConcernOnly(e) then failed.(kind := Indeterminate)
      else if e.command || e.write.Some? then failed.(kind := Rejected)
      else failed.(kind := Indeterminate)
    else if matched == 0 then blank
    else blank.(kind := Matched, modified := modified > 0)
  }

  /** Whatever else an error says: cancellation, deadline, network and a mere write concern failure come first. */
  lemma ErrorsAreClassified(matched: nat, modified: nat, e: UpdateError)
    ensures var kind := UpdateOutcome(matched, modified, Some(e)).kind;
            && (e.canceled || e.deadlineExceeded || e.network ==> kind == Indeterminate)
            && (e.write == Some(WriteException(true, 0)) ==> kind == Indeterminate)
            && (!e.canceled && !e.deadlineExceeded && !e.network ==>
                  && (e.write.Some? && e.write.value.writeErrors > 0 ==> kind == Rejected)
                  && (e.write.Some? && !e.write.value.concernError ==> kind == Rejected)
                  && (e.write.None? && e.command ==> kind == Rejected)
                  && (e.write.None? && !e.command ==> kind == Indeterminate))
  {
  }

  /** Record refuses an unknown kind, and a modification by anything but a match. */
  predicate Acceptable(o: Outcome) {
    !o.kind.Unknown? && (o.modified ==> o.kind == Matched)
  }

  // ---------------------------------------------------------------- what a history amounts to

  function One(b: bool): int {
    if b then 1 else 0
  }

  function IsKind(kind: OutcomeKind): Outcome -> int {
    (o: Outcome) => One(o.kind == kind)
  }

  function IsModified(): Outcome -> int {
    (o: Outcome) => One(o.modified)
  }

  function Tally(history: seq<Outcome>, kind: OutcomeKind): int {
    Sum(history, IsKind(kind))
  }

  /** The edge an outcome contributes to the causal ledger. */
  function EdgeOf(o: Outcome): seq<Edge> {
    if o.kind == Matched && o.cas.Some? then [Edge(o.sequence, o.worker, o.maximum, o.bounded, o.cas.value)] else []
  }

  function Edges(history: seq<Outcome>): seq<Edge> {
    if history == [] then [] else Edges(history[..|history| - 1]) + EdgeOf(history[|history| - 1])
  }

  function Errors(history: seq<Outcome>): seq<string> {
    if history == [] then []
    else
      var o := history[|history| - 1];
      Errors(history[..|history| - 1]) + if o.error.Some? then [o.error.value] else []
  }

  lemma HistoryStep(history: seq<Outcome>, o: Outcome)
    ensures Edges(history + [o]) == Edges(history) + EdgeOf(o)
    ensures Errors(history + [o]) == Errors(history) + if o.error.Some? then [o.error.value] else []
    ensures forall kind :: Tally(history + [o], kind) == Tally(history, kind) + One(o.kind == kind)
    ensures Sum(history + [o], IsModified()) == Sum(history, IsModified()) + One(o.modified)
  {
    assert (history + [o])[..|history|] == history;
    forall kind ensures Tally(history + [o], kind) == Tally(history, kind) + One(o.kind == kind) {
      SumSnoc(history, o, IsKind(kind));
    }
    SumSnoc(history, o, IsModified());
  }

  lemma SingleOutcome(o: Outcome)
    ensures Edges([o]) == EdgeOf(o) && Errors([o]) == if o.error.Some? then [o.error.value] else []
    ensures forall kind :: Tally([o], kind) == One(o.kind == kind)
    ensures Sum([o], IsModified()) == One(o.modified)
  {
    HistoryStep([], o);
    assert [] + [o] == [o];
  }

  datatype LedgerSnapshot = LedgerSnapshot(attempts: int, matched: int, noMatch: int, modified: int, rejected: int,
                                           indeterminate: int, errorSamples: seq<string>, cas: CasSnapshot)
  {
    /** Whether Validate returns no error. */
    predicate Validates() {
      && attempts == matched + noMatch + rejected + indeterminate
      && 0 <= modified <= matched
    }
  }

  /** The counters and error samples of a report are those of the history. */
  ghost predicate ReportsTotals(s: LedgerSnapshot, history: seq<Outcome>) {
    && s.attempts == |history|
    && s.matched == Tally(history, Matched)
    && s.noMatch == Tally(history, NoMatch)
    && s.rejected == Tally(history, Rejected)
    && s.indeterminate == Tally(history, Indeterminate)
    && s.modified == Sum(history, IsModified())
    && s.errorSamples == Keep(Errors(history))
  }

  ghost predicate Reports(s: LedgerSnapshot, history: seq<Outcome>) {
    ReportsTotals(s, history) && Summarizes(s.cas, Edges(history))
  }

  /** Every outcome falls in exactly one terminal counter, and only matches count as modified. */
  lemma {:induction false} TalliesBalance(history: seq<Outcome>)
    requires forall o :: o in history ==> Acceptable(o)
    ensures |history| == Tally(history, Matched) + Tally(history, NoMatch) + Tally(history, Rejected)
            + Tally(history, Indeterminate)
    ensures 0 <= Sum(history, IsModified()) <= Tally(history, Matched)
    ensures forall kind :: 0 <= Tally(history, kind)
  {
    if history != [] {
      var init, o := history[..|history| - 1], history[|history| - 1];
      assert history == init + [o];
      TalliesBalance(init);
      HistoryStep(init, o);
      assert o in history && Acceptable(o);
    }
  }

  /** A snapshot of a ledger always validates. */
  lemma SnapshotsValidate(s: LedgerSnapshot, history: seq<Outcome>)
    requires ReportsTotals(s, history) && forall o :: o in history ==> Acceptable(o)
    ensures s.Validates()
  {
    TalliesBalance(history);
  }

  // ---------------------------------------------------------------- Ledger

  /** The counters of a Ledger as a value. */
  datatype Counters = Counters(attempts: int, matched: int, noMatch: int, modified: int, rejected: int,
                               indeterminate: int, errorSamples: seq<string>)

  const NO_COUNTS := Counters(0, 0, 0, 0, 0, 0, [])

  /** The counter named by the outcome's kind. */
  function CountKind(c: Counters, o: Outcome): Counters {
    c.(matched := c.matched + One(o.kind == Matched), modified := c.modified + One(o.modified),
       noMatch := c.noMatch + One(o.kind == NoMatch), rejected := c.rejected + One(o.kind == Rejected),
       indeterminate := c.indeterminate + One(o.kind == Indeterminate))
  }

  function Count(c: Counters, o: Outcome): Counters {
    CountKind(c, o).(attempts := c.attempts + 1,
      errorSamples := if o.error.Some? && |c.errorSamples| < MAX_ERROR_SAMPLES
                      then c.errorSamples + [o.error.value] else c.errorSamples)
  }

  function CountAll(history: seq<Outcome>): Counters {
    if history == [] then NO_COUNTS else Count(CountAll(history[..|history| - 1]), history[|history| - 1])
  }

  lemma {:induction false} CountAllTallies(history: seq<Outcome>)
    ensures var c := CountAll(history);
            && c.attempts == |history|
            && c.matched == Tally(history, Matched) && c.noMatch == Tally(history, NoMatch)
            && c.rejected == Tally(history, Rejected) && c.indeterminate == Tally(history, Indeterminate)
            && c.modified == Sum(history, IsModified()) && c.errorSamples == Keep(Errors(history))
  {
    if history != [] {
      var init, o := history[..|history| - 1], history[|history| - 1];
      assert history == init + [o];
      CountAllTallies(init);
      HistoryStep(init, o);
    }
  }

  class Ledger {
    var attempts: int
    var matched: int
    var noMatch: int
    var modified: int
    var rejected: int
    var indeterminate: int
    var errorSamples: seq<string>
    const causal: CausalLedger
    ghost var history: seq<Outcome>

    function Totals(): Counters
      reads this
    {
      Counters(attempts, matched, noMatch, modified, rejected, indeterminate, errorSamples)
    }

    /** The counters and the causal ledger are those of the accepted history. */
    ghost predicate Valid()
      reads this, causal
    {
      && Totals() == CountAll(history)
      && causal.Valid() && causal.edges == Edges(history)
      && forall o :: o in history ==> Acceptable(o)
    }

    constructor ()
      ensures Valid() && history == [] && fresh(causal)
    {
      attempts, matched, noMatch, modified, rejected, indeterminate := 0, 0, 0, 0, 0, 0;
      errorSamples := [];
      causal := new CausalLedger();
      history := [];
    }

    /** Counts an outcome, or refuses it without changing anything. */
    method Record(outcome: Outcome) returns (accepted: bool)
      requires Valid()
      modifies this, causal
      ensures Valid()
      ensures accepted <==> Acceptable(outcome)
      ensures history == if accepted then old(history) + [outcome] else old(history)
    {
      accepted := CountOutcome(outcome);
      if !accepted { return; }
      attempts := attempts + 1;
      if outcome.cas.Some? && outcome.kind == Matched {
        causal.Record(outcome.sequence, outcome.worker, outcome.maximum, outcome.bounded, outcome.cas.value);
      }
      if outcome.error.Some? && |errorSamples| < MAX_ERROR_SAMPLES {
        errorSamples := errorSamples + [outcome.error.value];
      }
      assert (history + [outcome])[..|history|] == history;
      history := history + [outcome];
    }

    /** The switch at the head of Record. */
    method CountOutcome(outcome: Outcome) returns (accepted: bool)
      modifies this`matched, this`modified, this`noMatch, this`rejected, this`indeterminate
      ensures accepted <==> Acceptable(outcome)
      ensures Totals() == if accepted then CountKind(old(Totals()), outcome) else old(Totals())
    {
      match outcome.kind {
        case Matched =>
          matched := matched + 1;
          if outcome.modified { modified := modified + 1; }
        case NoMatch =>
          if outcome.modified { return false; }
          noMatch := noMatch + 1;
        case Rejected =>
          if outcome.modified { return false; }
          rejected := rejected + 1;
        case Indeterminate =>
          if outcome.modified { return false; }
          indeterminate := indeterminate + 1;
        case Unknown(_) =>
          return false;
      }
      accepted := true;
    }

    method Snapshot() returns (s: LedgerSnapshot)
      requires Valid()
      ensures Reports(s, history) && s.Validates()
    {
      var cas := causal.Snapshot();
      s := LedgerSnapshot(attempts, matched, noMatch, modified, rejected, indeterminate, errorSamples, cas);
      CountAllTallies(history);
      SnapshotsValidate(s, history);
    }
  }
}
