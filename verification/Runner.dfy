/** concurrency/runner.go and casScenario: workers that reserve an operation, read the counter, update it
    if it is unchanged, and record what they saw. One step is one atomic access to shared state. */
module Runner {
  import opened Common
  import opened Sums
  import opened Causality
  import opened Ledgers
  import opened Oracles

  /** Where a worker stands between two accesses. */
  datatype Pc =
    | Looping
    | Reserving
    | Loaded(current: int)
    | Reserved(sequence: int)
    | HasRead(sequence: int, version: int)
    | Executed(sequence: int, outcome: Outcome)
    | Stamped(sequence: int, outcome: Outcome)
    | Stopped

  datatype Entry = Entry(sequence: int, outcome: Outcome)

  /** An update on its way to the store that nobody waits for any more. */
  datatype LostUpdate = LostUpdate(sequence: int, version: int)

  /** `version` and `value` are the stored document, `lost` the updates that may still arrive; `log` is a
      history variable that remembers which operation wrote each generation. */
  datatype State = State(limit: int, issued: int, version: int, value: int, log: seq<int>,
                         workers: seq<Pc>, history: seq<Entry>, lost: seq<LostUpdate>)

  /** An update reports no error, or one; an error that leaves its fate open may hide a write that was
      applied, that lands later, even after its worker has recorded it and stopped, or that never does. */
  datatype Action =
    | Land(i: nat)
    | Quit
    | Enter
    | Load
    | Swap
    | Add
    | Read(ok: bool)
    | Interrupt
    | Update(applied: bool, error: Option<UpdateError>)
    | Stamp
    | Record

  const FAILED_READ := Outcome(Indeterminate, false, Some("read"), 0, 0, None, 0, false)

  function Init(limit: int, workers: nat): State {
    State(limit, 0, 0, 0, [], seq(workers, i => Looping), [], [])
  }

  /** The atomic store applies an acknowledged update that still matches, never a rejected one, and
      possibly one whose acknowledgement is lost. */
  predicate Takes(hit: bool, applied: bool, error: Option<UpdateError>) {
    hit && match error
           case None => true
           case Some(e) => applied && !Refuses(e)
  }

  /** Whether an update that was not applied at once may still arrive. */
  predicate MayLand(applied: bool, error: Option<UpdateError>) {
    error.Some? && !Refuses(error.value) && !applied
  }

  /** The stored document takes an update of the operation. */
  function Apply(st: State, sequence: int): State {
    st.(version := st.version + 1, value := sequence, log := st.log + [sequence])
  }

  /** A lost update arrives, and is applied if the version is still the one it asks for. */
  function Arrive(st: State, i: nat): State
    requires i < |st.lost|
  {
    var left := st.(lost := st.lost[..i] + st.lost[i + 1..]);
    if st.lost[i].version == st.version then Apply(left, st.lost[i].sequence) else left
  }

  function CasOutcome(w: int, sequence: int, version: int, hit: bool, error: Option<UpdateError>): Outcome {
    UpdateOutcome(if hit then 1 else 0, if hit then 1 else 0, error)
      .(sequence := sequence, worker := w, cas := Some(CasOperation(version, version + 1)))
  }

  /** One access by worker w, or the arrival of a lost update; an action that is not enabled changes nothing. */
  function Step(st: State, w: nat, a: Action): State
    requires w < |st.workers|
  {
    match (st.workers[w], a)
    case (_, Land(i)) => if i < |st.lost| then Arrive(st, i) else st
    case (Looping, Quit) => Move(st, w, Stopped)
    case (Looping, Enter) => Move(st, w, Reserving)
    case (Reserving, Add) =>
      if st.limit <= 0 then Move(st, w, Reserved(st.issued + 1)).(issued := st.issued + 1) else st
    case (Reserving, Load) =>
      if st.limit <= 0 then st
      else if st.issued >= st.limit then Move(st, w, Stopped)
      else Move(st, w, Loaded(st.issued))
    case (Loaded(current), Swap) =>
      if st.issued == current
      then Move(st, w, Reserved(current + 1)).(issued := current + 1)
      else Move(st, w, Reserving)
    case (Reserved(sequence), Read(ok)) =>
      Move(st, w, if ok then HasRead(sequence, st.version) else Executed(sequence, FAILED_READ))
    case (HasRead(sequence, _), Interrupt) => Move(st, w, Executed(sequence, FAILED_READ))
    case (HasRead(sequence, version), Update(applied, error)) =>
      var hit := st.version == version;
      var next := Move(st, w, Executed(sequence, CasOutcome(w, sequence, version, hit, error)));
      if Takes(hit, applied, error) then Apply(next, sequence)
      else if MayLand(applied, error) then next.(lost := st.lost + [LostUpdate(sequence, version)])
      else next
    case (Executed(sequence, o), Stamp) =>
      Move(st, w, Stamped(sequence, if o.cas.Some? then o.(maximum := st.issued - 1, bounded := true) else o))
    case (Stamped(sequence, o), Record) => Move(st, w, Looping).(history := st.history + [Entry(sequence, o)])
    case _ => st
  }

  function Move(st: State, w: nat, pc: Pc): State
    requires w < |st.workers|
  {
    st.(workers := st.workers[w := pc])
  }

  /** The state after a schedule of accesses, given as the worker that runs and what it does. */
  function Run(limit: int, workers: nat, schedule: seq<(nat, Action)>): State
  {
    if schedule == [] then Init(limit, workers)
    else
      var before := Run(limit, workers, schedule[..|schedule| - 1]);
      var (w, a) := schedule[|schedule| - 1];
      if w < |before.workers| then Step(before, w, a) else before
  }

  /** Some interleaving of the workers leads to st. */
  ghost predicate Reachable(st: State, limit: int, workers: nat) {
    exists schedule :: st == Run(limit, workers, schedule)
  }

  predicate Quiescent(st: State) {
    forall w :: 0 <= w < |st.workers| ==> st.workers[w].Stopped?
  }

  function Outcomes(history: seq<Entry>): (r: seq<Outcome>)
    ensures |r| == |history| && forall i :: 0 <= i < |r| ==> r[i] == history[i].outcome
  {
    seq(|history|, i requires 0 <= i < |history| => history[i].outcome)
  }

  // ---------------------------------------------------------------- counting

  predicate Pending(pc: Pc) {
    pc.Reserved? || pc.HasRead?
  }

  predicate Finished(pc: Pc) {
    pc.Executed? || pc.Stamped?
  }

  predicate Active(pc: Pc) {
    Pending(pc) || Finished(pc)
  }

  function Busy(): Pc -> int {
    (pc: Pc) => One(Active(pc))
  }

  function Waiting(): Pc -> int {
    (pc: Pc) => One(Pending(pc))
  }

  /** Operations executed but not recorded whose outcome has the given kind. */
  function InFlight(kind: OutcomeKind): Pc -> int {
    (pc: Pc) => One(Finished(pc) && pc.outcome.kind == kind)
  }

  function Count(st: State, kind: OutcomeKind): int {
    Tally(Outcomes(st.history), kind) + Sum(st.workers, InFlight(kind))
  }

  /** Every reserved operation is recorded or held by a worker; the version counts at least the matches,
      and with the updates still to arrive at most the matches and the outcomes that are unknown. */
  ghost predicate Counted(st: State) {
    && st.issued == |st.history| + Sum(st.workers, Busy())
    && Count(st, Matched) <= st.version
    && st.version + |st.lost| <= Count(st, Matched) + Count(st, Indeterminate)
    && st.version == |st.log|
  }

  lemma MoveCounts(st: State, w: nat, pc: Pc)
    requires w < |st.workers|
    ensures var next, was := Move(st, w, pc).workers, st.workers[w];
            && Sum(next, Busy()) == Sum(st.workers, Busy()) - One(Active(was)) + One(Active(pc))
            && Sum(next, InFlight(Matched)) == Sum(st.workers, InFlight(Matched)) - InFlight(Matched)(was)
                + InFlight(Matched)(pc)
            && Sum(next, InFlight(Indeterminate)) ==
                 Sum(st.workers, InFlight(Indeterminate)) - InFlight(Indeterminate)(was) + InFlight(Indeterminate)(pc)
  {
    SumUpdate(st.workers, w, pc, Busy());
    SumUpdate(st.workers, w, pc, InFlight(Matched));
    SumUpdate(st.workers, w, pc, InFlight(Indeterminate));
  }

  lemma OutcomesStep(history: seq<Entry>, e: Entry)
    ensures Outcomes(history + [e]) == Outcomes(history) + [e.outcome]
  {
  }

  /** A step that records nothing keeps the count if the version moves with the matches in flight. */
  lemma CountedMove(st: State, w: nat, next: State)
    requires w < |st.workers| && Counted(st)
    requires |next.workers| == |st.workers| && next.workers == Move(st, w, next.workers[w]).workers
             && next.history == st.history
    requires var was, pc := st.workers[w], next.workers[w];
             && next.issued == st.issued + One(Active(pc)) - One(Active(was))
             && InFlight(Matched)(pc) - InFlight(Matched)(was) <= next.version - st.version
             && next.version - st.version + |next.lost| - |st.lost|
                  <= InFlight(Matched)(pc) - InFlight(Matched)(was)
                      + InFlight(Indeterminate)(pc) - InFlight(Indeterminate)(was)
             && next.version == |next.log|
    ensures Counted(next)
  {
    MoveCounts(st, w, next.workers[w]);
  }

  lemma CountedStep(st: State, w: nat, a: Action)
    requires w < |st.workers| && Counted(st)
    ensures Counted(Step(st, w, a))
  {
    if a.Land? {
      if a.i < |st.lost| { CountedArrival(st, a.i); }
    } else if Step(st, w, a) != st {
      match st.workers[w] {
        case Stamped(_, _) => CountedRecord(st, w);
        case Executed(_, _) => CountedStamp(st, w);
        case _ => if Pending(st.workers[w]) { CountedExecution(st, w, a); } else { CountedReservation(st, w, a); }
      }
    }
  }

  lemma CountedArrival(st: State, i: nat)
    requires i < |st.lost| && Counted(st)
    ensures Counted(Arrive(st, i))
  {
  }

  lemma CountedReservation(st: State, w: nat, a: Action)
    requires w < |st.workers| && Counted(st) && !a.Land? && !Active(st.workers[w])
    ensures Counted(Step(st, w, a))
  {
    CountedMove(st, w, Step(st, w, a));
  }

  lemma CountedExecution(st: State, w: nat, a: Action)
    requires w < |st.workers| && Counted(st) && !a.Land? && Pending(st.workers[w])
    ensures Counted(Step(st, w, a))
  {
    CountedMove(st, w, Step(st, w, a));
  }

  lemma CountedStamp(st: State, w: nat)
    requires w < |st.workers| && Counted(st) && st.workers[w].Executed?
    ensures Counted(Step(st, w, Stamp))
  {
    CountedMove(st, w, Step(st, w, Stamp));
  }

  lemma CountedRecord(st: State, w: nat)
    requires w < |st.workers| && Counted(st) && st.workers[w].Stamped?
    ensures Counted(Step(st, w, Record))
  {
    MoveCounts(st, w, Looping);
    OutcomesStep(st.history, Entry(st.workers[w].sequence, st.workers[w].outcome));
    HistoryStep(Outcomes(st.history), st.workers[w].outcome);
  }

  lemma {:induction false} BusySplits(workers: seq<Pc>)
    ensures Sum(workers, InFlight(Matched)) + Sum(workers, InFlight(Indeterminate))
            + Sum(workers, Waiting()) <= Sum(workers, Busy())
  {
    if workers != [] { BusySplits(workers[1..]); }
  }

  lemma {:induction false} KindsWithinHistory(history: seq<Outcome>)
    ensures Tally(history, Matched) + Tally(history, Indeterminate) <= |history|
  {
    if history != [] { KindsWithinHistory(history[1..]); }
  }

  /** Each generation was written by an operation that has at least executed. */
  lemma VersionWithinIssued(st: State)
    requires Counted(st)
    ensures st.version + |st.lost| + Sum(st.workers, Waiting()) <= st.issued
  {
    BusySplits(st.workers);
    KindsWithinHistory(Outcomes(st.history));
  }

  // ---------------------------------------------------------------- truthful outcomes

  /** A match is an edge from a generation that its own operation wrote. */
  predicate Truthful(o: Outcome, sequence: int, log: seq<int>) {
    && Acceptable(o)
    && (o.kind == Matched ==>
          && o.modified && o.sequence == sequence && o.cas.Some?
          && o.cas.value.proposed == o.cas.value.observed + 1
          && 0 <= o.cas.value.observed < |log| && log[o.cas.value.observed] == sequence)
  }

  /** The bound stamped on a match does not contradict it. */
  predicate WithinBound(o: Outcome, issued: int) {
    o.kind == Matched ==> o.cas.Some? && o.bounded && o.cas.value.observed <= o.maximum < issued
  }

  ghost predicate TruthfulWorker(pc: Pc, st: State) {
    match pc
    case HasRead(_, version) => 0 <= version <= st.version
    case Executed(sequence, o) => Truthful(o, sequence, st.log)
    case Stamped(sequence, o) => Truthful(o, sequence, st.log) && WithinBound(o, st.issued)
    case _ => true
  }

  ghost predicate TruthfulState(st: State) {
    && TopOfLog(st)
    && (forall w :: 0 <= w < |st.workers| ==> TruthfulWorker(st.workers[w], st))
    && (forall i :: 0 <= i < |st.history| ==>
          Truthful(st.history[i].outcome, st.history[i].sequence, st.log)
              && WithinBound(st.history[i].outcome, st.issued))
  }

  /** What a step leaves alone: the log and the count of issued operations only grow. */
  lemma StepGrows(st: State, w: nat, a: Action)
    requires w < |st.workers|
    ensures var next := Step(st, w, a);
            && st.log <= next.log && st.issued <= next.issued && next.limit == st.limit
            && |next.workers| == |st.workers|
            && forall k :: 0 <= k < |st.workers| && k != w ==> next.workers[k] == st.workers[k]
  {
  }

  /** The stored document is that of the last operation in the log. */
  predicate TopOfLog(st: State) {
    st.version == |st.log| && st.value == if st.log == [] then 0 else st.log[|st.log| - 1]
  }

  lemma TruthfulMover(st: State, w: nat, a: Action)
    requires w < |st.workers| && TruthfulState(st) && Counted(st)
    ensures var next := Step(st, w, a); TruthfulWorker(next.workers[w], next) && TopOfLog(next)
  {
    assert TruthfulWorker(st.workers[w], st);
    if a.Land? {
      TruthfulArrival(st, w, a.i);
    } else if st.workers[w].Executed? {
      VersionWithinIssued(st);
      SumNonNegative(st.workers, Waiting());
    } else if st.workers[w].HasRead? && a.Update? {
      TruthfulUpdate(st, w, a.applied, a.error);
    }
  }

  lemma TruthfulArrival(st: State, w: nat, i: nat)
    requires w < |st.workers| && TruthfulState(st)
    ensures var next := Step(st, w, Land(i)); TruthfulWorker(next.workers[w], next) && TopOfLog(next)
  {
    assert TruthfulWorker(st.workers[w], st);
  }

  lemma TruthfulUpdate(st: State, w: nat, applied: bool, error: Option<UpdateError>)
    requires w < |st.workers| && TruthfulState(st) && st.workers[w].HasRead?
    ensures var next := Step(st, w, Update(applied, error)); TruthfulWorker(next.workers[w], next) && TopOfLog(next)
  {
    assert TruthfulWorker(st.workers[w], st);
  }

  lemma TruthfulStep(st: State, w: nat, a: Action)
    requires w < |st.workers| && TruthfulState(st) && Counted(st)
    ensures TruthfulState(Step(st, w, a))
  {
    var next := Step(st, w, a);
    StepGrows(st, w, a);
    TruthfulMover(st, w, a);
    forall k | 0 <= k < |next.workers| ensures TruthfulWorker(next.workers[k], next) {
      if k != w { assert TruthfulWorker(st.workers[k], st); }
    }
    TruthfulHistory(st, w, a);
  }

  lemma TruthfulHistory(st: State, w: nat, a: Action)
    requires w < |st.workers| && TruthfulState(st)
    ensures var next := Step(st, w, a);
            forall i :: 0 <= i < |next.history| ==>
              Truthful(next.history[i].outcome, next.history[i].sequence, next.log)
                  && WithinBound(next.history[i].outcome, next.issued)
  {
    var next := Step(st, w, a);
    StepGrows(st, w, a);
    assert TruthfulWorker(st.workers[w], st);
    assert next.history == st.history
      || (st.workers[w].Stamped?
          && next.history == st.history + [Entry(st.workers[w].sequence, st.workers[w].outcome)]);
  }

  // ---------------------------------------------------------------- operation numbers

  /** Operation numbers lie in 1..issued, and issued stays within a positive limit. */
  ghost predicate InRange(st: State) {
    && 0 <= st.issued && (st.limit > 0 ==> st.issued <= st.limit)
    && (forall i :: 0 <= i < |st.history| ==> 1 <= st.history[i].sequence <= st.issued)
    && (forall w :: 0 <= w < |st.workers| && Active(st.workers[w]) ==> 1 <= st.workers[w].sequence <= st.issued)
    && (forall w :: 0 <= w < |st.workers| && st.workers[w].Loaded? ==> 0 <= st.workers[w].current < st.limit)
  }

  /** No two recorded or running operations share a number. */
  ghost predicate Unique(st: State) {
    && (forall i, j :: 0 <= i < j < |st.history| ==> st.history[i].sequence != st.history[j].sequence)
    && (forall v, w :: 0 <= v < w < |st.workers| && Active(st.workers[v]) && Active(st.workers[w]) ==>
          st.workers[v].sequence != st.workers[w].sequence)
    && (forall i, w :: 0 <= i < |st.history| && 0 <= w < |st.workers| && Active(st.workers[w]) ==>
          st.history[i].sequence != st.workers[w].sequence)
  }

  lemma InRangeStep(st: State, w: nat, a: Action)
    requires w < |st.workers| && InRange(st)
    ensures InRange(Step(st, w, a))
  {
  }

  lemma UniqueStep(st: State, w: nat, a: Action)
    requires w < |st.workers| && InRange(st) && Unique(st)
    ensures Unique(Step(st, w, a))
  {
    var next := Step(st, w, a);
    var pc := next.workers[w];
    if Active(st.workers[w]) && Active(pc) {
      assert pc.sequence == st.workers[w].sequence && next.history == st.history;
    } else if Active(pc) {
      assert pc.sequence == st.issued + 1 && next.history == st.history;
    }
  }

  ghost predicate Inv(st: State) {
    Counted(st) && TruthfulState(st) && InRange(st) && Unique(st)
  }

  lemma {:induction false} InitCounts(workers: nat)
    ensures Sum(seq(workers, i => Looping), Busy()) == 0
    ensures forall kind :: Sum(seq(workers, i => Looping), InFlight(kind)) == 0
  {
    if workers > 0 {
      assert seq(workers, i => Looping)[1..] == seq(workers - 1, i => Looping);
      InitCounts(workers - 1);
    }
  }

  /** Every state reached by any schedule keeps the invariant. */
  lemma {:induction false} RunKeepsInv(limit: int, workers: nat, schedule: seq<(nat, Action)>)
    ensures Inv(Run(limit, workers, schedule))
  {
    if schedule == [] {
      InitCounts(workers);
      assert Outcomes([]) == [];
    } else {
      var k := |schedule| - 1;
      RunKeepsInv(limit, workers, schedule[..k]);
      var before := Run(limit, workers, schedule[..k]);
      var (w, a) := schedule[k];
      if w < |before.workers| {
        CountedStep(before, w, a);
        TruthfulStep(before, w, a);
        InRangeStep(before, w, a);
        UniqueStep(before, w, a);
      }
    }
  }

  lemma {:induction false} RunKeepsLimit(limit: int, workers: nat, schedule: seq<(nat, Action)>)
    ensures Run(limit, workers, schedule).limit == limit && |Run(limit, workers, schedule).workers| == workers
  {
    if schedule != [] {
      var before := Run(limit, workers, schedule[..|schedule| - 1]);
      var (w, a) := schedule[|schedule| - 1];
      RunKeepsLimit(limit, workers, schedule[..|schedule| - 1]);
      if w < |before.workers| { StepGrows(before, w, a); }
    }
  }

  lemma ReachableKeepsInv(st: State, limit: int, workers: nat)
    requires Reachable(st, limit, workers)
    ensures Inv(st) && st.limit == limit && |st.workers| == workers
  {
    var schedule :| st == Run(limit, workers, schedule);
    RunKeepsInv(limit, workers, schedule);
    RunKeepsLimit(limit, workers, schedule);
  }

  // ---------------------------------------------------------------- results for every reachable state

  ghost function RecordedNumbers(history: seq<Entry>): set<int> {
    set i | 0 <= i < |history| :: history[i].sequence
  }

  ghost function RunningNumbers(workers: seq<Pc>): set<int> {
    set w | 0 <= w < |workers| && Active(workers[w]) :: workers[w].sequence
  }

  lemma {:induction false} RecordedNumbersSize(history: seq<Entry>)
    requires forall i, j :: 0 <= i < j < |history| ==> history[i].sequence != history[j].sequence
    ensures |RecordedNumbers(history)| == |history|
  {
    if history == [] {
      assert RecordedNumbers(history) == {};
    } else {
      var k := |history| - 1;
      RecordedNumbersSize(history[..k]);
      assert RecordedNumbers(history) == RecordedNumbers(history[..k]) + {history[k].sequence};
    }
  }

  lemma {:induction false} RunningNumbersSize(workers: seq<Pc>)
    requires forall v, w :: 0 <= v < w < |workers| && Active(workers[v]) && Active(workers[w]) ==>
               workers[v].sequence != workers[w].sequence
    ensures |RunningNumbers(workers)| == Sum(workers, Busy())
  {
    if workers == [] {
      assert RunningNumbers(workers) == {};
    } else {
      var k := |workers| - 1;
      RunningNumbersSize(workers[..k]);
      assert workers == workers[..k] + [workers[k]];
      SumSnoc(workers[..k], workers[k], Busy());
      if Active(workers[k]) {
        assert RunningNumbers(workers) == RunningNumbers(workers[..k]) + {workers[k].sequence};
      } else {
        assert RunningNumbers(workers) == RunningNumbers(workers[..k]);
      }
    }
  }

  /** Reservations hand out 1, ..., issued, each to exactly one operation, and never exceed a positive limit. */
  lemma ReservationsAreExact(st: State, limit: int, workers: nat)
    requires Reachable(st, limit, workers)
    ensures 0 <= st.issued && (limit > 0 ==> st.issued <= limit)
    ensures |RecordedNumbers(st.history)| == |st.history|
    ensures RecordedNumbers(st.history) !! RunningNumbers(st.workers)
    ensures RecordedNumbers(st.history) + RunningNumbers(st.workers) == Below(st.issued + 1) - {0}
  {
    ReachableKeepsInv(st, limit, workers);
    NumbersExact(st);
  }

  lemma NumbersExact(st: State)
    requires Inv(st)
    ensures RecordedNumbers(st.history) !! RunningNumbers(st.workers)
    ensures |RecordedNumbers(st.history)| == |st.history|
    ensures RecordedNumbers(st.history) + RunningNumbers(st.workers) == Below(st.issued + 1) - {0}
  {
    RecordedNumbersSize(st.history);
    RunningNumbersSize(st.workers);
    NumbersInRange(st);
    FillsRange(RecordedNumbers(st.history) + RunningNumbers(st.workers), st.issued);
  }

  lemma NumbersInRange(st: State)
    requires InRange(st) && Unique(st)
    ensures RecordedNumbers(st.history) !! RunningNumbers(st.workers)
    ensures forall k :: k in RecordedNumbers(st.history) + RunningNumbers(st.workers) ==> 1 <= k <= st.issued
  {
  }

  lemma FillsRange(all: set<int>, n: nat)
    requires |all| == n && forall k :: k in all ==> 1 <= k <= n
    ensures all == Below(n + 1) - {0}
  {
    SubsetSize(all, Below(n + 1) - {0});
  }

  /** In no reachable state does the bound call a genuine match invalid, and the tracker never grows past
      the operations issued. */
  lemma BoundNeverMisreports(st: State, limit: int, workers: nat)
    requires Reachable(st, limit, workers)
    ensures CleanMatches(Outcomes(st.history))
    ensures Slots(Observed(Outcomes(st.history))) <= st.version <= st.issued
    ensures forall w :: 0 <= w < |st.workers| && Finished(st.workers[w]) && st.workers[w].outcome.kind == Matched ==>
              st.workers[w].outcome.cas.Some? && st.workers[w].outcome.cas.value.observed <= st.issued - 1
  {
    ReachableKeepsInv(st, limit, workers);
    VersionWithinIssued(st);
    SumNonNegative(st.workers, Waiting());
    HistoryIsClean(st);
    ObservedWithinLog(st);
    forall w | 0 <= w < |st.workers| && Finished(st.workers[w]) && st.workers[w].outcome.kind == Matched
      ensures st.workers[w].outcome.cas.Some? && st.workers[w].outcome.cas.value.observed <= st.issued - 1
    {
      assert TruthfulWorker(st.workers[w], st);
    }
  }

  lemma HistoryIsClean(st: State)
    requires TruthfulState(st)
    ensures CleanMatches(Outcomes(st.history)) && forall o :: o in Outcomes(st.history) ==> Acceptable(o)
  {
    forall o | o in Outcomes(st.history) ensures CleanMatch(o) && Acceptable(o) {
      var i :| 0 <= i < |st.history| && Outcomes(st.history)[i] == o;
      assert Truthful(st.history[i].outcome, st.history[i].sequence, st.log)
             && WithinBound(st.history[i].outcome, st.issued);
    }
  }

  /** The operation that wrote generation g. */
  predicate Wrote(history: seq<Entry>, i: int, g: int) {
    0 <= i < |history| && history[i].outcome.kind == Matched && history[i].outcome.cas.Some?
    && history[i].outcome.cas.value.observed == g
  }

  lemma ObservedSnoc(history: seq<Entry>, e: Entry)
    ensures Observed(Outcomes(history + [e])) == Observed(Outcomes(history)) + Generations(EdgeOf(e.outcome))
  {
    OutcomesStep(history, e);
    HistoryStep(Outcomes(history), e.outcome);
    GenerationsConcat(Edges(Outcomes(history)), EdgeOf(e.outcome));
  }

  /** The generation of a new match was written by no earlier operation. */
  lemma NewGeneration(history: seq<Entry>, log: seq<int>, e: Entry)
    requires Truthful(e.outcome, e.sequence, log) && Generations(EdgeOf(e.outcome)) != []
    requires forall i :: 0 <= i < |history| ==>
               Truthful(history[i].outcome, history[i].sequence, log) && history[i].sequence != e.sequence
    ensures Generations(EdgeOf(e.outcome)) == [e.outcome.cas.value.observed]
    ensures forall i :: !Wrote(history, i, e.outcome.cas.value.observed)
  {
    EdgeGeneration(e.outcome);
  }

  lemma WroteStays(history: seq<Entry>, e: Entry, g: int)
    ensures (exists i :: Wrote(history, i, g)) ==> exists i :: Wrote(history + [e], i, g)
    ensures Wrote([e], 0, g) ==> Wrote(history + [e], |history|, g)
  {
    if i :| Wrote(history, i, g) { assert Wrote(history + [e], i, g); }
  }

  /** Every observed generation comes from a recorded match. */
  lemma {:induction false} ObservedWritten(history: seq<Entry>, g: int)
    requires g in Observed(Outcomes(history))
    ensures exists i :: Wrote(history, i, g)
  {
    assert Outcomes([]) == [];
    if history != [] {
      var init, e := history[..|history| - 1], history[|history| - 1];
      assert history == init + [e];
      ObservedSnoc(init, e);
      if g in Observed(Outcomes(init)) {
        ObservedWritten(init, g);
      } else {
        EdgeGeneration(e.outcome);
        assert Wrote([e], 0, g);
      }
      WroteStays(init, e, g);
    }
  }

  lemma EdgeGeneration(o: Outcome)
    ensures Generations(EdgeOf(o)) == [] ||
            (o.kind == Matched && o.cas.Some? && Generations(EdgeOf(o)) == [o.cas.value.observed])
  {
    if EdgeOf(o) != [] { assert EdgeOf(o)[..0] == []; }
  }

  /** No generation comes from two. */
  lemma {:induction false} ObservedDistinct(history: seq<Entry>, log: seq<int>)
    requires forall i :: 0 <= i < |history| ==> Truthful(history[i].outcome, history[i].sequence, log)
    requires forall i, j :: 0 <= i < j < |history| ==> history[i].sequence != history[j].sequence
    ensures |Distinct(Observed(Outcomes(history)))| == |Observed(Outcomes(history))|
  {
    if history == [] {
      assert Outcomes(history) == [];
      assert Distinct(Observed([])) == {};
    } else {
      var init, e := history[..|history| - 1], history[|history| - 1];
      assert history == init + [e];
      ObservedDistinct(init, log);
      ObservedSnoc(init, e);
      EdgeGeneration(e.outcome);
      ExtraGeneration(init, log, e);
    }
  }

  lemma ExtraGeneration(init: seq<Entry>, log: seq<int>, e: Entry)
    requires forall i :: 0 <= i < |init| ==>
               Truthful(init[i].outcome, init[i].sequence, log) && init[i].sequence != e.sequence
    requires Truthful(e.outcome, e.sequence, log)
    requires |Distinct(Observed(Outcomes(init)))| == |Observed(Outcomes(init))|
    ensures var more := Observed(Outcomes(init)) + Generations(EdgeOf(e.outcome)); |Distinct(more)| == |more|
  {
    var gens, extra := Observed(Outcomes(init)), Generations(EdgeOf(e.outcome));
    if extra == [] {
      assert gens + extra == gens;
    } else {
      NewGeneration(init, log, e);
      if extra[0] in gens {
        ObservedWritten(init, extra[0]);
      }
      DistinctSnoc(gens, extra[0]);
    }
  }

  lemma ObservedWithinLog(st: State)
    requires TruthfulState(st) && Unique(st)
    ensures forall g :: g in Observed(Outcomes(st.history)) ==> 0 <= g < st.version
    ensures Slots(Observed(Outcomes(st.history))) <= st.version
  {
    var gens := Observed(Outcomes(st.history));
    forall g | g in gens ensures 0 <= g < st.version {
      ObservedWritten(st.history, g);
      var i :| Wrote(st.history, i, g);
      assert Truthful(st.history[i].outcome, st.history[i].sequence, st.log);
    }
    if gens != [] && Highest(gens) == 0 { assert gens[0] in gens; }
  }

  // ---------------------------------------------------------------- results for finished runs

  lemma {:induction false} NobodyBusy(workers: seq<Pc>)
    requires forall w :: 0 <= w < |workers| ==> workers[w].Stopped?
    ensures Sum(workers, Busy()) == 0 && forall kind :: Sum(workers, InFlight(kind)) == 0
  {
    if workers != [] { NobodyBusy(workers[1..]); }
  }

  /** At the end of a run without unknown outcomes the matched generations are exactly the stored chain. */
  lemma FinalChain(st: State)
    requires Inv(st) && Quiescent(st) && Tally(Outcomes(st.history), Indeterminate) == 0
    ensures IsChain(Observed(Outcomes(st.history)), st.version)
    ensures Distinct(Observed(Outcomes(st.history))) == Below(st.version)
  {
    var outs := Outcomes(st.history);
    NobodyBusy(st.workers);
    HistoryIsClean(st);
    CountersRevealCleanMatches(outs);
    ObservedDistinct(st.history, st.log);
    ObservedWithinLog(st);
    Pigeonhole(Distinct(Observed(outs)), st.version);
    SetByCounting(Observed(outs), st.version);
    ChainByCounting(Observed(outs), st.version);
  }

  /** Whatever the interleaving, and whichever acknowledgements were lost, a finished run over an atomic
      store accounts for every reserved operation, has a valid ledger and passes the oracle. */
  lemma FinishedRunPasses(st: State, limit: int, workers: nat, s: LedgerSnapshot)
    requires Reachable(st, limit, workers) && Quiescent(st) && Reports(s, Outcomes(st.history))
    ensures st.issued == s.attempts
    ensures s.Validates()
    ensures ChecksPassed(CounterChecks(st.version, s))
    ensures ChecksPassed(FieldDivergentCounterChecks(st.version, s))
    ensures ChecksPassed(StrictCasClientOutcomeChecks(s)) <==> s.rejected == 0
  {
    var outs := Outcomes(st.history);
    ReachableKeepsInv(st, limit, workers);
    NobodyBusy(st.workers);
    HistoryIsClean(st);
    SnapshotsValidate(s, outs);
    ObservedDistinct(st.history, st.log);
    if Tally(outs, Indeterminate) == 0 { FinalChain(st); }
    CounterChecksExact(st.version, s, outs);
    FieldDivergentChecksExact(st.version, s, outs);
    StrictChecksExact(s, outs);
    NoneOfKind(outs, Rejected);
  }

  /** The verdict of the cas scenario on a finished run: in every merge mode only a lost payload, or in the
      strict modes a rejected update, can fail it. */
  lemma CasVerdict(st: State, limit: int, workers: nat, s: LedgerSnapshot, mode: MergeMode, retained: bool)
    requires Reachable(st, limit, workers) && Quiescent(st) && Reports(s, Outcomes(st.history))
    ensures ChecksPassed(CasChecks(mode, st.version, retained, s)) <==> retained && (Strict(mode) ==> s.rejected == 0)
  {
    FinishedRunPasses(st, limit, workers, s);
    ReachableKeepsInv(st, limit, workers);
    HistoryIsClean(st);
    StrictPartExact(mode, s, Outcomes(st.history));
    var counters := if mode == FieldDivergent || mode == DocumentDivergent
                    then FieldDivergentCounterChecks(st.version, s) else CounterChecks(st.version, s);
    PayloadDecides(retained);
    ChecksPassedConcat(counters, StrictPart(mode, s));
    ChecksPassedConcat(counters + StrictPart(mode, s), [PayloadCheck(retained)]);
  }

  /** A recorded clean match leaves its operation's bit set. */
  lemma {:induction false} MatchLeavesEdge(outs: seq<Outcome>, i: nat)
    requires i < |outs| && outs[i].kind == Matched && outs[i].cas.Some? && CleanMatch(outs[i])
    ensures RecordedMatch(Edges(outs), outs[i].sequence)
  {
    var k := |outs| - 1;
    var o := outs[k];
    var init := outs[..k];
    assert outs == init + [o];
    if i == k {
      var e := EdgeOf(o)[0];
      assert Edges(outs) == Edges(init) + [e];
      RecordedMatchStep(Edges(init), e, o.sequence);
    } else {
      MatchLeavesEdge(init, i);
      if EdgeOf(o) != [] {
        assert Edges(outs) == Edges(init) + [EdgeOf(o)[0]];
        RecordedMatchStep(Edges(init), EdgeOf(o)[0], outs[i].sequence);
      } else {
        assert Edges(outs) == Edges(init);
      }
    }
  }

  /** The recorded match that wrote an observed generation. */
  lemma WriterOf(st: State, g: int) returns (i: nat)
    requires TruthfulState(st) && Unique(st) && g in Observed(Outcomes(st.history))
    ensures Wrote(st.history, i, g)
    ensures 0 <= g < |st.log| && st.history[i].sequence == st.history[i].outcome.sequence == st.log[g]
  {
    ObservedWritten(st.history, g);
    i :| Wrote(st.history, i, g);
    assert Truthful(st.history[i].outcome, st.history[i].sequence, st.log);
  }

  /** The stored value was written by a recorded match. */
  lemma TopWriter(st: State) returns (i: nat)
    requires Inv(st) && Quiescent(st) && Tally(Outcomes(st.history), Indeterminate) == 0 && st.version > 0
    ensures i < |st.history| && st.history[i].sequence == st.value
    ensures var o := st.history[i].outcome; o.kind == Matched && o.cas.Some? && o.sequence == st.value && CleanMatch(o)
  {
    FinalChain(st);
    assert st.version - 1 in Distinct(Observed(Outcomes(st.history)));
    i := WriterOf(st, st.version - 1);
    HistoryIsClean(st);
    assert Outcomes(st.history)[i] in Outcomes(st.history);
  }

  lemma FinalValueIsMatched(st: State, s: LedgerSnapshot)
    requires Inv(st) && Quiescent(st) && Reports(s, Outcomes(st.history)) && s.indeterminate == 0 && st.version > 0
    ensures FinalValueCheck(st.value, s).passed
  {
    var i := TopWriter(st);
    NobodyBusy(st.workers);
    MatchLeavesEdge(Outcomes(st.history), i);
    MarkedMatch(s, Outcomes(st.history), st.value);
  }

  lemma MarkedMatch(s: LedgerSnapshot, outs: seq<Outcome>, sequence: int)
    requires Reports(s, outs) && RecordedMatch(Edges(outs), sequence) && sequence > 0
    ensures s.cas.OperationMatched(sequence)
  {
  }

  lemma FinalValueDecides(st: State, limit: int, workers: nat, s: LedgerSnapshot)
    requires Reachable(st, limit, workers) && Quiescent(st) && Reports(s, Outcomes(st.history))
    ensures ChecksPassed([FinalValueCheck(st.value, s)]) <==> s.indeterminate > 0 || s.matched > 0
  {
    ReachableKeepsInv(st, limit, workers);
    NobodyBusy(st.workers);
    SnapshotCountsAreNatural(st, s);
    var check := FinalValueCheck(st.value, s);
    assert [check][0] == check;
    if s.indeterminate == 0 && st.version > 0 { FinalValueIsMatched(st, s); }
  }

  /** The extra check of divergent-cas asks too much: over an atomic store with every outcome known it
      rejects exactly the runs in which nothing matched. */
  lemma DivergentCasPasses(st: State, limit: int, workers: nat, s: LedgerSnapshot, mode: MergeMode, retained: bool)
    requires Reachable(st, limit, workers) && Quiescent(st) && Reports(s, Outcomes(st.history))
    ensures ChecksPassed(DivergentCasChecks(mode, st.version, st.value, retained, s)) <==>
            retained && (Strict(mode) ==> s.rejected == 0) && (s.indeterminate > 0 || s.matched > 0)
  {
    FinishedRunPasses(st, limit, workers, s);
    FinalValueDecides(st, limit, workers, s);
    ReachableKeepsInv(st, limit, workers);
    HistoryIsClean(st);
    StrictPartExact(mode, s, Outcomes(st.history));
    PayloadDecides(retained);
    var counters, strict, final := CounterChecks(st.version, s), StrictPart(mode, s), [FinalValueCheck(st.value, s)];
    ChecksPassedConcat(counters, strict);
    ChecksPassedConcat(counters + strict, final);
    ChecksPassedConcat(counters + strict + final, [PayloadCheck(retained)]);
  }

  lemma ReachableStep(st: State, limit: int, workers: nat, w: nat, a: Action)
    requires Reachable(st, limit, workers) && w < |st.workers|
    ensures Reachable(Step(st, w, a), limit, workers)
  {
    var schedule :| st == Run(limit, workers, schedule);
    var longer := schedule + [(w, a)];
    assert longer[..|longer| - 1] == schedule;
    assert Step(st, w, a) == Run(limit, workers, longer);
  }

  /** One worker has reserved an operation and read the counter. */
  lemma RunToUpdate() returns (st: State)
    ensures Reachable(st, 0, 1) && st == State(0, 1, 0, 0, [], [HasRead(1, 0)], [], [])
  {
    st := Init(0, 1);
    assert st == Run(0, 1, []) && st.workers == [Looping];
    ReachableStep(st, 0, 1, 0, Enter);
    st := Step(st, 0, Enter);
    ReachableStep(st, 0, 1, 0, Add);
    st := Step(st, 0, Add);
    ReachableStep(st, 0, 1, 0, Read(true));
    st := Step(st, 0, Read(true));
  }

  function Refused(e: UpdateError): Outcome {
    Outcome(Rejected, false, Some(e.message), 1, 0, Some(CasOperation(0, 1)), 0, true)
  }

  /** The server refuses its update. */
  lemma RunToRefusal(e: UpdateError) returns (st: State)
    requires Refuses(e)
    ensures Reachable(st, 0, 1)
    ensures st == State(0, 1, 0, 0, [], [Executed(1, Refused(e).(maximum := 0, bounded := false))], [], [])
  {
    st := RunToUpdate();
    ReachableStep(st, 0, 1, 0, Update(false, Some(e)));
    st := Step(st, 0, Update(false, Some(e)));
  }

  /** The worker records the refusal and stops. */
  lemma RefusedRun(e: UpdateError) returns (st: State)
    requires Refuses(e)
    ensures Reachable(st, 0, 1) && Quiescent(st) && st.history == [Entry(1, Refused(e))]
  {
    st := RunToRefusal(e);
    ReachableStep(st, 0, 1, 0, Stamp);
    st := Step(st, 0, Stamp);
    assert st.workers == [Stamped(1, Refused(e))];
    ReachableStep(st, 0, 1, 0, Record);
    st := Step(st, 0, Record);
    ReachableStep(st, 0, 1, 0, Quit);
    st := Step(st, 0, Quit);
  }

  /** Such runs exist: a single refused update leaves an intact store and a balanced ledger, which the cas
      scenario accepts and divergent-cas rejects, in the modes that allow refusals. */
  lemma RefusedRunIsRejected(mode: MergeMode, e: UpdateError) returns (st: State, s: LedgerSnapshot)
    requires !Strict(mode) && Refuses(e)
    ensures Reachable(st, 0, 1) && Quiescent(st) && Reports(s, Outcomes(st.history))
    ensures s.Validates() && st.issued == s.attempts == 1
    ensures ChecksPassed(CasChecks(mode, st.version, true, s))
    ensures !ChecksPassed(DivergentCasChecks(mode, st.version, st.value, true, s))
  {
    st := RefusedRun(e);
    s := LedgerSnapshot(1, 0, 0, 0, 1, 0, [e.message], CasSnapshot(0, 0, 0, 0, 0, 0, [], [], 0, 0));
    assert Outcomes(st.history) == [Refused(e)];
    RefusedReports(s, Refused(e));
    FinishedRunPasses(st, 0, 1, s);
    CasVerdict(st, 0, 1, s, mode, true);
    DivergentCasPasses(st, 0, 1, s, mode, true);
  }

  lemma RefusedReports(s: LedgerSnapshot, o: Outcome)
    requires o.kind == Rejected && !o.modified && o.error.Some? && s.errorSamples == [o.error.value]
    requires s.attempts == s.rejected == 1 && s.matched == s.noMatch == s.modified == s.indeterminate == 0
    requires s.cas == CasSnapshot(0, 0, 0, 0, 0, 0, [], [], 0, 0)
    ensures Reports(s, [o])
  {
    RefusedCounts(o);
    NothingRecorded(s.cas);
    RefusedHistoryReports(s, o);
  }

  lemma RefusedCounts(o: Outcome)
    requires o.kind == Rejected && !o.modified && o.error.Some?
    ensures Edges([o]) == [] && Keep(Errors([o])) == [o.error.value] && Sum([o], IsModified()) == 0
    ensures Tally([o], Rejected) == 1 && Tally([o], Matched) == 0 && Tally([o], NoMatch) == 0
            && Tally([o], Indeterminate) == 0
  {
    SingleOutcome(o);
  }

  lemma RefusedHistoryReports(s: LedgerSnapshot, o: Outcome)
    requires s.attempts == s.rejected == 1 && s.matched == s.noMatch == s.modified == s.indeterminate == 0
    requires o.error.Some? && s.errorSamples == [o.error.value] == Keep(Errors([o]))
    requires Summarizes(s.cas, []) && Edges([o]) == [] && Sum([o], IsModified()) == 0
    requires Tally([o], Rejected) == 1 && Tally([o], Matched) == 0 && Tally([o], NoMatch) == 0
             && Tally([o], Indeterminate) == 0
    ensures Reports(s, [o])
  {
  }

  lemma NothingRecorded(s: CasSnapshot)
    requires s == CasSnapshot(0, 0, 0, 0, 0, 0, [], [], 0, 0)
    ensures Summarizes(s, [])
  {
    RecordAllDescribes([]);
  }

  lemma SnapshotCountsAreNatural(st: State, s: LedgerSnapshot)
    requires TruthfulState(st) && Reports(s, Outcomes(st.history))
    ensures 0 <= s.matched && 0 <= s.indeterminate
  {
    HistoryIsClean(st);
    TalliesBalance(Outcomes(st.history));
  }

  // ---------------------------------------------------------------- runs that get through

  /** Whoever stopped found that the limit was reached. */
  predicate StopsAtLimit(st: State) {
    forall w :: 0 <= w < |st.workers| && st.workers[w].Stopped? ==> 0 < st.limit <= st.issued
  }

  /** No worker is stopped from outside. */
  predicate Undisturbed(schedule: seq<(nat, Action)>) {
    forall i :: 0 <= i < |schedule| ==> schedule[i].1 != Quit
  }

  lemma StopsAtLimitStep(st: State, w: nat, a: Action)
    requires w < |st.workers| && StopsAtLimit(st) && a != Quit
    ensures StopsAtLimit(Step(st, w, a))
    ensures Step(st, w, a).limit == st.limit && |Step(st, w, a).workers| == |st.workers|
  {
    var next := Step(st, w, a);
    assert next.issued >= st.issued;
    forall k | 0 <= k < |next.workers| && next.workers[k].Stopped? ensures 0 < next.limit <= next.issued {
      if k != w { assert st.workers[k].Stopped?; }
    }
  }

  lemma {:induction false} UndisturbedRun(limit: int, workers: nat, schedule: seq<(nat, Action)>)
    requires Undisturbed(schedule)
    ensures var st := Run(limit, workers, schedule);
            StopsAtLimit(st) && st.limit == limit && |st.workers| == workers
  {
    if schedule != [] {
      var init := schedule[..|schedule| - 1];
      var (w, a) := schedule[|schedule| - 1];
      assert schedule[|schedule| - 1].1 != Quit && Undisturbed(init);
      UndisturbedRun(limit, workers, init);
      if w < workers { StopsAtLimitStep(Run(limit, workers, init), w, a); }
    }
  }

  /** A run that nobody stops ends only when exactly as many operations were recorded as were asked for. */
  lemma UndisturbedRunIsFull(limit: int, workers: nat, schedule: seq<(nat, Action)>)
    requires Undisturbed(schedule) && workers > 0 && Quiescent(Run(limit, workers, schedule))
    ensures limit > 0 && |Run(limit, workers, schedule).history| == Run(limit, workers, schedule).issued == limit
  {
    var st := Run(limit, workers, schedule);
    UndisturbedRun(limit, workers, schedule);
    assert Reachable(st, limit, workers);
    ReachableKeepsInv(st, limit, workers);
    NobodyBusy(st.workers);
    assert st.workers[0].Stopped?;
    ReservationsAreExact(st, limit, workers);
  }

  /** One worker has matched all of its operations so far, on its own. */
  predicate Solo(st: State, limit: int, done: nat) {
    && st.limit == limit && st.issued == st.version == |st.history| == done
    && st.workers == [Looping] && st.lost == []
    && st.value == done
    && forall i :: 0 <= i < done ==> st.history[i].outcome.kind == Matched
  }

  lemma SoloReserves(st: State, limit: int, done: nat) returns (next: State)
    requires Reachable(st, limit, 1) && Solo(st, limit, done) && done < limit
    ensures Reachable(next, limit, 1)
    ensures next == st.(issued := done + 1, workers := [Reserved(done + 1)])
  {
    ReachableStep(st, limit, 1, 0, Enter);
    next := Step(st, 0, Enter);
    ReachableStep(next, limit, 1, 0, Load);
    next := Step(next, 0, Load);
    assert next.workers == [Loaded(done)];
    ReachableStep(next, limit, 1, 0, Swap);
    next := Step(next, 0, Swap);
  }

  lemma SoloUpdates(st: State, limit: int, sequence: int) returns (next: State)
    requires Reachable(st, limit, 1) && st.workers == [Reserved(sequence)]
    ensures Reachable(next, limit, 1)
    ensures var o := CasOutcome(0, sequence, st.version, true, None);
            next == Apply(st, sequence).(workers := [Executed(sequence, o)])
  {
    ReachableStep(st, limit, 1, 0, Read(true));
    next := Step(st, 0, Read(true));
    assert next.workers == [HasRead(sequence, st.version)];
    ReachableStep(next, limit, 1, 0, Update(true, None));
    next := Step(next, 0, Update(true, None));
  }

  lemma SoloRecords(st: State, limit: int, sequence: int, o: Outcome) returns (next: State)
    requires Reachable(st, limit, 1) && st.workers == [Executed(sequence, o)] && o.cas.Some?
    ensures Reachable(next, limit, 1)
    ensures next == st.(workers := [Looping],
                        history := st.history + [Entry(sequence, o.(maximum := st.issued - 1, bounded := true))])
  {
    ReachableStep(st, limit, 1, 0, Stamp);
    next := Step(st, 0, Stamp);
    assert next.workers == [Stamped(sequence, o.(maximum := st.issued - 1, bounded := true))];
    ReachableStep(next, limit, 1, 0, Record);
    next := Step(next, 0, Record);
  }

  lemma {:induction false} SoloRun(limit: int, done: nat) returns (st: State)
    requires done <= limit
    ensures Reachable(st, limit, 1) && Solo(st, limit, done)
  {
    if done == 0 {
      st := Init(limit, 1);
      assert st == Run(limit, 1, []);
    } else {
      var before := SoloRun(limit, done - 1);
      st := SoloReserves(before, limit, done - 1);
      st := SoloUpdates(st, limit, done);
      st := SoloRecords(st, limit, done, CasOutcome(0, done, done - 1, true, None));
    }
  }

  /** Nothing keeps a worker from succeeding: for every limit there is a run that ends with all operations matched
      and the counter at the limit. */
  lemma EveryOperationCanMatch(limit: nat) returns (st: State)
    requires limit > 0
    ensures Reachable(st, limit, 1) && Quiescent(st)
    ensures st.version == st.value == st.issued == |st.history| == limit
    ensures forall i :: 0 <= i < limit ==> st.history[i].outcome.kind == Matched
  {
    st := SoloRun(limit, limit);
    ReachableStep(st, limit, 1, 0, Enter);
    st := Step(st, 0, Enter);
    ReachableStep(st, limit, 1, 0, Load);
    st := Step(st, 0, Load);
  }

  /** The update of the worker that has read the counter is lost on its way. */
  lemma RunToLostUpdate(e: UpdateError) returns (st: State)
    requires LeavesFateOpen(e)
    ensures Reachable(st, 0, 1) && st.workers == [Executed(1, CasOutcome(0, 1, 0, true, Some(e)))]
    ensures st.version == 0 && st.issued == 1 && st.history == [] && st.lost == [LostUpdate(1, 0)]
  {
    st := RunToUpdate();
    ReachableStep(st, 0, 1, 0, Update(false, Some(e)));
    st := Step(st, 0, Update(false, Some(e)));
  }

  /** Why unknown outcomes skip checks: an update whose fate is open may be applied after its worker has recorded
      it as unknown and stopped, and then the store is ahead of all recorded matches. */
  lemma LostUpdateMayLand(e: UpdateError) returns (st: State)
    requires LeavesFateOpen(e)
    ensures Reachable(st, 0, 1) && Quiescent(st) && st.version == st.value == 1
    ensures |st.history| == 1 && st.history[0].outcome.kind == Indeterminate
  {
    var lost := RunToLostUpdate(e);
    st := SoloRecords(lost, 0, 1, CasOutcome(0, 1, 0, true, Some(e)));
    ReachableStep(st, 0, 1, 0, Quit);
    st := Step(st, 0, Quit);
    ReachableStep(st, 0, 1, 0, Land(0));
    st := Step(st, 0, Land(0));
  }
}
