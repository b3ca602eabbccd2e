/** concurrency/scenarios.go, disjointSetScenario: every worker sets its own field and remembers its last
    acknowledgement. The store may be faulty: it may keep a write whose rejection it reports, lose one that it
    acknowledges, or apply one late. */
module DisjointSet {
  import opened Common
  import opened Ledgers
  import opened Oracles

  datatype Pc =
    | Looping
    | Reserved(sequence: int)
    | Updated(sequence: int, outcome: Outcome)
    | Remembered(sequence: int, outcome: Outcome)
    | Stopped

  /** What happened to the numbers of a worker, in the order in which it happened. */
  datatype Event = Applied(worker: nat, sequence: int) | Acknowledged(worker: nat, sequence: int)

  /** A write that was not applied when it was answered. */
  datatype LateWrite = LateWrite(worker: nat, sequence: int, error: Option<UpdateError>)

  /** `fields` is the stored document, `acknowledged` the scenario's slots, `late` the writes that may still
      be applied; `log` is a history variable. */
  datatype State = State(issued: int, fields: seq<Option<int>>, acknowledged: seq<int>, workers: seq<Pc>,
                         history: seq<Outcome>, late: seq<LateWrite>, log: seq<Event>)

  datatype Action =
    | Quit
    | Reserve
    | Update(applied: bool, error: Option<UpdateError>)
    | Land(i: nat)
    | Remember
    | Record

  function Init(n: nat): State {
    State(0, seq(n, i => None), seq(n, i => 0), seq(n, i => Looping), [], [], [])
  }

  predicate Shaped(st: State) {
    && |st.fields| == |st.acknowledged| == |st.workers|
    && forall p :: p in st.late ==> p.worker < |st.workers|
  }

  predicate IsRejection(error: Option<UpdateError>) {
    error.Some? && Refuses(error.value)
  }

  function Apply(st: State, w: nat, sequence: int): State
    requires Shaped(st) && w < |st.workers|
  {
    st.(fields := st.fields[w := Some(sequence)], log := st.log + [Applied(w, sequence)])
  }

  /** The store answers an update: whatever it says, it may have applied it, or not, or not yet. */
  function Answer(st: State, w: nat, sequence: int, applied: bool, error: Option<UpdateError>): State
    requires Shaped(st) && w < |st.workers|
  {
    var next := if applied then Apply(st, w, sequence) else st.(late := st.late + [LateWrite(w, sequence, error)]);
    next.(workers := st.workers[w := Updated(sequence, UpdateOutcome(1, 1, error))],
          log := if error == None then next.log + [Acknowledged(w, sequence)] else next.log)
  }

  /** A late write is applied after all. */
  function Arrive(st: State, i: nat): (next: State)
    requires Shaped(st) && i < |st.late|
    ensures Shaped(next)
  {
    assert st.late[i] in st.late;
    Apply(st, st.late[i].worker, st.late[i].sequence).(late := st.late[..i] + st.late[i + 1..])
  }

  /** One access by worker w, or a late write that is applied after all. */
  function Step(st: State, w: nat, a: Action): (next: State)
    requires Shaped(st) && w < |st.workers|
    ensures Shaped(next)
  {
    match (st.workers[w], a)
    case (_, Land(i)) =>
      if i < |st.late| then Arrive(st, i) else st
    case (Looping, Quit) => st.(workers := st.workers[w := Stopped])
    case (Looping, Reserve) => st.(workers := st.workers[w := Reserved(st.issued + 1)], issued := st.issued + 1)
    case (Reserved(sequence), Update(applied, error)) => Answer(st, w, sequence, applied, error)
    case (Updated(sequence, outcome), Remember) =>
      st.(workers := st.workers[w := Remembered(sequence, outcome)],
          acknowledged := if outcome.kind == Matched then st.acknowledged[w := sequence] else st.acknowledged)
    case (Remembered(_, outcome), Record) =>
      st.(workers := st.workers[w := Looping], history := st.history + [outcome])
    case _ => st
  }

  function Run(n: nat, schedule: seq<(nat, Action)>): (st: State)
    ensures Shaped(st) && |st.workers| == n
  {
    if schedule == [] then Init(n)
    else
      var before := Run(n, schedule[..|schedule| - 1]);
      var (w, a) := schedule[|schedule| - 1];
      if w < |before.workers| then Step(before, w, a) else before
  }

  predicate Quiescent(st: State) {
    forall w :: 0 <= w < |st.workers| ==> st.workers[w].Stopped?
  }

  // ---------------------------------------------------------------- the checks

  function RetainsLastAcknowledgement(worker: nat, stored: Option<int>, want: int, indeterminate: int): Check {
    Check("worker_" + Digits(worker) + "RetainsLastAcknowledgement",
          if want > 0 then stored == Some(want) else stored == None, indeterminate > 0)
  }

  function AllAcknowledgedWritesMatched(s: LedgerSnapshot): Check {
    Check("allAcknowledgedWritesMatched", s.matched == s.attempts - s.rejected - s.indeterminate, false)
  }

  /** The loop of Verify over the workers' slots, between the check of the ledger and that of the payload. */
  method Verify(fields: seq<Option<int>>, acknowledged: seq<int>, payload: Option<string>, wanted: string,
                s: LedgerSnapshot)
    returns (checks: seq<Check>)
    requires |fields| == |acknowledged|
    ensures |checks| == |acknowledged| + 2 && checks[0] == AllAcknowledgedWritesMatched(s)
    ensures forall w :: 0 <= w < |acknowledged| ==>
              checks[w + 1] == RetainsLastAcknowledgement(w, fields[w], acknowledged[w], s.indeterminate)
    ensures checks[|acknowledged| + 1] == PayloadCheck(payload == Some(wanted))
  {
    checks := [AllAcknowledgedWritesMatched(s)];
    for w := 0 to |acknowledged|
      invariant |checks| == w + 1 && checks[0] == AllAcknowledgedWritesMatched(s)
      invariant forall k :: 0 <= k < w ==>
                  checks[k + 1] == RetainsLastAcknowledgement(k, fields[k], acknowledged[k], s.indeterminate)
    {
      var want := acknowledged[w];
      var passed := fields[w].None?;
      if want > 0 { passed := fields[w].Some? && fields[w].value == want; }
      checks := checks + [Check("worker_" + Digits(w) + "RetainsLastAcknowledgement", passed, s.indeterminate > 0)];
    }
    checks := checks + [PayloadCheck(payload.Some? && payload.value == wanted)];
  }

  // ---------------------------------------------------------------- invariant

  function LastApplied(log: seq<Event>, w: nat): Option<int> {
    if log == [] then None
    else
      var e := log[|log| - 1];
      if e.Applied? && e.worker == w then Some(e.sequence) else LastApplied(log[..|log| - 1], w)
  }

  function LastAcknowledged(log: seq<Event>, w: nat): Option<int> {
    if log == [] then None
    else
      var e := log[|log| - 1];
      if e.Acknowledged? && e.worker == w then Some(e.sequence) else LastAcknowledged(log[..|log| - 1], w)
  }

  lemma LogStep(log: seq<Event>, e: Event, w: nat)
    ensures LastApplied(log + [e], w) == if e.Applied? && e.worker == w then Some(e.sequence) else LastApplied(log, w)
    ensures LastAcknowledged(log + [e], w) ==
              if e.Acknowledged? && e.worker == w then Some(e.sequence) else LastAcknowledged(log, w)
  {
    assert (log + [e])[..|log|] == log;
  }

  /** An answer writes at most two events. */
  lemma AnswerLog(st: State, w: nat, sequence: int, applied: bool, error: Option<UpdateError>, k: nat)
    requires Shaped(st) && w < |st.workers|
    ensures var log := Answer(st, w, sequence, applied, error).log;
            && LastApplied(log, k) == (if applied && k == w then Some(sequence) else LastApplied(st.log, k))
            && LastAcknowledged(log, k)
                 == (if error == None && k == w then Some(sequence) else LastAcknowledged(st.log, k))
  {
    var half := if applied then st.log + [Applied(w, sequence)] else st.log;
    LogStep(st.log, Applied(w, sequence), k);
    LogStep(half, Acknowledged(w, sequence), k);
  }

  /** The number behind a slot of a worker. */
  function SlotOf(sequence: Option<int>): int {
    if sequence.Some? then sequence.value else 0
  }

  predicate Positive(sequence: Option<int>) {
    sequence.Some? ==> sequence.value > 0
  }

  /** Worker w's field holds its last applied write, and its slot the last acknowledged one, unless that
      is still to be remembered. */
  predicate Consistent(st: State, w: nat)
    requires Shaped(st) && w < |st.workers|
  {
    var acked, pc := LastAcknowledged(st.log, w), st.workers[w];
    && st.fields[w] == LastApplied(st.log, w)
    && Positive(st.fields[w]) && Positive(acked)
    && (pc.Reserved? || pc.Updated? ==> pc.sequence > 0)
    && (if pc.Updated? && pc.outcome.kind == Matched then acked == Some(pc.sequence)
        else st.acknowledged[w] == SlotOf(acked))
  }

  ghost predicate Inv(st: State) {
    && Shaped(st)
    && 0 <= st.issued
    && (forall p :: p in st.late ==> p.sequence > 0)
    && (forall w :: 0 <= w < |st.workers| ==> Consistent(st, w))
    && (forall w :: 0 <= w < |st.workers| && (st.workers[w].Updated? || st.workers[w].Remembered?) ==>
          st.workers[w].outcome.kind != NoMatch && Acceptable(st.workers[w].outcome))
    && (forall o :: o in st.history ==> o.kind != NoMatch && Acceptable(o))
  }

  lemma ConsistentArrival(st: State, i: nat, k: nat)
    requires i < |st.late| && k < |st.workers| && Inv(st)
    ensures Consistent(Arrive(st, i), k)
  {
    assert Consistent(st, k) && st.late[i] in st.late;
    LogStep(st.log, Applied(st.late[i].worker, st.late[i].sequence), k);
  }

  lemma ConsistentAnswer(st: State, w: nat, applied: bool, error: Option<UpdateError>, k: nat)
    requires w < |st.workers| && k < |st.workers| && Inv(st) && st.workers[w].Reserved?
    ensures Consistent(Answer(st, w, st.workers[w].sequence, applied, error), k)
  {
    assert Consistent(st, k) && Consistent(st, w);
    AnswerLog(st, w, st.workers[w].sequence, applied, error, k);
  }

  /** Every other step leaves document and log alone. */
  lemma ConsistentStep(st: State, w: nat, a: Action, k: nat)
    requires w < |st.workers| && k < |st.workers| && Inv(st)
    ensures Consistent(Step(st, w, a), k)
  {
    if a.Land? {
      if a.i < |st.late| { ConsistentArrival(st, a.i, k); }
    } else if a.Update? && st.workers[w].Reserved? {
      ConsistentAnswer(st, w, a.applied, a.error, k);
    } else {
      assert Consistent(st, k) && Step(st, w, a).log == st.log;
    }
  }

  lemma StepKeepsInv(st: State, w: nat, a: Action)
    requires w < |st.workers| && Inv(st)
    ensures Inv(Step(st, w, a))
  {
    var next := Step(st, w, a);
    assert Consistent(st, w);
    forall k | 0 <= k < |st.workers| ensures Consistent(next, k) { ConsistentStep(st, w, a, k); }
  }

  lemma {:induction false} RunKeepsInv(n: nat, schedule: seq<(nat, Action)>)
    ensures Inv(Run(n, schedule))
  {
    if schedule != [] {
      var before := Run(n, schedule[..|schedule| - 1]);
      var (w, a) := schedule[|schedule| - 1];
      RunKeepsInv(n, schedule[..|schedule| - 1]);
      if w < |before.workers| { StepKeepsInv(before, w, a); }
    }
  }

  /** At the end of any run, over any store whatever, a worker's check passes exactly when the last write
      applied and the last write acknowledged are the same, or there is neither; it is skipped exactly when
      some outcome is unknown. */
  lemma DetectionIsExact(n: nat, schedule: seq<(nat, Action)>, s: LedgerSnapshot, w: nat)
    requires w < n
    requires var st := Run(n, schedule); Quiescent(st) && ReportsTotals(s, st.history)
    ensures var st := Run(n, schedule);
            var check := RetainsLastAcknowledgement(w, st.fields[w], st.acknowledged[w], s.indeterminate);
            && (check.passed <==> LastApplied(st.log, w) == LastAcknowledged(st.log, w))
            && (check.skipped <==> exists o :: o in st.history && o.kind == Indeterminate)
  {
    var st := Run(n, schedule);
    RunKeepsInv(n, schedule);
    assert Consistent(st, w) && st.workers[w].Stopped?;
    NoneOfKind(st.history, Indeterminate);
  }

  // ---------------------------------------------------------------- stores that apply what they acknowledge

  /** The store applies a write before it acknowledges it. */
  predicate Prompt(schedule: seq<(nat, Action)>) {
    forall i :: 0 <= i < |schedule| && schedule[i].1.Update? && schedule[i].1.error == None ==> schedule[i].1.applied
  }

  /** Nobody said that the write was done. */
  predicate Unanswered(st: State, w: nat, sequence: int) {
    Acknowledged(w, sequence) !in st.log
  }

  /** The last applied write is the last acknowledged one, or was never acknowledged. */
  predicate Settled(st: State, w: nat) {
    var applied := LastApplied(st.log, w);
    applied == LastAcknowledged(st.log, w) || (applied.Some? && Unanswered(st, w, applied.value))
  }

  /** Numbers acknowledged, or of a late write, have been issued, and no late write was acknowledged. */
  ghost predicate LateUnanswered(st: State) {
    && (forall e :: e in st.log && e.Acknowledged? ==> e.sequence <= st.issued)
    && (forall p :: p in st.late ==> p.sequence <= st.issued && Unanswered(st, p.worker, p.sequence))
  }

  /** The number of an operation that is still to be sent is in no late write and was not acknowledged. */
  predicate Fresh(st: State, w: nat)
    requires w < |st.workers|
  {
    st.workers[w].Reserved? ==>
      && st.workers[w].sequence <= st.issued && Unanswered(st, w, st.workers[w].sequence)
      && forall p :: p in st.late && p.worker == w ==> p.sequence != st.workers[w].sequence
  }

  ghost predicate PromptInv(st: State) {
    && Shaped(st)
    && LateUnanswered(st)
    && (forall w :: 0 <= w < |st.workers| ==> Fresh(st, w))
    && (forall w :: 0 <= w < |st.workers| ==> Settled(st, w))
  }

  lemma PromptArrival(st: State, i: nat)
    requires i < |st.late| && PromptInv(st)
    ensures PromptInv(Arrive(st, i))
  {
    var late := st.late[i];
    assert late in st.late;
    forall k | 0 <= k < |st.workers| ensures Settled(Arrive(st, i), k) && Fresh(Arrive(st, i), k) {
      assert Settled(st, k) && Fresh(st, k);
      LogStep(st.log, Applied(late.worker, late.sequence), k);
    }
  }

  /** An answer adds no acknowledgement but its own. */
  lemma AnswerAcknowledges(st: State, w: nat, sequence: int, applied: bool, error: Option<UpdateError>)
    requires Shaped(st) && w < |st.workers|
    ensures forall e :: e in Answer(st, w, sequence, applied, error).log && e.Acknowledged? ==>
              e in st.log || (error == None && e == Acknowledged(w, sequence))
  {
  }

  lemma AnswerSettles(st: State, w: nat, applied: bool, error: Option<UpdateError>, k: nat)
    requires w < |st.workers| && k < |st.workers| && PromptInv(st) && st.workers[w].Reserved?
    requires error == None ==> applied
    ensures Settled(Answer(st, w, st.workers[w].sequence, applied, error), k)
  {
    var sequence := st.workers[w].sequence;
    assert Settled(st, k) && Fresh(st, w);
    AnswerLog(st, w, sequence, applied, error, k);
    AnswerAcknowledges(st, w, sequence, applied, error);
  }

  lemma AnswerKeepsFresh(st: State, w: nat, applied: bool, error: Option<UpdateError>, k: nat)
    requires w < |st.workers| && k < |st.workers| && PromptInv(st) && st.workers[w].Reserved?
    requires error == None ==> applied
    ensures Fresh(Answer(st, w, st.workers[w].sequence, applied, error), k)
  {
    assert Fresh(st, k);
    AnswerAcknowledges(st, w, st.workers[w].sequence, applied, error);
  }

  lemma AnswerKeepsLate(st: State, w: nat, applied: bool, error: Option<UpdateError>)
    requires w < |st.workers| && PromptInv(st) && st.workers[w].Reserved? && (error == None ==> applied)
    ensures LateUnanswered(Answer(st, w, st.workers[w].sequence, applied, error))
  {
    assert Fresh(st, w);
    AnswerAcknowledges(st, w, st.workers[w].sequence, applied, error);
  }

  lemma PromptAnswer(st: State, w: nat, applied: bool, error: Option<UpdateError>)
    requires w < |st.workers| && PromptInv(st) && st.workers[w].Reserved? && (error == None ==> applied)
    ensures PromptInv(Answer(st, w, st.workers[w].sequence, applied, error))
  {
    AnswerKeepsLate(st, w, applied, error);
    forall k | 0 <= k < |st.workers|
      ensures Settled(Answer(st, w, st.workers[w].sequence, applied, error), k)
      ensures Fresh(Answer(st, w, st.workers[w].sequence, applied, error), k)
    {
      AnswerSettles(st, w, applied, error, k);
      AnswerKeepsFresh(st, w, applied, error, k);
    }
  }

  lemma PromptStep(st: State, w: nat, a: Action)
    requires w < |st.workers| && PromptInv(st)
    requires a.Update? && a.error == None ==> a.applied
    ensures PromptInv(Step(st, w, a))
  {
    if a.Land? {
      if a.i < |st.late| { PromptArrival(st, a.i); }
    } else if a.Update? && st.workers[w].Reserved? {
      PromptAnswer(st, w, a.applied, a.error);
    } else {
      assert Step(st, w, a).log == st.log && Step(st, w, a).late == st.late;
      forall k | 0 <= k < |st.workers| ensures Settled(Step(st, w, a), k) && Fresh(Step(st, w, a), k) {
        assert Settled(st, k) && Fresh(st, k);
      }
    }
  }

  lemma {:induction false} PromptRun(n: nat, schedule: seq<(nat, Action)>)
    requires Prompt(schedule)
    ensures PromptInv(Run(n, schedule))
  {
    if schedule != [] {
      var init := schedule[..|schedule| - 1];
      var (w, a) := schedule[|schedule| - 1];
      assert Prompt(init);
      PromptRun(n, init);
      if w < n { PromptStep(Run(n, init), w, a); }
    }
  }

  lemma {:induction false} LastAcknowledgedIsLogged(log: seq<Event>, w: nat)
    requires LastAcknowledged(log, w).Some?
    ensures Acknowledged(w, LastAcknowledged(log, w).value) in log
  {
    var e := log[|log| - 1];
    if !(e.Acknowledged? && e.worker == w) { LastAcknowledgedIsLogged(log[..|log| - 1], w); }
  }

  /** Over a store that applies what it acknowledges, a worker's check fails exactly when its last applied
      write was never acknowledged, for instance because it was rejected. */
  lemma SavedRejectIsDetected(n: nat, schedule: seq<(nat, Action)>, s: LedgerSnapshot, w: nat)
    requires w < n && Prompt(schedule)
    requires var st := Run(n, schedule); Quiescent(st) && ReportsTotals(s, st.history)
    ensures var st := Run(n, schedule);
            var check := RetainsLastAcknowledgement(w, st.fields[w], st.acknowledged[w], s.indeterminate);
            var applied := LastApplied(st.log, w);
            !check.passed <==> applied.Some? && Acknowledged(w, applied.value) !in st.log
  {
    var st := Run(n, schedule);
    DetectionIsExact(n, schedule, s, w);
    PromptRun(n, schedule);
    assert Settled(st, w);
    if LastAcknowledged(st.log, w).Some? { LastAcknowledgedIsLogged(st.log, w); }
  }

  // ---------------------------------------------------------------- atomic stores

  /** An atomic store applies what it acknowledges and nothing it rejects, now or later; a write with any
      other error it may apply when it likes. */
  predicate AtomicAction(st: State, a: Action) {
    match a
    case Update(applied, error) => (error == None ==> applied) && (IsRejection(error) ==> !applied)
    case Land(i) => i < |st.late| ==> !IsRejection(st.late[i].error)
    case _ => true
  }

  predicate AtomicRun(n: nat, schedule: seq<(nat, Action)>) {
    schedule == [] ||
    (var init := schedule[..|schedule| - 1];
     AtomicRun(n, init) && AtomicAction(Run(n, init), schedule[|schedule| - 1].1))
  }

  /** Some outcome is unknown, recorded or about to be. */
  ghost predicate SomeUnknown(st: State) {
    || (exists o :: o in st.history && o.kind == Indeterminate)
    || exists w :: 0 <= w < |st.workers| && UnknownWorker(st.workers[w])
  }

  predicate UnknownWorker(pc: Pc) {
    (pc.Updated? || pc.Remembered?) && pc.outcome.kind == Indeterminate
  }

  /** Field and acknowledgement agree, and nothing but rejected writes is late. */
  ghost predicate Agreed(st: State) {
    && (forall w :: 0 <= w < |st.workers| ==> LastApplied(st.log, w) == LastAcknowledged(st.log, w))
    && (forall i :: 0 <= i < |st.late| ==> IsRejection(st.late[i].error))
  }

  lemma UnknownStays(st: State, w: nat, a: Action)
    requires Shaped(st) && w < |st.workers| && SomeUnknown(st)
    ensures SomeUnknown(Step(st, w, a))
  {
    var next := Step(st, w, a);
    if o :| o in st.history && o.kind == Indeterminate {
      assert o in next.history;
    } else {
      var k :| 0 <= k < |st.workers| && UnknownWorker(st.workers[k]);
      if k == w && a.Record? && st.workers[w].Remembered? {
        assert st.workers[w].outcome in next.history;
      } else {
        assert UnknownWorker(next.workers[k]);
      }
    }
  }

  lemma AgreedStep(st: State, w: nat, a: Action)
    requires Shaped(st) && w < |st.workers| && Agreed(st) && AtomicAction(st, a)
    ensures SomeUnknown(Step(st, w, a)) || Agreed(Step(st, w, a))
  {
    if a.Update? && st.workers[w].Reserved? {
      AgreedAnswer(st, w, a.applied, a.error);
    } else {
      assert Step(st, w, a).log == st.log && Step(st, w, a).late == st.late;
    }
  }

  lemma AgreedAnswer(st: State, w: nat, applied: bool, error: Option<UpdateError>)
    requires Shaped(st) && w < |st.workers| && st.workers[w].Reserved?
    requires Agreed(st) && AtomicAction(st, Update(applied, error))
    ensures var next := Answer(st, w, st.workers[w].sequence, applied, error); SomeUnknown(next) || Agreed(next)
  {
    var next := Answer(st, w, st.workers[w].sequence, applied, error);
    if error.Some? && !Refuses(error.value) {
      assert UnknownWorker(next.workers[w]);
    } else {
      forall k | 0 <= k < |st.workers| ensures LastApplied(next.log, k) == LastAcknowledged(next.log, k) {
        AnswerLog(st, w, st.workers[w].sequence, applied, error, k);
      }
    }
  }

  lemma {:induction false} AtomicRunAgrees(n: nat, schedule: seq<(nat, Action)>)
    requires AtomicRun(n, schedule)
    ensures SomeUnknown(Run(n, schedule)) || Agreed(Run(n, schedule))
  {
    if schedule != [] {
      var init := schedule[..|schedule| - 1];
      var (w, a) := schedule[|schedule| - 1];
      AtomicRunAgrees(n, init);
      if w < n {
        if SomeUnknown(Run(n, init)) { UnknownStays(Run(n, init), w, a); } else { AgreedStep(Run(n, init), w, a); }
      }
    }
  }

  /** Over an atomic store no check of a finished run ever fails. */
  lemma AtomicStoreNeverFails(n: nat, schedule: seq<(nat, Action)>, s: LedgerSnapshot)
    requires AtomicRun(n, schedule)
    requires var st := Run(n, schedule); Quiescent(st) && ReportsTotals(s, st.history)
    ensures AllAcknowledgedWritesMatched(s).passed
    ensures var st := Run(n, schedule);
            forall w :: 0 <= w < n ==>
              var check := RetainsLastAcknowledgement(w, st.fields[w], st.acknowledged[w], s.indeterminate);
              check.skipped || check.passed
  {
    var st := Run(n, schedule);
    RunKeepsInv(n, schedule);
    AtomicRunAgrees(n, schedule);
    TalliesBalance(st.history);
    NoneOfKind(st.history, NoMatch);
    forall w | 0 <= w < n
      ensures var check := RetainsLastAcknowledgement(w, st.fields[w], st.acknowledged[w], s.indeterminate);
              check.skipped || check.passed
    {
      DetectionIsExact(n, schedule, s, w);
      if SomeUnknown(st) { assert exists o :: o in st.history && o.kind == Indeterminate; }
    }
  }

  /** The check of the ledger passes for exactly the histories in which no update found nothing to match. */
  lemma LedgerCheckSays(s: LedgerSnapshot, history: seq<Outcome>)
    requires ReportsTotals(s, history) && forall o :: o in history ==> Acceptable(o)
    ensures AllAcknowledgedWritesMatched(s).passed <==> forall o :: o in history ==> o.kind != NoMatch
  {
    TalliesBalance(history);
    NoneOfKind(history, NoMatch);
  }

  lemma RunStep(n: nat, schedule: seq<(nat, Action)>, w: nat, a: Action)
    requires w < n
    ensures Run(n, schedule + [(w, a)]) == Step(Run(n, schedule), w, a)
  {
    var longer := schedule + [(w, a)];
    assert longer[..|longer| - 1] == schedule && longer[|longer| - 1] == (w, a);
  }

  /** One worker sends one write. */
  lemma OneWrite(applied: bool, error: Option<UpdateError>) returns (schedule: seq<(nat, Action)>)
    ensures var st := Run(1, schedule);
            && st.fields == [if applied then Some(1) else None]
            && st.workers == [Updated(1, UpdateOutcome(1, 1, error))]
            && st.acknowledged == [0] && st.history == []
  {
    schedule := [(0, Reserve)];
    assert Run(1, []) == Init(1);
    RunStep(1, [], 0, Reserve);
    assert [] + [(0, Reserve)] == schedule;
    assert Run(1, schedule).workers == [Reserved(1)];
    RunStep(1, schedule, 0, Update(applied, error));
    schedule := schedule + [(0, Update(applied, error))];
  }

  lemma WriteIsRecorded(schedule: seq<(nat, Action)>, o: Outcome) returns (longer: seq<(nat, Action)>)
    requires Run(1, schedule).workers == [Updated(1, o)] && Run(1, schedule).history == []
    ensures var st, before := Run(1, longer), Run(1, schedule);
            && Quiescent(st) && st.fields == before.fields && st.history == [o]
            && st.acknowledged == if o.kind == Matched then [1] else before.acknowledged
  {
    RunStep(1, schedule, 0, Remember);
    longer := schedule + [(0, Remember)];
    assert Run(1, longer).workers == [Remembered(1, o)];
    RunStep(1, longer, 0, Record);
    longer := longer + [(0, Record)];
    assert Run(1, longer).workers == [Looping];
    RunStep(1, longer, 0, Quit);
    longer := longer + [(0, Quit)];
  }

  /** Over one worker's only write, whatever the store does with it. */
  lemma OneWriteIsRecorded(applied: bool, error: Option<UpdateError>) returns (st: State)
    ensures exists schedule :: st == Run(1, schedule)
    ensures Quiescent(st) && st.history == [UpdateOutcome(1, 1, error)]
    ensures st.fields == [if applied then Some(1) else None]
    ensures st.acknowledged == [if error == None then 1 else 0]
  {
    var schedule := OneWrite(applied, error);
    schedule := WriteIsRecorded(schedule, UpdateOutcome(1, 1, error));
    st := Run(1, schedule);
  }

  /** Both verdicts occur: an acknowledged write that was applied is retained. */
  lemma KeptWriteHappens() returns (st: State)
    ensures exists schedule :: st == Run(1, schedule)
    ensures Quiescent(st) && RetainsLastAcknowledgement(0, st.fields[0], st.acknowledged[0], 0).passed
  {
    st := OneWriteIsRecorded(true, None);
  }

  /** A write that was refused and applied all the same fails the check of its worker. */
  lemma SavedRejectHappens(e: UpdateError) returns (st: State)
    requires Refuses(e)
    ensures exists schedule :: st == Run(1, schedule)
    ensures Quiescent(st) && !RetainsLastAcknowledgement(0, st.fields[0], st.acknowledged[0], 0).passed
  {
    st := OneWriteIsRecorded(true, Some(e));
  }
}
