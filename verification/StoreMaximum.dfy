/** concurrency/runner.go, storeMaximum: concurrent callers raise a shared value with a load and
    compare-and-swap loop. */
module StoreMaximum {

  datatype Pc = Loading | Loaded(current: int) | Returned

  /** `candidates[w]` is the argument of caller w. */
  datatype State = State(value: int, candidates: seq<int>, callers: seq<Pc>)

  predicate Shaped(st: State) {
    |st.callers| == |st.candidates|
  }

  function Init(value: int, candidates: seq<int>): State {
    State(value, candidates, seq(|candidates|, i => Loading))
  }

  /** The next access of caller w: its load, or the comparison and swap that follow it. */
  function Step(st: State, w: nat): State
    requires Shaped(st) && w < |st.callers|
  {
    match st.callers[w]
    case Loading => st.(callers := st.callers[w := Loaded(st.value)])
    case Loaded(current) =>
      if st.candidates[w] <= current then st.(callers := st.callers[w := Returned])
      else if st.value == current then st.(value := st.candidates[w], callers := st.callers[w := Returned])
      else st.(callers := st.callers[w := Loading])
    case Returned => st
  }

  function Run(value: int, candidates: seq<int>, schedule: seq<nat>): (st: State)
    ensures Shaped(st) && st.candidates == candidates
  {
    if schedule == [] then Init(value, candidates)
    else
      var before, w := Run(value, candidates, schedule[..|schedule| - 1]), schedule[|schedule| - 1];
      if w < |before.callers| then Step(before, w) else before
  }

  /** The value is the initial one or a candidate, never sinks, and covers every caller that returned. */
  ghost predicate Inv(st: State, initial: int) {
    && Shaped(st)
    && initial <= st.value && (st.value == initial || st.value in st.candidates)
    && (forall w :: 0 <= w < |st.callers| && st.callers[w].Loaded? ==> st.callers[w].current <= st.value)
    && (forall w :: 0 <= w < |st.callers| && st.callers[w].Returned? ==> st.candidates[w] <= st.value)
  }

  lemma {:induction false} RunKeepsInv(value: int, candidates: seq<int>, schedule: seq<nat>)
    ensures Inv(Run(value, candidates, schedule), value)
  {
    if schedule != [] { RunKeepsInv(value, candidates, schedule[..|schedule| - 1]); }
  }

  /** Under any interleaving, once every caller has returned the value is the maximum of the initial
      value and all candidates; along the way it never sinks below a returned caller's candidate. */
  lemma CompletedCallsLeaveTheMaximum(value: int, candidates: seq<int>, schedule: seq<nat>)
    ensures var st := Run(value, candidates, schedule);
            && value <= st.value && (st.value == value || st.value in candidates)
            && (forall w :: 0 <= w < |candidates| && st.callers[w].Returned? ==> candidates[w] <= st.value)
            && ((forall w :: 0 <= w < |candidates| ==> st.callers[w].Returned?) ==>
                  forall c :: c in candidates ==> c <= st.value)
  {
    RunKeepsInv(value, candidates, schedule);
  }

  /** A caller that is not disturbed returns after its load and its swap, with the value covering its candidate. */
  lemma UndisturbedCallerReturns(st: State, w: nat)
    requires Shaped(st) && w < |st.callers| && st.callers[w].Loading?
    ensures var after := Step(Step(st, w), w);
            && after.callers[w].Returned?
            && after.value == if st.candidates[w] > st.value then st.candidates[w] else st.value
  {
  }

  /** A caller goes back to its load only if another one has raised the value since. */
  lemma RetryMeansRaised(value: int, candidates: seq<int>, schedule: seq<nat>, w: nat)
    requires var st := Run(value, candidates, schedule);
             w < |st.callers| && st.callers[w].Loaded? && Step(st, w).callers[w].Loading?
    ensures var st := Run(value, candidates, schedule); st.callers[w].current < st.value
  {
    RunKeepsInv(value, candidates, schedule);
  }
}
