/** The memoryCollection of concurrency/runner_test.go: the atomic store the scenarios are run against.
    A document is a map; its _id decodes like any other field. */
module MemoryStore {
  import opened Common
  import opened Ledgers
  import opened Causality
  import Runner

  /** Null stands for a field that is not there: an absent map entry reads as nil. */
  datatype Value = Null | Int32(n: int) | Int64(n: int) | Text(s: string)

  type Document = map<string, Value>

  function Field(d: Document, name: string): Value {
    if name in d then d[name] else Null
  }

  predicate Numeric(v: Value) {
    v.Int32? || v.Int64?
  }

  /** The int64 of a number, 0 for anything else. */
  function Number(v: Value): int {
    if Numeric(v) then v.n else 0
  }

  predicate Matches(d: Document, filter: Document) {
    forall name :: name in filter ==> Field(d, name) == filter[name]
  }

  datatype Update = Update(assignments: Document, increments: Document)

  function NumericNames(increments: Document): set<string> {
    set name | name in increments && Numeric(increments[name])
  }

  /** What a field holds after its assignment, or its assignment and its increment. */
  function Assigned(d: Document, u: Update, name: string): Value {
    Field(d + u.assignments, name)
  }

  function Incremented(d: Document, u: Update, name: string): Value
    requires name in u.increments
  {
    Int64(Number(Assigned(d, u, name)) + Number(u.increments[name]))
  }

  /** The document once all assignments and the increments of the given fields are done. */
  function Partial(d: Document, u: Update, done: set<string>): Document {
    d + u.assignments + map name | name in u.increments && name in done :: Incremented(d, u, name)
  }

  lemma PartialFields(d: Document, u: Update, done: set<string>, name: string)
    ensures Field(Partial(d, u, done), name) ==
              if name in u.increments && name in done then Incremented(d, u, name) else Assigned(d, u, name)
  {
  }

  lemma PartialStep(d: Document, u: Update, done: set<string>, name: string)
    requires name in u.increments && name !in done
    ensures Partial(d, u, done + {name}) ==
              Partial(d, u, done)[name := Int64(Number(Field(Partial(d, u, done), name)) + Number(u.increments[name]))]
  {
    PartialFields(d, u, done, name);
  }

  /** What a successful update leaves in a field: an incremented one holds the int64 sum of what was stored or just
      assigned, if that is a number, and the increment; any other assigned one its assignment; the rest stay. */
  lemma FieldAfterUpdate(d: Document, u: Update, name: string, a: int, b: int)
    ensures var after := Partial(d, u, u.increments.Keys);
            var was := if name in u.assignments then u.assignments[name] else Field(d, name);
            && (name !in u.increments ==> Field(after, name) == was)
            && (name in u.increments && (u.increments[name] == Int32(b) || u.increments[name] == Int64(b)) ==>
                  && (was == Int32(a) || was == Int64(a) ==> after[name] == Int64(a + b))
                  && (was == Null || was.Text? ==> after[name] == Int64(b)))
  {
    PartialFields(d, u, u.increments.Keys, name);
  }

  datatype WriteResult = WriteResult(matched: nat, modified: nat, failed: bool)

  class MemoryCollection {
    var document: Document

    constructor ()
      ensures document == map[]
    {
      document := map[];
    }

    method InsertOne(inserted: Document)
      modifies this
      ensures document == inserted
    {
      document := inserted;
    }

    method FindOne(filter: Document) returns (r: Option<Document>)
      ensures r == if Matches(document, filter) then Some(document) else None
    {
      if !Matches(document, filter) { return None; }
      return Some(document);
    }

    /** An increment that is not a number fails the update halfway: the assignments, and the increments of
        the fields visited before it, stay. Fields are visited in no particular order. */
    method UpdateOne(filter: Document, update: Update) returns (r: WriteResult)
      modifies this
      ensures !Matches(old(document), filter) ==> document == old(document) && r == WriteResult(0, 0, false)
      ensures Matches(old(document), filter) && Succeeds(update) ==>
                document == Partial(old(document), update, update.increments.Keys) && r == WriteResult(1, 1, false)
      ensures Matches(old(document), filter) && !Succeeds(update) ==>
                MayLeave(old(document), update, document) && r == WriteResult(0, 0, true)
    {
      if !Matches(document, filter) { return WriteResult(0, 0, false); }
      document := document + update.assignments;
      assert document == Partial(old(document), update, {});
      var done := IncrementAll(old(document), update);
      r := if done then WriteResult(1, 1, false) else WriteResult(0, 0, true);
    }

    /** The loop over the increments; d is the document before the update. */
    method IncrementAll(ghost d: Document, update: Update) returns (ok: bool)
      requires document == Partial(d, update, {})
      modifies this
      ensures ok <==> Succeeds(update)
      ensures ok ==> document == Partial(d, update, update.increments.Keys)
      ensures !ok ==> MayLeave(d, update, document)
    {
      var names := update.increments.Keys;
      ghost var done: set<string> := {};
      while names != {}
        invariant names !! done && names + done == update.increments.Keys
        invariant done <= NumericNames(update.increments)
        invariant document == Partial(d, update, done)
        decreases names
      {
        var name :| name in names;
        if !Numeric(update.increments[name]) { return false; }
        PartialStep(d, update, done, name);
        document := document[name := Int64(Number(Field(document, name)) + Number(update.increments[name]))];
        names, done := names - {name}, done + {name};
      }
      ok := true;
    }
  }

  // ---------------------------------------------------------------- failing halfway

  predicate Succeeds(u: Update) {
    NumericNames(u.increments) == u.increments.Keys
  }

  /** A failed update may have done any of the increments that can be done. */
  ghost predicate MayLeave(d: Document, u: Update, after: Document) {
    exists done :: done <= NumericNames(u.increments) && after == Partial(d, u, done)
  }

  /** Every assignment repeats a stored field, and every increment that can be done adds zero to an int64. */
  predicate ChangesNothing(d: Document, u: Update) {
    && (forall name :: name in u.assignments ==> name in d && u.assignments[name] == d[name])
    && (forall name :: name in NumericNames(u.increments) ==> Field(d, name).Int64? && u.increments[name].n == 0)
  }

  lemma PartialChangesNothing(d: Document, u: Update, done: set<string>)
    requires ChangesNothing(d, u) && done <= NumericNames(u.increments)
    ensures Partial(d, u, done) == d
  {
    assert d + u.assignments == d;
    forall name | name in done ensures name in d && Incremented(d, u, name) == d[name] {
      assert name in NumericNames(u.increments);
    }
  }

  /** A failing update leaves the document alone, whatever it did before it failed, exactly if none of its
      parts would change it. */
  lemma FailureIsHarmlessIff(d: Document, u: Update)
    ensures (forall after :: MayLeave(d, u, after) ==> after == d) <==> ChangesNothing(d, u)
  {
    if ChangesNothing(d, u) {
      forall after | MayLeave(d, u, after) ensures after == d {
        var done :| done <= NumericNames(u.increments) && after == Partial(d, u, done);
        PartialChangesNothing(d, u, done);
      }
    }
    if forall after :: MayLeave(d, u, after) ==> after == d {
      HarmlessParts(d, u);
    }
  }

  lemma HarmlessParts(d: Document, u: Update)
    requires forall after :: MayLeave(d, u, after) ==> after == d
    ensures ChangesNothing(d, u)
  {
    var none, all := Partial(d, u, {}), Partial(d, u, NumericNames(u.increments));
    assert MayLeave(d, u, none) && MayLeave(d, u, all);
    forall name | name in u.assignments ensures name in d && u.assignments[name] == d[name] {
      assert name in none && none[name] == u.assignments[name];
    }
    forall name | name in NumericNames(u.increments) ensures Field(d, name).Int64? && u.increments[name].n == 0 {
      PartialFields(d, u, {}, name);
      PartialFields(d, u, NumericNames(u.increments), name);
      assert Field(d, name) == Field(none, name) == Field(all, name);
    }
  }

  /** An assignment beside an increment by text: the update fails, and the assignment is kept. */
  lemma HalfwayFailure(d: Document, after: Document)
    requires Field(d, "a") == Int64(1)
    requires MayLeave(d, Update(map["a" := Int64(2)], map["b" := Text("x")]), after)
    ensures !Succeeds(Update(map["a" := Int64(2)], map["b" := Text("x")])) && Field(after, "a") == Int64(2)
  {
    var u := Update(map["a" := Int64(2)], map["b" := Text("x")]);
    assert "b" in u.increments && "b" !in NumericNames(u.increments);
    var done :| done <= NumericNames(u.increments) && after == Partial(d, u, done);
    PartialFields(d, u, done, "a");
  }

  // ---------------------------------------------------------------- the runner's store

  /** The document of divergent-cas, and what its workers ask for. */
  function CounterDocument(version: int, value: int, payload: string): Document {
    map["_id" := Text("divergent-cas"), "generation" := Int64(version), "value" := Int64(value),
        "payload" := Text(payload)]
  }

  const BY_ID := map["_id" := Text("divergent-cas")]

  function CasFilter(version: int): Document {
    map["_id" := Text("divergent-cas"), "generation" := Int64(version)]
  }

  function CasUpdate(sequence: int): Update {
    Update(map["value" := Int64(sequence)], map["generation" := Int64(1)])
  }

  /** The store holds what the runner's state says. */
  predicate Holds(d: Document, st: Runner.State, payload: string) {
    d == CounterDocument(st.version, st.value, payload)
  }

  lemma CasMatches(st: Runner.State, d: Document, payload: string, observed: int)
    requires Holds(d, st, payload)
    ensures Matches(d, CasFilter(observed)) <==> observed == st.version
    ensures Matches(d, BY_ID)
  {
    var filter := CasFilter(observed);
    assert Field(d, "generation") == Int64(st.version) && filter["generation"] == Int64(observed);
    assert "generation" in filter;
  }

  lemma CasApplies(version: int, value: int, payload: string, sequence: int)
    ensures Succeeds(CasUpdate(sequence))
    ensures Partial(CounterDocument(version, value, payload), CasUpdate(sequence), CasUpdate(sequence).increments.Keys)
              == CounterDocument(version + 1, sequence, payload)
  {
    var u := CasUpdate(sequence);
    assert u.increments.Keys == {"generation"} == NumericNames(u.increments);
    assert Incremented(CounterDocument(version, value, payload), u, "generation") == Int64(version + 1);
  }

  /** Seeding the store is the runner's initial state. */
  method SeedCas(store: MemoryCollection, limit: int, workers: nat, payload: string)
    modifies store
    ensures Holds(store.document, Runner.Init(limit, workers), payload)
  {
    store.InsertOne(CounterDocument(0, 0, payload));
  }

  /** Reading the generation is the runner's Read step. */
  method ReadCas(store: MemoryCollection, st: Runner.State, w: nat, payload: string) returns (version: int)
    requires w < |st.workers| && st.workers[w].Reserved? && Holds(store.document, st, payload)
    ensures Runner.Step(st, w, Runner.Read(true)).workers[w] == Runner.HasRead(st.workers[w].sequence, version)
  {
    CasMatches(st, store.document, payload, 0);
    var found := store.FindOne(BY_ID);
    version := Number(Field(found.value, "generation"));
  }

  /** The update itself: it matches if the generation is the one observed. */
  method UpdateCas(store: MemoryCollection, st: Runner.State, payload: string, version: int, sequence: int)
    returns (matched: nat, modified: nat)
    requires Holds(store.document, st, payload)
    modifies store
    ensures matched == modified == if st.version == version then 1 else 0
    ensures store.document == if st.version == version
                              then CounterDocument(version + 1, sequence, payload) else old(store.document)
  {
    CasMatches(st, store.document, payload, version);
    CasApplies(st.version, st.value, payload, sequence);
    var r := store.UpdateOne(CasFilter(version), CasUpdate(sequence));
    matched, modified := r.matched, r.modified;
  }

  /** The update of one worker is the runner's Update step: it yields the same outcome and moves the stored
      document the same way. The way to the store may lose the answer of an update, or the update itself;
      `error` is what the driver then reports. */
  method ExecuteCas(store: MemoryCollection, st: Runner.State, w: nat, payload: string,
                    applied: bool, error: Option<UpdateError>) returns (outcome: Outcome)
    requires w < |st.workers| && st.workers[w].HasRead? && Holds(store.document, st, payload)
    modifies store
    ensures var next := Runner.Step(st, w, Runner.Update(applied, error));
            && Holds(store.document, next, payload)
            && next.workers[w] == Runner.Executed(st.workers[w].sequence, outcome)
  {
    var version, sequence := st.workers[w].version, st.workers[w].sequence;
    var matched, modified := 0, 0;
    if error.None? || (applied && !Refuses(error.value)) {
      matched, modified := UpdateCas(store, st, payload, version, sequence);
    }
    outcome := UpdateOutcome(matched, modified, error)
      .(sequence := sequence, worker := w, cas := Some(CasOperation(version, version + 1)));
  }

  /** The arrival of a lost update is the runner's Land step. */
  method LandCas(store: MemoryCollection, st: Runner.State, i: nat, payload: string)
    requires i < |st.lost| && Holds(store.document, st, payload)
    modifies store
    ensures Holds(store.document, Runner.Arrive(st, i), payload)
  {
    var matched, modified := UpdateCas(store, st, payload, st.lost[i].version, st.lost[i].sequence);
  }
}
