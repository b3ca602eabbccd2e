/** concurrency/ledger.go: the causal ledger of compare-and-set edges. The specification describes it by
    the history of recorded edges; the class refines that description. */
module Causality {
  import opened Sums

  const MAX_ERROR_SAMPLES := 20
  const COUNT_LIMIT := 255

  datatype CasOperation = CasOperation(observed: int, proposed: int)

  datatype Edge = Edge(sequence: int, worker: int, maximum: int, bounded: bool, op: CasOperation)

  datatype Identity = Identity(sequence: int, worker: int)

  datatype Finding =
    | InvalidEdge(observed: int, competing: Identity)
    | DuplicateMatch(observed: int, first: Identity, competing: Identity)

  // ---------------------------------------------------------------- what a history of edges amounts to

  predicate ValidEdge(e: Edge) {
    && 0 <= e.op.observed
    && e.op.proposed == e.op.observed + 1
    && (e.bounded ==> e.op.observed <= e.maximum)
  }

  /** The generations observed by valid edges, in recording order. */
  function Generations(edges: seq<Edge>): (r: seq<int>)
    ensures forall g :: g in r ==> 0 <= g
    ensures |r| <= |edges|
  {
    if edges == [] then []
    else
      var e := edges[|edges| - 1];
      Generations(edges[..|edges| - 1]) + if ValidEdge(e) then [e.op.observed] else []
  }

  /** The highest generation, or 0 when there is none. */
  function Highest(gens: seq<int>): (r: int)
    ensures 0 <= r && (forall g :: g in gens ==> g <= r) && (r == 0 || r in gens)
  {
    if gens == [] then 0
    else
      var rest, last := Highest(gens[..|gens| - 1]), gens[|gens| - 1];
      assert gens == gens[..|gens| - 1] + [last];
      if last > rest then last else rest
  }

  ghost predicate RecordedMatch(edges: seq<Edge>, sequence: int) {
    exists i :: 0 <= i < |edges| && ValidEdge(edges[i]) && edges[i].sequence == sequence
  }

  /** The first valid edge to observe each generation. */
  function Firsts(edges: seq<Edge>): (m: map<int, Identity>)
    ensures forall g :: g in m <==> g in Generations(edges)
  {
    if edges == [] then map[]
    else
      var before, e := Firsts(edges[..|edges| - 1]), edges[|edges| - 1];
      if ValidEdge(e) && e.op.observed !in before
      then before[e.op.observed := Identity(e.sequence, e.worker)]
      else before
  }

  /** Every finding in order, without the limit on how many are kept. */
  function Findings(edges: seq<Edge>): seq<Finding> {
    if edges == [] then []
    else
      var before, e := edges[..|edges| - 1], edges[|edges| - 1];
      var me := Identity(e.sequence, e.worker);
      Findings(before) +
      if !ValidEdge(e) then [InvalidEdge(e.op.observed, me)]
      else if e.op.observed in Generations(before)
          then [DuplicateMatch(e.op.observed, Firsts(before)[e.op.observed], me)]
      else []
  }

  function Keep<T>(s: seq<T>): seq<T> {
    if |s| <= MAX_ERROR_SAMPLES then s else s[..MAX_ERROR_SAMPLES]
  }

  lemma GenerationsStep(edges: seq<Edge>, e: Edge)
    ensures Generations(edges + [e]) == Generations(edges) + if ValidEdge(e) then [e.op.observed] else []
  {
    assert (edges + [e])[..|edges|] == edges;
  }

  lemma FindingsStep(edges: seq<Edge>, e: Edge)
    ensures var me, g := Identity(e.sequence, e.worker), e.op.observed;
            Findings(edges + [e]) == Findings(edges) +
              if !ValidEdge(e) then [InvalidEdge(g, me)]
              else if g in Generations(edges) then [DuplicateMatch(g, Firsts(edges)[g], me)] else []
  {
    assert (edges + [e])[..|edges|] == edges;
  }

  lemma RecordedMatchStep(edges: seq<Edge>, e: Edge, s: int)
    ensures RecordedMatch(edges + [e], s) <==> RecordedMatch(edges, s) || (ValidEdge(e) && e.sequence == s)
  {
    if RecordedMatch(edges, s) {
      var i :| 0 <= i < |edges| && ValidEdge(edges[i]) && edges[i].sequence == s;
      assert (edges + [e])[i] == edges[i];
    }
    if ValidEdge(e) && e.sequence == s { assert (edges + [e])[|edges|] == e; }
  }

  lemma FirstsOf(edges: seq<Edge>, e: Edge)
    ensures var g, before := e.op.observed, Firsts(edges);
            Firsts(edges + [e]) ==
              if ValidEdge(e) && g !in Generations(edges) then before[g := Identity(e.sequence, e.worker)] else before
  {
    assert (edges + [e])[..|edges|] == edges;
  }

  // ---------------------------------------------------------------- what the findings report

  function IdentityOf(e: Edge): Identity {
    Identity(e.sequence, e.worker)
  }

  predicate EdgeAt(edges: seq<Edge>, j: nat, g: int, me: Identity) {
    j < |edges| && edges[j].op.observed == g && IdentityOf(edges[j]) == me
  }

  /** Edge j observes a negative generation, proposes another than the next, or passes its bound. */
  predicate InvalidAt(edges: seq<Edge>, j: nat, g: int, me: Identity) {
    && EdgeAt(edges, j, g, me)
    && (g < 0 || edges[j].op.proposed != g + 1 || (edges[j].bounded && g > edges[j].maximum))
  }

  predicate ValidAt(edges: seq<Edge>, j: nat, g: int, me: Identity) {
    && EdgeAt(edges, j, g, me)
    && 0 <= g && edges[j].op.proposed == g + 1 && (edges[j].bounded ==> g <= edges[j].maximum)
  }

  /** Edge i is the first valid one to observe g. */
  ghost predicate FirstAt(edges: seq<Edge>, i: nat, g: int, me: Identity) {
    ValidAt(edges, i, g, me) && forall k: nat, other :: k < i ==> !ValidAt(edges, k, g, other)
  }

  /** A valid edge that observes g again after the first one did. */
  ghost predicate RepeatAt(edges: seq<Edge>, i: nat, j: nat, g: int, first: Identity, me: Identity) {
    i < j && FirstAt(edges, i, g, first) && ValidAt(edges, j, g, me)
  }

  ghost predicate Tells(edges: seq<Edge>, finding: Finding) {
    match finding
    case InvalidEdge(g, me) => exists j: nat :: InvalidAt(edges, j, g, me)
    case DuplicateMatch(g, first, me) => exists i: nat, j: nat :: RepeatAt(edges, i, j, g, first, me)
  }

  lemma AtStep(edges: seq<Edge>, e: Edge, j: nat, g: int, me: Identity)
    ensures InvalidAt(edges + [e], j, g, me) <==>
            InvalidAt(edges, j, g, me)
            || (j == |edges| && !ValidEdge(e) && e.op.observed == g && IdentityOf(e) == me)
    ensures ValidAt(edges + [e], j, g, me) <==>
            ValidAt(edges, j, g, me) || (j == |edges| && ValidEdge(e) && e.op.observed == g && IdentityOf(e) == me)
  {
  }

  lemma {:induction false} GenerationsAre(edges: seq<Edge>, g: int)
    ensures g in Generations(edges) <==> exists j: nat, me :: ValidAt(edges, j, g, me)
  {
    if edges != [] {
      var init, e := edges[..|edges| - 1], edges[|edges| - 1];
      assert edges == init + [e];
      GenerationsAre(init, g);
      forall j: nat, me ensures ValidAt(edges, j, g, me) <==>
        ValidAt(init, j, g, me) || (j == |init| && ValidEdge(e) && e.op.observed == g && IdentityOf(e) == me)
      {
        AtStep(init, e, j, g, me);
      }
      if ValidEdge(e) && e.op.observed == g { assert ValidAt(edges, |init|, g, IdentityOf(e)); }
    }
  }

  lemma FirstStays(edges: seq<Edge>, e: Edge, i: nat, g: int, me: Identity)
    requires FirstAt(edges, i, g, me)
    ensures FirstAt(edges + [e], i, g, me)
  {
    AtStep(edges, e, i, g, me);
    forall k: nat, other | k < i ensures !ValidAt(edges + [e], k, g, other) { AtStep(edges, e, k, g, other); }
  }

  /** The table of first observers holds the first valid edge that observed each generation. */
  lemma {:induction false} FirstsAreFirst(edges: seq<Edge>, g: int) returns (i: nat)
    requires g in Generations(edges)
    ensures FirstAt(edges, i, g, Firsts(edges)[g])
  {
    var init, e := edges[..|edges| - 1], edges[|edges| - 1];
    assert edges == init + [e];
    if g in Generations(init) {
      i := FirstsAreFirst(init, g);
      FirstStays(init, e, i, g, Firsts(init)[g]);
    } else {
      i := |init|;
      GenerationsAre(init, g);
      forall k: nat, other | k < i ensures !ValidAt(edges, k, g, other) { AtStep(init, e, k, g, other); }
    }
  }

  lemma FirstUnique(edges: seq<Edge>, i: nat, k: nat, g: int, a: Identity, b: Identity)
    requires FirstAt(edges, i, g, a) && FirstAt(edges, k, g, b)
    ensures i == k && a == b
  {
  }

  /** What a new edge adds to what can be told. */
  lemma TellsStep(edges: seq<Edge>, e: Edge, finding: Finding)
    requires Tells(edges, finding)
    ensures Tells(edges + [e], finding)
  {
    match finding
    case InvalidEdge(g, me) =>
      var j: nat :| InvalidAt(edges, j, g, me);
      AtStep(edges, e, j, g, me);
    case DuplicateMatch(g, first, me) =>
      var i: nat, j: nat :| RepeatAt(edges, i, j, g, first, me);
      FirstStays(edges, e, i, g, first);
      AtStep(edges, e, j, g, me);
      assert RepeatAt(edges + [e], i, j, g, first, me);
  }

  lemma NewFindingTells(edges: seq<Edge>, e: Edge)
    ensures !ValidEdge(e) ==> Tells(edges + [e], InvalidEdge(e.op.observed, IdentityOf(e)))
    ensures ValidEdge(e) && e.op.observed in Generations(edges) ==>
              Tells(edges + [e], DuplicateMatch(e.op.observed, Firsts(edges)[e.op.observed], IdentityOf(e)))
  {
    var g, me := e.op.observed, IdentityOf(e);
    if !ValidEdge(e) {
      assert InvalidAt(edges + [e], |edges|, g, me);
    } else if g in Generations(edges) {
      var i := FirstsAreFirst(edges, g);
      FirstStays(edges, e, i, g, Firsts(edges)[g]);
      assert RepeatAt(edges + [e], i, |edges|, g, Firsts(edges)[g], me);
    }
  }

  lemma ToldBefore(edges: seq<Edge>, e: Edge, finding: Finding)
    requires Tells(edges + [e], finding) && !Tells(edges, finding)
    ensures finding == if ValidEdge(e) && e.op.observed in Generations(edges)
                       then DuplicateMatch(e.op.observed, Firsts(edges)[e.op.observed], IdentityOf(e))
                       else InvalidEdge(e.op.observed, IdentityOf(e))
    ensures finding.InvalidEdge? ==> !ValidEdge(e)
  {
    match finding
    case InvalidEdge(g, me) =>
      var j: nat :| InvalidAt(edges + [e], j, g, me);
      AtStep(edges, e, j, g, me);
    case DuplicateMatch(g, first, me) =>
      var i: nat, j: nat :| RepeatAt(edges + [e], i, j, g, first, me);
      AtStep(edges, e, i, g, first);
      AtStep(edges, e, j, g, me);
      forall k: nat, other | k < i ensures !ValidAt(edges, k, g, other) { AtStep(edges, e, k, g, other); }
      assert FirstAt(edges, i, g, first);
      assert !RepeatAt(edges, i, j, g, first, me);
      GenerationsAre(edges, g);
      var k := FirstsAreFirst(edges, g);
      FirstUnique(edges, i, k, g, first, Firsts(edges)[g]);
  }

  /** Reported are exactly the invalid edges, and every valid edge that comes after another one for its
      generation, together with the first of those. */
  lemma {:induction false} FindingsTell(edges: seq<Edge>, finding: Finding)
    ensures finding in Findings(edges) <==> Tells(edges, finding)
  {
    if edges != [] {
      var init, e := edges[..|edges| - 1], edges[|edges| - 1];
      assert edges == init + [e];
      FindingsTell(init, finding);
      FindingsStep(init, e);
      NewFindingTells(init, e);
      if Tells(init, finding) {
        TellsStep(init, e, finding);
      } else if Tells(edges, finding) {
        ToldBefore(init, e, finding);
      }
    }
  }

  /** There is one finding for each edge that is invalid or repeats a generation. */
  lemma {:induction false} FindingsCount(edges: seq<Edge>)
    ensures |Findings(edges)| == |edges| - |Distinct(Generations(edges))|
  {
    if edges == [] {
      assert Distinct(Generations(edges)) == {};
    } else {
      var init, e := edges[..|edges| - 1], edges[|edges| - 1];
      assert edges == init + [e];
      FindingsCount(init);
      FindingsStep(init, e);
      GenerationsStep(init, e);
      if ValidEdge(e) {
        DistinctSnoc(Generations(init), e.op.observed);
      } else {
        assert Generations(edges) == Generations(init);
      }
    }
  }

  // ---------------------------------------------------------------- growing arrays

  /** Appends zero slots until index g has one. */
  function Grow<T>(s: seq<T>, g: nat, zero: T): (r: seq<T>)
    ensures g < |r| && s <= r
    ensures |r| == if g < |s| then |s| else g + 1
    ensures forall k :: |s| <= k < |r| ==> r[k] == zero
  {
    if g < |s| then s else s + seq(g - |s| + 1, i => zero)
  }

  function Bump(counts: seq<nat>, g: nat): seq<nat>
    requires g < |counts|
  {
    if counts[g] < COUNT_LIMIT then counts[g := counts[g] + 1] else counts
  }

  ghost function Slots(gens: seq<int>): nat {
    if gens == [] then 0 else Highest(gens) + 1
  }

  /** Slot g holds the number of times g was observed, saturated at the limit of a byte. */
  ghost predicate CountsMatch(counts: seq<nat>, gens: seq<int>) {
    && |counts| == Slots(gens)
    && forall g :: 0 <= g < |counts| ==>
         counts[g] == Saturated(gens, g)
  }

  ghost function Saturated(gens: seq<int>, g: int): nat {
    if multiset(gens)[g] > COUNT_LIMIT then COUNT_LIMIT else multiset(gens)[g]
  }

  lemma CountStep(gens: seq<int>, g: int, k: int)
    ensures multiset(gens + [g])[k] == multiset(gens)[k] + if k == g then 1 else 0
    ensures multiset(gens)[k] > 0 <==> k in gens
  {
  }

  lemma GrownSlot(counts: seq<nat>, gens: seq<int>, g: nat, k: nat)
    requires CountsMatch(counts, gens) && k < |Grow(counts, g, 0)|
    ensures Grow(counts, g, 0)[k] == Saturated(gens, k)
  {
    if k >= |counts| { assert k !in gens; }
  }

  lemma HighestStep(gens: seq<int>, g: int)
    ensures Highest(gens + [g]) == if g > Highest(gens) then g else Highest(gens)
  {
    assert (gens + [g])[..|gens|] == gens;
  }

  lemma CountsStep(counts: seq<nat>, gens: seq<int>, g: nat)
    requires CountsMatch(counts, gens)
    ensures CountsMatch(Bump(Grow(counts, g, 0), g), gens + [g])
    ensures Grow(counts, g, 0)[g] > 0 <==> g in gens
  {
    HighestStep(gens, g);
    var grown := Grow(counts, g, 0);
    forall k | 0 <= k < |grown| ensures grown[k] == Saturated(gens, k) {
      GrownSlot(counts, gens, g, k);
    }
    forall k | 0 <= k < |grown| ensures Bump(grown, g)[k] == Saturated(gens + [g], k) {
      CountStep(gens, g, k);
    }
  }

  /** Slot g holds what m says of every generation g. */
  ghost predicate Tabulates(firsts: seq<Identity>, gens: seq<int>, m: map<int, Identity>) {
    && |firsts| == Slots(gens)
    && forall g :: g in gens ==> 0 <= g < |firsts| && g in m && firsts[g] == m[g]
  }

  /** Slot g holds the first edge that observed g. */
  ghost predicate FirstsMatch(firsts: seq<Identity>, edges: seq<Edge>) {
    Tabulates(firsts, Generations(edges), Firsts(edges))
  }

  lemma SlotsStep(gens: seq<int>, g: nat)
    ensures Slots(gens + [g]) == if g < Slots(gens) then Slots(gens) else g + 1
  {
    HighestStep(gens, g);
  }

  lemma TabulatesStep(firsts: seq<Identity>, gens: seq<int>, m: map<int, Identity>, g: nat, me: Identity)
    requires Tabulates(firsts, gens, m)
    ensures var grown := Grow(firsts, g, Identity(0, 0));
            if g in gens then Tabulates(grown, gens + [g], m) else Tabulates(grown[g := me], gens + [g], m[g := me])
  {
    SlotsStep(gens, g);
  }

  lemma FirstsStep(firsts: seq<Identity>, edges: seq<Edge>, e: Edge)
    requires FirstsMatch(firsts, edges) && ValidEdge(e)
    ensures var g, grown := e.op.observed, Grow(firsts, e.op.observed, Identity(0, 0));
            FirstsMatch(if g in Generations(edges) then grown else grown[g := Identity(e.sequence, e.worker)],
                        edges + [e])
  {
    GenerationsStep(edges, e);
    FirstsOf(edges, e);
    TabulatesStep(firsts, Generations(edges), Firsts(edges), e.op.observed, Identity(e.sequence, e.worker));
  }

  /** An invalid edge changes neither the generations nor the first observers. */
  lemma InvalidStep(firsts: seq<Identity>, edges: seq<Edge>, e: Edge)
    requires FirstsMatch(firsts, edges) && !ValidEdge(e)
    ensures Generations(edges + [e]) == Generations(edges) && FirstsMatch(firsts, edges + [e])
  {
    GenerationsStep(edges, e);
    FirstsOf(edges, e);
    assert Generations(edges) + [] == Generations(edges);
  }

  // ---------------------------------------------------------------- the bitset

  function Mask(k: nat): bv64
    requires k < 64
  {
    1 << k
  }

  /** The test made by OperationMatched. */
  predicate BitSet(words: seq<bv64>, sequence: int) {
    0 < sequence && sequence / 64 < |words| && words[sequence / 64] & Mask(sequence % 64) != 0
  }

  lemma OrThenAnd(w: bv64, m: bv64, n: bv64)
    ensures (w | m) & n != 0 <==> w & n != 0 || m & n != 0
  {
  }

  lemma MasksMeet(j: nat, k: nat)
    requires j < 64 && k < 64
    ensures Mask(k) & Mask(j) != 0 <==> j == k
  {
  }

  lemma SetBit(w: bv64, j: nat, k: nat)
    requires j < 64 && k < 64
    ensures (w | Mask(k)) & Mask(j) != 0 <==> w & Mask(j) != 0 || j == k
  {
    OrThenAnd(w, Mask(k), Mask(j));
    MasksMeet(j, k);
  }

  lemma NoBits(m: bv64)
    ensures (0 as bv64) & m == 0
  {
  }

  /** The words after the bit of a positive sequence is set, with words added as needed. */
  function WithBit(words: seq<bv64>, sequence: nat): seq<bv64> {
    var grown := Grow(words, sequence / 64, 0);
    grown[sequence / 64 := grown[sequence / 64] | Mask(sequence % 64)]
  }

  lemma GrownBits(words: seq<bv64>, index: nat, s: int)
    ensures BitSet(Grow(words, index, 0), s) <==> BitSet(words, s)
  {
    if 0 < s { NoBits(Mask(s % 64)); }
  }

  lemma WithBitSets(words: seq<bv64>, sequence: nat, s: int)
    requires 0 < sequence
    ensures BitSet(WithBit(words, sequence), s) <==> BitSet(words, s) || s == sequence
  {
    GrownBits(words, sequence / 64, s);
    if 0 < s && s / 64 == sequence / 64 { SameWord(words, sequence, s); }
  }

  lemma SameWord(words: seq<bv64>, sequence: nat, s: int)
    requires 0 < s && 0 < sequence && s / 64 == sequence / 64
    ensures BitSet(WithBit(words, sequence), s) <==> BitSet(Grow(words, sequence / 64, 0), s) || s == sequence
  {
    SetBit(Grow(words, sequence / 64, 0)[s / 64], s % 64, sequence % 64);
    assert s == sequence <==> s % 64 == sequence % 64;
  }

  /** The word that holds the bit of an edge, counted from 1; 0 if no bit is set for it. */
  function WordOf(e: Edge): nat {
    if ValidEdge(e) && e.sequence > 0 then e.sequence / 64 + 1 else 0
  }

  /** The fewest words that hold a bit for every edge. */
  function Words(edges: seq<Edge>): (n: nat)
    ensures forall i :: 0 <= i < |edges| ==> WordOf(edges[i]) <= n
    ensures n == 0 || exists i :: 0 <= i < |edges| && WordOf(edges[i]) == n
  {
    if edges == [] then 0
    else
      var before, last := Words(edges[..|edges| - 1]), WordOf(edges[|edges| - 1]);
      if last > before then last else before
  }

  lemma WordsStep(edges: seq<Edge>, e: Edge)
    ensures Words(edges + [e]) == if WordOf(e) > Words(edges) then WordOf(e) else Words(edges)
  {
    assert (edges + [e])[..|edges|] == edges;
  }

  /** The set bits are exactly the positive sequences of valid edges, and no word is kept in reserve. */
  ghost predicate BitsMatch(words: seq<bv64>, edges: seq<Edge>) {
    && |words| == Words(edges)
    && forall s :: BitSet(words, s) <==> 0 < s && RecordedMatch(edges, s)
  }

  lemma BitsStep(words: seq<bv64>, edges: seq<Edge>, e: Edge)
    requires BitsMatch(words, edges)
    ensures BitsMatch(if ValidEdge(e) && e.sequence > 0 then WithBit(words, e.sequence) else words, edges + [e])
  {
    var after := if ValidEdge(e) && e.sequence > 0 then WithBit(words, e.sequence) else words;
    WordsStep(edges, e);
    forall s ensures BitSet(after, s) <==> 0 < s && RecordedMatch(edges + [e], s) {
      RecordedMatchStep(edges, e, s);
      if ValidEdge(e) && e.sequence > 0 { WithBitSets(words, e.sequence, s); }
    }
  }

  // ---------------------------------------------------------------- causalLedger

  /** How a concrete snapshot describes a history of edges. */
  datatype CasSnapshot = CasSnapshot(matchedEdges: int, duplicateMatches: int, invalidEdges: int, highestObserved: int,
                                     uniqueObserved: int, generationSlots: int, findings: seq<Finding>,
                                     matchedBits: seq<bv64>,
                                     operationWords: int, trackerBytes: int)
  {
    predicate OperationMatched(sequence: int) {
      BitSet(matchedBits, sequence)
    }
  }

  ghost predicate Summarizes(s: CasSnapshot, edges: seq<Edge>) {
    var gens := Generations(edges);
    && s.matchedEdges == |edges|
    && s.invalidEdges == |edges| - |gens|
    && s.uniqueObserved == |Distinct(gens)|
    && s.duplicateMatches == |gens| - |Distinct(gens)|
    && s.highestObserved == Highest(gens)
    && s.generationSlots == Slots(gens)
    && s.findings == Keep(Findings(edges))
    && BitsMatch(s.matchedBits, edges)
    && s.operationWords == |s.matchedBits| == Words(edges)
    && s.trackerBytes == 17 * Slots(gens) + 8 * Words(edges)
  }

  /** The fields of causalLedger as a value. */
  datatype CausalState = CausalState(observedCounts: seq<nat>, observedFirst: seq<Identity>, matchedBits: seq<bv64>,
                                     findings: seq<Finding>, matchedEdges: int, duplicates: int, invalidEdges: int,
                                     highestObserved: int)

  const EMPTY_STATE := CausalState([], [], [], [], 0, 0, 0, 0)

  function Retain(findings: seq<Finding>, finding: Finding): seq<Finding> {
    if |findings| < MAX_ERROR_SAMPLES then findings + [finding] else findings
  }

  /** One call of record on the fields. */
  function RecordEdge(st: CausalState, e: Edge): CausalState {
    var g, me := e.op.observed, Identity(e.sequence, e.worker);
    if !ValidEdge(e) then
      st.(matchedEdges := st.matchedEdges + 1, invalidEdges := st.invalidEdges + 1,
          findings := Retain(st.findings, InvalidEdge(g, me)))
    else
      var counts := Grow(st.observedCounts, g, 0);
      var firsts := Grow(st.observedFirst, g, Identity(0, 0));
      var again := counts[g] > 0;
      CausalState(
        Bump(counts, g),
        if again then firsts else firsts[g := me],
        if e.sequence > 0 then WithBit(st.matchedBits, e.sequence) else st.matchedBits,
        if again then Retain(st.findings, DuplicateMatch(g, firsts[g], me)) else st.findings,
        st.matchedEdges + 1,
        if again then st.duplicates + 1 else st.duplicates,
        st.invalidEdges,
        if g > st.highestObserved then g else st.highestObserved)
  }

  ghost predicate TotalsMatch(st: CausalState, edges: seq<Edge>) {
    var gens := Generations(edges);
    && st.matchedEdges == |edges|
    && st.invalidEdges == |edges| - |gens|
    && st.duplicates == |gens| - |Distinct(gens)|
    && st.highestObserved == Highest(gens)
  }

  /** The fields say about the history of edges what their names promise. */
  ghost predicate Describes(st: CausalState, edges: seq<Edge>) {
    && CountsMatch(st.observedCounts, Generations(edges))
    && FirstsMatch(st.observedFirst, edges)
    && BitsMatch(st.matchedBits, edges)
    && TotalsMatch(st, edges)
    && st.findings == Keep(Findings(edges))
  }

  lemma RetainKeeps(all: seq<Finding>, finding: Finding)
    ensures Retain(Keep(all), finding) == Keep(all + [finding])
  {
  }

  lemma FindingsMatchStep(st: CausalState, edges: seq<Edge>, e: Edge)
    requires st.findings == Keep(Findings(edges))
    requires CountsMatch(st.observedCounts, Generations(edges)) && FirstsMatch(st.observedFirst, edges)
    ensures RecordEdge(st, e).findings == Keep(Findings(edges + [e]))
  {
    var g, me := e.op.observed, Identity(e.sequence, e.worker);
    FindingsStep(edges, e);
    if !ValidEdge(e) {
      RetainKeeps(Findings(edges), InvalidEdge(g, me));
    } else {
      CountsStep(st.observedCounts, Generations(edges), g);
      if g in Generations(edges) { RetainKeeps(Findings(edges), DuplicateMatch(g, Firsts(edges)[g], me)); }
    }
  }

  lemma TotalsStep(st: CausalState, edges: seq<Edge>, e: Edge)
    requires TotalsMatch(st, edges) && CountsMatch(st.observedCounts, Generations(edges))
    ensures TotalsMatch(RecordEdge(st, e), edges + [e])
  {
    var g, gens := e.op.observed, Generations(edges);
    GenerationsStep(edges, e);
    if ValidEdge(e) {
      CountsStep(st.observedCounts, gens, g);
      DistinctSnoc(gens, g);
      HighestStep(gens, g);
    } else {
      assert Generations(edges + [e]) == gens;
    }
  }

  lemma ArraysStep(st: CausalState, edges: seq<Edge>, e: Edge)
    requires CountsMatch(st.observedCounts, Generations(edges)) && FirstsMatch(st.observedFirst, edges)
    ensures CountsMatch(RecordEdge(st, e).observedCounts, Generations(edges + [e]))
    ensures FirstsMatch(RecordEdge(st, e).observedFirst, edges + [e])
  {
    if ValidEdge(e) {
      GenerationsStep(edges, e);
      CountsStep(st.observedCounts, Generations(edges), e.op.observed);
      FirstsStep(st.observedFirst, edges, e);
    } else {
      InvalidStep(st.observedFirst, edges, e);
    }
  }

  lemma RecordStep(st: CausalState, edges: seq<Edge>, e: Edge)
    requires Describes(st, edges)
    ensures Describes(RecordEdge(st, e), edges + [e])
  {
    ArraysStep(st, edges, e);
    BitsStep(st.matchedBits, edges, e);
    TotalsStep(st, edges, e);
    FindingsMatchStep(st, edges, e);
  }

  /** The fields after any sequence of record calls. */
  function RecordAll(edges: seq<Edge>): CausalState {
    if edges == [] then EMPTY_STATE else RecordEdge(RecordAll(edges[..|edges| - 1]), edges[|edges| - 1])
  }

  /** Whatever was recorded, in whatever order, the fields describe it. */
  lemma {:induction false} RecordAllDescribes(edges: seq<Edge>)
    ensures Describes(RecordAll(edges), edges)
  {
    if edges == [] {
      assert Distinct(Generations(edges)) == {};
      assert forall s :: !RecordedMatch(edges, s);
    } else {
      RecordAllDescribes(edges[..|edges| - 1]);
      RecordStep(RecordAll(edges[..|edges| - 1]), edges[..|edges| - 1], edges[|edges| - 1]);
      assert edges == edges[..|edges| - 1] + [edges[|edges| - 1]];
    }
  }

  /** After any sequence of calls a slot is the number of valid edges for its generation, at most 255. */
  lemma SlotsAreBytes(edges: seq<Edge>, g: nat)
    requires g < |RecordAll(edges).observedCounts|
    ensures var times := multiset(Generations(edges))[g];
            RecordAll(edges).observedCounts[g] == if times < 255 then times else 255
  {
    RecordAllDescribes(edges);
  }

  /** A report holds all findings up to the twentieth. */
  lemma TwentyFindings(s: CasSnapshot, edges: seq<Edge>)
    requires Summarizes(s, edges)
    ensures s.findings <= Findings(edges)
    ensures var all := s.invalidEdges + s.duplicateMatches; |s.findings| == if all < 20 then all else 20
  {
    FindingsCount(edges);
  }

  class CausalLedger {
    var observedCounts: seq<nat>
    var observedFirst: seq<Identity>
    var matchedBits: seq<bv64>
    var findings: seq<Finding>
    var matchedEdges: int
    var duplicates: int
    var invalidEdges: int
    var highestObserved: int
    ghost var edges: seq<Edge>

    /** The fields are the outcome of recording the history, one edge after the other. */
    ghost predicate Valid()
      reads this
    {
      State() == RecordAll(edges) && |observedCounts| == |observedFirst|
    }

    function State(): CausalState
      reads this
    {
      CausalState(observedCounts, observedFirst, matchedBits, findings, matchedEdges, duplicates, invalidEdges,
                  highestObserved)
    }

    constructor ()
      ensures Valid() && edges == []
    {
      observedCounts, observedFirst, matchedBits, findings := [], [], [], [];
      matchedEdges, duplicates, invalidEdges, highestObserved := 0, 0, 0, 0;
      edges := [];
    }

    method Record(sequence: int, worker: int, maximum: int, bounded: bool, operation: CasOperation)
      requires Valid()
      modifies this
      ensures Valid() && edges == old(edges) + [Edge(sequence, worker, maximum, bounded, operation)]
    {
      ghost var e := Edge(sequence, worker, maximum, bounded, operation);
      RecordFields(sequence, worker, maximum, bounded, operation);
      assert (edges + [e])[..|edges|] == edges;
      edges := edges + [e];
    }

    /** The body of record. */
    method RecordFields(sequence: int, worker: int, maximum: int, bounded: bool, operation: CasOperation)
      requires |observedCounts| == |observedFirst|
      modifies this`observedCounts, this`observedFirst, this`matchedBits, this`findings,
               this`matchedEdges, this`duplicates, this`invalidEdges, this`highestObserved
      ensures |observedCounts| == |observedFirst|
      ensures State() == RecordEdge(old(State()), Edge(sequence, worker, maximum, bounded, operation))
    {
      matchedEdges := matchedEdges + 1;
      if operation.observed < 0 || operation.proposed != operation.observed + 1
         || (bounded && operation.observed > maximum) {
        invalidEdges := invalidEdges + 1;
        RetainFinding(InvalidEdge(operation.observed, Identity(sequence, worker)));
        return;
      }
      Observe(operation.observed, Identity(sequence, worker));
      if sequence > 0 { MarkMatched(sequence); }
    }

    /** Counts one more observation of a generation in the parallel arrays. */
    method Observe(observed: nat, me: Identity)
      requires |observedCounts| == |observedFirst|
      modifies this`observedCounts, this`observedFirst, this`duplicates, this`findings, this`highestObserved
      ensures |observedCounts| == |observedFirst|
      ensures observedCounts == Bump(Grow(old(observedCounts), observed, 0), observed)
      ensures var firsts := Grow(old(observedFirst), observed, Identity(0, 0));
              if Grow(old(observedCounts), observed, 0)[observed] > 0
              then observedFirst == firsts && duplicates == old(duplicates) + 1
                && findings == Retain(old(findings), DuplicateMatch(observed, firsts[observed], me))
              else observedFirst == firsts[observed := me] && duplicates == old(duplicates) && findings == old(findings)
      ensures highestObserved == if observed > old(highestObserved) then observed else old(highestObserved)
    {
      if observed >= |observedCounts| {
        observedCounts := observedCounts + seq(observed - |observedCounts| + 1, i => 0);
        observedFirst := observedFirst + seq(observed - |observedFirst| + 1, i => Identity(0, 0));
      }
      if observedCounts[observed] > 0 {
        duplicates := duplicates + 1;
        RetainFinding(DuplicateMatch(observed, observedFirst[observed], me));
      } else {
        observedFirst := observedFirst[observed := me];
      }
      if observedCounts[observed] < COUNT_LIMIT {
        observedCounts := observedCounts[observed := observedCounts[observed] + 1];
      }
      if observed > highestObserved { highestObserved := observed; }
    }

    /** Sets the bit of a positive sequence. */
    method MarkMatched(sequence: nat)
      modifies this`matchedBits
      ensures matchedBits == WithBit(old(matchedBits), sequence)
    {
      var index := sequence / 64;
      if index >= |matchedBits| { matchedBits := matchedBits + seq(index - |matchedBits| + 1, i => 0); }
      matchedBits := matchedBits[index := matchedBits[index] | Mask(sequence % 64)];
    }

    method RetainFinding(finding: Finding)
      modifies this`findings
      ensures findings == Retain(old(findings), finding)
    {
      if |findings| < MAX_ERROR_SAMPLES { findings := findings + [finding]; }
    }

    /** The loop of snapshot. */
    method CountUnique() returns (unique: int)
      ensures unique == Nonzero(observedCounts)
    {
      unique := 0;
      for i := 0 to |observedCounts|
        invariant unique == Nonzero(observedCounts[..i])
      {
        assert observedCounts[..i + 1][..i] == observedCounts[..i];
        if observedCounts[i] > 0 { unique := unique + 1; }
      }
      assert observedCounts[..|observedCounts|] == observedCounts;
    }

    /** What snapshot reports about the recorded history. */
    method Snapshot() returns (s: CasSnapshot)
      requires Valid()
      ensures Summarizes(s, edges)
    {
      RecordAllDescribes(edges);
      NonzeroIsDistinct(observedCounts, Generations(edges));
      var unique := CountUnique();
      s := CasSnapshot(matchedEdges, duplicates, invalidEdges, highestObserved, unique, |observedCounts|, findings,
                       matchedBits, |matchedBits|, |observedCounts| + 16 * |observedFirst| + 8 * |matchedBits|);
    }
  }

  function Nonzero(counts: seq<nat>): int {
    if counts == [] then 0 else Nonzero(counts[..|counts| - 1]) + if counts[|counts| - 1] > 0 then 1 else 0
  }

  ghost function BelowIn(gens: seq<int>, k: int): set<int> {
    set g | g in gens && g < k
  }

  lemma {:induction false} NonzeroCounts(counts: seq<nat>, gens: seq<int>)
    requires forall g :: g in gens ==> 0 <= g
    requires forall g :: 0 <= g < |counts| ==> (counts[g] > 0 <==> g in gens)
    ensures Nonzero(counts) == |BelowIn(gens, |counts|)|
  {
    if counts == [] {
      assert BelowIn(gens, 0) == {};
    } else {
      var k := |counts| - 1;
      NonzeroCounts(counts[..k], gens);
      assert BelowIn(gens, |counts|) == BelowIn(gens, k) + if k in gens then {k} else {};
    }
  }

  lemma NonzeroIsDistinct(counts: seq<nat>, gens: seq<int>)
    requires CountsMatch(counts, gens) && forall g :: g in gens ==> 0 <= g
    ensures Nonzero(counts) == |Distinct(gens)|
  {
    assert forall g :: g in multiset(gens) <==> g in gens;
    NonzeroCounts(counts, gens);
    assert BelowIn(gens, |counts|) == Distinct(gens);
  }
}
