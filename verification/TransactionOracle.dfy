/** concurrency/transaction_scenario.go: two-document transactions racing to commit, and the oracle that
    decides from the stored documents whether they were atomic and durable. */
module TransactionOracle {
  import opened Common
  import opened Sums
  import opened Ledgers
  import opened Oracles

  const BATCH_SIZE := 2

  // ---------------------------------------------------------------- document ids

  function Zeros(k: int): string {
    if k <= 0 then "" else "0" + Zeros(k - 1)
  }

  /** A decimal number padded with zeros to at least the given width. */
  function Padded(n: nat, width: nat): string {
    Zeros(width - |Digits(n)|) + Digits(n)
  }

  function TransactionDocumentId(sequence: nat, member: nat): string {
    "txn-" + (Padded(sequence, 20) + "-" + Padded(member, 2))
  }

  function Digit(c: char): int {
    c as int - '0' as int
  }

  function Decode(s: string): int {
    if s == [] then 0 else 10 * Decode(s[..|s| - 1]) + Digit(s[|s| - 1])
  }

  lemma {:induction false} DecodeDigits(prefix: string, n: nat)
    requires Decode(prefix) == 0
    ensures Decode(prefix + Digits(n)) == n
    ensures '-' in prefix + Digits(n) ==> '-' in prefix
  {
    var s := prefix + Digits(n);
    if n < 10 {
      assert s[..|s| - 1] == prefix;
    } else {
      assert s[..|s| - 1] == prefix + Digits(n / 10);
      DecodeDigits(prefix, n / 10);
    }
  }

  lemma {:induction false} DecodeZeros(k: int)
    ensures Decode(Zeros(k)) == 0 && '-' !in Zeros(k)
    ensures forall i :: 0 <= i < |Zeros(k)| ==> Zeros(k)[i] == '0'
  {
    if k > 0 {
      DecodeZeros(k - 1);
      AllZerosDecode(Zeros(k));
    }
  }

  lemma {:induction false} AllZerosDecode(s: string)
    requires forall i :: 0 <= i < |s| ==> s[i] == '0'
    ensures Decode(s) == 0
  {
    if s != [] { AllZerosDecode(s[..|s| - 1]); }
  }

  lemma PaddedDecodes(n: nat, width: nat)
    ensures Decode(Padded(n, width)) == n && '-' !in Padded(n, width)
  {
    DecodeZeros(width - |Digits(n)|);
    DecodeDigits(Zeros(width - |Digits(n)|), n);
  }

  /** Different operations and members never share an id. */
  lemma IdsAreInjective(s1: nat, m1: nat, s2: nat, m2: nat)
    ensures TransactionDocumentId(s1, m1) == TransactionDocumentId(s2, m2) <==> s1 == s2 && m1 == m2
  {
    PaddedDecodes(s1, 20);
    PaddedDecodes(s2, 20);
    PaddedDecodes(m1, 2);
    PaddedDecodes(m2, 2);
    if TransactionDocumentId(s1, m1) == TransactionDocumentId(s2, m2) {
      SamePrefix("txn-", Padded(s1, 20) + "-" + Padded(m1, 2), Padded(s2, 20) + "-" + Padded(m2, 2));
      SplitAtDash(Padded(s1, 20), Padded(m1, 2), Padded(s2, 20), Padded(m2, 2));
    }
  }

  lemma SamePrefix(prefix: string, a: string, b: string)
    requires prefix + a == prefix + b
    ensures a == b
  {
    assert (prefix + a)[|prefix|..] == a && (prefix + b)[|prefix|..] == b;
  }

  lemma SplitAtDash(p1: string, q1: string, p2: string, q2: string)
    requires p1 + "-" + q1 == p2 + "-" + q2 && '-' !in p1 && '-' !in p2
    ensures p1 == p2 && q1 == q2
  {
    var s := p1 + "-" + q1;
    assert s[|p1|] == '-' && s[|p2|] == '-';
    assert forall k :: 0 <= k < |p1| ==> s[k] == p1[k] && s[k] != '-';
    assert forall k :: 0 <= k < |p2| ==> s[k] == p2[k] && s[k] != '-';
    assert s[..|p1|] == p1 && s[..|p2|] == p2 && s[|p1| + 1..] == q1 && s[|p2| + 1..] == q2;
  }

  predicate IsNumeral(s: string) {
    forall i :: 0 <= i < |s| ==> '0' <= s[i] <= '9'
  }

  function Power10(k: nat): nat {
    if k == 0 then 1 else 10 * Power10(k - 1)
  }

  lemma {:induction false} DigitsFit(n: nat, width: nat)
    requires n < Power10(width) && width > 0
    ensures 1 <= |Digits(n)| <= width && IsNumeral(Digits(n))
  {
    if n >= 10 {
      assert width > 1 by { assert Power10(1) == 10 * Power10(0); }
      DigitsFit(n / 10, width - 1);
    }
  }

  lemma {:induction false} ZerosFill(k: nat)
    ensures |Zeros(k)| == k
  {
    if k > 0 { ZerosFill(k - 1); }
  }

  lemma PaddedFits(n: nat, width: nat)
    requires n < Power10(width) && width > 0
    ensures |Padded(n, width)| == width && IsNumeral(Padded(n, width)) && Decode(Padded(n, width)) == n
  {
    DigitsFit(n, width);
    ZerosFill(width - |Digits(n)|);
    DecodeZeros(width - |Digits(n)|);
    PaddedDecodes(n, width);
  }

  lemma IdParts(operation: string, member: string)
    requires |operation| == 20 && |member| == 2
    ensures var id := "txn-" + (operation + "-" + member);
            && |id| == 27 && id[..4] == "txn-" && id[4..24] == operation && id[24] == '-' && id[25..] == member
  {
  }

  /** An id is txn-, the operation in twenty digits, a dash, the member in two digits. */
  lemma IdLayout(sequence: nat, member: nat)
    requires sequence < Power10(20) && member < Power10(2)
    ensures var id := TransactionDocumentId(sequence, member);
            && |id| == 27 && id[..4] == "txn-" && id[24] == '-'
            && IsNumeral(id[4..24]) && Decode(id[4..24]) == sequence
            && IsNumeral(id[25..]) && Decode(id[25..]) == member
  {
    PaddedFits(sequence, 20);
    PaddedFits(member, 2);
    IdParts(Padded(sequence, 20), Padded(member, 2));
  }

  // ---------------------------------------------------------------- recorded outcomes

  class TransactionCommitRace {
    var outcomes: seq<Option<OutcomeKind>>

    constructor ()
      ensures outcomes == []
    {
      outcomes := [];
    }

    /** What the array says about an operation; beyond its end nothing was recorded. */
    function Recorded(sequence: int): Option<OutcomeKind>
      reads this
    {
      if 0 <= sequence < |outcomes| then outcomes[sequence] else None
    }

    method Record(sequence: nat, kind: OutcomeKind)
      modifies this
      ensures forall k :: Recorded(k) == if k == sequence then Some(kind) else old(Recorded(k))
    {
      if sequence >= |outcomes| {
        outcomes := outcomes + seq(sequence - |outcomes| + 1, i => None);
      }
      outcomes := outcomes[sequence := Some(kind)];
    }

    method Snapshot(attempts: nat) returns (copied: seq<Option<OutcomeKind>>)
      ensures |copied| == attempts + 1 && forall k :: 0 <= k <= attempts ==> copied[k] == Recorded(k)
    {
      copied := [];
      for i := 0 to attempts + 1
        invariant |copied| == i && forall k :: 0 <= k < i ==> copied[k] == Recorded(k)
      {
        copied := copied + [if i < |outcomes| then outcomes[i] else None];
      }
    }
  }

  // ---------------------------------------------------------------- the oracle

  /** The fields of a stored document that Verify reads; None stands for a missing or mistyped one. */
  datatype Document = Document(operation: Option<int>, member: Option<int>, id: Option<string>)

  function MemberDocument(operation: nat, member: nat): Document {
    Document(Some(operation), Some(member), Some(TransactionDocumentId(operation, member)))
  }

  predicate ValidDocument(d: Document, attempts: int) {
    && d.operation.Some? && 0 < d.operation.value <= attempts
    && d.member.Some? && 0 <= d.member.value < BATCH_SIZE
    && d.id == Some(TransactionDocumentId(d.operation.value, d.member.value))
  }

  function OfOperation(operation: int, attempts: int): Document -> int {
    (d: Document) => One(ValidDocument(d, attempts) && d.operation.value == operation)
  }

  /** How many valid documents of an operation are stored. */
  function Stored(documents: seq<Document>, attempts: int, operation: int): int {
    Sum(documents, OfOperation(operation, attempts))
  }

  predicate EveryOneMatched(s: LedgerSnapshot) {
    s.matched == s.attempts && s.rejected == 0 && s.indeterminate == 0
  }

  /** No operation is stored in part, and nothing invalid is stored. */
  ghost predicate BatchesAreWhole(documents: seq<Document>, attempts: int) {
    && (forall k :: 1 <= k <= attempts ==>
          Stored(documents, attempts, k) == 0 || Stored(documents, attempts, k) == BATCH_SIZE)
    && forall d :: d in documents ==> ValidDocument(d, attempts)
  }

  /** What was acknowledged is stored, and as much is stored as was acknowledged. */
  ghost predicate MatchesAreStored(documents: seq<Document>, outcomes: seq<Option<OutcomeKind>>, s: LedgerSnapshot)
    requires 0 <= s.attempts < |outcomes|
  {
    && (forall k :: 1 <= k <= s.attempts && outcomes[k] == Some(Matched) ==>
        Stored(documents, s.attempts, k) == BATCH_SIZE)
    && |documents| == s.matched * BATCH_SIZE
  }

  predicate Failed(outcome: Option<OutcomeKind>) {
    outcome == Some(Rejected) || outcome == Some(Indeterminate)
  }

  /** The outcomes a transaction can have; no match is not one of them. */
  predicate IsKnown(outcome: Option<OutcomeKind>) {
    outcome == Some(Matched) || outcome == Some(Rejected) || outcome == Some(Indeterminate)
  }

  /** What failed left nothing, and every operation left an outcome. */
  ghost predicate FailuresLeaveNothing(documents: seq<Document>, outcomes: seq<Option<OutcomeKind>>, attempts: int)
    requires 0 <= attempts < |outcomes|
  {
    && (forall k :: 1 <= k <= attempts && Failed(outcomes[k]) ==>
          Stored(documents, attempts, k) == 0)
    && forall k :: 1 <= k <= attempts ==> IsKnown(outcomes[k])
  }

  ghost predicate Passes(documents: seq<Document>, outcomes: seq<Option<OutcomeKind>>, s: LedgerSnapshot)
    requires 0 <= s.attempts < |outcomes|
  {
    && EveryOneMatched(s) && BatchesAreWhole(documents, s.attempts)
    && MatchesAreStored(documents, outcomes, s) && FailuresLeaveNothing(documents, outcomes, s.attempts)
  }

  /** Both documents of operations 1, ..., n. */
  function Batches(n: nat): seq<Document> {
    if n == 0 then [] else Batches(n - 1) + [MemberDocument(n, 0), MemberDocument(n, 1)]
  }

  ghost predicate UniqueIds(documents: seq<Document>) {
    forall i, j :: 0 <= i < j < |documents| && documents[i].id.Some? ==> documents[i].id != documents[j].id
  }

  /** Every operation was recorded matched and exactly its two documents are stored, with nothing else. */
  ghost predicate AllCommitted(documents: seq<Document>, outcomes: seq<Option<OutcomeKind>>, s: LedgerSnapshot)
    requires 0 <= s.attempts < |outcomes|
  {
    && s.matched == s.attempts && s.rejected == s.indeterminate == 0
    && (forall k :: 1 <= k <= s.attempts ==> outcomes[k] == Some(Matched))
    && multiset(documents) == multiset(Batches(s.attempts))
  }

  lemma {:induction false} BatchesHold(n: nat, d: Document)
    ensures |Batches(n)| == n * BATCH_SIZE
    ensures d in Batches(n) <==> ValidDocument(d, n)
  {
    if n > 0 {
      BatchesHold(n - 1, d);
      assert d in Batches(n) <==> d in Batches(n - 1) || d == MemberDocument(n, 0) || d == MemberDocument(n, 1);
    }
  }

  /** The ids of a complete collection are unique, so the premise of exactness can be met. */
  lemma {:induction false} BatchIdsAreUnique(n: nat)
    ensures UniqueIds(Batches(n))
  {
    if n > 0 {
      BatchIdsAreUnique(n - 1);
      var all := Batches(n);
      forall i, j | 0 <= i < j < |all| ensures all[i].id != all[j].id {
        BatchesHold(n - 1, all[i]);
        BatchesHold(n, all[i]);
        BatchesHold(n, all[j]);
        assert ValidDocument(all[i], n) && ValidDocument(all[j], n);
        IdsAreInjective(all[i].operation.value, all[i].member.value, all[j].operation.value, all[j].member.value);
      }
    }
  }

  lemma {:induction false} StoredBeyond(n: nat, attempts: nat, operation: int)
    requires n <= attempts
    ensures Stored(Batches(n), attempts, operation) == if 1 <= operation <= n then BATCH_SIZE else 0
  {
    if n > 0 {
      StoredBeyond(n - 1, attempts, operation);
      var f := OfOperation(operation, attempts);
      SumConcat(Batches(n - 1), [MemberDocument(n, 0), MemberDocument(n, 1)], f);
      SumSnoc([MemberDocument(n, 0)], MemberDocument(n, 1), f);
      SumSnoc([], MemberDocument(n, 0), f);
      assert [] + [MemberDocument(n, 0)] == [MemberDocument(n, 0)];
    }
  }

  /** Distinct valid documents, as many as all batches hold, are all of them. */
  lemma FullCollection(documents: seq<Document>, n: nat)
    requires UniqueIds(documents) && |documents| == n * BATCH_SIZE
    requires forall d :: d in documents ==> ValidDocument(d, n)
    ensures multiset(documents) == multiset(Batches(n))
  {
    assert forall i, j :: 0 <= i < j < |documents| ==> documents[i] != documents[j] by {
      forall i, j | 0 <= i < j < |documents| ensures documents[i] != documents[j] {
        assert ValidDocument(documents[i], n);
      }
    }
    DistinctSize(documents);
    DistinctSize(Batches(n));
    forall d ensures d in Batches(n) <==> ValidDocument(d, n) { BatchesHold(n, d); }
    BatchesHold(n, MemberDocument(0, 0));
    SubsetSize(Distinct(documents), Distinct(Batches(n)));
    SameOnce(documents, Batches(n));
  }

  lemma SameOnce(a: seq<Document>, b: seq<Document>)
    requires Distinct(a) == Distinct(b) && |Distinct(a)| == |a| && |Distinct(b)| == |b|
    ensures multiset(a) == multiset(b)
  {
    DistinctSize(a);
    DistinctSize(b);
    forall d ensures multiset(a)[d] == multiset(b)[d] {
      OccursOnce(a, d);
      OccursOnce(b, d);
      assert d in a <==> d in Distinct(a);
      assert d in b <==> d in Distinct(b);
    }
  }

  lemma FullCollectionStored(documents: seq<Document>, n: nat)
    requires multiset(documents) == multiset(Batches(n))
    ensures forall k :: Stored(documents, n, k) == if 1 <= k <= n then BATCH_SIZE else 0
    ensures forall d :: d in documents ==> ValidDocument(d, n)
    ensures |documents| == n * BATCH_SIZE
  {
    forall k ensures Stored(documents, n, k) == if 1 <= k <= n then BATCH_SIZE else 0 {
      SumPermutation(documents, Batches(n), OfOperation(k, n));
      StoredBeyond(n, n, k);
    }
    forall d | d in documents ensures ValidDocument(d, n) {
      assert d in multiset(Batches(n));
      BatchesHold(n, d);
    }
    assert |documents| == |multiset(documents)| == |Batches(n)|;
    BatchesHold(n, MemberDocument(0, 0));
  }

  // ---------------------------------------------------------------- what each check says of the collection

  lemma {:induction false} StoredMembers(documents: seq<Document>, attempts: int, k: nat)
    requires UniqueIds(documents) && 1 <= k <= attempts
    ensures Stored(documents, attempts, k) ==
            One(MemberDocument(k, 0) in documents) + One(MemberDocument(k, 1) in documents)
  {
    if documents != [] {
      var n := |documents| - 1;
      var init, d := documents[..n], documents[n];
      assert documents == init + [d];
      assert forall i :: 0 <= i < n ==> init[i] == documents[i];
      StoredMembers(init, attempts, k);
      SumSnoc(init, d, OfOperation(k, attempts));
      assert d.id.Some? ==> d !in init;
      IdsAreInjective(k, 0, k, 1);
    }
  }

  /** Both documents of an operation are stored. */
  predicate StoredWhole(documents: seq<Document>, k: nat) {
    MemberDocument(k, 0) in documents && MemberDocument(k, 1) in documents
  }

  predicate StoredNot(documents: seq<Document>, k: nat) {
    MemberDocument(k, 0) !in documents && MemberDocument(k, 1) !in documents
  }

  lemma StoredIs(documents: seq<Document>, attempts: int, k: nat)
    requires UniqueIds(documents) && 1 <= k <= attempts
    ensures Stored(documents, attempts, k) == 2 <==> StoredWhole(documents, k)
    ensures Stored(documents, attempts, k) == 0 <==> StoredNot(documents, k)
  {
    StoredMembers(documents, attempts, k);
  }

  /** Atomic: every batch is there whole or not at all, and all stored documents belong to some batch. */
  lemma AtomicCheckSays(documents: seq<Document>, attempts: int)
    requires UniqueIds(documents)
    ensures BatchesAreWhole(documents, attempts) <==>
            && (forall k: nat :: 1 <= k <= attempts ==> StoredWhole(documents, k) || StoredNot(documents, k))
            && forall d :: d in documents ==> ValidDocument(d, attempts)
  {
    forall k: nat | 1 <= k <= attempts
      ensures Stored(documents, attempts, k) == 0 || Stored(documents, attempts, k) == BATCH_SIZE <==>
              StoredWhole(documents, k) || StoredNot(documents, k)
    {
      StoredIs(documents, attempts, k);
    }
  }

  /** Durable: every acknowledged batch is there whole, and there are two documents for each acknowledgement. */
  lemma DurableCheckSays(documents: seq<Document>, outcomes: seq<Option<OutcomeKind>>, s: LedgerSnapshot)
    requires UniqueIds(documents) && 0 <= s.attempts < |outcomes|
    ensures MatchesAreStored(documents, outcomes, s) <==>
            && (forall k: nat :: 1 <= k <= s.attempts && outcomes[k] == Some(Matched) ==> StoredWhole(documents, k))
            && |documents| == 2 * s.matched
  {
    forall k: nat | 1 <= k <= s.attempts
      ensures Stored(documents, s.attempts, k) == BATCH_SIZE <==> StoredWhole(documents, k)
    {
      StoredIs(documents, s.attempts, k);
    }
  }

  /** No writes left: nothing is there of a batch that was rejected or is unknown, and no operation ended otherwise
      than matched, rejected or unknown. */
  lemma FailureCheckSays(documents: seq<Document>, outcomes: seq<Option<OutcomeKind>>, attempts: int)
    requires UniqueIds(documents) && 0 <= attempts < |outcomes|
    ensures FailuresLeaveNothing(documents, outcomes, attempts) <==>
            forall k: nat :: 1 <= k <= attempts ==>
              || outcomes[k] == Some(Matched)
              || ((outcomes[k] == Some(Rejected) || outcomes[k] == Some(Indeterminate)) && StoredNot(documents, k))
  {
    forall k: nat | 1 <= k <= attempts
      ensures Stored(documents, attempts, k) == 0 <==> StoredNot(documents, k)
    {
      StoredIs(documents, attempts, k);
    }
  }

  /** The oracle is exact: with unique ids its four checks pass if and only if every operation was
      acknowledged and the collection is exactly both members of every batch. */
  lemma OracleIsExact(documents: seq<Document>, outcomes: seq<Option<OutcomeKind>>, s: LedgerSnapshot)
    requires 0 <= s.attempts < |outcomes| && UniqueIds(documents)
    ensures Passes(documents, outcomes, s) <==> AllCommitted(documents, outcomes, s)
  {
    if Passes(documents, outcomes, s) { FullCollection(documents, s.attempts); }
    if multiset(documents) == multiset(Batches(s.attempts)) {
      FullCollectionStored(documents, s.attempts);
      if Passes(documents, outcomes, s) {
        forall k | 1 <= k <= s.attempts ensures outcomes[k] == Some(Matched) {
          assert Stored(documents, s.attempts, k) == BATCH_SIZE;
          var kind := outcomes[k].value;
          assert outcomes[k] == Some(kind) && (kind == Matched || kind == Rejected || kind == Indeterminate);
        }
      }
    }
  }

  /** The loops of Verify: count the valid documents of each operation, then compare with the outcomes. */
  method Verify(documents: seq<Document>, outcomes: seq<Option<OutcomeKind>>, s: LedgerSnapshot)
    returns (checks: seq<Check>)
    requires 0 <= s.attempts && |outcomes| == s.attempts + 1
    ensures checks == [
              Check("allTransactionsEventuallyCommit", EveryOneMatched(s), false),
              Check("transactionBatchesAreAtomic", BatchesAreWhole(documents, s.attempts), false),
              Check("acknowledgedTransactionsAreDurable", MatchesAreStored(documents, outcomes, s), false),
              Check("unacknowledgedTransactionsLeaveNoWrites", FailuresLeaveNothing(documents, outcomes, s.attempts),
                    false)]
    ensures ChecksPassed(checks) <==> Passes(documents, outcomes, s)
  {
    var storedByOperation, invalidDocuments := CountDocuments(documents, s.attempts);
    var partialBatches, missingAcknowledged, storedUnacknowledged, missingOutcomes :=
        CompareOutcomes(storedByOperation, outcomes, s.attempts);
    checks := [
      Check("allTransactionsEventuallyCommit", EveryOneMatched(s), false),
      Check("transactionBatchesAreAtomic", partialBatches == 0 && invalidDocuments == 0, false),
      Check("acknowledgedTransactionsAreDurable", missingAcknowledged == 0 && |documents| == s.matched * BATCH_SIZE,
            false),
      Check("unacknowledgedTransactionsLeaveNoWrites", storedUnacknowledged == 0 && missingOutcomes == 0, false)
    ];
    assert ChecksPassed(checks) <==> checks[0].passed && checks[1].passed && checks[2].passed && checks[3].passed;
  }

  /** The loop of Verify over the operations. */
  method CompareOutcomes(storedByOperation: array<int>, outcomes: seq<Option<OutcomeKind>>, attempts: int)
    returns (partialBatches: nat, missingAcknowledged: nat, storedUnacknowledged: nat, missingOutcomes: nat)
    requires 0 <= attempts && storedByOperation.Length == |outcomes| == attempts + 1
    ensures partialBatches == 0 <==>
              forall i :: 1 <= i <= attempts ==> storedByOperation[i] == 0 || storedByOperation[i] == BATCH_SIZE
    ensures missingAcknowledged == 0 <==>
              forall i :: 1 <= i <= attempts && outcomes[i] == Some(Matched) ==> storedByOperation[i] == BATCH_SIZE
    ensures storedUnacknowledged == 0 <==>
              forall i :: 1 <= i <= attempts && Failed(outcomes[i]) ==> storedByOperation[i] == 0
    ensures missingOutcomes == 0 <==> forall i :: 1 <= i <= attempts ==> IsKnown(outcomes[i])
  {
    partialBatches, missingAcknowledged, storedUnacknowledged, missingOutcomes := 0, 0, 0, 0;
    for k := 1 to attempts + 1
      invariant partialBatches == 0 <==>
                forall i :: 1 <= i < k ==> storedByOperation[i] == 0 || storedByOperation[i] == BATCH_SIZE
      invariant missingAcknowledged == 0 <==>
                forall i :: 1 <= i < k && outcomes[i] == Some(Matched) ==> storedByOperation[i] == BATCH_SIZE
      invariant storedUnacknowledged == 0 <==>
                forall i :: 1 <= i < k && Failed(outcomes[i]) ==> storedByOperation[i] == 0
      invariant missingOutcomes == 0 <==> forall i :: 1 <= i < k ==> IsKnown(outcomes[i])
    {
      var stored := storedByOperation[k];
      if stored != 0 && stored != BATCH_SIZE { partialBatches := partialBatches + 1; }
      match outcomes[k] {
        case Some(Matched) => if stored != BATCH_SIZE { missingAcknowledged := missingAcknowledged + 1; }
        case Some(Rejected) => if stored != 0 { storedUnacknowledged := storedUnacknowledged + 1; }
        case Some(Indeterminate) => if stored != 0 { storedUnacknowledged := storedUnacknowledged + 1; }
        case _ => missingOutcomes := missingOutcomes + 1;
      }
    }
  }

  method CountDocuments(documents: seq<Document>, attempts: nat) returns (stored: array<int>, invalid: nat)
    ensures stored.Length == attempts + 1
    ensures forall k :: 1 <= k <= attempts ==> stored[k] == Stored(documents, attempts, k)
    ensures invalid == 0 <==> forall d :: d in documents ==> ValidDocument(d, attempts)
  {
    stored := new int[attempts + 1](i => 0);
    invalid := 0;
    for i := 0 to |documents|
      invariant forall k :: 1 <= k <= attempts ==> stored[k] == Stored(documents[..i], attempts, k)
      invariant invalid == 0 <==> forall d :: d in documents[..i] ==> ValidDocument(d, attempts)
    {
      var d := documents[i];
      assert documents[..i + 1] == documents[..i] + [d];
      forall k
        ensures Stored(documents[..i + 1], attempts, k)
                  == Stored(documents[..i], attempts, k) + OfOperation(k, attempts)(d)
      {
        SumSnoc(documents[..i], d, OfOperation(k, attempts));
      }
      if !ValidDocument(d, attempts) {
        invalid := invalid + 1;
      } else {
        stored[d.operation.value] := stored[d.operation.value] + 1;
      }
    }
    assert documents[..|documents|] == documents;
  }
}
