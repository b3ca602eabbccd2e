# A verified model of the differential-test harness

The repository compares a DumboDB server with MongoDB. Much of it drives servers; what decides whether a
run passes is a handful of small algorithms. This project models those algorithms in Dafny and proves what
they decide: which runs an oracle accepts, which responses count as equal, which benchmarks count as slower,
and what travels over the wire and comes back.

`dafny verify dfyconfig.toml` checks everything. The files, one per component:

| file | component |
|---|---|
| `Common.dfy`, `Sums.dfy`, `Orders.dfy` | options, bytes and numerals; sums over sequences, counting, the pigeonhole principle; sorting and lexicographic order |
| `Causality.dfy` | the causal ledger: growing parallel arrays, saturating counters, a 64-bit bitset |
| `Ledgers.dfy` | outcomes, their classification, the ledger of counters |
| `Oracles.dfy` | the checks on a compare-and-set run, and exactly which histories they accept |
| `Runner.dfy` | workers that reserve, read, compare-and-set and record; every interleaving of their atomic accesses |
| `MemoryStore.dfy` | the in-memory collection the runner is exercised against |
| `StoreMaximum.dfy` | the compare-and-swap loop that keeps a maximum |
| `DisjointSet.dfy` | workers that each set their own field, over a store that may keep, lose or delay any write |
| `TransactionOracle.dfy` | the counting oracle of the transaction scenario |
| `ShardAssignment.dfy` | spreading benchmarks over shards |
| `RankTest.dfy`, `RankSamples.dfy`, `Verdicts.dfy` | the exact one-sided Mann-Whitney test, the ranking that samples are, the median and the verdict |
| `StateCompare.dfy`, `StateDiff.dfy` | comparing BSON values and whole captured servers |
| `ResponseCompare.dfy`, `RawResponses.dfy`, `ResponseTrees.dfy` | what comparing two responses means, which responses are not told apart, and the in-place walk that does it |
| `Wire.dfy`, `Proxy.dfy` | framing OP_MSG and OP_COMPRESSED messages, reading them back, naming the command they carry |
| `UuidV7.dfy` | the generator of version 7 UUIDs |

Concurrent code is a step relation: one step is one atomic access to shared state, a schedule is any sequence
of steps of any workers, and the theorems hold for every schedule. The store's answers (applied or not,
acknowledged or not, rejected), the late arrival of updates nobody waits for any more, and the clock are
parameters of the steps. Imperative code is a method or a
class proved against a function of its inputs or of its old state, and the theorems are about that function.

## Findings

Where the code does not do what one might expect, the model follows the code and says exactly when.

* **The final-value check of divergent-cas asks too much** (`Runner.DivergentCasPasses`): over an atomic store
  with every outcome known it rejects precisely the runs in which nothing matched, because the stored value is
  then still 0. Such runs exist (`Runner.RefusedRunIsRejected`): one update that the server refuses is enough.
* **A swapped MinKey and MaxKey go unnoticed** (`ResponseCompare.SwappedKeysMatch`,
  `ResponseCompare.LeavesMatchIff`): neither can be written as a BSON document, so both are replaced by what Go
  prints for them, `{}`. `tests/bson_types_test.go` reads both back in order to see a swap. For the same reason
  a Symbol or a JavaScript value matches the string of its text, and a Decimal128 the string of its digits. An
  ObjectID matches the string of its digits too, by a case of its own.
* **A malformed document differs from itself** (`StateCompare.ReflexiveIffReadable`,
  `StateCompare.MalformedDiffersFromItself`): a value compares equal to itself exactly when it can be read.
* **Tied samples** (`Verdicts.DirectionsExcludeEachOther`): the two one-sided tests exclude each other for all
  samples exactly when alpha is at most 1/2; one tied pair of samples is the counterexample above that.
* **The millis tolerance is one-sided** (`ResponseCompare.MatchBothWaysIff`,
  `ResponseCompare.ToleranceIsOneSided`): two responses match whichever server gave which exactly when they are
  the same but for millis that lie within the slack of each other.
* **A checksum flag without checksum bytes costs four bytes of the document** (`Wire.FlagOnlyLosesBytes`), and
  hides the command from the proxy (`Proxy.ChecksummedCommandIsNamed`).
* **UUIDs stop increasing at the end of the 48 bits** (`UuidV7.RunIncreasesIff`,
  `UuidV7.LastMillisecondBreaksTheOrder`): the comment on the generator promises strictly increasing UUIDs
  without a condition; the code keeps the promise exactly as long as no call leaves the last 12-bit count of
  the last 48-bit millisecond behind it.
* **The second strict check adds nothing** (`Oracles.StrictChecksExact`): on a ledger that balances it follows
  from the first.
* **An update of the in-memory store can fail halfway** (`MemoryStore.HalfwayFailure`): an increment that is not
  a number leaves the assignments, and possibly some increments, applied. A failure certainly leaves the document
  alone exactly when no part of the update would have changed it (`MemoryStore.FailureIsHarmlessIff`).

## Model

| member | source | states |
|---|---|---|
| `ShardAssignment.ContainsIffOccurs` | benchmarks/cmd/perfgate/main.go:232-241 | a name is found to contain a text if and only if the text stands at some position of the name |
| `ShardAssignment.WeightByOccurrence` | benchmarks/cmd/perfgate/main.go:232-241 | a name weighs 6 exactly if 50K stands anywhere in it, 2 exactly if 10K does and 50K does not, and otherwise 1 |
| `ShardAssignment.PlacementOrder` | benchmarks/cmd/perfgate/main.go:244-251 | names are placed heavier first, those of one weight in increasing order |
| `Orders.LexLeMeans` | benchmarks/cmd/perfgate/main.go:246-250 | strings are ordered by the first character in which they differ, a prefix first |
| `ShardAssignment.LightestShard` | benchmarks/cmd/perfgate/main.go:255-260 | the inner loop picks the first shard of least load |
| `ShardAssignment.LoopPlaces` | benchmarks/cmd/perfgate/main.go:252-265 | the loop that keeps only the loads and one shard places all items as the placement of all shards does |
| `ShardAssignment.PlaceInTurn` | benchmarks/cmd/perfgate/main.go:252-265 | the loop over the load array returns the content of shard `index`, nothing for an index out of range |
| `ShardAssignment.AssignShard` | benchmarks/cmd/perfgate/main.go:243-268 | the sorted content of shard `index` of the greedy placement of the sorted names |
| `ShardAssignment.ShardsPartitionNames` | benchmarks/cmd/perfgate/main.go:243-268 | running every index once yields every name as often as it was given, and every shard sorted |
| `ShardAssignment.ShardIgnoresInputOrder` | benchmarks/cmd/perfgate/main.go:243-268 | permuting the names changes no shard |
| `ShardAssignment.LastPlacement` | benchmarks/cmd/perfgate/main.go:252-265 | a nonempty shard ends with the item that was put on it while it was the lightest |
| `ShardAssignment.PlacedWeightBound` | benchmarks/cmd/perfgate/main.go:252-265 | when an item lands on a shard, the items placed so far outweigh `count` copies of that shard's load before it |
| `ShardAssignment.PlacedWeightsDivide` | benchmarks/cmd/perfgate/main.go:232-241 | with heavier items first, every load is a multiple of the weight being placed, because 6, 2, 1 divide each other |
| `ShardAssignment.SomeShardReaches` | benchmarks/cmd/perfgate/main.go:232-241 | any distribution of that much weight has a shard that reaches the next multiple |
| `ShardAssignment.GreedyIsOptimal` | benchmarks/cmd/perfgate/main.go:232-268 | for all names and every count of at least 1, no distribution whatever has all its shards lighter than some shard of `AssignShard`: the heaviest load is minimal |
| `RankTest.RankingsExact` | benchmarks/cmd/perfgate/stats.go:41-56 | the finite set of rankings with a given U is the set of all rankings of m head and n base samples with that many wins |
| `RankTest.LargestSample` | benchmarks/cmd/perfgate/stats.go:69-78 | a ranking ends either with a head sample that beats all n base samples, or with a base sample |
| `RankTest.WaysCountsRankings` | benchmarks/cmd/perfgate/stats.go:55-82 | the recurrence counts rankings: its value at (m, n, u) is the number of rankings with U = u |
| `RankTest.WaysSupport` | benchmarks/cmd/perfgate/stats.go:55-82 | an entry is positive exactly for U from 0 to m n |
| `RankTest.WaysConjugate` | benchmarks/cmd/perfgate/stats.go:55-82 | exchanging head and base reflects the distribution |
| `RankTest.UDistribution` | benchmarks/cmd/perfgate/stats.go:55-82 | the table filled in place ends with an array whose entry at u is the value of the recurrence and the number of rankings with U = u, for all m and n |
| `RankTest.FillRow` | benchmarks/cmd/perfgate/stats.go:59-79 | one entry of the table from its two neighbours: for every U the value of the recurrence |
| `RankTest.AddNeighbours` | benchmarks/cmd/perfgate/stats.go:71-78 | the innermost loop adds both neighbouring entries, where they exist, and touches nothing else |
| `RankTest.TotalIsBinomial` | benchmarks/cmd/perfgate/stats.go:41-51 | the entries add up to (m + n)! / (m! n!) |
| `RankTest.TwiceUSwap` | benchmarks/cmd/perfgate/stats.go:29-39 | twice U in one direction and twice U in the other add up to 2 m n, ties included |
| `RankTest.ScorePairs` | benchmarks/cmd/perfgate/stats.go:29-39 | the double loop computes twice U |
| `RankTest.Tally` | benchmarks/cmd/perfgate/stats.go:41-50 | the loop over the distribution computes its total and its upper tail |
| `RankTest.SlowerPValue` | benchmarks/cmd/perfgate/stats.go:24-53 | the method returns the exact p-value, 1 when a sample is empty |
| `RankTest.RankingsFromCount` | benchmarks/cmd/perfgate/stats.go:41-51 | the upper tail counts the rankings whose U reaches the threshold |
| `RankTest.PValueIsRankTail` | benchmarks/cmd/perfgate/stats.go:24-53 | the p-value of nonempty samples, tied or not, is the share of all rankings whose U reaches half of twice U, rounded up, and lies in (0, 1] |
| `RankSamples.TwiceUOfRearranged` | benchmarks/cmd/perfgate/stats.go:29-39 | the score of the pairs depends on the values of each side only, not on their order |
| `RankSamples.ScoreIsTwiceWins` | benchmarks/cmd/perfgate/stats.go:29-43 | for a pool of samples in increasing order the score of the pairs is twice the U of the ranking it is |
| `RankSamples.RankingOfSamples` | benchmarks/cmd/perfgate/stats.go:24-43 | without ties, the ranking read off the sorted samples is one of m head and n base samples, and the computed twice U is twice its U |
| `RankSamples.PValueOfUntiedSamples` | benchmarks/cmd/perfgate/stats.go:24-53 | so the p-value of untied samples is the share of all rankings whose U reaches that of their own |
| `RankTest.TailsOverlap` | benchmarks/cmd/perfgate/stats.go:24-53 | the two tails cover the distribution and overlap in the rankings that tie with the observed U |
| `RankTest.PValuesOverlap` | benchmarks/cmd/perfgate/stats.go:24-53 | the p-values of the two directions add up to at least 1, and to exactly 1 when twice U is odd |
| `Verdicts.MedianUnique` | benchmarks/cmd/perfgate/stats.go:8-19 | the median depends on the values only, not on their order |
| `Verdicts.Median` | benchmarks/cmd/perfgate/stats.go:8-19 | the middle value of a sorted arrangement, the mean of the middle two, 0 for no samples |
| `Verdicts.MedianIff` | benchmarks/cmd/perfgate/stats.go:8-19 | said by counting instead of sorting: for an odd number of samples the median is the value with fewer than half smaller and more than half not larger, for an even one it lies halfway between the two values of the middle ranks |
| `Verdicts.BenchResult.Judge` | benchmarks/cmd/perfgate/main.go:191-212 | a failed build decides alone and writes nothing; otherwise the statistics are recomputed, a base median of zero leaving delta alone; the gate fails exactly on a head failure or a slowdown confirmed by medians and test |
| `Verdicts.BenchResult.Measure` | benchmarks/cmd/perfgate/main.go:198-203 | medians, relative change and both p-values of the samples |
| `Verdicts.TiedSamples` | benchmarks/cmd/perfgate/stats.go:24-53 | one tied sample a side has p-value 1/2 |
| `Verdicts.DirectionsExcludeEachOther` | benchmarks/cmd/perfgate/main.go:202-208 | slower and faster are never both significant, for any nonempty samples, if and only if alpha is at most 1/2 |
| `Causality.CausalLedger.Record` | concurrency/ledger.go:203-251 | one edge is added to the recorded history, and the arrays, counters, bits and findings stay those of that history |
| `Causality.CausalLedger.RecordFields` | concurrency/ledger.go:203-251 | the branches of record move the fields as one recording step does, valid edge or not |
| `Causality.CausalLedger.Observe` | concurrency/ledger.go:219-243 | the parallel arrays grow together with zeroes, the slot is bumped up to 255, a repeat is a duplicate and otherwise becomes the first observer |
| `Causality.CausalLedger.MarkMatched` | concurrency/ledger.go:244-250 | the words grow as needed and one bit is set |
| `Causality.CausalLedger.RetainFinding` | concurrency/ledger.go:253-257 | only the first 20 findings are kept |
| `Causality.CausalLedger.Snapshot` | concurrency/ledger.go:259-281 | the report: recorded edges = invalid + unique + duplicates, highest generation, slots, the first 20 findings in order, bits set exactly for operations of valid edges, no more words than those need, and the bytes all of this takes |
| `Causality.CountsStep` | concurrency/ledger.go:219-240 | after any record the slot of a generation is its true count saturated at 255, and positive exactly for observed generations |
| `Causality.WithBitSets` | concurrency/ledger.go:244-250 | setting a bit, growth included, changes the answer of `OperationMatched` for that operation only |
| `Causality.RecordStep` | concurrency/ledger.go:203-251 | one call keeps the correspondence between the fields and the history, valid edge or not |
| `Causality.RecordAllDescribes` | concurrency/ledger.go:203-257 | after any sequence of calls the fields describe the history: saturated counts, first observers, bits, totals, findings |
| `Causality.FirstsAreFirst` | concurrency/ledger.go:219-243 | the identity kept for a generation is that of the first valid edge that observed it |
| `Causality.FindingsTell` | concurrency/ledger.go:203-257 | a finding is reported if and only if it names an edge that observes a negative generation, proposes another than the next or passes its bound, or a valid edge after an earlier one for its generation, together with the first of those |
| `Causality.FindingsCount` | concurrency/ledger.go:203-257 | there is one finding for each edge that is invalid or repeats a generation |
| `Causality.SlotsAreBytes` | concurrency/ledger.go:219-240 | after any sequence of calls a slot is the number of valid edges for its generation, or 255 if there are more |
| `Causality.TwentyFindings` | concurrency/ledger.go:253-281 | a report holds the findings in order, up to the twentieth |
| `Ledgers.Ledger.Record` | concurrency/ledger.go:92-132 | an outcome is refused exactly when its kind is unknown or it claims a modification without a match, and then nothing changes; otherwise it joins the history the counters are of |
| `Ledgers.Ledger.CountOutcome` | concurrency/ledger.go:95-118 | the switch bumps the one counter named by the kind, or none |
| `Ledgers.Ledger.Snapshot` | concurrency/ledger.go:134-151 | the report is that of the accepted history, and it validates |
| `Ledgers.TalliesBalance` | concurrency/ledger.go:65-74 | terminal counters add up to the attempts, and modifications do not exceed matches |
| `Ledgers.CountAllTallies` | concurrency/ledger.go:92-132 | each counter is the number of outcomes of its kind, the samples are the first 20 errors |
| `Ledgers.UpdateOutcome` | concurrency/ledger.go:325-344 | an error that may hide an applied write (canceled, timed out, network, write concern only) is indeterminate even if the server answered; any other answer of the server for the write is a rejection; matched only without an error |
| `Ledgers.ErrorsAreClassified` | concurrency/ledger.go:325-351 | in terms of what the error chain holds: cancellation, deadline, network and a write concern failure without write errors decide first, then a write exception or a command error |
| `Oracles.CountersRevealCleanMatches` | concurrency/scenarios.go:397-427 | the counters agree exactly when every match was a modification with a successive edge within its bound |
| `Oracles.ChainByCounting` | concurrency/scenarios.go:397-427 | as many distinct generations as the version, the highest just below it, are 0, ..., version-1 |
| `Oracles.CounterChecksExact` | concurrency/scenarios.go:397-427 | the checks pass if and only if every match is a clean edge, no generation was matched twice and, without unknown outcomes, the generations are a permutation of 0, ..., version-1, in any recording order |
| `Oracles.FieldDivergentChecksExact` | concurrency/scenarios.go:349-374 | the convergent checks pass if and only if every match is a clean edge and, without unknown outcomes, the set of generations is {0, ..., version-1} |
| `Oracles.StrictChecksExact` | concurrency/scenarios.go:639-652 | on the report of any history the strict checks pass if and only if nothing was rejected |
| `Oracles.ObservedOutcomes` | concurrency/ledger.go:203-281 | the generations of the causal ledger are those that some recorded match tells of, and no others |
| `Oracles.ObservedOnce` | concurrency/ledger.go:203-281 | they are without repetition if and only if no two matches tell of the same one |
| `Oracles.CounterChecksSay` | concurrency/scenarios.go:397-427 | check by check: which of them passes, and which is skipped, is said of the recorded outcomes |
| `Oracles.CasChecksExact` | concurrency/scenarios.go:262-284 | for the report of any history, reachable or not, and every merge mode: the cas scenario accepts if and only if every match modified and tells of a successive step within its bound, no two matches tell of one generation (in the two divergent modes they may), without unknown outcomes the generations are exactly 0, ..., version-1, in the two document modes nothing was rejected, and the payload is retained |
| `Oracles.RecordedMatchIff` | concurrency/ledger.go:180-189 | an operation counts as matched if and only if a recorded match with a successive step carries its number |
| `Oracles.FinalValueVerdict` | concurrency/scenarios.go:624-630 | the check of the final value passes if and only if some outcome is unknown or the value is a number from 1 to the attempts that such a match carries |
| `Oracles.DivergentCasChecksExact` | concurrency/scenarios.go:615-637 | for the report of any history and every merge mode: divergent-cas accepts if and only if matches are clean and unrepeated and, without unknown outcomes, cover exactly 0, ..., version-1 and include the operation the stored value names, in the document modes nothing was rejected, and the payload is retained |
| `Runner.CountedStep` | concurrency/runner.go:196-253 | every access, and every late arrival of a lost update, keeps: reserved operations are recorded or running, the version is at least the matches, and with the updates still to arrive at most the matches plus unknown outcomes |
| `Runner.TruthfulStep` | concurrency/scenarios.go:215-232 | every access keeps: a match is an edge from the generation its own operation wrote |
| `Runner.UniqueStep` | concurrency/runner.go:332-345 | every access keeps: no two operations share a number |
| `Runner.RunKeepsInv` | concurrency/runner.go:196-253 | all of these hold after every schedule of any number of workers, lost updates arriving at any time, even after their workers have stopped, or never |
| `Runner.ReservationsAreExact` | concurrency/runner.go:332-345 | in every reachable state the numbers handed out are exactly 1, ..., issued, one operation each, and issued never exceeds a positive limit |
| `Runner.BoundNeverMisreports` | concurrency/runner.go:220-227 | in every reachable state, lost updates landing late included, a match observed at most `issued - 1`, recorded matches are valid edges, and the tracker has at most as many slots as operations were issued |
| `Runner.FinalChain` | concurrency/scenarios.go:215-232 | at the end of a run without unknown outcomes the matched generations are the stored chain |
| `Runner.FinishedRunPasses` | concurrency/runner.go:196-264 | for every interleaving, with updates rejected, their acknowledgements lost, or landing at any later time: a finished run has reserved = attempts, a valid ledger, and passes counterChecks and the convergent checks; it passes the strict checks if and only if nothing was rejected |
| `Runner.CasVerdict` | concurrency/scenarios.go:262-284 | in every merge mode, and in a run without one, the cas scenario accepts a finished run if and only if the payload is retained and, in the strict modes, nothing was rejected |
| `Runner.DivergentCasPasses` | concurrency/scenarios.go:590-637 | in every merge mode, and in a run without one, divergent-cas accepts a finished run if and only if, besides that, some outcome is unknown or something matched |
| `Runner.RefusedRunIsRejected` | concurrency/scenarios.go:624-630 | such runs exist: for every refusing error, one refused update leads to a finished run with a valid ledger that cas accepts and divergent-cas rejects |
| `Runner.LostUpdateMayLand` | concurrency/scenarios.go:397-427 | why unknown outcomes skip checks: a finished run can have recorded one unknown outcome and no match while the stored version is 1 |
| `Runner.UndisturbedRunIsFull` | concurrency/runner.go:196-253 | a run that nobody stops ends only when exactly as many operations were recorded as the positive limit asks for |
| `Runner.EveryOperationCanMatch` | concurrency/runner.go:196-253 | for every limit there is a finished run in which all operations matched and the counter reached the limit |
| `MemoryStore.MemoryCollection.UpdateOne` | concurrency/runner_test.go:106-141 | an update changes nothing unless the filter matches; then it succeeds exactly if all increments are numbers, with every field assigned and incremented, and otherwise fails after the assignments and any of the increments that can be done |
| `MemoryStore.MemoryCollection.IncrementAll` | concurrency/runner_test.go:126-139 | the loop over the increments, in any order, stops at the first that is not a number and keeps what it did |
| `MemoryStore.FieldAfterUpdate` | concurrency/runner_test.go:117-141 | after a successful update an incremented field holds the int64 sum of the increment and what was stored or just assigned, counting as 0 if that is no number; any other assigned field its assignment, and the rest are kept |
| `MemoryStore.FailureIsHarmlessIff` | concurrency/runner_test.go:117-139 | whatever a failing update did before it failed, the document is unchanged if and only if every assignment repeats a stored field and every numeric increment adds zero to an int64; assigning null to an absent field is a change |
| `MemoryStore.HalfwayFailure` | concurrency/runner_test.go:117-139 | an assignment beside an increment by text fails and keeps the assignment |
| `MemoryStore.CasMatches` | concurrency/runner_test.go:161-172 | the filter of a compare-and-set matches exactly the stored generation, the filter by id always |
| `MemoryStore.SeedCas` | concurrency/scenarios.go:581-588 | seeding this store gives the initial state of the runner |
| `MemoryStore.ReadCas` | concurrency/scenarios.go:590-594 | reading the document of this store observes the generation the Read step of the runner observes |
| `MemoryStore.ExecuteCas` | concurrency/scenarios.go:598-612 | the update of a worker on this store, its answer or the update itself possibly lost on the way, yields the outcome of the Update step of the runner and moves the document as it does |
| `MemoryStore.LandCas` | concurrency/scenarios.go:598-607 | an update of a worker that arrives later moves the document of this store as the Land step of the runner does |
| `StoreMaximum.CompletedCallsLeaveTheMaximum` | concurrency/runner.go:286-292 | under every interleaving of loads and swaps, completed calls leave the maximum of the initial value and all candidates |
| `StoreMaximum.UndisturbedCallerReturns` | concurrency/runner.go:286-292 | a caller nobody interferes with returns after one load and one swap |
| `StoreMaximum.RetryMeansRaised` | concurrency/runner.go:286-292 | a caller loads again only if another one has raised the value since |
| `DisjointSet.Verify` | concurrency/scenarios.go:464-508 | the check of the ledger, one check a worker (the field holds the last acknowledged number, or is absent if there is none; skipped when an outcome is unknown), and that of the payload, in this order |
| `DisjointSet.RunKeepsInv` | concurrency/scenarios.go:450-462 | after every schedule, over any store, a worker's field is the last write applied for it and its slot the last one acknowledged |
| `DisjointSet.DetectionIsExact` | concurrency/scenarios.go:464-508 | at the end of any run, over a store that may apply, lose, reject or delay any write whatever it answers, a worker's check passes exactly when the last write applied and the last write acknowledged are the same |
| `DisjointSet.SavedRejectIsDetected` | concurrency/scenarios.go:464-508 | over a store that applies what it acknowledges, a worker's check fails exactly when its last applied write was never acknowledged |
| `DisjointSet.AtomicStoreNeverFails` | concurrency/scenarios.go:464-508 | over a store that applies what it acknowledges and nothing it rejects, and any other write whenever it likes or never, no check that counts fails |
| `DisjointSet.LedgerCheckSays` | concurrency/scenarios.go:469-473 | the check of the ledger passes for exactly the histories in which no update found nothing to match |
| `DisjointSet.SavedRejectHappens` | concurrency/scenarios.go:474-508 | such runs exist: for every refusing error there is a finished run whose refused but applied write fails the check of its worker |
| `DisjointSet.KeptWriteHappens` | concurrency/scenarios.go:474-508 | and there is a finished run whose acknowledged write passes it |
| `TransactionOracle.IdsAreInjective` | concurrency/transaction_scenario.go:156-158 | document ids determine operation and member |
| `TransactionOracle.IdLayout` | concurrency/transaction_scenario.go:156-158 | an id is `txn-`, twenty digits that give the operation, a dash and two digits that give the member |
| `TransactionOracle.TransactionCommitRace.Record` | concurrency/transaction_scenario.go:139-146 | the array grows as needed and only the entry of this operation changes |
| `TransactionOracle.TransactionCommitRace.Snapshot` | concurrency/transaction_scenario.go:148-154 | entries 0, ..., attempts, absent where nothing was recorded |
| `TransactionOracle.CountDocuments` | concurrency/transaction_scenario.go:71-91 | the visitor counts the valid documents of each operation and finds every invalid one |
| `TransactionOracle.CompareOutcomes` | concurrency/transaction_scenario.go:92-116 | each failure counter is zero exactly when no operation fails that way |
| `TransactionOracle.Verify` | concurrency/transaction_scenario.go:66-137 | the loops and counters decide the four checks |
| `TransactionOracle.FullCollection` | concurrency/transaction_scenario.go:74-117 | distinct valid documents, as many as all batches hold, are all of them |
| `TransactionOracle.BatchIdsAreUnique` | concurrency/transaction_scenario.go:156-158 | a complete collection has unique ids |
| `TransactionOracle.StoredMembers` | concurrency/transaction_scenario.go:71-91 | with unique ids the count of an operation is the number of its two documents that are stored |
| `TransactionOracle.AtomicCheckSays` | concurrency/transaction_scenario.go:92-126 | the atomicity check passes if and only if every batch is stored whole or not at all and every stored document belongs to one |
| `TransactionOracle.DurableCheckSays` | concurrency/transaction_scenario.go:92-131 | the durability check passes if and only if every matched batch is stored whole and there are two documents for each match |
| `TransactionOracle.FailureCheckSays` | concurrency/transaction_scenario.go:92-136 | the last check passes if and only if every operation was matched, or was rejected or unknown and left nothing |
| `TransactionOracle.OracleIsExact` | concurrency/transaction_scenario.go:66-137 | with unique ids all four checks pass if and only if every operation was recorded matched and the collection is exactly both members of every batch |
| `StateCompare.SortedKeys` | harness/statecompare.go:334-347 | the keys of both maps, once each, in increasing order |
| `StateCompare.KeysAreInOrder` | harness/statecompare.go:334-347 | those keys are each key once, in increasing order |
| `StateCompare.LastFieldWins` | harness/statecompare.go:284-291 | a key maps to the value of the last field that has it, and is absent without one |
| `StateCompare.CompareRawDocuments` | harness/statecompare.go:255-258 | the loops below find the first divergence in key order |
| `StateCompare.CompareRawValue` | harness/statecompare.go:260-276 | types first, then documents, arrays or exact bytes |
| `StateCompare.CompareDocumentValue` | harness/statecompare.go:278-315 | maps of fields with later duplicates winning, keys in order, an embedded root `_id` compared with its field order |
| `StateCompare.CompareArrayValue` | harness/statecompare.go:317-332 | lengths first, then items in order |
| `StateCompare.SameLeaves` | harness/statecompare.go:260-276 | a leaf is the same as an equal value only, and values of different types, or malformed ones, never are |
| `StateCompare.FieldsCompared` | harness/statecompare.go:293-313 | two fields agree if and only if their values are the same; an embedded `_id` at the root has to be identical, field order included |
| `StateCompare.SameDocuments` | harness/statecompare.go:278-315 | documents are the same if and only if every key of either is in both and its fields agree |
| `StateCompare.SameArrays` | harness/statecompare.go:317-332 | arrays are the same if and only if they have one length and the same items in order |
| `StateCompare.SmallestKeyIsReported` | harness/statecompare.go:293-314 | what is reported of two documents is found under the smallest key on which they do not agree |
| `StateCompare.FirstIndexIsReported` | harness/statecompare.go:326-331 | what is reported of two arrays of one length is found at the first index at which they do not agree |
| `StateCompare.ComparesEqualIffSame` | harness/statecompare.go:255-332 | no divergence if and only if both values can be read and have the same normal form: fields unordered, arrays ordered, leaves exact, an embedded root `_id` exact |
| `StateCompare.EqualityIsEquivalence` | harness/statecompare.go:255-332 | equality is symmetric and transitive, and reflexive on readable values |
| `StateCompare.ReflexiveIffReadable` | harness/statecompare.go:278-332 | a value equals itself exactly when it can be read |
| `StateCompare.MalformedDiffersFromItself` | harness/statecompare.go:278-290 | a malformed document is reported even against itself |
| `StateCompare.ReorderingIsInvisible` | harness/statecompare.go:278-315 | reordering the distinct fields of a document keeps its normal form |
| `StateCompare.SwapReportsSamePath` | harness/statecompare.go:255-332 | swapping the servers reports the same path |
| `StateCompare.DivergenceIsReal` | harness/statecompare.go:255-332 | a reported path leads, on both sides, to values that differ the way the detail says, or to a value missing on one side |
| `StateDiff.StripIndexVersion` | harness/statecompare.go:220-241 | the index without its top-level `v`, or unchanged if a remaining field cannot be decoded |
| `StateDiff.StrippedMap` | harness/statecompare.go:220-241 | stripping removes exactly the key `v` from the fields |
| `StateDiff.IndexesAgreeUpToVersion` | harness/statecompare.go:220-241 | decodable indexes compare equal if and only if all their fields but `v` do |
| `StateDiff.UndecodableIndexIsKept` | harness/statecompare.go:220-241 | an index with a field other than `v` that cannot be decoded is compared as it is |
| `StateDiff.IndexLosesVersion` | harness/statecompare.go:220-241 | any other loses its `v`, decodable or not, and nothing else |
| `StateDiff.DecodableIsReadable` | harness/statecompare.go:229-233 | what can be decoded can be compared |
| `StateDiff.LookupFindsFirst` | harness/statecompare.go:243-253 | a lookup finds the first field with the key, unlike the comparison, where the last one counts |
| `StateDiff.IdShown` | harness/statecompare.go:243-253 | a path shows the first `_id` of the first side that has one |
| `StateDiff.DiffServerState` | harness/statecompare.go:143-159 | the loop collects the divergences of every database, in name order |
| `StateDiff.DiffDatabase` | harness/statecompare.go:161-177 | the loop collects the divergences of every collection, in name order |
| `StateDiff.DiffCollection` | harness/statecompare.go:179-218 | options, then indexes, then documents |
| `StateDiff.DiffIndexes` | harness/statecompare.go:186-200 | one divergence for every index on one side only or different after stripping |
| `StateDiff.DiffDocuments` | harness/statecompare.go:202-217 | one divergence for every document on one side only or different |
| `StateDiff.CollectionDiffExact` | harness/statecompare.go:179-218 | no divergence if and only if options, indexes and documents agree |
| `StateDiff.ServerDiffExact` | harness/statecompare.go:143-218 | the report is empty if and only if both servers hold the same databases, collections, options, indexes up to `v`, and documents |
| `StateDiff.DifferingYields` | harness/statecompare.go:255-332 | two documents that are not the same always yield a divergence below their path |
| `StateDiff.CollectionReport` | harness/statecompare.go:179-218 | a divergence is in the report on a collection if and only if it is of differing options, or of an index or document that one side lacks, named with the side that has it, or that both have and that is not the same, leading below its path to the place where they differ; whatever else is reported |
| `StateDiff.CollectionReportSize` | harness/statecompare.go:179-218 | the report has one divergence for differing options, one for each such index and one for each such document |
| `StateDiff.CollectionReportOrder` | harness/statecompare.go:179-218 | options come first, then indexes by name, then documents by key |
| `StateDiff.DatabaseReport` | harness/statecompare.go:161-177 | the report on a database holds exactly the reports of its common collections and the collections that one side lacks |
| `StateDiff.DatabaseReportOrder` | harness/statecompare.go:161-177 | collections are reported in the order of their names |
| `StateDiff.ServerReport` | harness/statecompare.go:143-218 | the report on two servers holds exactly the reports of their common databases and the databases that one side lacks |
| `StateDiff.ServerReportOrder` | harness/statecompare.go:143-159 | databases are reported in the order of their names |
| `ResponseCompare.HarmonizingDecidesTolerance` | harness/compare.go:60-108 | rewriting and then comparing exactly decides the tolerance relation: same shape and leaves, except that a numeric millis may be at most 5 above |
| `ResponseCompare.ToleratesItself` | harness/compare.go:60-108 | a response matches itself |
| `ResponseCompare.MatchBothWaysIff` | harness/compare.go:78-108 | responses match in both directions if and only if they agree in shape and leaves and every pair of numeric millis lies within the slack, either way |
| `ResponseCompare.ToleranceIsOneSided` | harness/compare.go:85-93 | two millis match in one direction only if and only if the slower is slower by more than the slack |
| `ResponseCompare.FiniteMillis` | harness/compare.go:85-93 | for finite millis of whatever number types, the responses match if and only if the DumboDB value is at most the MongoDB value plus 5 |
| `ResponseCompare.InfiniteMillis` | harness/compare.go:85-93 | with an infinite millis they match if and only if that of MongoDB is plus infinity or that of DumboDB minus infinity |
| `ResponseCompare.OnlyTheNormalFormMatters` | harness/compare.go:357-367 | a field can be replaced by any other that normalizes alike, an ignored one by anything |
| `ResponseCompare.SwappedKeysMatch` | harness/compare.go:318-332 | a document that holds a MinKey matches the one that holds a MaxKey, or an Undefined, in its place |
| `ResponseCompare.TextsThatMatch` | harness/compare.go:285-333 | a Symbol, a JavaScript value and an ObjectID match the string of their text, a printed value the string Go prints |
| `ResponseCompare.IgnoredValueIsInvisible` | harness/compare.go:346-367 | the value of an ignored field does not matter |
| `ResponseCompare.IgnoredExactly` | harness/compare.go:39-48 | two values of one field are not told apart if and only if they normalize alike or the field is one of the eight ignored ones |
| `ResponseCompare.PresenceIsKept` | harness/compare.go:346-367 | a key is present after normalization exactly when it was before, ignored or not |
| `ResponseCompare.MissingFieldDiverges` | harness/compare.go:346-367 | a response that lacks a field of the other never matches |
| `ResponseCompare.LeavesMatchIff` | harness/compare.go:256-333 | leaves compare equal exactly when they are the same value or shown as the same text: ids by their digits, UUID binaries, timestamps and NaN by a constant, values BSON cannot write at top level by what Go prints for them; number types and the two zeros stay apart |
| `RawResponses.NormalizeForgetsExactly` | harness/compare.go:242-376 | two responses normalize alike if and only if they are the same up to the order of fields, shadowed fields, documents given as maps, the values of ignored fields, and leaves shown alike |
| `RawResponses.AlikeResponsesMatch` | harness/compare.go:60-68 | such responses match, whichever server gave which |
| `ResponseTrees.BuildItem` | harness/compare.go:242-333 | normalization allocates maps no one else holds, and they stand for the normalized value, printed values included |
| `ResponseTrees.BuildDocument` | harness/compare.go:357-367 | a document becomes one new map, later duplicates winning, ignored values replaced |
| `ResponseTrees.BuildMap` | harness/compare.go:259-268 | a map becomes one new map, entries visited in any order |
| `ResponseTrees.BuildSlice` | harness/compare.go:369-376 | a list becomes a list of normalized items |
| `ResponseTrees.HarmonizeMillis` | harness/compare.go:78-108 | the walk writes only the maps of the DumboDB tree and leaves there the harmonized value, in whatever order entries are visited |
| `ResponseTrees.AdjustMillis` | harness/compare.go:85-93 | a numeric millis pair within the tolerance is made equal, everything else kept |
| `ResponseTrees.DeepEqual` | harness/compare.go:386-394 | the exact comparison holds exactly for equal trees |
| `ResponseTrees.CompareResponses` | harness/compare.go:60-68 | error-free responses match if and only if the tolerance relation holds of their normalized values |
| `Wire.Le32Digits` | wire/conn.go:415-419 | reading back four little-endian bytes gives the integer modulo 2^32 |
| `Wire.NextIdCounts` | wire/conn.go:116-116 | request ids go up by one modulo 2^32 and stay 32-bit integers |
| `Wire.Conn.RunCommandFlags` | wire/conn.go:110-138 | the request id is advanced, the OP_MSG sent and counted, the reply read |
| `Wire.Conn.RunRawOpMsg` | wire/conn.go:266-284 | the payload is sent under a valid header, and the reply read |
| `Wire.Conn.RunCompressedCommand` | wire/conn.go:146-184 | an unknown compressor is refused before anything changes; otherwise the envelope is sent and its sizes counted |
| `Wire.Conn.RunChecksummedCommand` | wire/conn.go:211-262 | the checksummed message, in its envelope if one is asked for, is sent; an unknown compressor costs a request id |
| `Wire.Conn.ReadCommandReply` | wire/conn.go:328-403 | the reader refines its pure specification: every error it can return, every counter and every report |
| `Wire.Conn.ReadOpMsgBody` | wire/conn.go:368-403 | the same for checksum, section and decoding |
| `Wire.HeaderReads` | wire/conn.go:328-345 | length and opcode survive the header |
| `Wire.OriginalHeaderIsTheHashedOne` | wire/conn.go:378-383 | the header rebuilt from a compressed reply is the one hashed before compression |
| `Wire.TailIsCompared` | wire/conn.go:374-392 | the reader compares the last four bytes with the checksum of rebuilt header and body |
| `Wire.CorruptionShows` | wire/conn.go:230-236 | flipping the corruption bits changes every checksum |
| `Wire.XorBits` | wire/conn.go:230-236 | the exclusive or of the model sets a bit exactly where its operands differ |
| `Wire.PlainLayout` | wire/conn.go:110-132 | byte by byte, what is sent for a command: length, request id, zero, opcode 2013, flag bits, section kind 0, document |
| `Wire.ChecksummedLayout` | wire/conn.go:216-237 | a checksummed message has the flag bits 1 and ends with the CRC-32C of all bytes before, or with that xor 0xdeadbeef, or without either |
| `Wire.EnvelopeLayout` | wire/conn.go:239-252 | an envelope is a header with opcode 2012, the opcode 2013 and length of what it holds, the compressor id, the compressed bytes |
| `Wire.EnvelopeHoldsBody` | wire/conn.go:239-252 | it holds what follows the 16 bytes of header, under the compressor ids 0, 1 and 2; -1 sends the message itself, other ids nothing |
| `Wire.ChecksummedRoundTrip` | wire/conn.go:211-262 | for every document below the size limit, every compressor and every lossless codec, reading what was sent hands the same document and flag to the decoder, reports valid for a valid checksum and invalid for a corrupt one, leaves later bytes alone, and counts the logical and wire bytes the sender counted |
| `Wire.PlainRoundTrip` | wire/conn.go:110-138 | without the checksum flag, document and flag bits survive |
| `Wire.CompressedRoundTrip` | wire/conn.go:146-184 | the same through OP_COMPRESSED, with the payload and body sizes counted |
| `Wire.FlagOnlyLosesBytes` | wire/conn.go:374-396 | a flag without checksum bytes fails below four document bytes, and otherwise hands the document to the decoder without its last four, compressed or not |
| `Wire.ReplyIff` | wire/conn.go:328-403 | a document is handed out, with its flag bits, if and only if the bytes read are a message of opcode 2013, or of opcode 2012 around one, with that document in a section of kind 0 before the checksum, if announced |
| `Wire.ValidIffChecksumOfMessage` | wire/conn.go:372-392 | the checksum of a plain reply is reported valid if and only if its last four bytes are the CRC-32C of all bytes before |
| `Wire.HeaderErrors` | wire/conn.go:328-366 | which reply is refused before its body is looked at, with which error, and how many bytes are taken and counted |
| `Wire.BodyErrors` | wire/conn.go:368-402 | which body is refused, and with which error |
| `Proxy.CommandName` | cmd/wirecompress/proxy.go:155-193 | the loop ends on every input and returns the command the scan of the sections finds |
| `Proxy.FirstKeyOfDocument` | cmd/wirecompress/proxy.go:195-205 | the first key of a document is found |
| `Proxy.ScanFindsTheDocument` | cmd/wirecompress/proxy.go:166-180 | wherever the kind-0 section stands among document sequences, its first key is found |
| `Proxy.ScanWithoutDocument` | cmd/wirecompress/proxy.go:166-180 | without a kind-0 section there is no name |
| `Proxy.MessageIsNamed` | cmd/wirecompress/proxy.go:155-180 | an OP_MSG body names its command for every section order, with or without the checksum its flag announces |
| `Proxy.QueryIsNamed` | cmd/wirecompress/proxy.go:181-190 | an OP_QUERY body names its command |
| `Proxy.NothingElseIsNamed` | cmd/wirecompress/proxy.go:155-193 | a message of another opcode, one too short for flag bits, or a query that ends before its document has no name |
| `Proxy.CutSection` | cmd/wirecompress/proxy.go:166-177 | a section cut short has no name |
| `Proxy.FirstKeyOfBytes` | cmd/wirecompress/proxy.go:195-205 | of whatever bytes stand for a document, the name is what lies between the sixth byte and the first zero from there, and there is none without such a zero |
| `Proxy.PayloadIsNamed` | cmd/wirecompress/proxy.go:155-180 | what `RunCommandFlags` sends is named, unless its flags announce a checksum that is not there |
| `Proxy.ChecksummedCommandIsNamed` | cmd/wirecompress/proxy.go:155-180 | what `RunChecksummedCommand` sends is named, except with the flag alone |
| `UuidV7.SetUuidVersion` | benchmarks/uuid_bench_test.go:36-39 | exactly the version and variant bits are overwritten in place |
| `UuidV7.Generator.Next` | benchmarks/uuid_bench_test.go:60-72 | the state advances, and the bytes are 48 bits of time, version 7, the counter, the variant and 62 random bits |
| `UuidV7.PrecedesIffSmaller` | benchmarks/uuid_bench_test.go:52-54 | byte strings of one length are ordered as the numbers they write |
| `UuidV7.NextIsLargerIff` | benchmarks/uuid_bench_test.go:60-72 | for every 48-bit reading, even one that runs backwards, the next UUID is larger if and only if time and counter have not run out |
| `UuidV7.DriftIsBounded` | benchmarks/uuid_bench_test.go:60-67 | after k calls the time exceeds the largest reading by at most k/4096 |
| `UuidV7.KeepsUpWithTheClock` | benchmarks/uuid_bench_test.go:60-67 | in every run a reading that is ahead is taken over with counter 0, any other advances time and counter by exactly one, and the time after a call is at least its reading, while the 64 bits last |
| `UuidV7.FurthestCallDecides` | benchmarks/uuid_bench_test.go:60-67 | after k calls, time and counter are the maximum of k and, over all calls, of the reading of the call advanced by the number of calls since |
| `UuidV7.RunIncreasesIff` | benchmarks/uuid_bench_test.go:52-72 | a run strictly increases, any earlier UUID below any later one, if and only if no call but the last exhausts the generator |
| `UuidV7.RunIncreases` | benchmarks/uuid_bench_test.go:52-72 | every run strictly increases whose largest reading and number of calls keep clear of the end of the 48 bits |
| `UuidV7.LastMillisecondBreaksTheOrder` | benchmarks/uuid_bench_test.go:60-72 | a clock that stands at the last millisecond for 4097 calls breaks the order |
| `UuidV7.ExhaustedGeneratorFallsBack` | benchmarks/uuid_bench_test.go:60-72 | there the next UUID is smaller |

## Left out

- Drivers, servers, processes, containers, certificates and files: input and output without a theorem of their own.
- Wall-clock behaviour: latency buckets, deadlines, delays and the progress checks that compare times. A worker of the model may stop or fail its read at any point where the code may.
- Machine integers: counters and generations are unbounded integers. Explicit are the saturating byte counters, the 64-bit words of the bitset, 32-bit lengths, ids and checksums, and the 64-bit UUID time. The memory that a huge generation would claim is not modelled.
- Floating point: samples, medians, deltas and p-values are exact reals, so rounding in the medians and in the final conversion of the p-value, and NaN samples, are not captured. Millis values are exact, with infinities.
- BSON bytes: values arrive decoded, as documents, arrays, leaves or malformed remains; array element keys are taken as the decimal indexes they are. The document of a reply is its bytes.
- CRC-32C, snappy, zlib and the BSON decoder of replies: function parameters, of which only decompression after compression is assumed to give back its input.
- `CaptureServerState` and its filter of system databases; the maps it builds are the input. `documentKey`, the rendering of ids in paths and the id found in a malformed document are parameters.
- `compareErrors` and `formatDiff`: flat comparisons of error fields, and text. Go structs that marshal to a document, such as update results, enter `normalize` as that document; what Go prints for values that do not marshal is a parameter, except for the key, symbol and code types.
- Connection failures: a socket is the bytes sent and the bytes to come, and a write always succeeds; a read past the end is the error the reader reports.
- Proxy recording and its pairing of replies with requests: the request is written before its name is stored, so pairing is not guaranteed in every interleaving.
- The uuid-cas, whole-document, blind-increment, identical-set and same-set scenarios: variations of the modelled oracles with single comparisons.
- Whether the payload of a scenario is still stored is an input of its checks; no modelled update writes it.
- DumboDB's merge algorithm: the repository holds only tables of expected outcomes.
- Report formatting, statistics, flag parsing and the generated parity tests.
- Ledgers.Ledger.Record: leaves out the latency buckets, and the string of an unknown kind is not looked at further.
- Ledgers.Ledger.Snapshot: leaves out the latency buckets.
- StateDiff.StripIndexVersion: takes re-marshalling to keep the bytes of the leaves and to succeed on values just unmarshalled.
- MemoryStore.MemoryCollection.UpdateOne: increments do not wrap at 64 bits, filter and update always decode, and locking is the atomicity of the method.
- Runner.FinishedRunPasses: the model has one store document with a version and a last writer, which serves cas (version) and divergent-cas (both); a ledger that refuses an outcome does not occur, since every outcome of these scenarios is one it accepts.
