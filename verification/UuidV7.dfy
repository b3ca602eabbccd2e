/** benchmarks/uuid_bench_test.go: UUIDs of version 7 (sections 5.7 and 6.2 of RFC 9562) that strictly increase. */
module UuidV7 {
  import opened Common

  const TWO_48 := 0x1_0000_0000_0000
  const TWO_64 := 0x1_0000_0000_0000_0000
  const LAST_COUNT := 0x0FFF

  // ---------------------------------------------------------------- bytes

  /** The n bytes of v modulo 256^n, most significant first. */
  function BigEndian(v: nat, n: nat): (r: seq<byte>)
    ensures |r| == n
  {
    if n == 0 then [] else BigEndian(v / 256, n - 1) + [v % 256]
  }

  /** Byte strings in lexicographic order, strictly. */
  ghost predicate Precedes(a: seq<byte>, b: seq<byte>) {
    exists k :: Differ(a, b, k)
  }

  predicate Differ(a: seq<byte>, b: seq<byte>, k: int) {
    0 <= k < |a| && k < |b| && a[..k] == b[..k] && a[k] < b[k]
  }

  /** The number a byte string is in base 256. */
  function Value(s: seq<byte>): nat {
    if s == [] then 0 else 256 * Value(s[..|s| - 1]) + s[|s| - 1]
  }

  lemma {:induction false} ValueIsInjective(a: seq<byte>, b: seq<byte>)
    requires |a| == |b| && Value(a) == Value(b)
    ensures a == b
  {
    if a != [] {
      var n := |a| - 1;
      ValueIsInjective(a[..n], b[..n]);
      assert a == a[..n] + [a[n]] && b == b[..n] + [b[n]];
    }
  }

  /** Byte strings of one length are ordered as the numbers they write. */
  lemma {:induction false} PrecedesIffSmaller(a: seq<byte>, b: seq<byte>)
    requires |a| == |b|
    ensures Precedes(a, b) <==> Value(a) < Value(b)
  {
    if a != [] {
      var n := |a| - 1;
      var c, d := a[..n], b[..n];
      PrecedesIffSmaller(c, d);
      if Value(c) == Value(d) { ValueIsInjective(c, d); }
      assert Differ(a, b, n) <==> c == d && a[n] < b[n];
      assert forall k :: 0 <= k < n ==> a[..k] == c[..k] && b[..k] == d[..k];
      assert forall k :: k != n ==> (Differ(a, b, k) <==> Differ(c, d, k));
      assert Precedes(a, b) <==> Precedes(c, d) || Differ(a, b, n);
    }
  }

  /** A difference in the first n bytes decides. */
  lemma PrefixDecides(a: seq<byte>, b: seq<byte>, n: nat)
    requires n <= |a| && n <= |b| && Value(a[..n]) != Value(b[..n])
    ensures Precedes(a, b) <==> Value(a[..n]) < Value(b[..n])
  {
    var c, d := a[..n], b[..n];
    PrecedesIffSmaller(c, d);
    assert forall k :: 0 <= k < n ==> a[..k] == c[..k] && b[..k] == d[..k];
    assert forall k :: 0 <= k < n ==> (Differ(a, b, k) <==> Differ(c, d, k));
    assert forall k :: n <= k && Differ(a, b, k) ==> c == a[..k][..n] == b[..k][..n] == d;
  }

  function Power256(n: nat): (p: nat)
    ensures p > 0
  {
    if n == 0 then 1 else 256 * Power256(n - 1)
  }

  lemma {:induction false} ValueOfBigEndian(v: nat, n: nat)
    ensures Value(BigEndian(v, n)) == v % Power256(n)
  {
    if n > 0 {
      var p, w := Power256(n - 1), v / 256;
      ValueOfBigEndian(w, n - 1);
      assert BigEndian(v, n)[..n - 1] == BigEndian(w, n - 1);
      SplitRemainder(v, p);
    }
  }

  lemma SplitRemainder(v: nat, p: nat)
    requires p > 0
    ensures v % (256 * p) == 256 * (v / 256 % p) + v % 256
  {
    var w := v / 256;
    var q, r := w / p, 256 * (w % p) + v % 256;
    assert w == q * p + w % p;
    assert v == q * (256 * p) + r;
    assert 0 <= r < 256 * p;
    Quotient(v, 256 * p, q, r);
  }

  lemma Quotient(v: int, m: nat, q: int, r: int)
    requires m > 0 && v == q * m + r && 0 <= r < m
    ensures v % m == r
  {
    var d := v / m - q;
    assert v % m == r - d * m;
    assert d >= 1 ==> d * m >= m;
    assert d <= -1 ==> d * m <= 0 - m;
  }

  // ---------------------------------------------------------------- the generator

  datatype Clock = Clock(lastMs: nat, counter: nat)
  {
    predicate Valid() {
      lastMs < TWO_64 && counter <= LAST_COUNT
    }
  }

  const START := Clock(0, 0)

  /** A reading ahead of the last one is taken over; any other advances the counter, and a full counter the time. */
  function Tick(g: Clock, ms: nat): (r: Clock)
    requires g.Valid() && ms < TWO_64
    ensures r.Valid()
  {
    if ms > g.lastMs then Clock(ms, 0)
    else if g.counter < LAST_COUNT then Clock(g.lastMs, g.counter + 1)
    else Clock((g.lastMs + 1) % TWO_64, 0)
  }

  /** The version and variant fields, and nothing else, are overwritten. */
  predicate Stamped(u: seq<byte>, v: seq<byte>, version: byte) {
    && |u| == |v| == 16
    && v[6] / 16 == version % 16 && v[6] % 16 == u[6] % 16
    && v[8] / 64 == 2 && v[8] % 64 == u[8] % 64
    && forall i :: 0 <= i < 16 && i != 6 && i != 8 ==> v[i] == u[i]
  }

  /** Masks and shifts of bytes, as arithmetic on disjoint bits. */
  method SetUuidVersion(u: array<byte>, version: byte)
    requires u.Length == 16
    modifies u
    ensures Stamped(old(u[..]), u[..], version)
  {
    u[6] := u[6] % 16 + version * 16 % 256;
    u[8] := u[8] % 64 + 128;
  }

  /** The layout of section 5.7 of RFC 9562: 48 bits of time, version 7, a 12-bit counter, the variant,
      62 random bits. */
  ghost predicate Encodes(id: seq<byte>, g: Clock, random: seq<byte>) {
    && |random| == 8 && |id| == 16
    && Value(id[..6]) == g.lastMs % TWO_48
    && id[6] / 16 == 7
    && 256 * (id[6] as int % 16) + id[7] as int == g.counter
    && id[8] / 64 == 2 && id[8] % 64 == random[0] % 64
    && id[9..] == random[1..]
  }

  class Generator {
    var lastMs: nat
    var counter: nat

    constructor ()
      ensures State() == START
    {
      lastMs, counter := 0, 0;
    }

    function State(): Clock
      reads this
    {
      Clock(lastMs, counter)
    }

    method Next(ms: nat, random: seq<byte>) returns (id: seq<byte>)
      requires State().Valid() && ms < TWO_64 && |random| == 8
      modifies this
      ensures State() == Tick(old(State()), ms)
      ensures Encodes(id, State(), random)
    {
      if ms > lastMs {
        lastMs, counter := ms, 0;
      } else {
        counter := counter + 1;
        if counter > LAST_COUNT {
          lastMs, counter := (lastMs + 1) % TWO_64, 0;
        }
      }
      var u := new byte[16](_ => 0);
      var time := BigEndian(lastMs * 0x1_0000 + counter, 8);
      Fill(u, time, random);
      SetUuidVersion(u, 7);
      id := u[..];
      StampedEncodes(State(), random, id);
    }
  }

  method Fill(u: array<byte>, time: seq<byte>, random: seq<byte>)
    requires u.Length == 16 && |time| == |random| == 8
    modifies u
    ensures u[..] == time + random
  {
    forall i | 0 <= i < 16 {
      u[i] := (time + random)[i];
    }
  }

  lemma TimeFields(ms: nat, count: nat)
    requires count <= LAST_COUNT
    ensures var t := BigEndian(ms * 0x1_0000 + count, 8);
            Value(t[..6]) == ms % TWO_48 && t[6] == count / 256 && t[7] == count % 256
  {
    var v := ms * 0x1_0000 + count;
    assert v / 256 == ms * 256 + count / 256 && v / 256 / 256 == ms;
    var t := BigEndian(v, 8);
    assert t == BigEndian(v / 256, 7) + [v % 256] == BigEndian(ms, 6) + [v / 256 % 256] + [v % 256];
    assert t[..6] == BigEndian(ms, 6);
    ValueOfBigEndian(ms, 6);
    assert Power256(6) == TWO_48;
  }

  lemma StampedEncodes(g: Clock, random: seq<byte>, id: seq<byte>)
    requires g.Valid() && |random| == 8
    requires Stamped(BigEndian(g.lastMs * 0x1_0000 + g.counter, 8) + random, id, 7)
    ensures Encodes(id, g, random)
  {
    TimeFields(g.lastMs, g.counter);
    var time := BigEndian(g.lastMs * 0x1_0000 + g.counter, 8);
    assert id[..6] == time[..6];
    assert (time + random)[8] == random[0];
    assert id[9..] == (time + random)[9..] == random[1..];
  }

  // ---------------------------------------------------------------- strictly increasing

  /** The state after which the time leaves its 48 bits. */
  predicate Exhausted(g: Clock) {
    g.counter == LAST_COUNT && (g.lastMs + 1) % TWO_48 == 0
  }

  /** What the first eight bytes write: the time, then version and counter. */
  lemma LeadingValue(id: seq<byte>, g: Clock, random: seq<byte>)
    requires Encodes(id, g, random)
    ensures Value(id[..8]) == g.lastMs % TWO_48 * 0x1_0000 + 0x7000 + g.counter
  {
    assert id[..8][..7] == id[..7] && id[..7][..6] == id[..6];
    assert Value(id[..8]) == 256 * Value(id[..7]) + id[7];
    assert Value(id[..7]) == 256 * Value(id[..6]) + id[6];
    assert id[6] == 112 + id[6] % 16;
  }

  /** For every 48-bit reading, ahead or behind, the next UUID is larger exactly if the 60 bits of time and
      counter last. */
  lemma NextIsLargerIff(g: Clock, ms: nat, id: seq<byte>, random: seq<byte>, next: seq<byte>, nextRandom: seq<byte>)
    requires g.Valid() && ms < TWO_48
    requires Encodes(id, g, random) && Encodes(next, Tick(g, ms), nextRandom)
    ensures Precedes(id, next) <==> !Exhausted(g)
  {
    var h := Tick(g, ms);
    LeadingValue(id, g, random);
    LeadingValue(next, h, nextRandom);
    TickAdvances(g, ms);
    PrefixDecides(id, next, 8);
  }

  /** The stamp of a state within the 60 bits. */
  function Stamp(g: Clock): nat {
    g.lastMs % TWO_48 * 0x1_0000 + g.counter
  }

  lemma TickAdvances(g: Clock, ms: nat)
    requires g.Valid() && ms < TWO_48
    ensures Stamp(g) != Stamp(Tick(g, ms))
    ensures Stamp(g) < Stamp(Tick(g, ms)) <==> !Exhausted(g)
  {
  }

  /** A run over these clock readings: states[i] is the generator before call i. */
  ghost predicate IsRun(readings: seq<nat>, states: seq<Clock>) {
    && |states| == |readings| + 1 && states[0] == START
    && forall i :: 0 <= i < |readings| ==>
         readings[i] < TWO_48 && states[i].Valid() && states[i + 1] == Tick(states[i], readings[i])
  }

  /** However the clock runs, k calls push the time at most k/4096 past the largest reading. */
  lemma {:induction false} DriftIsBounded(readings: seq<nat>, states: seq<Clock>, k: nat, largest: nat)
    requires IsRun(readings, states) && k <= |readings|
    requires forall i :: 0 <= i < |readings| ==> readings[i] <= largest
    ensures 4096 * states[k].lastMs + states[k].counter <= 4096 * largest + k
    ensures states[k].lastMs <= largest + k / 4096
  {
    if k > 0 {
      DriftIsBounded(readings, states, k - 1, largest);
      assert states[k] == Tick(states[k - 1], readings[k - 1]);
    }
  }

  /** Each call takes over a reading that is ahead, and otherwise advances time and counter by exactly one; so
      the time is never behind the clock while its 64 bits last. */
  lemma KeepsUpWithTheClock(readings: seq<nat>, states: seq<Clock>, k: nat)
    requires IsRun(readings, states) && k < |readings|
    ensures readings[k] > states[k].lastMs ==> states[k + 1] == Clock(readings[k], 0)
    ensures readings[k] <= states[k].lastMs < TWO_64 - 1 ==>
              4096 * states[k + 1].lastMs + states[k + 1].counter == 4096 * states[k].lastMs + states[k].counter + 1
    ensures states[k].lastMs < TWO_64 - 1 ==> readings[k] <= states[k + 1].lastMs
  {
    assert states[k + 1] == Tick(states[k], readings[k]);
  }

  /** Time and counter as one number. */
  function Ticks(g: Clock): nat {
    4096 * g.lastMs + g.counter
  }

  /** Where the clock would stand if it had been set by call i and only counted since. */
  function SetBy(readings: seq<nat>, i: nat, k: nat): int
    requires i < k <= |readings|
  {
    4096 * readings[i] + (k - 1 - i)
  }

  /** While the 64 bits last, the generator stands, after k calls, where the call that set it furthest has brought
      it: at the maximum over all calls, and over having counted from the start. */
  lemma {:induction false} FurthestCallDecides(readings: seq<nat>, states: seq<Clock>, k: nat)
    requires IsRun(readings, states) && k <= |readings|
    requires forall i :: 0 <= i < k ==> states[i].lastMs < TWO_64 - 1
    ensures k <= Ticks(states[k]) && forall i :: 0 <= i < k ==> SetBy(readings, i, k) <= Ticks(states[k])
    ensures Ticks(states[k]) == k || exists i :: 0 <= i < k && Ticks(states[k]) == SetBy(readings, i, k)
  {
    if k > 0 {
      FurthestCallDecides(readings, states, k - 1);
      KeepsUpWithTheClock(readings, states, k - 1);
      forall i | 0 <= i < k ensures SetBy(readings, i, k) <= Ticks(states[k]) {
        if i < k - 1 { assert SetBy(readings, i, k) == SetBy(readings, i, k - 1) + 1; }
      }
      if readings[k - 1] > states[k - 1].lastMs {
        assert Ticks(states[k]) == SetBy(readings, k - 1, k);
      } else if Ticks(states[k - 1]) != k - 1 {
        var i :| 0 <= i < k - 1 && Ticks(states[k - 1]) == SetBy(readings, i, k - 1);
        assert Ticks(states[k]) == SetBy(readings, i, k);
      }
    }
  }

  /** The identifiers of a run: ids[i] is what call i returned. */
  ghost predicate Issued(readings: seq<nat>, states: seq<Clock>, ids: seq<seq<byte>>, randoms: seq<seq<byte>>) {
    && IsRun(readings, states) && |ids| == |randoms| == |readings|
    && forall i :: 0 <= i < |ids| ==> Encodes(ids[i], states[i + 1], randoms[i])
  }

  ghost predicate StrictlyIncreasing(ids: seq<seq<byte>>) {
    forall i, j :: 0 <= i < j < |ids| ==> Precedes(ids[i], ids[j])
  }

  lemma PrecedesIsTransitive(a: seq<byte>, b: seq<byte>, c: seq<byte>)
    requires |a| == |b| == |c| && Precedes(a, b) && Precedes(b, c)
    ensures Precedes(a, c)
  {
    PrecedesIffSmaller(a, b);
    PrecedesIffSmaller(b, c);
    PrecedesIffSmaller(a, c);
  }

  lemma {:induction false} Chained(ids: seq<seq<byte>>, i: nat, j: nat)
    requires i < j < |ids|
    requires forall k :: 0 <= k < |ids| ==> |ids[k]| == 16
    requires forall k :: 0 < k < |ids| ==> Precedes(ids[k - 1], ids[k])
    ensures Precedes(ids[i], ids[j])
  {
    if i + 1 < j {
      Chained(ids, i, j - 1);
      PrecedesIsTransitive(ids[i], ids[j - 1], ids[j]);
    }
  }

  lemma NeighboursIncreaseIff(readings: seq<nat>, states: seq<Clock>, ids: seq<seq<byte>>, randoms: seq<seq<byte>>,
                              i: nat)
    requires Issued(readings, states, ids, randoms) && 0 < i < |ids|
    ensures |ids[i - 1]| == |ids[i]| == 16
    ensures Precedes(ids[i - 1], ids[i]) <==> !Exhausted(states[i])
  {
    assert states[i + 1] == Tick(states[i], readings[i]);
    assert Encodes(ids[i - 1], states[i - 1 + 1], randoms[i - 1]);
    NextIsLargerIff(states[i], readings[i], ids[i - 1], randoms[i - 1], ids[i], randoms[i]);
  }

  ghost predicate NeverExhausted(states: seq<Clock>, calls: nat)
    requires |states| > calls
  {
    forall i :: 0 < i < calls ==> !Exhausted(states[i])
  }

  /** A run of identifiers strictly increases exactly if no call but the last leaves the generator exhausted. */
  lemma RunIncreasesIff(readings: seq<nat>, states: seq<Clock>, ids: seq<seq<byte>>, randoms: seq<seq<byte>>)
    requires Issued(readings, states, ids, randoms)
    ensures StrictlyIncreasing(ids) <==> NeverExhausted(states, |ids|)
  {
    if StrictlyIncreasing(ids) {
      forall i | 0 < i < |ids| ensures !Exhausted(states[i]) {
        NeighboursIncreaseIff(readings, states, ids, randoms, i);
        assert Precedes(ids[i - 1], ids[i]);
      }
    }
    if NeverExhausted(states, |ids|) {
      forall i, j | 0 <= i < j < |ids| ensures Precedes(ids[i], ids[j]) {
        forall k | 0 < k < |ids| ensures Precedes(ids[k - 1], ids[k]) {
          NeighboursIncreaseIff(readings, states, ids, randoms, k);
        }
        Chained(ids, i, j);
      }
    }
  }

  /** Every run strictly increases whose drift cannot reach the end of the 48 bits: a bound on the clock and
      a number of calls a caller can know beforehand. */
  lemma RunIncreases(readings: seq<nat>, states: seq<Clock>, ids: seq<seq<byte>>, randoms: seq<seq<byte>>, largest: nat)
    requires Issued(readings, states, ids, randoms)
    requires forall i :: 0 <= i < |readings| ==> readings[i] <= largest
    requires largest + |readings| / 4096 < TWO_48 - 1
    ensures StrictlyIncreasing(ids)
  {
    forall i | 0 < i < |ids| ensures !Exhausted(states[i]) {
      DriftIsBounded(readings, states, i, largest);
    }
    assert NeverExhausted(states, |ids|);
    RunIncreasesIff(readings, states, ids, randoms);
  }

  /** At the end of the 48 bits the order breaks: the last UUID of that millisecond is followed by a smaller one. */
  lemma ExhaustedGeneratorFallsBack(random: seq<byte>, id: seq<byte>, next: seq<byte>)
    requires Encodes(id, Clock(TWO_48 - 1, LAST_COUNT), random)
    requires Encodes(next, Tick(Clock(TWO_48 - 1, LAST_COUNT), TWO_48 - 1), random)
    ensures Precedes(next, id)
  {
    LeadingValue(id, Clock(TWO_48 - 1, LAST_COUNT), random);
    LeadingValue(next, Clock(TWO_48, 0), random);
    PrefixDecides(next, id, 8);
  }

  lemma {:induction false} FrozenClockCounts(readings: seq<nat>, states: seq<Clock>, ms: nat, k: nat)
    requires IsRun(readings, states) && ms > 0 && forall i :: 0 <= i < |readings| ==> readings[i] == ms
    requires 0 < k <= |readings| && k <= LAST_COUNT + 1
    ensures states[k] == Clock(ms, k - 1)
  {
    if k > 1 { FrozenClockCounts(readings, states, ms, k - 1); }
    assert states[k] == Tick(states[k - 1], readings[k - 1]);
  }

  /** So a clock that stands still at the last 48-bit millisecond for 4097 calls breaks the order. */
  lemma LastMillisecondBreaksTheOrder(readings: seq<nat>, states: seq<Clock>, ids: seq<seq<byte>>,
                                      randoms: seq<seq<byte>>)
    requires Issued(readings, states, ids, randoms) && |readings| == LAST_COUNT + 2
    requires forall i :: 0 <= i < |readings| ==> readings[i] == TWO_48 - 1
    ensures !StrictlyIncreasing(ids)
  {
    FrozenClockCounts(readings, states, TWO_48 - 1, LAST_COUNT + 1);
    assert Exhausted(states[LAST_COUNT + 1]);
    RunIncreasesIff(readings, states, ids, randoms);
  }
}
