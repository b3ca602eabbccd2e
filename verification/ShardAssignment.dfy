/** benchmarks/cmd/perfgate/main.go: spreading benchmarks over shards, heaviest first onto the
    lightest shard. The weights 6, 2 and 1 divide each other, so this greedy rule is optimal. */
module ShardAssignment {
  import opened Sums
  import opened Orders

  predicate Contains(s: string, sub: string) {
    sub <= s || (s != [] && Contains(s[1..], sub))
  }

  predicate OccursAt(s: string, sub: string, i: nat) {
    i + |sub| <= |s| && s[i..i + |sub|] == sub
  }

  ghost predicate OccursIn(s: string, sub: string) {
    exists i: nat :: OccursAt(s, sub, i)
  }

  lemma OccursInTail(s: string, sub: string, i: nat)
    requires s != []
    ensures OccursAt(s[1..], sub, i) <==> OccursAt(s, sub, i + 1)
  {
    if i + 1 + |sub| <= |s| { assert s[1..][i..i + |sub|] == s[i + 1..i + 1 + |sub|]; }
  }

  /** The search finds exactly what stands somewhere in the string. */
  lemma {:induction false} ContainsIffOccurs(s: string, sub: string)
    ensures Contains(s, sub) <==> OccursIn(s, sub)
  {
    if sub <= s {
      assert OccursAt(s, sub, 0);
    } else if s != [] {
      ContainsIffOccurs(s[1..], sub);
      forall i: nat | OccursAt(s, sub, i) ensures OccursIn(s[1..], sub) {
        assert i > 0;
        OccursInTail(s, sub, i - 1);
      }
      forall i: nat | OccursAt(s[1..], sub, i) ensures OccursIn(s, sub) {
        OccursInTail(s, sub, i);
        assert OccursAt(s, sub, i + 1);
      }
    }
  }

  function BenchWeight(name: string): (w: int)
    ensures w == 6 || w == 2 || w == 1
  {
    if Contains(name, "50K") then 6 else if Contains(name, "10K") then 2 else 1
  }

  predicate HoldsAt(name: string, a: char, b: char, c: char, i: nat) {
    i + 2 < |name| && name[i] == a && name[i + 1] == b && name[i + 2] == c
  }

  /** Three adjacent characters anywhere in the name. */
  ghost predicate Holds(name: string, a: char, b: char, c: char) {
    exists i: nat :: HoldsAt(name, a, b, c, i)
  }

  lemma HoldsIffOccurs(name: string, a: char, b: char, c: char)
    ensures Holds(name, a, b, c) <==> Contains(name, [a, b, c])
  {
    ContainsIffOccurs(name, [a, b, c]);
    forall i: nat | OccursAt(name, [a, b, c], i) ensures Holds(name, a, b, c) {
      var part := name[i..i + 3];
      assert part == [a, b, c];
      assert part[0] == name[i] && part[1] == name[i + 1] && part[2] == name[i + 2];
      assert HoldsAt(name, a, b, c, i);
    }
    forall i: nat | HoldsAt(name, a, b, c, i) ensures OccursAt(name, [a, b, c], i) {
      assert name[i..i + 3] == [a, b, c];
    }
  }

  /** A name weighs 6 if 50K stands anywhere in it, else 2 if 10K does, else 1. */
  lemma WeightByOccurrence(name: string)
    ensures BenchWeight(name) == 6 <==> Holds(name, '5', '0', 'K')
    ensures BenchWeight(name) == 2 <==> Holds(name, '1', '0', 'K') && !Holds(name, '5', '0', 'K')
    ensures BenchWeight(name) == 1 <==> !Holds(name, '1', '0', 'K') && !Holds(name, '5', '0', 'K')
  {
    HoldsIffOccurs(name, '5', '0', 'K');
    HoldsIffOccurs(name, '1', '0', 'K');
    assert "50K" == ['5', '0', 'K'] && "10K" == ['1', '0', 'K'];
  }

  /** The comparison assignShard sorts by: heavier first, equal weights by name. */
  predicate NameLe(a: string, b: string) {
    if BenchWeight(a) != BenchWeight(b) then BenchWeight(a) > BenchWeight(b) else LexLe(a, b)
  }

  lemma NamesAreOrdered()
    ensures TotalOrder(NameLe)
  {
    LexIsTotalOrder();
  }

  /** The names are placed heavier first, those of one weight in increasing order. */
  lemma PlacementOrder(names: seq<string>, i: nat, j: nat)
    requires i < j < |names|
    ensures var items := SortBy(names, NameLe);
            && |items| == |names|
            && BenchWeight(items[i]) >= BenchWeight(items[j])
            && (BenchWeight(items[i]) == BenchWeight(items[j]) ==> LexLe(items[i], items[j]))
  {
    var items := SortBy(names, NameLe);
    assert |items| == |multiset(items)| == |multiset(names)| == |names|;
    NamesAreOrdered();
    SortBySorts(names, NameLe);
    assert NameLe(items[i], items[j]);
  }

  function Weight(names: seq<string>): int {
    Sum(names, BenchWeight)
  }

  /** The first index among load[0..n] that holds the least load. */
  function Lightest(load: seq<int>, n: nat): (r: nat)
    requires 1 <= n <= |load|
    ensures r < n && forall k :: 0 <= k < n ==> load[r] <= load[k]
    ensures forall k :: 0 <= k < r ==> load[r] < load[k]
  {
    if n == 1 then 0
    else
      var l := Lightest(load, n - 1);
      if load[n - 1] < load[l] then n - 1 else l
  }

  function Loads(shards: seq<seq<string>>): (r: seq<int>)
    ensures |r| == |shards| && forall i :: 0 <= i < |r| ==> r[i] == Weight(shards[i])
  {
    seq(|shards|, i requires 0 <= i < |shards| => Weight(shards[i]))
  }

  /** The contents of every shard after the items are placed in the given order. */
  function Place(items: seq<string>, count: nat): (shards: seq<seq<string>>)
    requires 1 <= count
    ensures |shards| == count
  {
    if items == [] then seq(count, i => [])
    else
      var n := |items| - 1;
      var before := Place(items[..n], count);
      var t := Lightest(Loads(before), count);
      before[t := before[t] + [items[n]]]
  }

  function Shard(names: seq<string>, index: int, count: nat): seq<string>
    requires 1 <= count
  {
    if 0 <= index < count then SortBy(Place(SortBy(names, NameLe), count)[index], LexLe) else []
  }

  lemma PlaceNothing(count: nat)
    requires 1 <= count
    ensures Loads(Place([], count)) == seq(count, i => 0)
  {
  }

  /** The inner loop of assignShard. */
  method LightestShard(load: array<int>) returns (lightest: nat)
    requires 1 <= load.Length
    ensures lightest == Lightest(load[..], load.Length)
  {
    lightest := 0;
    for s := 1 to load.Length
      invariant lightest == Lightest(load[..], s)
    {
      if load[s] < load[lightest] { lightest := s; }
    }
  }

  /** The two variables of the loop of assignShard. */
  datatype Progress = Progress(load: seq<int>, mine: seq<string>)

  function PutOn(p: Progress, t: nat, name: string, index: int): Progress
    requires t < |p.load|
  {
    Progress(p.load[t := p.load[t] + BenchWeight(name)], if t == index then p.mine + [name] else p.mine)
  }

  function Loop(items: seq<string>, index: int, count: nat): (p: Progress)
    requires 1 <= count
    ensures |p.load| == count
  {
    if items == [] then Progress(seq(count, i => 0), [])
    else
      var before := Loop(items[..|items| - 1], index, count);
      PutOn(before, Lightest(before.load, count), items[|items| - 1], index)
  }

  lemma LoopStep(items: seq<string>, i: nat, index: int, count: nat)
    requires 1 <= count && i < |items|
    ensures var before := Loop(items[..i], index, count);
            Loop(items[..i + 1], index, count) == PutOn(before, Lightest(before.load, count), items[i], index)
  {
    assert items[..i + 1][..i] == items[..i];
  }

  lemma LoadsUpdate(shards: seq<seq<string>>, t: nat, name: string)
    requires t < |shards|
    ensures Loads(shards[t := shards[t] + [name]]) == Loads(shards)[t := Loads(shards)[t] + BenchWeight(name)]
  {
    SumSnoc(shards[t], name, BenchWeight);
  }

  /** One shard and all loads, of these shards. */
  predicate Keeps(p: Progress, shards: seq<seq<string>>, index: int) {
    p.load == Loads(shards) && p.mine == if 0 <= index < |shards| then shards[index] else []
  }

  lemma PutOnKeeps(p: Progress, shards: seq<seq<string>>, t: nat, name: string, index: int)
    requires t < |shards| && Keeps(p, shards, index)
    ensures Keeps(PutOn(p, t, name, index), shards[t := shards[t] + [name]], index)
  {
    LoadsUpdate(shards, t, name);
  }

  /** The loop that keeps one shard and all loads places the items as Place does. */
  lemma {:induction false} LoopPlaces(items: seq<string>, index: int, count: nat)
    requires 1 <= count
    ensures Keeps(Loop(items, index, count), Place(items, count), index)
  {
    if items == [] {
      PlaceNothing(count);
    } else {
      var init, name := items[..|items| - 1], items[|items| - 1];
      var p, shards := Loop(init, index, count), Place(init, count);
      LoopPlaces(init, index, count);
      PutOnKeeps(p, shards, Lightest(p.load, count), name, index);
    }
  }

  /** The loop of assignShard over the sorted names. */
  method PlaceInTurn(items: seq<string>, index: int, count: nat) returns (mine: seq<string>)
    requires 1 <= count
    ensures mine == if 0 <= index < count then Place(items, count)[index] else []
  {
    var load := new int[count](i => 0);
    mine := [];
    assert items[..0] == [] && load[..] == seq(count, i => 0);
    for i := 0 to |items|
      invariant Progress(load[..], mine) == Loop(items[..i], index, count)
    {
      LoopStep(items, i, index, count);
      var lightest := LightestShard(load);
      load[lightest] := load[lightest] + BenchWeight(items[i]);
      if lightest == index { mine := mine + [items[i]]; }
    }
    assert items[..|items|] == items;
    LoopPlaces(items, index, count);
  }

  method AssignShard(names: seq<string>, index: int, count: nat) returns (mine: seq<string>)
    requires 1 <= count
    ensures mine == Shard(names, index, count)
  {
    mine := PlaceInTurn(SortBy(names, NameLe), index, count);
    mine := SortBy(mine, LexLe);
  }

  // ---------------------------------------------------------------- partition

  function Flatten(parts: seq<seq<string>>): seq<string> {
    if parts == [] then [] else parts[0] + Flatten(parts[1..])
  }

  function Contents(parts: seq<seq<string>>): multiset<string> {
    multiset(Flatten(parts))
  }

  lemma {:induction false} ContentsUpdate(parts: seq<seq<string>>, i: nat, x: string)
    requires i < |parts|
    ensures Contents(parts[i := parts[i] + [x]]) == Contents(parts) + multiset{x}
  {
    if i == 0 {
      assert parts[0 := parts[0] + [x]][1..] == parts[1..];
    } else {
      assert parts[i := parts[i] + [x]][1..] == parts[1..][i - 1 := parts[i] + [x]];
      ContentsUpdate(parts[1..], i - 1, x);
    }
  }

  lemma {:induction false} ContentsCongruent(a: seq<seq<string>>, b: seq<seq<string>>)
    requires |a| == |b| && forall i :: 0 <= i < |a| ==> multiset(a[i]) == multiset(b[i])
    ensures Contents(a) == Contents(b)
  {
    if a != [] { ContentsCongruent(a[1..], b[1..]); }
  }

  lemma {:induction false} EmptyContents(count: nat)
    ensures Contents(seq(count, i => [])) == multiset{}
  {
    var parts: seq<seq<string>> := seq(count, i => []);
    if count > 0 {
      assert parts[1..] == seq(count - 1, i => []);
      EmptyContents(count - 1);
    }
  }

  lemma {:induction false} PlaceKeepsAll(items: seq<string>, count: nat)
    requires 1 <= count
    ensures Contents(Place(items, count)) == multiset(items)
  {
    if items == [] {
      EmptyContents(count);
    } else {
      var n := |items| - 1;
      PlaceKeepsAll(items[..n], count);
      var before := Place(items[..n], count);
      ContentsUpdate(before, Lightest(Loads(before), count), items[n]);
      assert items == items[..n] + [items[n]];
    }
  }

  /** Running every index once covers every name exactly as often as it was given, and each shard is sorted. */
  lemma ShardsPartitionNames(names: seq<string>, count: nat)
    requires 1 <= count
    ensures Contents(seq(count, i => Shard(names, i, count))) == multiset(names)
    ensures forall i :: Sorted(Shard(names, i, count), LexLe)
    ensures forall i :: !(0 <= i < count) ==> Shard(names, i, count) == []
  {
    LexIsTotalOrder();
    var items := SortBy(names, NameLe);
    forall i ensures Sorted(Shard(names, i, count), LexLe) {
      if 0 <= i < count { SortBySorts(Place(items, count)[i], LexLe); }
    }
    PlaceKeepsAll(items, count);
    ContentsCongruent(seq(count, i => Shard(names, i, count)), Place(items, count));
  }

  /** Shards that look at the same names in different orders agree on the split. */
  lemma ShardIgnoresInputOrder(a: seq<string>, b: seq<string>, index: int, count: nat)
    requires 1 <= count && multiset(a) == multiset(b)
    ensures Shard(a, index, count) == Shard(b, index, count)
  {
    NamesAreOrdered();
    SortByUnique(a, b, NameLe);
  }

  // ---------------------------------------------------------------- optimality

  /** Counts only the items that weigh at least w. */
  function HeavyWeight(w: nat): string -> int {
    name => if BenchWeight(name) >= w then BenchWeight(name) else 0
  }

  function Totals(f: string -> int): seq<string> -> int {
    part => Sum(part, f)
  }

  lemma {:induction false} SumFlatten(parts: seq<seq<string>>, f: string -> int)
    ensures Sum(Flatten(parts), f) == Sum(parts, Totals(f))
  {
    if parts != [] {
      SumConcat(parts[0], Flatten(parts[1..]), f);
      SumFlatten(parts[1..], f);
    }
  }

  /** w is one of the three weights and divides a. */
  predicate Multiple(a: int, w: nat) {
    (w == 6 && a % 6 == 0) || (w == 2 && a % 2 == 0) || w == 1
  }

  lemma {:induction false} SumDivisible(names: seq<string>, f: string -> int, w: nat)
    requires w == 6 || w == 2 || w == 1
    requires forall x :: x in names ==> Multiple(f(x), w)
    ensures Multiple(Sum(names, f), w)
  {
    if names != [] {
      SumDivisible(names[1..], f, w);
      assert Multiple(f(names[0]), w);
      MultiplesAdd(f(names[0]), Sum(names[1..], f), w);
    }
  }

  lemma SixesAdd(a: int, b: int)
    requires a % 6 == 0 && b % 6 == 0
    ensures (a + b) % 6 == 0
  {
  }

  lemma TwosAdd(a: int, b: int)
    requires a % 2 == 0 && b % 2 == 0
    ensures (a + b) % 2 == 0
  {
  }

  lemma MultiplesAdd(a: int, b: int, w: nat)
    requires Multiple(a, w) && Multiple(b, w)
    ensures Multiple(a + b, w)
  {
    if w == 6 { SixesAdd(a, b); }
    if w == 2 { TwosAdd(a, b); }
  }

  lemma {:induction false} MemberOfPlacement(items: seq<string>, count: nat, i: nat, x: string)
    requires 1 <= count && i < count && x in Place(items, count)[i]
    ensures x in items
  {
    if items != [] && x != items[|items| - 1] { MemberOfPlacement(items[..|items| - 1], count, i, x); }
  }

  /** The step that brought shard i to its final load. */
  lemma {:induction false} LastPlacement(items: seq<string>, count: nat, i: nat) returns (k: nat)
    requires 1 <= count && i < count && Place(items, count)[i] != []
    ensures k < |items|
    ensures Lightest(Loads(Place(items[..k], count)), count) == i
    ensures Place(items, count)[i] == Place(items[..k], count)[i] + [items[k]]
  {
    var n := |items| - 1;
    if Lightest(Loads(Place(items[..n], count)), count) == i {
      k := n;
    } else {
      k := LastPlacement(items[..n], count, i);
      assert items[..n][..k] == items[..k];
    }
  }

  /** When item k lands on shard i, every shard already carries what i carried before, so the items
      placed so far outweigh count copies of that load. */
  lemma PlacedWeightBound(items: seq<string>, count: nat, i: nat, k: nat)
    requires 1 <= count && i < count && k < |items|
    requires Lightest(Loads(Place(items[..k], count)), count) == i
    ensures Weight(items[..k + 1]) >= Weight(Place(items[..k], count)[i]) * count + BenchWeight(items[k])
  {
    var q := Place(items[..k], count);
    PlacedTotal(items[..k], count);
    LightestTimesCount(q, i);
    assert items[..k + 1] == items[..k] + [items[k]];
    SumSnoc(items[..k], items[k], BenchWeight);
  }

  /** What the shards weigh together is what the items weigh. */
  lemma PlacedTotal(items: seq<string>, count: nat)
    requires 1 <= count
    ensures Sum(Place(items, count), Totals(BenchWeight)) == Weight(items)
  {
    PlaceKeepsAll(items, count);
    SumPermutation(Flatten(Place(items, count)), items, BenchWeight);
    SumFlatten(Place(items, count), BenchWeight);
  }

  lemma LightestTimesCount(shards: seq<seq<string>>, i: nat)
    requires i < |shards| && Lightest(Loads(shards), |shards|) == i
    ensures Sum(shards, Totals(BenchWeight)) >= Weight(shards[i]) * |shards|
  {
    forall part | part in shards ensures Weight(shards[i]) <= Totals(BenchWeight)(part) {
      var s :| 0 <= s < |shards| && shards[s] == part;
      assert Loads(shards)[i] <= Loads(shards)[s];
    }
    SumAtLeast(shards, Totals(BenchWeight), Weight(shards[i]));
  }

  /** The part of the placed weight that is at least as heavy as item k, summed over all items. */
  lemma HeavyTotal(items: seq<string>, k: nat)
    requires k < |items| && Sorted(items, NameLe)
    ensures Sum(items, HeavyWeight(BenchWeight(items[k]))) >= Weight(items[..k + 1])
  {
    var h := HeavyWeight(BenchWeight(items[k]));
    assert items == items[..k + 1] + items[k + 1..];
    SumConcat(items[..k + 1], items[k + 1..], h);
    SumNonNegative(items[k + 1..], h);
    forall x | x in items[..k + 1] ensures BenchWeight(x) <= h(x) {
      var j :| 0 <= j <= k && items[j] == x;
      assert j == k || NameLe(items[j], items[k]);
    }
    SumMonotone(items[..k + 1], BenchWeight, h);
  }

  /** If the items of weight at least w outweigh count copies of a multiple of w, some shard of any
      distribution exceeds that multiple, hence reaches the next one. */
  lemma SomeShardReaches(alt: seq<seq<string>>, base: int, w: nat)
    requires Multiple(base, w) && (w == 6 || w == 2 || w == 1)
    requires Sum(alt, Totals(HeavyWeight(w))) > base * |alt|
    ensures exists j :: 0 <= j < |alt| && base + w <= Weight(alt[j])
  {
    if forall j :: 0 <= j < |alt| ==> Weight(alt[j]) < base + w {
      forall part | part in alt ensures Totals(HeavyWeight(w))(part) <= base { LightPart(part, base, w); }
      SumAtMost(alt, Totals(HeavyWeight(w)), base);
      assert false;
    }
  }

  lemma LightPart(part: seq<string>, base: int, w: nat)
    requires Multiple(base, w) && (w == 6 || w == 2 || w == 1)
    requires Weight(part) < base + w
    ensures Sum(part, HeavyWeight(w)) <= base
  {
    var h := Sum(part, HeavyWeight(w));
    SumMonotone(part, HeavyWeight(w), BenchWeight);
    SumDivisible(part, HeavyWeight(w), w);
    if w == 6 {
      assert h % 6 == 0 && base % 6 == 0;
    } else if w == 2 {
      assert h % 2 == 0 && base % 2 == 0;
    }
  }

  lemma PlacedWeightsDivide(items: seq<string>, count: nat, i: nat, k: nat)
    requires 1 <= count && i < count && k < |items| && Sorted(items, NameLe)
    ensures Multiple(Weight(Place(items[..k], count)[i]), BenchWeight(items[k]))
  {
    var q := Place(items[..k], count)[i];
    forall x | x in q ensures Multiple(BenchWeight(x), BenchWeight(items[k])) {
      MemberOfPlacement(items[..k], count, i, x);
      var j :| 0 <= j < k && items[j] == x;
      assert NameLe(items[j], items[k]);
    }
    SumDivisible(q, BenchWeight, BenchWeight(items[k]));
  }

  /** No way of distributing the names has every shard lighter than any shard of AssignShard: the
      heaviest shard it produces is minimal over all assignments. */
  lemma GreedyIsOptimal(names: seq<string>, count: nat, i: nat, alt: seq<seq<string>>)
    requires 1 <= count && i < count
    requires |alt| == count && Contents(alt) == multiset(names)
    ensures exists j :: 0 <= j < count && Weight(Shard(names, i, count)) <= Weight(alt[j])
  {
    var items := SortBy(names, NameLe);
    NamesAreOrdered();
    SortBySorts(names, NameLe);
    var final := Place(items, count)[i];
    SumPermutation(SortBy(final, LexLe), final, BenchWeight);
    if final == [] {
      SumNonNegative(alt[0], BenchWeight);
      assert Weight(Shard(names, i, count)) <= Weight(alt[0]);
    } else {
      var k := LastPlacement(items, count, i);
      var q := Place(items[..k], count)[i];
      var w := BenchWeight(items[k]);
      SumSnoc(q, items[k], BenchWeight);
      PlacedWeightBound(items, count, i, k);
      HeavyTotal(items, k);
      SumPermutation(Flatten(alt), items, HeavyWeight(w));
      SumFlatten(alt, HeavyWeight(w));
      PlacedWeightsDivide(items, count, i, k);
      SomeShardReaches(alt, Weight(q), w);
    }
  }
}
