/** benchmarks/cmd/perfgate/stats.go: the ranking that untied samples are, so that the score of their pairs
    is its Mann-Whitney U. */
module RankSamples {
  import opened Sums
  import opened Orders
  import opened RankTest

  // ---------------------------------------------------------------- the score does not see the order of samples

  function Against(h: real): real -> int {
    (b: real) => PairScore(h, b)
  }

  function AgainstAll(base: seq<real>): real -> int {
    (h: real) => RowScore(base, h)
  }

  lemma {:induction false} RowScoreIsSum(base: seq<real>, h: real)
    ensures RowScore(base, h) == Sum(base, Against(h))
  {
    if base != [] {
      var init, b := base[..|base| - 1], base[|base| - 1];
      RowScoreIsSum(init, h);
      SumSnoc(init, b, Against(h));
      assert base == init + [b];
    }
  }

  lemma {:induction false} TwiceUIsSum(base: seq<real>, head: seq<real>)
    ensures TwiceU(base, head) == Sum(head, AgainstAll(base))
  {
    if head != [] {
      var init, h := head[..|head| - 1], head[|head| - 1];
      TwiceUIsSum(base, init);
      SumSnoc(init, h, AgainstAll(base));
      assert head == init + [h];
    }
  }

  lemma {:induction false} TwiceUOfRearrangedBase(base: seq<real>, other: seq<real>, head: seq<real>)
    requires multiset(base) == multiset(other)
    ensures TwiceU(base, head) == TwiceU(other, head)
  {
    if head != [] {
      var h := head[|head| - 1];
      TwiceUOfRearrangedBase(base, other, head[..|head| - 1]);
      RowScoreIsSum(base, h);
      RowScoreIsSum(other, h);
      SumPermutation(base, other, Against(h));
    }
  }

  lemma TwiceUOfRearranged(base: seq<real>, head: seq<real>, base2: seq<real>, head2: seq<real>)
    requires multiset(base) == multiset(base2) && multiset(head) == multiset(head2)
    ensures TwiceU(base, head) == TwiceU(base2, head2)
  {
    TwiceUOfRearrangedBase(base, base2, head);
    TwiceUIsSum(base2, head);
    TwiceUIsSum(base2, head2);
    SumPermutation(head, head2, AgainstAll(base2));
  }

  // ---------------------------------------------------------------- the pooled samples

  datatype Sample = Sample(value: real, head: bool)

  predicate SampleLe(a: Sample, b: Sample) {
    a.value < b.value || (a.value == b.value && (a.head ==> b.head))
  }

  lemma SamplesAreOrdered()
    ensures TotalOrder(SampleLe)
  {
  }

  function Tag(values: seq<real>, head: bool): seq<Sample> {
    if values == [] then [] else Tag(values[..|values| - 1], head) + [Sample(values[|values| - 1], head)]
  }

  function Pool(base: seq<real>, head: seq<real>): seq<Sample> {
    Tag(base, false) + Tag(head, true)
  }

  /** The values of one side, in the order of the pool. */
  function Side(pool: seq<Sample>, head: bool): seq<real> {
    if pool == [] then []
    else
      var init, x := pool[..|pool| - 1], pool[|pool| - 1];
      if x.head == head then Side(init, head) + [x.value] else Side(init, head)
  }

  function Marks(pool: seq<Sample>): seq<bool> {
    if pool == [] then [] else Marks(pool[..|pool| - 1]) + [pool[|pool| - 1].head]
  }

  /** The ranking of the samples: whose they are, in increasing order. */
  function ReadOff(base: seq<real>, head: seq<real>): seq<bool> {
    Marks(SortBy(Pool(base, head), SampleLe))
  }

  lemma {:induction false} SideHolds(pool: seq<Sample>, head: bool, v: real)
    ensures multiset(Side(pool, head))[v] == multiset(pool)[Sample(v, head)]
  {
    if pool != [] {
      var init, x := pool[..|pool| - 1], pool[|pool| - 1];
      assert pool == init + [x];
      SideHolds(init, head, v);
    }
  }

  lemma {:induction false} TagHolds(values: seq<real>, head: bool, x: Sample)
    ensures multiset(Tag(values, head))[x] == if x.head == head then multiset(values)[x.value] else 0
  {
    if values != [] {
      var init, v := values[..|values| - 1], values[|values| - 1];
      assert values == init + [v];
      TagHolds(init, head, x);
    }
  }

  /** Any arrangement of the pool has the samples of each side on that side. */
  lemma SidesArePooled(base: seq<real>, head: seq<real>, pool: seq<Sample>)
    requires multiset(pool) == multiset(Pool(base, head))
    ensures multiset(Side(pool, false)) == multiset(base) && multiset(Side(pool, true)) == multiset(head)
  {
    forall v
      ensures multiset(Side(pool, false))[v] == multiset(base)[v] && multiset(Side(pool, true))[v] == multiset(head)[v]
    {
      SideHolds(pool, false, v);
      SideHolds(pool, true, v);
      PoolHolds(base, head, Sample(v, false));
      PoolHolds(base, head, Sample(v, true));
    }
  }

  lemma PoolHolds(base: seq<real>, head: seq<real>, x: Sample)
    ensures multiset(Pool(base, head))[x] == if x.head then multiset(head)[x.value] else multiset(base)[x.value]
  {
    TagHolds(base, false, x);
    TagHolds(head, true, x);
  }

  // ---------------------------------------------------------------- untied samples

  /** No value is measured twice. */
  ghost predicate Untied(base: seq<real>, head: seq<real>) {
    forall v :: multiset(base)[v] + multiset(head)[v] <= 1
  }

  predicate Increasing(pool: seq<Sample>) {
    forall i, j :: 0 <= i < j < |pool| ==> pool[i].value < pool[j].value
  }

  lemma Twice<T>(s: seq<T>, i: nat, j: nat)
    requires i < j < |s| && s[i] == s[j]
    ensures multiset(s)[s[i]] >= 2
  {
    assert s == s[..j] + [s[j]] + s[j + 1..];
    assert s[..j][i] in multiset(s[..j]);
  }

  lemma SortedIsIncreasing(base: seq<real>, head: seq<real>, pool: seq<Sample>)
    requires Untied(base, head) && multiset(pool) == multiset(Pool(base, head)) && Sorted(pool, SampleLe)
    ensures Increasing(pool)
  {
    forall i, j | 0 <= i < j < |pool| ensures pool[i].value < pool[j].value {
      assert SampleLe(pool[i], pool[j]);
      var v := pool[i].value;
      PoolHolds(base, head, Sample(v, false));
      PoolHolds(base, head, Sample(v, true));
      assert pool[i] in multiset(pool) && pool[j] in multiset(pool);
      if pool[i] == pool[j] { Twice(pool, i, j); }
      assert multiset(base)[v] + multiset(head)[v] <= 1;
    }
  }

  lemma {:induction false} MarksCount(pool: seq<Sample>)
    ensures IsRanking(Marks(pool), |Side(pool, true)|, |Side(pool, false)|)
  {
    if pool != [] { MarksCount(pool[..|pool| - 1]); }
  }

  lemma {:induction false} BeatsAll(base: seq<real>, h: real)
    requires forall b :: b in base ==> b < h
    ensures RowScore(base, h) == 2 * |base|
  {
    if base != [] {
      var init, b := base[..|base| - 1], base[|base| - 1];
      assert base == init + [b] && b in base;
      forall x | x in init ensures x < h { assert x in base; }
      BeatsAll(init, h);
    }
  }

  lemma {:induction false} SideMember(pool: seq<Sample>, head: bool, v: real)
    requires v in Side(pool, head)
    ensures exists i :: 0 <= i < |pool| && pool[i].value == v
  {
    SideHolds(pool, head, v);
    assert Sample(v, head) in multiset(pool);
  }

  lemma LargestBeatsSide(pool: seq<Sample>, x: Sample, head: bool)
    requires Increasing(pool + [x])
    ensures RowScore(Side(pool, head), x.value) == 2 * |Side(pool, head)|
  {
    forall v | v in Side(pool, head) ensures v < x.value {
      SideMember(pool, head, v);
      var i :| 0 <= i < |pool| && pool[i].value == v;
      assert (pool + [x])[i].value < (pool + [x])[|pool|].value;
    }
    BeatsAll(Side(pool, head), x.value);
  }

  /** Without ties the score of the pairs is twice the U of the ranking. */
  lemma {:induction false} ScoreIsTwiceWins(pool: seq<Sample>)
    requires Increasing(pool)
    ensures TwiceU(Side(pool, false), Side(pool, true)) == 2 * Wins(Marks(pool))
  {
    if pool == [] {
      assert WinPairs([]) == {};
    } else {
      var init, x := pool[..|pool| - 1], pool[|pool| - 1];
      assert pool == init + [x];
      ScoreIsTwiceWins(init);
      WinsSnoc(Marks(init), x.head);
      MarksCount(init);
      LargestBeatsSide(init, x, !x.head);
      ScoreStep(Side(init, false), Side(init, true), x);
    }
  }

  /** A new largest head sample adds two for every base sample, a new largest base sample nothing. */
  lemma ScoreStep(base: seq<real>, head: seq<real>, x: Sample)
    requires RowScore(if x.head then base else head, x.value) == 2 * |if x.head then base else head|
    ensures x.head ==> TwiceU(base, head + [x.value]) == TwiceU(base, head) + 2 * |base|
    ensures !x.head ==> TwiceU(base + [x.value], head) == TwiceU(base, head)
  {
    if x.head {
      assert (head + [x.value])[..|head|] == head;
    } else {
      TwiceUColumn(base, x.value, head);
    }
  }

  /** The ranking read off untied samples is one of theirs, and half the score of their pairs is its U. */
  lemma RankingOfSamples(base: seq<real>, head: seq<real>)
    requires Untied(base, head)
    ensures var r := ReadOff(base, head); IsRanking(r, |head|, |base|) && TwiceU(base, head) == 2 * Wins(r)
  {
    var pool := SortBy(Pool(base, head), SampleLe);
    SamplesAreOrdered();
    SortBySorts(Pool(base, head), SampleLe);
    SidesArePooled(base, head, pool);
    SortedIsIncreasing(base, head, pool);
    MarksCount(pool);
    assert |Side(pool, true)| == |multiset(head)| == |head| && |Side(pool, false)| == |multiset(base)| == |base|;
    ScoreIsTwiceWins(pool);
    TwiceUOfRearranged(base, head, Side(pool, false), Side(pool, true));
  }

  /** So the p-value of untied samples is the share of all rankings at least as favourable to head as theirs. */
  lemma PValueOfUntiedSamples(base: seq<real>, head: seq<real>)
    requires base != [] && head != [] && Untied(base, head)
    ensures var m, n, u := |head|, |base|, Wins(ReadOff(base, head));
            IsShare(PValue(base, head), |RankingsFrom(m, n, u)|, |RankingsFrom(m, n, 0)|)
  {
    RankingOfSamples(base, head);
    PValueIsRankTail(base, head);
    assert Threshold(base, head) == Wins(ReadOff(base, head));
  }
}
