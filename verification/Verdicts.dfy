/** benchmarks/cmd/perfgate/main.go: the verdict on one benchmark from its two sets of samples. */
module Verdicts {
  import opened Sums
  import opened Orders
  import opened RankTest

  datatype Verdict = Ok | Regression | Faster | HeadFailed | BaseFailed {
    predicate FailsGate() {
      Regression? || HeadFailed?
    }
  }

  /** The middle of a sorted sequence: its middle value, or the mean of the middle two; 0 if empty. */
  function Middle(s: seq<real>): real {
    var n := |s|;
    if n == 0 then 0.0
    else if n % 2 == 1 then s[n / 2]
    else (s[n / 2 - 1] + s[n / 2]) / 2.0
  }

  ghost predicate Arranges(s: seq<real>, xs: seq<real>) {
    Sorted(s, RealLe) && multiset(s) == multiset(xs)
  }

  ghost predicate IsMedian(xs: seq<real>, m: real) {
    exists s :: Arranges(s, xs) && m == Middle(s)
  }

  /** There is one median, and it does not depend on the order in which samples were taken. */
  lemma MedianUnique(a: seq<real>, b: seq<real>, m: real, k: real)
    requires multiset(a) == multiset(b) && IsMedian(a, m) && IsMedian(b, k)
    ensures m == k
  {
    var s :| Arranges(s, a) && m == Middle(s);
    var t :| Arranges(t, b) && k == Middle(t);
    SortedUnique(s, t, RealLe);
  }

  method Median(xs: seq<real>) returns (m: real)
    ensures IsMedian(xs, m)
  {
    var s := SortBy(xs, RealLe);
    SortBySorts(xs, RealLe);
    assert Arranges(s, xs);
    m := Middle(s);
  }

  function Smaller(v: real): real -> int {
    x => if x < v then 1 else 0
  }

  function NotLarger(v: real): real -> int {
    x => if x <= v then 1 else 0
  }

  /** Of the values, at most k are smaller than v and more than k are not larger: v has rank k. */
  predicate HasRank(xs: seq<real>, v: real, k: int) {
    Sum(xs, Smaller(v)) <= k < Sum(xs, NotLarger(v))
  }

  lemma SortedRanks(s: seq<real>, k: nat)
    requires Sorted(s, RealLe) && k < |s|
    ensures HasRank(s, s[k], k)
  {
    assert s == s[..k] + s[k..] == s[..k + 1] + s[k + 1..];
    SumConcat(s[..k], s[k..], Smaller(s[k]));
    SumAtMost(s[..k], Smaller(s[k]), 1);
    forall x | x in s[k..] ensures Smaller(s[k])(x) <= 0 {
      var j :| k <= j < |s| && s[j] == x;
      assert j == k || RealLe(s[k], s[j]);
    }
    SumAtMost(s[k..], Smaller(s[k]), 0);
    SumConcat(s[..k + 1], s[k + 1..], NotLarger(s[k]));
    forall x | x in s[..k + 1] ensures 1 <= NotLarger(s[k])(x) {
      var j :| 0 <= j <= k && s[j] == x;
      assert j == k || RealLe(s[j], s[k]);
    }
    SumAtLeast(s[..k + 1], NotLarger(s[k]), 1);
    SumNonNegative(s[k + 1..], NotLarger(s[k]));
  }

  lemma ArrangedRanks(s: seq<real>, xs: seq<real>, k: nat)
    requires Arranges(s, xs) && k < |xs|
    ensures |s| == |xs| && HasRank(xs, s[k], k)
  {
    assert |s| == |multiset(s)| == |multiset(xs)| == |xs|;
    SortedRanks(s, k);
    SumPermutation(s, xs, Smaller(s[k]));
    SumPermutation(s, xs, NotLarger(s[k]));
  }

  lemma RankIsUnique(xs: seq<real>, v: real, w: real, k: int)
    requires HasRank(xs, v, k) && HasRank(xs, w, k)
    ensures v == w
  {
    if v < w {
      SumMonotone(xs, NotLarger(v), Smaller(w));
    } else if w < v {
      SumMonotone(xs, NotLarger(w), Smaller(v));
    }
  }

  /** The middle two of an even number of values, and what lies halfway between them. */
  predicate Halfway(xs: seq<real>, lo: real, hi: real, m: real) {
    HasRank(xs, lo, |xs| / 2 - 1) && HasRank(xs, hi, |xs| / 2) && m - lo == hi - m
  }

  /** The median, said by counting: the value with half of the others below and above it, or halfway between
      the two that share this place; 0 without samples. */
  ghost predicate HalvesSamples(xs: seq<real>, m: real) {
    var n := |xs|;
    if n == 0 then m == 0.0
    else if n % 2 == 1 then HasRank(xs, m, n / 2)
    else exists lo, hi :: Halfway(xs, lo, hi, m)
  }

  lemma MedianHalves(xs: seq<real>, m: real)
    requires IsMedian(xs, m)
    ensures HalvesSamples(xs, m)
  {
    var s :| Arranges(s, xs) && m == Middle(s);
    assert |s| == |multiset(s)| == |multiset(xs)| == |xs|;
    var n := |xs|;
    if n > 0 { ArrangedRanks(s, xs, n / 2); }
    if n > 0 && n % 2 == 0 {
      ArrangedRanks(s, xs, n / 2 - 1);
      assert Halfway(xs, s[n / 2 - 1], s[n / 2], m);
    }
  }

  /** A median is exactly what halves the samples. */
  lemma MedianIff(xs: seq<real>, m: real)
    ensures IsMedian(xs, m) <==> HalvesSamples(xs, m)
  {
    if IsMedian(xs, m) {
      MedianHalves(xs, m);
    } else if HalvesSamples(xs, m) {
      var s := SortBy(xs, RealLe);
      SortBySorts(xs, RealLe);
      assert Arranges(s, xs) && IsMedian(xs, Middle(s));
      MedianHalves(xs, Middle(s));
      OneHalf(xs, m, Middle(s));
      assert false;
    }
  }

  lemma OneHalf(xs: seq<real>, m: real, k: real)
    requires HalvesSamples(xs, m) && HalvesSamples(xs, k)
    ensures m == k
  {
    var n := |xs|;
    if n > 0 && n % 2 == 1 {
      RankIsUnique(xs, m, k, n / 2);
    } else if n > 0 {
      var lo, hi :| Halfway(xs, lo, hi, m);
      var lo', hi' :| Halfway(xs, lo', hi', k);
      RankIsUnique(xs, lo, lo', n / 2 - 1);
      RankIsUnique(xs, hi, hi', n / 2);
    }
  }

  class BenchResult {
    var base: seq<real>
    var head: seq<real>
    var baseError: string
    var headError: string
    var baseMedian: real
    var headMedian: real
    var delta: real
    var pSlower: real
    var pFaster: real

    constructor (base: seq<real>, head: seq<real>, baseError: string, headError: string)
      ensures this.base == base && this.head == head && this.baseError == baseError && this.headError == headError
      ensures delta == 0.0
    {
      this.base, this.head, this.baseError, this.headError := base, head, baseError, headError;
      baseMedian, headMedian, delta, pSlower, pFaster := 0.0, 0.0, 0.0, 0.0, 0.0;
    }

    /** The statistics are those of the samples; a base median of zero leaves the previous delta. */
    twostate predicate Measured()
      reads this
    {
      && IsMedian(base, baseMedian) && IsMedian(head, headMedian)
      && delta == (if baseMedian > 0.0 then headMedian / baseMedian - 1.0 else old(delta))
      && pSlower == PValue(base, head) && pFaster == PValue(head, base)
    }

    method Measure()
      modifies this`baseMedian, this`headMedian, this`delta, this`pSlower, this`pFaster
      ensures Measured()
    {
      baseMedian := Median(base);
      headMedian := Median(head);
      if baseMedian > 0.0 { delta := headMedian / baseMedian - 1.0; }
      pSlower := SlowerPValue(base, head);
      pFaster := SlowerPValue(head, base);
    }

    /** A failed build decides alone and leaves the statistics as they were; otherwise they are recomputed.
        The gate closes on a head failure, or on a slowdown that both the medians and the test confirm. */
    method Judge(threshold: real, alpha: real) returns (v: Verdict)
      modifies this`baseMedian, this`headMedian, this`delta, this`pSlower, this`pFaster
      ensures headError != "" <==> v == HeadFailed
      ensures headError == "" && baseError != "" <==> v == BaseFailed
      ensures baseError != "" || headError != "" ==> unchanged(this)
      ensures baseError == "" && headError == "" ==> Measured()
      ensures v.FailsGate() <==>
                headError != "" || (baseError == "" && delta > threshold && pSlower < alpha)
      ensures v == Faster ==> delta < -threshold && pFaster < alpha
      ensures v == Ok ==> !(delta > threshold && pSlower < alpha) && !(delta < -threshold && pFaster < alpha)
    {
      if headError != "" { return HeadFailed; }
      if baseError != "" { return BaseFailed; }
      Measure();
      if delta > threshold && pSlower < alpha {
        v := Regression;
      } else if delta < -threshold && pFaster < alpha {
        v := Faster;
      } else {
        v := Ok;
      }
    }
  }

  ghost predicate BothDirectionsSignificant(base: seq<real>, head: seq<real>, alpha: real) {
    PValue(base, head) < alpha && PValue(head, base) < alpha
  }

  /** One tied sample on each side gives the middle p-value in both directions. */
  lemma TiedSamples()
    ensures PValue([0.0], [0.0]) == 0.5
  {
    assert TwiceU([0.0], [0.0]) == 1 by {
      assert [0.0][..0] == [];
      assert TwiceU([0.0], [0.0]) == TwiceU([0.0], []) + RowScore([0.0], 0.0);
      assert RowScore([0.0], 0.0) == RowScore([], 0.0) + PairScore(0.0, 0.0);
    }
    PValuesOverlap([0.0], [0.0]);
  }

  /** No nonempty samples are significant in both directions exactly when alpha is at most one half. */
  lemma DirectionsExcludeEachOther(alpha: real)
    ensures alpha <= 0.5 <==>
            forall base: seq<real>, head: seq<real> :: base != [] && head != [] ==>
                !BothDirectionsSignificant(base, head, alpha)
  {
    if alpha <= 0.5 {
      forall base: seq<real>, head: seq<real> | base != [] && head != []
        ensures !BothDirectionsSignificant(base, head, alpha)
      {
        PValuesOverlap(base, head);
      }
    } else {
      TiedSamples();
      assert BothDirectionsSignificant([0.0], [0.0], alpha);
    }
  }
}
