/** benchmarks/cmd/perfgate/stats.go: the exact one-sided Mann-Whitney test. A ranking of m head and
    n base samples is a sequence of booleans in increasing order of sample, true for head. */
module RankTest {

  // ---------------------------------------------------------------- rankings

  ghost predicate IsRanking(r: seq<bool>, m: nat, n: nat) {
    multiset(r)[true] == m && multiset(r)[false] == n
  }

  /** The pairs in which a head sample ranks above a base sample. */
  ghost function WinPairs(r: seq<bool>): set<(int, int)> {
    set b: int, h: int | 0 <= b < h < |r| && !r[b] && r[h] :: (b, h)
  }

  /** The Mann-Whitney U of a ranking. */
  ghost function Wins(r: seq<bool>): nat {
    |WinPairs(r)|
  }

  ghost function BasePositions(r: seq<bool>): set<int> {
    set b: int | 0 <= b < |r| && !r[b]
  }

  lemma {:induction false} BasePositionsCount(r: seq<bool>)
    ensures |BasePositions(r)| == multiset(r)[false]
  {
    if r != [] {
      var k := |r| - 1;
      assert r == r[..k] + [r[k]];
      BasePositionsCount(r[..k]);
      if r[k] {
        assert BasePositions(r) == BasePositions(r[..k]);
      } else {
        assert BasePositions(r) == BasePositions(r[..k]) + {k};
      }
    }
  }

  ghost function PairsWith<T>(s: set<T>, k: int): set<(T, int)> {
    set b | b in s :: (b, k)
  }

  lemma {:induction false} PairsWithSize<T>(s: set<T>, k: int)
    ensures |PairsWith(s, k)| == |s|
  {
    if s == {} {
      assert PairsWith(s, k) == {};
    } else {
      var x :| x in s;
      PairsWithSize(s - {x}, k);
      assert PairsWith(s, k) == PairsWith(s - {x}, k) + {(x, k)};
    }
  }

  /** A new largest sample beats every base sample if it is a head sample and nothing otherwise. */
  lemma WinsSnoc(r: seq<bool>, head: bool)
    ensures Wins(r + [head]) == Wins(r) + if head then multiset(r)[false] else 0
  {
    var k := |r|;
    var longer := r + [head];
    if head {
      var added := PairsWith(BasePositions(r), k);
      assert WinPairs(longer) == WinPairs(r) + added;
      assert WinPairs(r) !! added;
      PairsWithSize(BasePositions(r), k);
      BasePositionsCount(r);
    } else {
      assert WinPairs(longer) == WinPairs(r);
    }
  }

  /** Every sequence of s with one larger sample added. */
  ghost function Extend(s: set<seq<bool>>, last: bool): set<seq<bool>> {
    set r | r in s :: r + [last]
  }

  ghost function Outcomes(k: nat): set<seq<bool>> {
    if k == 0 then {[]} else Extend(Outcomes(k - 1), true) + Extend(Outcomes(k - 1), false)
  }

  lemma ExtendMember(s: set<seq<bool>>, last: bool, init: seq<bool>, x: bool)
    ensures init + [x] in Extend(s, last) <==> x == last && init in s
  {
    if init + [x] in Extend(s, last) {
      var r :| r in s && r + [last] == init + [x];
      assert (r + [last])[..|r|] == r && (init + [x])[..|init|] == init;
      assert (r + [last])[|r|] == last;
    }
  }

  lemma {:induction false} OutcomesExact(k: nat, r: seq<bool>)
    ensures r in Outcomes(k) <==> |r| == k
  {
    if k > 0 && r != [] {
      var init := r[..|r| - 1];
      assert r == init + [r[|r| - 1]];
      OutcomesExact(k - 1, init);
      ExtendMember(Outcomes(k - 1), true, init, r[|r| - 1]);
      ExtendMember(Outcomes(k - 1), false, init, r[|r| - 1]);
    }
  }

  /** The rankings of m head and n base samples whose U is u. */
  ghost function Rankings(m: nat, n: nat, u: int): set<seq<bool>> {
    set r | r in Outcomes(m + n) && IsRanking(r, m, n) && Wins(r) == u
  }

  lemma RankingsExact(m: nat, n: nat, u: int, r: seq<bool>)
    ensures r in Rankings(m, n, u) <==> IsRanking(r, m, n) && Wins(r) == u
  {
    OutcomesExact(m + n, r);
    RankingLength(r);
  }

  lemma {:induction false} RankingLength(r: seq<bool>)
    ensures |r| == multiset(r)[true] + multiset(r)[false]
  {
    if r != [] {
      var init, x := r[..|r| - 1], r[|r| - 1];
      assert r == init + [x];
      RankingLength(init);
      assert multiset(r) == multiset(init) + multiset{x};
      if x { assert multiset(r)[false] == multiset(init)[false]; }
    }
  }

  // ---------------------------------------------------------------- counting rankings

  /** How many rankings of i head and j base samples have U = u, by the recurrence of uDistribution. */
  function Ways(i: nat, j: nat, u: int): nat
    decreases i + j
  {
    if u < 0 then 0
    else if i == 0 || j == 0 then (if u == 0 then 1 else 0)
    else Ways(i - 1, j, u - j) + Ways(i, j - 1, u)
  }

  lemma {:induction false} ExtendSize(s: set<seq<bool>>, last: bool)
    ensures |Extend(s, last)| == |s|
  {
    if s != {} {
      var x :| x in s;
      ExtendSize(s - {x}, last);
      forall r | r in s - {x} ensures r + [last] != x + [last] {
        assert (r + [last])[..|r|] == r && (x + [last])[..|x|] == x;
      }
      assert Extend(s, last) == Extend(s - {x}, last) + {x + [last]};
    }
  }

  /** The largest sample of a ranking is a head sample beating all n, or a base sample. */
  lemma LargestSample(m: nat, n: nat, u: int, r: seq<bool>)
    requires m > 0 && n > 0
    ensures r in Rankings(m, n, u) <==>
            r in Extend(Rankings(m - 1, n, u - n), true) + Extend(Rankings(m, n - 1, u), false)
  {
    RankingsExact(m, n, u, r);
    RankingLength(r);
    if r != [] {
      var init, x := r[..|r| - 1], r[|r| - 1];
      assert r == init + [x];
      WinsSnoc(init, x);
      RankingsExact(m - 1, n, u - n, init);
      RankingsExact(m, n - 1, u, init);
      ExtendMember(Rankings(m - 1, n, u - n), true, init, x);
      ExtendMember(Rankings(m, n - 1, u), false, init, x);
    }
  }

  lemma RankingsSplit(m: nat, n: nat, u: int)
    requires m > 0 && n > 0
    ensures |Rankings(m, n, u)| == |Rankings(m - 1, n, u - n)| + |Rankings(m, n - 1, u)|
  {
    var heads, bases := Extend(Rankings(m - 1, n, u - n), true), Extend(Rankings(m, n - 1, u), false);
    ExtendSize(Rankings(m - 1, n, u - n), true);
    ExtendSize(Rankings(m, n - 1, u), false);
    forall r | r in heads ensures r !in bases { assert r[|r| - 1]; }
    forall r ensures r in Rankings(m, n, u) <==> r in heads + bases { LargestSample(m, n, u, r); }
    assert Rankings(m, n, u) == heads + bases && heads !! bases;
  }

  /** With samples of one side only there is one ranking, and nobody wins. */
  lemma OneSidedRankings(m: nat, n: nat, u: int)
    requires m == 0 || n == 0
    ensures |Rankings(m, n, u)| == if u == 0 then 1 else 0
  {
    var only := seq(m + n, i => n == 0);
    forall r ensures r in Rankings(m, n, u) <==> u == 0 && r == only {
      RankingsExact(m, n, u, r);
      RankingLength(r);
      Uniform(r, n == 0);
      if IsRanking(r, m, n) { assert forall i :: 0 <= i < |r| ==> r[i] in multiset(r); }
      assert (forall i :: 0 <= i < |r| ==> r[i] == (n == 0)) ==> WinPairs(r) == {};
    }
    assert Rankings(m, n, u) == if u == 0 then {only} else {};
  }

  lemma Uniform(r: seq<bool>, b: bool)
    ensures multiset(r)[!b] == 0 <==> forall i :: 0 <= i < |r| ==> r[i] == b
  {
    assert forall i :: 0 <= i < |r| ==> r[i] in multiset(r);
    assert !b in multiset(r) <==> !b in r;
  }

  lemma NoRankingsBelowZero(m: nat, n: nat, u: int)
    requires u < 0
    ensures Rankings(m, n, u) == {}
  {
    forall r ensures r !in Rankings(m, n, u) { RankingsExact(m, n, u, r); }
  }

  lemma CountRecurrence(m: nat, n: nat, u: int)
    ensures u < 0 ==> |Rankings(m, n, u)| == 0
    ensures u >= 0 && (m == 0 || n == 0) ==> |Rankings(m, n, u)| == if u == 0 then 1 else 0
    ensures m > 0 && n > 0 ==> |Rankings(m, n, u)| == |Rankings(m - 1, n, u - n)| + |Rankings(m, n - 1, u)|
  {
    if u < 0 { NoRankingsBelowZero(m, n, u); }
    if m == 0 || n == 0 { OneSidedRankings(m, n, u); } else { RankingsSplit(m, n, u); }
  }

  /** The recurrence counts the rankings: the entry at u is the number of rankings with that U. */
  lemma {:induction false} WaysCountsRankings(m: nat, n: nat, u: int)
    ensures |Rankings(m, n, u)| == Ways(m, n, u)
    decreases m + n
  {
    CountRecurrence(m, n, u);
    if u >= 0 && m > 0 && n > 0 {
      WaysCountsRankings(m - 1, n, u - n);
      WaysCountsRankings(m, n - 1, u);
    }
  }

  /** U never exceeds the number of pairs, and every value up to it occurs. */
  lemma {:induction false} WaysSupport(m: nat, n: nat, u: int)
    ensures Ways(m, n, u) > 0 <==> 0 <= u <= m * n
    decreases m + n
  {
    if m > 0 && n > 0 && u >= 0 {
      WaysSupport(m - 1, n, u - n);
      WaysSupport(m, n - 1, u);
      assert (m - 1) * n == m * n - n && m * (n - 1) == m * n - m;
      if u < n { assert m * (n - 1) >= n - 1; }
    }
  }

  /** Exchanging the roles of head and base turns U into its complement. */
  lemma {:induction false} WaysConjugate(m: nat, n: nat, u: int)
    ensures Ways(m, n, u) == Ways(n, m, m * n - u)
    decreases m + n
  {
    WaysSupport(m, n, u);
    WaysSupport(n, m, m * n - u);
    assert m * n == n * m;
    if m > 0 && n > 0 && 0 <= u <= m * n {
      WaysConjugate(m - 1, n, u - n);
      WaysConjugate(m, n - 1, u);
      assert (m - 1) * n == m * n - n && m * (n - 1) == m * n - m;
    }
  }

  // ---------------------------------------------------------------- uDistribution

  /** f[i][j] of the table: one entry for every U from 0 to i * j. */
  function Row(i: nat, j: nat): (row: seq<nat>)
    ensures |row| == i * j + 1
    ensures forall u :: 0 <= u < |row| ==> row[u] == Ways(i, j, u)
  {
    assert i * j >= 0;
    seq(i * j + 1, u => Ways(i, j, u))
  }

  /** The entry at u of a row that may be shorter, or u negative. */
  ghost function At(row: seq<nat>, u: int): nat {
    if 0 <= u < |row| then row[u] else 0
  }

  lemma RowAt(i: nat, j: nat, u: int)
    ensures At(Row(i, j), u) == Ways(i, j, u)
  {
    WaysSupport(i, j, u);
  }

  lemma RowStep(i: nat, j: nat, u: nat)
    requires i > 0 && j > 0
    ensures At(Row(i, j), u) == At(Row(i - 1, j), u - j) + At(Row(i, j - 1), u)
  {
    RowAt(i, j, u);
    RowAt(i - 1, j, u - j);
    RowAt(i, j - 1, u);
  }

  lemma EdgeRow(i: nat, j: nat)
    requires i == 0 || j == 0
    ensures Row(i, j) == [1]
  {
    assert i * j == 0;
  }

  /** Fills the table bottom-up in place; the returned entry at u counts the rankings with that U. */
  method UDistribution(m: nat, n: nat) returns (ways: array<nat>)
    ensures ways[..] == Row(m, n)
    ensures forall u :: 0 <= u < ways.Length ==> ways[u] == |Rankings(m, n, u)|
  {
    var f := new array?<nat>[m + 1, n + 1]((i, j) => null);
    for i := 0 to m + 1
      invariant forall a, b :: 0 <= a < i && 0 <= b <= n ==> f[a, b] != null && f[a, b][..] == Row(a, b)
    {
      for j := 0 to n + 1
        invariant forall a, b :: 0 <= a < i && 0 <= b <= n ==> f[a, b] != null && f[a, b][..] == Row(a, b)
        invariant forall b :: 0 <= b < j ==> f[i, b] != null && f[i, b][..] == Row(i, b)
      {
        var row := FillRow(i, j, if i > 0 then f[i - 1, j] else null, if j > 0 then f[i, j - 1] else null);
        f[i, j] := row;
      }
    }
    ways := f[m, n];
    forall u | 0 <= u < ways.Length ensures ways[u] == |Rankings(m, n, u)| {
      assert ways[u] == ways[..][u];
      WaysCountsRankings(m, n, u);
    }
  }

  /** The body of the two outer loops: entry (i, j) of the table from its two neighbours. */
  method FillRow(i: nat, j: nat, above: array?<nat>, left: array?<nat>) returns (row: array<nat>)
    requires i > 0 && j > 0 ==> above != null && left != null && above[..] == Row(i - 1, j) && left[..] == Row(i, j - 1)
    ensures fresh(row) && row[..] == Row(i, j)
  {
    assert i * j >= 0;
    row := new nat[i * j + 1](u => 0);
    if i == 0 || j == 0 {
      EdgeRow(i, j);
      row[0] := 1;
      return;
    }
    for u := 0 to i * j + 1
      invariant forall k :: 0 <= k < u ==> row[k] == Row(i, j)[k]
      invariant forall k :: u <= k <= i * j ==> row[k] == 0
    {
      RowStep(i, j, u);
      AddNeighbours(row, above, left, j, u);
    }
  }

  /** The body of the innermost loop: the entries of both neighbours, where they have one. */
  method AddNeighbours(row: array<nat>, above: array<nat>, left: array<nat>, j: nat, u: nat)
    requires u < row.Length && row != above && row != left
    modifies row
    ensures row[..] == old(row[..])[u := old(row[u]) + At(above[..], u - j) + At(left[..], u)]
  {
    if u - j >= 0 && u - j < above.Length {
      row[u] := row[u] + above[u - j];
    }
    if u < left.Length {
      row[u] := row[u] + left[u];
    }
  }

  // ---------------------------------------------------------------- totals

  /** How many rankings have lo <= U < hi. */
  function Between(m: nat, n: nat, lo: int, hi: int): nat
    decreases hi - lo
  {
    if lo >= hi then 0 else Between(m, n, lo, hi - 1) + Ways(m, n, hi - 1)
  }

  function Total(m: nat, n: nat): nat {
    Between(m, n, 0, m * n + 1)
  }

  lemma {:induction false} BetweenSplit(m: nat, n: nat, lo: int, mid: int, hi: int)
    requires lo <= mid <= hi
    ensures Between(m, n, lo, hi) == Between(m, n, lo, mid) + Between(m, n, mid, hi)
    decreases hi - mid
  {
    if mid < hi { BetweenSplit(m, n, lo, mid, hi - 1); }
  }

  lemma {:induction false} BetweenOutside(m: nat, n: nat, lo: int, hi: int)
    requires hi <= 0 || lo > m * n
    ensures Between(m, n, lo, hi) == 0
    decreases hi - lo
  {
    if lo < hi {
      WaysSupport(m, n, hi - 1);
      BetweenOutside(m, n, lo, hi - 1);
    }
  }

  /** Reading the distribution backwards gives the distribution with the roles exchanged. */
  lemma {:induction false} BetweenConjugate(m: nat, n: nat, lo: int, hi: int)
    ensures Between(m, n, lo, hi) == Between(n, m, m * n - hi + 1, m * n - lo + 1)
    decreases hi - lo
  {
    if lo < hi {
      BetweenConjugate(m, n, lo, hi - 1);
      WaysConjugate(m, n, hi - 1);
      var top := m * n - hi + 1;
      BetweenSplit(n, m, top, top + 1, m * n - lo + 1);
      assert Between(n, m, top, top + 1) == Between(n, m, top, top) + Ways(n, m, top);
    }
  }

  lemma {:induction false} BetweenRecurrence(m: nat, n: nat, hi: nat)
    requires m > 0 && n > 0
    ensures Between(m, n, 0, hi) == Between(m - 1, n, 0 - n, hi - n) + Between(m, n - 1, 0, hi)
  {
    if hi > 0 { BetweenRecurrence(m, n, hi - 1); }
    else { BetweenOutside(m - 1, n, 0 - n, 0 - n); }
  }

  lemma BetweenTrimLow(m: nat, n: nat, lo: int, hi: int)
    requires lo <= 0 <= hi
    ensures Between(m, n, lo, hi) == Between(m, n, 0, hi)
  {
    BetweenSplit(m, n, lo, 0, hi);
    BetweenOutside(m, n, lo, 0);
  }

  lemma BetweenTrimHigh(m: nat, n: nat, hi: int)
    requires m * n + 1 <= hi
    ensures Between(m, n, 0, hi) == Total(m, n)
  {
    assert m * n >= 0;
    BetweenSplit(m, n, 0, m * n + 1, hi);
    BetweenOutside(m, n, m * n + 1, hi);
  }

  lemma ProductSteps(m: nat, n: nat)
    requires m > 0 && n > 0
    ensures (m - 1) * n + 1 == m * n + 1 - n && m * (n - 1) + 1 <= m * n + 1
    ensures 0 <= m * n && 0 <= m * n + 1 - n
  {
    assert (m - 1) * n >= 0;
  }

  lemma BetweenAbove(m: nat, n: nat, hi: nat)
    requires m > 0 && n > 0 && n <= hi
    ensures Between(m, n, 0, hi) == Between(m - 1, n, 0, hi - n) + Between(m, n - 1, 0, hi)
  {
    BetweenRecurrence(m, n, hi);
    BetweenTrimLow(m - 1, n, 0 - n, hi - n);
  }

  lemma TotalRecurrence(m: nat, n: nat)
    requires m > 0 && n > 0
    ensures Total(m, n) == Total(m - 1, n) + Total(m, n - 1)
  {
    ProductSteps(m, n);
    var hi := m * n + 1;
    BetweenAbove(m, n, hi);
    BetweenTrimHigh(m, n - 1, hi);
  }

  function Factorial(k: nat): nat {
    if k == 0 then 1 else k * Factorial(k - 1)
  }

  /** The entries add up to the binomial coefficient (m + n)! / (m! n!). */
  lemma {:induction false} TotalIsBinomial(m: nat, n: nat)
    ensures Total(m, n) * (Factorial(m) * Factorial(n)) == Factorial(m + n)
    decreases m + n
  {
    if m == 0 || n == 0 {
      assert m * n == 0 && Between(m, n, 0, 1) == Between(m, n, 0, 0) + Ways(m, n, 0);
    } else {
      TotalRecurrence(m, n);
      TotalIsBinomial(m - 1, n);
      TotalIsBinomial(m, n - 1);
      BinomialStep(m, n, Total(m - 1, n), Total(m, n - 1), Factorial(m - 1), Factorial(n - 1), Factorial(m + n - 1));
    }
  }

  lemma BinomialStep(m: nat, n: nat, a: nat, b: nat, fm: nat, fn: nat, f: nat)
    requires a * (fm * (n * fn)) == f && b * ((m * fm) * fn) == f
    ensures (a + b) * ((m * fm) * (n * fn)) == (m + n) * f
  {
    calc {
      (a + b) * ((m * fm) * (n * fn));
    ==
      m * (a * (fm * (n * fn))) + n * (b * ((m * fm) * fn));
    ==
      m * f + n * f;
    }
  }

  // ---------------------------------------------------------------- slowerPValue

  /** Twice the credit of one pair: a win counts 2, a tie 1. */
  function PairScore(h: real, b: real): int {
    if h > b then 2 else if h == b then 1 else 0
  }

  function RowScore(base: seq<real>, h: real): int {
    if base == [] then 0 else RowScore(base[..|base| - 1], h) + PairScore(h, base[|base| - 1])
  }

  function TwiceU(base: seq<real>, head: seq<real>): int {
    if head == [] then 0 else TwiceU(base, head[..|head| - 1]) + RowScore(base, head[|head| - 1])
  }

  lemma {:induction false} RowScoreRange(base: seq<real>, h: real)
    ensures 0 <= RowScore(base, h) <= 2 * |base|
  {
    if base != [] { RowScoreRange(base[..|base| - 1], h); }
  }

  lemma {:induction false} TwiceURange(base: seq<real>, head: seq<real>)
    ensures 0 <= TwiceU(base, head) <= 2 * (|head| * |base|)
  {
    if head != [] {
      RowScoreRange(base, head[|head| - 1]);
      TwiceURange(base, head[..|head| - 1]);
      assert (|head| - 1) * |base| == |head| * |base| - |base|;
    }
  }

  lemma {:induction false} TwiceUColumn(base: seq<real>, b: real, head: seq<real>)
    ensures TwiceU(base + [b], head) + RowScore(head, b) == TwiceU(base, head) + 2 * |head|
  {
    if head != [] {
      TwiceUColumn(base, b, head[..|head| - 1]);
      assert (base + [b])[..|base|] == base;
    }
  }

  /** Every pair is worth two half-wins, shared between the two directions. */
  lemma {:induction false} TwiceUSwap(base: seq<real>, head: seq<real>)
    ensures TwiceU(base, head) + TwiceU(head, base) == 2 * (|head| * |base|)
  {
    if base == [] {
      NoScore(head);
    } else {
      var init, b := base[..|base| - 1], base[|base| - 1];
      assert base == init + [b];
      TwiceUSwap(init, head);
      TwiceUColumn(init, b, head);
      assert |head| * (|base| - 1) == |head| * |base| - |head|;
    }
  }

  lemma {:induction false} NoScore(head: seq<real>)
    ensures TwiceU([], head) == 0
  {
    if head != [] { NoScore(head[..|head| - 1]); }
  }

  /** The smallest U that is at least as extreme as the observed one. */
  function Threshold(base: seq<real>, head: seq<real>): int {
    (TwiceU(base, head) + 1) / 2
  }

  function PValue(base: seq<real>, head: seq<real>): real {
    var m, n := |head|, |base|;
    if m == 0 || n == 0 then 1.0
    else
      var total := Total(m, n);
      if total == 0 then 0.0 else Between(m, n, Threshold(base, head), m * n + 1) as real / total as real
  }

  lemma TotalPositive(m: nat, n: nat)
    ensures Total(m, n) > 0
  {
    WaysSupport(m, n, m * n);
    assert m * n >= 0;
  }

  /** The double loop that scores every pair of samples. */
  method ScorePairs(base: seq<real>, head: seq<real>) returns (twiceU: int)
    ensures twiceU == TwiceU(base, head)
  {
    twiceU := 0;
    for i := 0 to |head|
      invariant twiceU == TwiceU(base, head[..i])
    {
      var h := head[i];
      var before := twiceU;
      for j := 0 to |base|
        invariant twiceU == before + RowScore(base[..j], h)
      {
        assert base[..j + 1][..j] == base[..j];
        if h > base[j] { twiceU := twiceU + 2; } else if h == base[j] { twiceU := twiceU + 1; }
      }
      assert base[..|base|] == base && head[..i + 1][..i] == head[..i];
    }
    assert head[..|head|] == head;
  }

  /** The loop that adds up the distribution and its tail. */
  method Tally(m: nat, n: nat, ways: array<nat>, threshold: int) returns (atLeast: nat, total: nat)
    requires ways[..] == Row(m, n) && 0 <= threshold
    ensures total == Total(m, n)
    ensures atLeast == Between(m, n, threshold, m * n + 1)
  {
    atLeast, total := 0, 0;
    assert ways.Length == |ways[..]|;
    for u := 0 to ways.Length
      invariant total == Between(m, n, 0, u)
      invariant atLeast == Between(m, n, threshold, u)
    {
      assert ways[u] == ways[..][u];
      total := total + ways[u];
      if u >= threshold { atLeast := atLeast + ways[u]; }
    }
  }

  method SlowerPValue(base: seq<real>, head: seq<real>) returns (p: real)
    ensures p == PValue(base, head)
    ensures base == [] || head == [] ==> p == 1.0
  {
    var m, n := |head|, |base|;
    if m == 0 || n == 0 { return 1.0; }
    var twiceU := ScorePairs(base, head);
    TwiceURange(base, head);
    var ways := UDistribution(m, n);
    var atLeast, total := Tally(m, n, ways, (twiceU + 1) / 2);
    TotalPositive(m, n);
    p := atLeast as real / total as real;
  }

  /** The rankings at least as favourable to head as U = k. */
  ghost function RankingsFrom(m: nat, n: nat, k: int): set<seq<bool>> {
    set r | r in Outcomes(m + n) && IsRanking(r, m, n) && Wins(r) >= k
  }

  lemma {:induction false} RankingsFromCount(m: nat, n: nat, k: int)
    ensures |RankingsFrom(m, n, k)| == Between(m, n, k, m * n + 1)
    decreases m * n + 1 - k
  {
    if k > m * n {
      forall r ensures r !in RankingsFrom(m, n, k) {
        RankingsExact(m, n, Wins(r), r);
        WaysSupport(m, n, Wins(r));
        WaysCountsRankings(m, n, Wins(r));
      }
      assert RankingsFrom(m, n, k) == {};
    } else {
      RankingsFromCount(m, n, k + 1);
      WaysCountsRankings(m, n, k);
      assert RankingsFrom(m, n, k) == Rankings(m, n, k) + RankingsFrom(m, n, k + 1);
      assert Rankings(m, n, k) !! RankingsFrom(m, n, k + 1);
      BetweenSplit(m, n, k, k + 1, m * n + 1);
      assert Between(m, n, k, k + 1) == Between(m, n, k, k) + Ways(m, n, k);
    }
  }

  lemma TailBounds(base: seq<real>, head: seq<real>)
    requires base != [] && head != []
    ensures var m, n := |head|, |base|;
            0 < Between(m, n, Threshold(base, head), m * n + 1) <= Total(m, n)
  {
    var m, n, k := |head|, |base|, Threshold(base, head);
    TwiceURange(base, head);
    BetweenSplit(m, n, 0, k, m * n + 1);
    WaysSupport(m, n, m * n);
  }

  /** p is a proper share: part out of whole. */
  ghost predicate IsShare(p: real, part: nat, whole: nat) {
    p * whole as real == part as real && 0.0 < p <= 1.0
  }

  /** The p-value is the share of rankings whose U reaches the observed one, and lies in (0, 1]. */
  lemma PValueIsRankTail(base: seq<real>, head: seq<real>)
    requires base != [] && head != []
    ensures var m, n := |head|, |base|;
            IsShare(PValue(base, head), |RankingsFrom(m, n, Threshold(base, head))|, |RankingsFrom(m, n, 0)|)
  {
    var m, n, k := |head|, |base|, Threshold(base, head);
    TailBounds(base, head);
    RankingsFromCount(m, n, 0);
    RankingsFromCount(m, n, k);
    ShareFacts(Between(m, n, k, m * n + 1), Total(m, n));
  }

  lemma ShareFacts(part: nat, whole: nat)
    requires 0 < part <= whole
    ensures IsShare(part as real / whole as real, part, whole)
  {
  }

  /** How many rankings tie with the observed U. */
  function TiedWays(base: seq<real>, head: seq<real>): nat {
    if TwiceU(base, head) % 2 == 0 then Ways(|head|, |base|, TwiceU(base, head) / 2) else 0
  }

  lemma TailsOverlap(base: seq<real>, head: seq<real>)
    ensures var m, n := |head|, |base|;
            && Total(m, n) == Total(n, m)
            && Between(m, n, Threshold(base, head), m * n + 1) + Between(n, m, Threshold(head, base), n * m + 1)
               == Total(m, n) + TiedWays(base, head)
  {
    var m, n, t := |head|, |base|, TwiceU(base, head);
    var top, k := m * n + 1, (t + 1) / 2;
    assert n * m == m * n;
    TwiceURange(base, head);
    TwiceUSwap(base, head);
    BetweenConjugate(m, n, 0, t / 2 + 1);
    BetweenConjugate(m, n, 0, top);
    BetweenSplit(m, n, 0, k, top);
    assert Threshold(head, base) == m * n - t / 2;
  }

  lemma PValuesAsShares(base: seq<real>, head: seq<real>) returns (a: nat, b: nat, whole: nat, extra: nat)
    requires base != [] && head != []
    ensures whole == Total(|head|, |base|) > 0 && extra == TiedWays(base, head) && a + b == whole + extra
    ensures PValue(base, head) == a as real / whole as real && PValue(head, base) == b as real / whole as real
    ensures extra == 0 <==> TwiceU(base, head) % 2 == 1
  {
    var m, n := |head|, |base|;
    a := Between(m, n, Threshold(base, head), m * n + 1);
    b := Between(n, m, Threshold(head, base), n * m + 1);
    whole, extra := Total(m, n), TiedWays(base, head);
    TailsOverlap(base, head);
    TotalPositive(m, n);
    TiedWaysPositive(base, head);
  }

  lemma TiedWaysPositive(base: seq<real>, head: seq<real>)
    ensures TiedWays(base, head) == 0 <==> TwiceU(base, head) % 2 == 1
  {
    TwiceURange(base, head);
    WaysSupport(|head|, |base|, TwiceU(base, head) / 2);
  }

  /** p and q, as shares of whole, add up to whole and extra. */
  ghost predicate Overlap(p: real, q: real, whole: nat, extra: nat) {
    && (p + q) * whole as real == (whole + extra) as real
    && p + q >= 1.0
    && (p + q == 1.0 <==> extra == 0)
  }

  lemma SharesAddUp(a: nat, b: nat, whole: nat, extra: nat)
    requires whole > 0 && a + b == whole + extra
    ensures Overlap(a as real / whole as real, b as real / whole as real, whole, extra)
  {
    AddShares(a as real, b as real, whole as real, extra as real);
  }

  lemma AddShares(x: real, y: real, w: real, e: real)
    requires w > 0.0 && x + y == w + e && e >= 0.0
    ensures (x / w + y / w) * w == w + e
    ensures x / w + y / w >= 1.0
    ensures x / w + y / w == 1.0 <==> e == 0.0
  {
    var sum := x / w + y / w;
    assert sum * w == w + e;
    assert (sum - 1.0) * w == e;
  }

  /** The two directions overlap exactly in the rankings that tie with the observed U: the p-values add
      up to at least 1, and to exactly 1 when twice the observed U is odd. */
  lemma PValuesOverlap(base: seq<real>, head: seq<real>)
    requires base != [] && head != []
    ensures Overlap(PValue(base, head), PValue(head, base), Total(|head|, |base|), TiedWays(base, head))
    ensures TiedWays(base, head) == 0 <==> TwiceU(base, head) % 2 == 1
  {
    var a, b, whole, extra := PValuesAsShares(base, head);
    SharesAddUp(a, b, whole, extra);
  }
}
