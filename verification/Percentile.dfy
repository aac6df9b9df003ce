/** Nearest-rank percentiles and latency metrics (src/analysis.cpp:17-47). The rank is computed in
    exact arithmetic; the code uses binary64. */
module Percentiles {
  import opened Types
  import opened Ordering

  function Ceiling(x: real): (c: int)
    ensures x <= c as real < x + 1.0
  {
    -((-x).Floor)
  }

  /** The 1-based index into the sorted values, clamped to them. */
  function Rank(n: nat, p: real): (r: nat)
    requires n > 0
    ensures 1 <= r <= n
  {
    var idx := Ceiling(p / 100.0 * n as real);
    if idx < 1 then 1 else if idx > n then n else idx
  }

  function Percentile(values: seq<u64>, p: real): u64 {
    if values == [] then 0 else SortBy(U64Less, values)[Rank(|values|, p) - 1]
  }

  /** How many values are at most `v`. */
  function CountAtMost(values: seq<u64>, v: u64): (n: nat)
    ensures n <= |values|
  {
    if values == [] then 0 else CountAtMost(values[1..], v) + if values[0] <= v then 1 else 0
  }

  lemma {:induction false} InsertCounts(x: u64, s: seq<u64>, v: u64)
    ensures CountAtMost(Insert(U64Less, x, s), v) == CountAtMost([x] + s, v)
  {
    assert ([x] + s)[1..] == s;
    if s != [] && U64Less(s[0], x) {
      var r := Insert(U64Less, x, s[1..]);
      assert ([s[0]] + r)[1..] == r;
      InsertCounts(x, s[1..], v);
      assert ([x] + s[1..])[1..] == s[1..];
    }
  }

  /** Counting does not depend on order. */
  lemma {:induction false} SortCounts(s: seq<u64>, v: u64)
    ensures CountAtMost(SortBy(U64Less, s), v) == CountAtMost(s, v)
  {
    if s != [] {
      var r := SortBy(U64Less, s[1..]);
      SortCounts(s[1..], v);
      InsertCounts(s[0], r, v);
      assert ([s[0]] + r)[1..] == r;
    }
  }

  /** In sorted values, position `k` has at least `k + 1` values at or below it, and any smaller
      value has at most `k`. */
  lemma {:induction false} SortedCounts(s: seq<u64>, k: nat, v: u64)
    requires Sorted(U64Less, s) && k < |s|
    ensures CountAtMost(s, s[k]) >= k + 1
    ensures v < s[k] ==> CountAtMost(s, v) <= k
  {
    if k == 0 {
      if v < s[0] { NoneAtMost(s, v); }
    } else {
      SortedCounts(s[1..], k - 1, v);
      assert !U64Less(s[k], s[0]);
    }
  }

  lemma {:induction false} NoneAtMost(s: seq<u64>, v: u64)
    requires Sorted(U64Less, s) && s != [] && v < s[0]
    ensures CountAtMost(s, v) == 0
  {
    if |s| > 1 {
      assert !U64Less(s[1], s[0]);
      NoneAtMost(s[1..], v);
    } else {
      assert s[1..] == [];
    }
  }

  lemma U64LessTotal()
    ensures TotalOrder(U64Less) && WeakOrder(U64Less)
  {
  }

  /** `c` of `n` values are at least `p` percent of them. */
  ghost predicate Enough(n: nat, p: real, c: nat) {
    100.0 * c as real >= p * n as real
  }

  lemma RankIsCeiling(n: nat, p: real, c: nat)
    requires n > 0 && 0.0 < p <= 100.0 && c <= n
    ensures c >= Rank(n, p) <==> Enough(n, p, c)
  {
    var x := p / 100.0 * n as real;
    assert 100.0 * x == p * n as real;
    assert 0.0 < x <= n as real by { Scaled(n, p); }
  }

  lemma Scaled(n: nat, p: real)
    requires n > 0 && 0.0 < p <= 100.0
    ensures 0.0 < p / 100.0 * n as real <= n as real
  {
    var q := p / 100.0;
    var m := n as real;
    assert 0.0 < q <= 1.0;
    assert q * m > 0.0;
    assert (1.0 - q) * m >= 0.0;
  }

  lemma SortedByValue(values: seq<u64>)
    ensures Sorted(U64Less, SortBy(U64Less, values))
    ensures forall x :: x in SortBy(U64Less, values) ==> x in values
  {
    hide SortBy;
    U64LessTotal();
    SortBySorts(U64Less, values);
    assert forall x :: x in SortBy(U64Less, values) ==> x in multiset(SortBy(U64Less, values));
  }

  /** Nearest rank: the result is one of the values, at least p percent of the values are at or
      below it, and it is the least with that property. */
  lemma PercentileIsNearestRank(values: seq<u64>, p: real)
    requires values != [] && 0.0 < p <= 100.0
    ensures var r := Percentile(values, p);
            && r in values
            && Enough(|values|, p, CountAtMost(values, r))
            && forall v: u64 :: v < r ==> !Enough(|values|, p, CountAtMost(values, v))
  {
    hide Rank, Enough, CountAtMost, SortBy, Sorted;
    var s := SortBy(U64Less, values);
    var k := Rank(|values|, p) - 1;
    var r := Percentile(values, p);
    SortedByValue(values);
    assert s[k] in s;
    SortCounts(values, r);
    SortedCounts(s, k, r);
    RankIsCeiling(|values|, p, CountAtMost(values, r));
    forall v: u64 | v < r ensures !Enough(|values|, p, CountAtMost(values, v)) {
      SortCounts(values, v);
      SortedCounts(s, k, v);
      RankIsCeiling(|values|, p, CountAtMost(values, v));
    }
  }

  lemma RankMonotone(n: nat, p: real, q: real)
    requires n > 0 && p <= q
    ensures Rank(n, p) <= Rank(n, q)
  {
    var x, y := p / 100.0 * n as real, q / 100.0 * n as real;
    assert (q / 100.0 - p / 100.0) * n as real >= 0.0;
    assert x <= y;
  }

  lemma SameSorted(values: seq<u64>, other: seq<u64>)
    requires multiset(values) == multiset(other)
    ensures SortBy(U64Less, values) == SortBy(U64Less, other)
  {
    hide SortBy;
    U64LessTotal();
    SortIsTheOnlySorting(U64Less, values, other);
  }

  /** A higher percentile is never a smaller value, and the order of the values does not matter. */
  lemma PercentileMonotone(values: seq<u64>, other: seq<u64>, p: real, q: real)
    requires p <= q && multiset(values) == multiset(other)
    ensures Percentile(values, p) <= Percentile(other, q)
  {
    hide Rank, SortBy, WeakOrder, TotalOrder, TotalOn;
    assert |multiset(values)| == |values| && |multiset(other)| == |other|;
    if values != [] {
      SortedByValue(values);
      SameSorted(values, other);
      RankMonotone(|values|, p, q);
      var s := SortBy(U64Less, values);
      assert !U64Less(s[Rank(|values|, q) - 1], s[Rank(|values|, p) - 1]);
    }
  }

  /** The rank rounds up to a number that its unsigned 64-bit type can hold. */
  predicate RankDefined(n: nat, p: real) {
    n > 0 ==> 0 <= Ceiling(p / 100.0 * n as real) < TWO_64
  }

  lemma PercentsAreDefined(n: nat, p: real)
    requires 0.0 <= p <= 100.0 && n < TWO_64
    ensures RankDefined(n, p)
  {
    if n > 0 && p > 0.0 { Scaled(n, p); }
  }

  method PercentileOf(values: seq<u64>, p: real) returns (r: u64)
    requires RankDefined(|values|, p)
    ensures r == Percentile(values, p)
  {
    if values == [] { return 0; }
    var v := SortBy(U64Less, values);
    var rank := p / 100.0 * |values| as real;
    var idx := Ceiling(rank);
    if idx < 1 { idx := 1; }
    if idx > |v| { idx := |v|; }
    r := v[idx - 1];
  }

  // ------------------------------------------------------------ metrics

  /** Mean and variance are exact; the code reports the square root of the variance. */
  datatype TailMetrics = TailMetrics(
    count: nat, minNs: u64, maxNs: u64,
    p50: u64, p90: u64, p95: u64, p99: u64, p999: u64,
    mean: real, variance: real)

  function Sum(values: seq<u64>): nat {
    if values == [] then 0 else Sum(values[..|values| - 1]) + values[|values| - 1]
  }

  function SquaresAround(values: seq<u64>, m: real): real {
    if values == [] then 0.0
    else
      var d := values[|values| - 1] as real - m;
      SquaresAround(values[..|values| - 1], m) + d * d
  }

  ghost predicate Summarizes(m: TailMetrics, latencies: seq<u64>) {
    && m.count == |latencies|
    && m.p50 == Percentile(latencies, 50.0) && m.p90 == Percentile(latencies, 90.0)
    && m.p95 == Percentile(latencies, 95.0) && m.p99 == Percentile(latencies, 99.0)
    && m.p999 == Percentile(latencies, 99.9)
    && (latencies == [] ==> m.minNs == 0 && m.maxNs == 0 && m.mean == 0.0 && m.variance == 0.0)
    && (latencies != [] ==>
          && m.minNs in latencies && m.maxNs in latencies
          && m.mean == Sum(latencies) as real / |latencies| as real
          && m.variance == SquaresAround(latencies, m.mean) / |latencies| as real)
    && forall l :: l in latencies ==> m.minNs <= l <= m.maxNs
  }

  lemma OneMore(b: nat, n: nat)
    ensures b * (n + 1) == b * n + b
  {
  }

  lemma {:induction false} SumBetween(values: seq<u64>, low: nat, high: nat)
    requires forall v :: v in values ==> low <= v <= high
    ensures low * |values| <= Sum(values) <= high * |values|
  {
    if values != [] {
      var n := |values| - 1;
      var rest := values[..n];
      assert values[n] in values && forall v :: v in rest ==> v in values;
      SumBetween(rest, low, high);
      OneMore(low, n);
      OneMore(high, n);
    }
  }

  /** Scaling by a positive number keeps the sign. */
  lemma SignTimes(d: real, k: real)
    requires k > 0.0
    ensures d >= 0.0 <==> d * k >= 0.0
    ensures d == 0.0 <==> d * k == 0.0
  {
    if d > 0.0 {
      assert d * k > 0.0;
    } else if d < 0.0 {
      assert (-d) * k > 0.0;
      assert d * k == -((-d) * k);
    }
  }

  lemma Quotient(low: nat, sum: nat, high: nat, n: nat)
    requires n > 0 && low * n <= sum <= high * n
    ensures low as real <= sum as real / n as real <= high as real
  {
    var q, k := sum as real / n as real, n as real;
    assert q * k == sum as real;
    assert (low * n) as real == low as real * k && (high * n) as real == high as real * k;
    SignTimes(q - low as real, k);
    SignTimes(high as real - q, k);
    assert (q - low as real) * k == q * k - low as real * k;
    assert (high as real - q) * k == high as real * k - q * k;
  }

  lemma SquareVanishes(d: real)
    ensures d * d >= 0.0 && (d * d == 0.0 <==> d == 0.0)
  {
    if d > 0.0 {
      SignTimes(d, d);
    } else if d < 0.0 {
      SignTimes(-d, -d);
      assert d * d == (-d) * (-d);
    }
  }

  /** Squares vanish exactly when every value is the centre. */
  lemma {:induction false} SquaresVanish(values: seq<u64>, m: real)
    ensures SquaresAround(values, m) >= 0.0
    ensures SquaresAround(values, m) == 0.0 <==> forall v :: v in values ==> v as real == m
  {
    if values != [] {
      var n := |values| - 1;
      SquaresVanish(values[..n], m);
      SquareVanishes(values[n] as real - m);
      assert values[n] in values;
      assert forall v :: v in values <==> v in values[..n] || v == values[n];
    }
  }

  /** The reported figures are in order, the mean lies between the extremes, and the spread vanishes
      exactly when the extremes coincide. */
  lemma MetricsInOrder(m: TailMetrics, latencies: seq<u64>)
    requires Summarizes(m, latencies)
    ensures m.minNs <= m.p50 <= m.p90 <= m.p95 <= m.p99 <= m.p999 <= m.maxNs
    ensures m.minNs as real <= m.mean <= m.maxNs as real
    ensures m.variance >= 0.0 && (m.variance == 0.0 <==> m.minNs == m.maxNs)
  {
    hide Percentile, CountAtMost, Sum, SquaresAround;
    PercentileMonotone(latencies, latencies, 50.0, 90.0);
    PercentileMonotone(latencies, latencies, 90.0, 95.0);
    PercentileMonotone(latencies, latencies, 95.0, 99.0);
    PercentileMonotone(latencies, latencies, 99.0, 99.9);
    if latencies == [] {
      NothingIsZero(50.0);
      NothingIsZero(99.9);
    } else {
      PercentileIsNearestRank(latencies, 50.0);
      PercentileIsNearestRank(latencies, 99.9);
      SpreadInOrder(m, latencies);
    }
  }

  lemma SpreadInOrder(m: TailMetrics, latencies: seq<u64>)
    requires latencies != [] && Summarizes(m, latencies)
    ensures m.minNs as real <= m.mean <= m.maxNs as real
    ensures m.variance >= 0.0 && (m.variance == 0.0 <==> m.minNs == m.maxNs)
  {
    hide Percentile, Sum, SquaresAround;
    SumBetween(latencies, m.minNs, m.maxNs);
    Quotient(m.minNs, Sum(latencies), m.maxNs, |latencies|);
    SquaresVanish(latencies, m.mean);
    ShareVanishes(SquaresAround(latencies, m.mean), |latencies|);
  }

  lemma ShareVanishes(x: real, n: nat)
    requires x >= 0.0 && n > 0
    ensures x / n as real >= 0.0 && (x / n as real == 0.0 <==> x == 0.0)
  {
    var q := x / n as real;
    assert q * n as real == x;
    SignTimes(q, n as real);
  }

  lemma NothingIsZero(p: real)
    ensures Percentile([], p) == 0
  {
  }

  method Extremes(latencies: seq<u64>) returns (low: u64, high: u64)
    requires latencies != []
    ensures low in latencies && high in latencies && forall l :: l in latencies ==> low <= l <= high
  {
    low, high := latencies[0], latencies[0];
    for i := 1 to |latencies|
      invariant low in latencies && high in latencies
      invariant forall k :: 0 <= k < i ==> low <= latencies[k] <= high
    {
      if latencies[i] < low { low := latencies[i]; }
      if latencies[i] > high { high := latencies[i]; }
    }
  }

  method MeanOf(latencies: seq<u64>) returns (m: real)
    requires latencies != []
    ensures m == Sum(latencies) as real / |latencies| as real
  {
    var sum := 0.0;
    for i := 0 to |latencies|
      invariant sum == Sum(latencies[..i]) as real
    {
      assert latencies[..i + 1][..i] == latencies[..i];
      sum := sum + latencies[i] as real;
    }
    assert latencies[..|latencies|] == latencies;
    m := sum / |latencies| as real;
  }

  method VarianceOf(latencies: seq<u64>, m: real) returns (v: real)
    requires latencies != []
    ensures v == SquaresAround(latencies, m) / |latencies| as real
  {
    var ss := 0.0;
    for i := 0 to |latencies|
      invariant ss == SquaresAround(latencies[..i], m)
    {
      assert latencies[..i + 1][..i] == latencies[..i];
      var d := latencies[i] as real - m;
      ss := ss + d * d;
    }
    assert latencies[..|latencies|] == latencies;
    v := ss / |latencies| as real;
  }

  method TailMetricsOf(latencies: seq<u64>) returns (m: TailMetrics)
    requires |latencies| < TWO_64
    ensures Summarizes(m, latencies)
  {
    hide Percentile, RankDefined, Sum, SquaresAround;
    PercentsAreDefined(|latencies|, 50.0);
    PercentsAreDefined(|latencies|, 90.0);
    PercentsAreDefined(|latencies|, 95.0);
    PercentsAreDefined(|latencies|, 99.0);
    PercentsAreDefined(|latencies|, 99.9);
    if latencies == [] {
      NothingIsZero(50.0);
      NothingIsZero(90.0);
      NothingIsZero(95.0);
      NothingIsZero(99.0);
      NothingIsZero(99.9);
      return TailMetrics(0, 0, 0, 0, 0, 0, 0, 0, 0.0, 0.0);
    }
    var low, high := Extremes(latencies);
    var p50 := PercentileOf(latencies, 50.0);
    var p90 := PercentileOf(latencies, 90.0);
    var p95 := PercentileOf(latencies, 95.0);
    var p99 := PercentileOf(latencies, 99.0);
    var p999 := PercentileOf(latencies, 99.9);
    var mean := MeanOf(latencies);
    var variance := VarianceOf(latencies, mean);
    m := TailMetrics(|latencies|, low, high, p50, p90, p95, p99, p999, mean, variance);
  }
}
