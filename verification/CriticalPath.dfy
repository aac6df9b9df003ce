/** The critical path of src/latency.cpp:116-147: the heaviest chain of non-overlapping intervals by
    dynamic programming over the (start, end, index) order, walked back along predecessors. */
module CriticalPath {
  import opened Types
  import opened Ordering
  import opened Observations
  import opened Traces
  import opened Sweep

  // ------------------------------------------------------------ what is optimized

  ghost predicate Indices(ivs: seq<Interval>, S: set<nat>) {
    forall x :: x in S ==> x < |ivs|
  }

  predicate Apart(a: Interval, b: Interval) {
    a.e <= b.s || b.e <= a.s
  }

  ghost predicate NonOverlapping(ivs: seq<Interval>, S: set<nat>) {
    Indices(ivs, S) && forall x, y :: x in S && y in S && x != y ==> Apart(ivs[x], ivs[y])
  }

  ghost predicate AllPositive(ivs: seq<Interval>, S: set<nat>)
    requires Indices(ivs, S)
  {
    forall x :: x in S ==> Duration(ivs[x]) > 0
  }

  ghost function SumOf(ivs: seq<Interval>, S: set<nat>): nat
    requires Indices(ivs, S)
  {
    if S == {} then 0
    else
      var x :| x in S;
      Duration(ivs[x]) + SumOf(ivs, S - {x})
  }

  /** Non-overlapping, no empty or inverted interval, and no non-overlapping set is heavier. */
  ghost predicate IsCriticalPath(ivs: seq<Interval>, M: set<nat>) {
    && NonOverlapping(ivs, M) && AllPositive(ivs, M)
    && forall S :: NonOverlapping(ivs, S) ==> SumOf(ivs, S) <= SumOf(ivs, M)
  }

  lemma {:induction false} SumRemove(ivs: seq<Interval>, S: set<nat>, x: nat)
    requires Indices(ivs, S) && x in S
    ensures SumOf(ivs, S) == Duration(ivs[x]) + SumOf(ivs, S - {x})
    decreases |S|
  {
    var y :| y in S && SumOf(ivs, S) == Duration(ivs[y]) + SumOf(ivs, S - {y});
    if y != x {
      SumRemove(ivs, S - {y}, x);
      SumRemove(ivs, S - {x}, y);
      assert S - {y} - {x} == S - {x} - {y};
    }
  }

  lemma {:induction false} SumPositivePart(ivs: seq<Interval>, S: set<nat>)
    requires Indices(ivs, S)
    ensures SumOf(ivs, S) == SumOf(ivs, set x | x in S && Duration(ivs[x]) > 0)
    decreases |S|
  {
    var P := set x | x in S && Duration(ivs[x]) > 0;
    if P != S {
      var z :| z in S && z !in P;
      SumRemove(ivs, S, z);
      SumPositivePart(ivs, S - {z});
      assert P == set x | x in S - {z} && Duration(ivs[x]) > 0;
    }
  }

  // ------------------------------------------------------------ the processing order

  function At(ivs: seq<Interval>, i: nat): Interval {
    if i < |ivs| then ivs[i] else Interval(TOTAL, 0, 0, PROVENANCE_UNKNOWN)
  }

  /** The index comparator: start, then end, then index. */
  function IndexLess(ivs: seq<Interval>): (nat, nat) -> bool {
    (a: nat, b: nat) =>
      if At(ivs, a).s != At(ivs, b).s then At(ivs, a).s < At(ivs, b).s
      else if At(ivs, a).e != At(ivs, b).e then At(ivs, a).e < At(ivs, b).e
      else a < b
  }

  lemma IndexLessTotal(ivs: seq<Interval>)
    ensures TotalOrder(IndexLess(ivs))
  {
  }

  /** An arrangement of all indices by start time. */
  ghost predicate IsOrder(ivs: seq<Interval>, order: seq<nat>) {
    && |order| == |ivs|
    && (forall p :: 0 <= p < |order| ==> order[p] < |ivs|)
    && (forall p, q :: 0 <= p < q < |order| ==> order[p] != order[q])
    && (forall i :: 0 <= i < |ivs| ==> i in order)
    && (forall p, q :: 0 <= p < q < |order| ==> At(ivs, order[p]).s <= At(ivs, order[q]).s)
  }

  method SortIndices(ivs: seq<Interval>) returns (order: seq<nat>)
    ensures IsOrder(ivs, order)
  {
    var all: seq<nat> := seq(|ivs|, i requires 0 <= i < |ivs| => i as nat);
    var less := IndexLess(ivs);
    order := SortBy(less, all);
    IndexLessTotal(ivs);
    TotalOrderIsWeak(less);
    SortBySorts(less, all);
    IndicesSorted(ivs, all, order);
  }

  lemma IndicesSorted(ivs: seq<Interval>, all: seq<nat>, order: seq<nat>)
    requires |all| == |ivs| && forall i :: 0 <= i < |all| ==> all[i] == i
    requires multiset(order) == multiset(all) && |order| == |all| && Sorted(IndexLess(ivs), order)
    ensures IsOrder(ivs, order)
  {
    var S := set x | x in all;
    DistinctMultiset(all, S);
    DistinctFromSet(S, order);
    forall x ensures x in order <==> x in all {
      assert x in multiset(order) <==> x in multiset(all);
    }
    forall p | 0 <= p < |order| ensures order[p] < |ivs| {
      assert order[p] in order;
    }
    forall i | 0 <= i < |ivs| ensures i in order {
      assert all[i] in all;
    }
    forall p, q | 0 <= p < q < |order| ensures At(ivs, order[p]).s <= At(ivs, order[q]).s {
      assert !IndexLess(ivs)(order[q], order[p]);
    }
  }

  // ------------------------------------------------------------ the table

  ghost predicate Eligible(ivs: seq<Interval>, j: nat, i: nat)
    requires i < |ivs| && j < |ivs|
  {
    ivs[j].e <= ivs[i].s
  }

  /** Entry `p` of the table: its chain weight is its own duration on top of its predecessor's
      chain, the predecessor is an earlier eligible interval of positive duration, and no eligible
      earlier chain is heavier. */
  ghost predicate Entry(ivs: seq<Interval>, order: seq<nat>, chain: seq<nat>, pred: seq<int>, p: nat)
    requires IsOrder(ivs, order) && |chain| == |pred| == |ivs| && p < |ivs|
  {
    var i := order[p];
    && (pred[i] < 0 ==> pred[i] == -1 && chain[i] == Duration(ivs[i]))
    && (pred[i] >= 0 ==>
          exists q :: 0 <= q < p && order[q] == pred[i] && Eligible(ivs, order[q], i)
                      && Duration(ivs[order[q]]) > 0 && chain[i] == chain[order[q]] + Duration(ivs[i]))
    && (forall q :: 0 <= q < p && Eligible(ivs, order[q], i) ==> chain[order[q]] + Duration(ivs[i]) <= chain[i])
  }

  ghost predicate Table(ivs: seq<Interval>, order: seq<nat>, chain: seq<nat>, pred: seq<int>, n: nat) {
    && IsOrder(ivs, order) && |chain| == |pred| == |ivs| && n <= |ivs|
    && forall p :: 0 <= p < n ==> Entry(ivs, order, chain, pred, p)
  }

  /** The best eligible chain among the first `m` positions, as the inner loop tracks it. */
  ghost predicate BestBefore(ivs: seq<Interval>, order: seq<nat>, chain: seq<nat>, i: nat, m: nat, weight: nat,
          best: int)
    requires IsOrder(ivs, order) && |chain| == |ivs| && m <= |ivs| && i < |ivs|
  {
    && (best < 0 ==> best == -1 && weight == 0)
    && (best >= 0 ==> exists q :: 0 <= q < m && order[q] == best && Eligible(ivs, order[q], i)
                                  && Duration(ivs[order[q]]) > 0 && weight == chain[order[q]])
    && (forall q :: 0 <= q < m && Eligible(ivs, order[q], i) ==> chain[order[q]] <= weight)
  }

  /** A strictly heavier eligible chain cannot end in an empty interval: its predecessor would have
      been as heavy, eligible and scanned before. */
  lemma HeavierIsPositive(ivs: seq<Interval>, order: seq<nat>, chain: seq<nat>, pred: seq<int>,
                          p: nat, m: nat, weight: nat, best: int)
    requires Table(ivs, order, chain, pred, p) && m < p < |ivs|
    requires BestBefore(ivs, order, chain, order[p], m, weight, best)
    requires Eligible(ivs, order[m], order[p]) && chain[order[m]] > weight
    ensures Duration(ivs[order[m]]) > 0
  {
    assert Entry(ivs, order, chain, pred, m);
    assert At(ivs, order[m]).s <= At(ivs, order[p]).s;
    assert forall q :: 0 <= q < m && Eligible(ivs, order[q], order[m]) ==> Eligible(ivs, order[q], order[p]);
  }

  lemma TableExtends(ivs: seq<Interval>, order: seq<nat>, chain: seq<nat>, pred: seq<int>, p: nat, weight: nat,
          best: int)
    requires Table(ivs, order, chain, pred, p) && p < |ivs|
    requires BestBefore(ivs, order, chain, order[p], p, weight, best)
    ensures var i := order[p];
            Table(ivs, order, chain[i := weight + Duration(ivs[i])], pred[i := best], p + 1)
  {
    var i := order[p];
    var chain', pred' := chain[i := weight + Duration(ivs[i])], pred[i := best];
    assert forall q :: 0 <= q < p ==>
                         && order[q] != i && chain'[order[q]] == chain[order[q]]
                         && pred'[order[q]] == pred[order[q]];
    forall q | 0 <= q < p ensures Entry(ivs, order, chain', pred', q) {
      assert Entry(ivs, order, chain, pred, q);
    }
    assert Entry(ivs, order, chain', pred', p);
  }

  // ------------------------------------------------------------ optimality

  lemma {:induction false} LastPosition(ivs: seq<Interval>, order: seq<nat>, S: set<nat>, n: nat) returns (p: nat)
    requires IsOrder(ivs, order) && n <= |order| && S != {}
    requires forall x :: x in S ==> exists q :: 0 <= q < n && order[q] == x
    ensures p < n && order[p] in S
    ensures forall x :: x in S && x != order[p] ==> exists q :: 0 <= q < p && order[q] == x
  {
    if order[n - 1] in S {
      p := n - 1;
      forall x | x in S && x != order[p] ensures exists q :: 0 <= q < p && order[q] == x {
        var q :| 0 <= q < n && order[q] == x;
        assert q < p;
      }
    } else {
      forall x | x in S ensures exists q :: 0 <= q < n - 1 && order[q] == x {
        var q :| 0 <= q < n && order[q] == x;
        assert q < n - 1;
      }
      p := LastPosition(ivs, order, S, n - 1);
    }
  }

  /** In a non-overlapping set of positive intervals the later starter begins after the other ends. */
  lemma EarlierEndsFirst(a: Interval, b: Interval)
    requires Apart(a, b) && a.s <= b.s && Duration(a) > 0 && Duration(b) > 0
    ensures a.e <= b.s
  {
  }

  /** No non-overlapping set of positive intervals outweighs the chain at its last position. */
  lemma {:induction false} ChainBounds(ivs: seq<Interval>, order: seq<nat>, chain: seq<nat>, pred: seq<int>,
          S: set<nat>, p: nat)
    requires Table(ivs, order, chain, pred, |ivs|) && p < |ivs|
    requires NonOverlapping(ivs, S) && AllPositive(ivs, S) && order[p] in S
    requires forall x :: x in S && x != order[p] ==> exists q :: 0 <= q < p && order[q] == x
    ensures SumOf(ivs, S) <= chain[order[p]]
    decreases p
  {
    hide SumOf;
    var i := order[p];
    var R := S - {i};
    assert Entry(ivs, order, chain, pred, p);
    SumRemove(ivs, S, i);
    if R == {} {
      SumEmpty(ivs);
    } else {
      var q := LastPosition(ivs, order, R, p);
      ChainBounds(ivs, order, chain, pred, R, q);
      assert At(ivs, order[q]).s <= At(ivs, order[p]).s;
      EarlierEndsFirst(ivs[order[q]], ivs[i]);
      assert Eligible(ivs, order[q], i);
    }
  }

  lemma SumEmpty(ivs: seq<Interval>)
    ensures SumOf(ivs, {}) == 0
  {
  }

  lemma AnySetBounded(ivs: seq<Interval>, order: seq<nat>, chain: seq<nat>, pred: seq<int>, S: set<nat>, best: nat)
    requires Table(ivs, order, chain, pred, |ivs|) && NonOverlapping(ivs, S)
    requires forall p :: 0 <= p < |ivs| ==> chain[order[p]] <= best
    ensures SumOf(ivs, S) <= best
  {
    hide Entry, SumOf;
    var P := set x | x in S && Duration(ivs[x]) > 0;
    SumPositivePart(ivs, S);
    if P == {} {
      SumEmpty(ivs);
    } else {
      forall x | x in P ensures exists q :: 0 <= q < |ivs| && order[q] == x {
        assert x in order;
      }
      var p := LastPosition(ivs, order, P, |ivs|);
      ChainBounds(ivs, order, chain, pred, P, p);
    }
  }

  // ------------------------------------------------------------ the walk back

  /** The indices met when walking back from position `p`; positions only decrease. */
  ghost function PathFrom(ivs: seq<Interval>, order: seq<nat>, chain: seq<nat>, pred: seq<int>, p: nat): set<nat>
    requires Table(ivs, order, chain, pred, |ivs|) && p < |ivs|
  {
    var i := order[p];
    assert Entry(ivs, order, chain, pred, p);
    if pred[i] < 0 then {i}
    else
      var q :| 0 <= q < p && order[q] == pred[i];
      {i} + PathFrom(ivs, order, chain, pred, q)
  }

  lemma {:induction false} PathIsChain(ivs: seq<Interval>, order: seq<nat>, chain: seq<nat>, pred: seq<int>, p: nat)
    requires Table(ivs, order, chain, pred, |ivs|) && p < |ivs| && Duration(ivs[order[p]]) > 0
    ensures var S := PathFrom(ivs, order, chain, pred, p);
            && order[p] in S && NonOverlapping(ivs, S) && AllPositive(ivs, S)
            && SumOf(ivs, S) == chain[order[p]]
            && forall x :: x in S && x != order[p] ==> ivs[x].e <= ivs[order[p]].s
    decreases p
  {
    hide SumOf;
    var i := order[p];
    assert Entry(ivs, order, chain, pred, p);
    SumEmpty(ivs);
    if pred[i] < 0 {
      SumRemove(ivs, {i}, i);
      assert {i} - {i} == {};
    } else {
      var q :| 0 <= q < p && order[q] == pred[i]
          && PathFrom(ivs, order, chain, pred, p) == {i} + PathFrom(ivs, order, chain, pred, q);
      var R := PathFrom(ivs, order, chain, pred, q);
      PathIsChain(ivs, order, chain, pred, q);
      assert Eligible(ivs, order[q], i);
      assert forall x :: x in R ==> ivs[x].e <= ivs[i].s;
      assert i !in R;
      SumRemove(ivs, {i} + R, i);
      assert {i} + R - {i} == R;
    }
  }

  function Marked(marks: seq<bool>): set<nat> {
    set i: nat | i < |marks| && marks[i]
  }

  method WalkBack(ivs: seq<Interval>, order: seq<nat>, chain: seq<nat>, pred: seq<int>, start: nat, ghost p0: nat)
    returns (marks: seq<bool>)
    requires Table(ivs, order, chain, pred, |ivs|) && p0 < |ivs| && order[p0] == start
    ensures |marks| == |ivs| && Marked(marks) == PathFrom(ivs, order, chain, pred, p0)
  {
    marks := seq(|ivs|, _ => false);
    var cur: int := start;
    ghost var p: nat := p0;
    assert Marked(marks) == {} && |order| == |ivs|;
    while cur >= 0
      invariant |marks| == |ivs| && -1 <= cur < |ivs|
      invariant cur >= 0 ==> p < |ivs| && order[p] == cur
      invariant Marked(marks) + (if cur >= 0 then PathFrom(ivs, order, chain, pred, p) else {})
             == PathFrom(ivs, order, chain, pred, p0)
      decreases if cur >= 0 then p + 1 else 0
    {
      assert Entry(ivs, order, chain, pred, p);
      ghost var before := Marked(marks);
      marks := marks[cur := true];
      assert Marked(marks) == before + {cur as nat};
      if pred[cur] >= 0 {
        ghost var q :| 0 <= q < p && order[q] == pred[cur]
                       && PathFrom(ivs, order, chain, pred, p) == {cur as nat} + PathFrom(ivs, order, chain, pred, q);
        p := q;
      }
      cur := pred[cur];
    }
  }

  // ------------------------------------------------------------ filling the table

  ghost predicate BestOverall(ivs: seq<Interval>, order: seq<nat>, chain: seq<nat>, n: nat, best: nat, idx: int)
    requires IsOrder(ivs, order) && |chain| == |ivs| && n <= |ivs|
  {
    && (idx < 0 ==> idx == -1 && best == 0)
    && (idx >= 0 ==>
          exists q :: 0 <= q < n && order[q] == idx && Duration(ivs[order[q]]) > 0 && best == chain[order[q]])
    && (forall q :: 0 <= q < n ==> chain[order[q]] <= best)
  }

  lemma BestExtends(ivs: seq<Interval>, order: seq<nat>, chain: seq<nat>, pred: seq<int>, chain': seq<nat>,
                    n: nat, best: nat, idx: int)
    requires n < |ivs| && IsOrder(ivs, order) && |chain| == |ivs|
    requires BestOverall(ivs, order, chain, n, best, idx)
    requires Table(ivs, order, chain', pred, n + 1) && chain' == chain[order[n] := chain'[order[n]]]
    ensures var i := order[n];
            if chain'[i] > best then BestOverall(ivs, order, chain', n + 1, chain'[i], i)
            else BestOverall(ivs, order, chain', n + 1, best, idx)
  {
    var i := order[n];
    assert forall q :: 0 <= q < n ==> order[q] != i && chain'[order[q]] == chain[order[q]];
    assert Entry(ivs, order, chain', pred, n);
    assert order[n] == i;
  }

  method BestPredecessor(ivs: seq<Interval>, order: seq<nat>, chain: seq<nat>, ghost pred: seq<int>, oi: nat)
    returns (weight: nat, best: int)
    requires Table(ivs, order, chain, pred, oi) && oi < |ivs|
    ensures BestBefore(ivs, order, chain, order[oi], oi, weight, best)
  {
    hide Entry;
    var i := order[oi];
    weight, best := 0, -1;
    for oj := 0 to oi
      invariant BestBefore(ivs, order, chain, i, oj, weight, best)
    {
      var j := order[oj];
      if ivs[j].e <= ivs[i].s && chain[j] > weight {
        HeavierIsPositive(ivs, order, chain, pred, oi, oj, weight, best);
        weight, best := chain[j], j;
        assert order[oj] == best;
      }
    }
  }

  method FillTable(ivs: seq<Interval>, order: seq<nat>)
    returns (chain: seq<nat>, pred: seq<int>, best: nat, idx: int)
    requires IsOrder(ivs, order)
    ensures Table(ivs, order, chain, pred, |ivs|)
    ensures BestOverall(ivs, order, chain, |ivs|, best, idx)
  {
    hide Entry, BestBefore, BestOverall;
    chain, pred := seq(|ivs|, _ => 0), seq(|ivs|, _ => -1);
    best, idx := 0, -1;
    NothingBest(ivs, order, chain);
    for oi := 0 to |ivs|
      invariant Table(ivs, order, chain, pred, oi)
      invariant BestOverall(ivs, order, chain, oi, best, idx)
    {
      var i := order[oi];
      var weight, before := BestPredecessor(ivs, order, chain, pred, oi);
      TableExtends(ivs, order, chain, pred, oi, weight, before);
      ghost var previous := chain;
      chain := chain[i := weight + Duration(ivs[i])];
      pred := pred[i := before];
      BestExtends(ivs, order, previous, pred, chain, oi, best, idx);
      if chain[i] > best { best, idx := chain[i], i; }
    }
  }

  lemma NothingBest(ivs: seq<Interval>, order: seq<nat>, chain: seq<nat>)
    requires IsOrder(ivs, order) && |chain| == |ivs|
    ensures BestOverall(ivs, order, chain, 0, 0, -1)
  {
  }

  lemma PathIsCritical(ivs: seq<Interval>, order: seq<nat>, chain: seq<nat>, pred: seq<int>, p: nat)
    requires Table(ivs, order, chain, pred, |ivs|) && p < |ivs| && Duration(ivs[order[p]]) > 0
    requires forall q :: 0 <= q < |ivs| ==> chain[order[q]] <= chain[order[p]]
    ensures IsCriticalPath(ivs, PathFrom(ivs, order, chain, pred, p))
  {
    hide Entry, SumOf, PathFrom;
    PathIsChain(ivs, order, chain, pred, p);
    forall S | NonOverlapping(ivs, S) ensures SumOf(ivs, S) <= chain[order[p]] {
      AnySetBounded(ivs, order, chain, pred, S, chain[order[p]]);
    }
  }

  lemma EmptyIsCritical(ivs: seq<Interval>, order: seq<nat>, chain: seq<nat>, pred: seq<int>)
    requires Table(ivs, order, chain, pred, |ivs|)
    requires forall q :: 0 <= q < |ivs| ==> chain[order[q]] <= 0
    ensures IsCriticalPath(ivs, {})
  {
    hide Entry, SumOf;
    SumEmpty(ivs);
    forall S | NonOverlapping(ivs, S) ensures SumOf(ivs, S) <= 0 {
      AnySetBounded(ivs, order, chain, pred, S, 0);
    }
  }

  /** The marked components form a heaviest chain of non-overlapping intervals. */
  method MarkCriticalPath(ivs: seq<Interval>) returns (marks: seq<bool>)
    ensures |marks| == |ivs| && IsCriticalPath(ivs, Marked(marks))
  {
    hide Entry, IsCriticalPath;
    marks := seq(|ivs|, _ => false);
    var order := SortIndices(ivs);
    var chain, pred, best, idx := FillTable(ivs, order);
    if idx >= 0 {
      ghost var p: nat :| p < |ivs| && order[p] == idx && Duration(ivs[order[p]]) > 0 && best == chain[order[p]];
      marks := WalkBack(ivs, order, chain, pred, idx, p);
      PathIsCritical(ivs, order, chain, pred, p);
    } else {
      EmptyIsCritical(ivs, order, chain, pred);
      assert Marked(marks) == {};
    }
  }

  // ------------------------------------------------------------ weight against covered time

  ghost predicate CoveredBy(ivs: seq<Interval>, S: set<nat>, t: int) {
    exists x :: x in S && x < |ivs| && Covers(ivs[x], t)
  }

  ghost function UnionOf(ivs: seq<Interval>, S: set<nat>): int -> bool {
    t => CoveredBy(ivs, S, t)
  }

  lemma DurationIsMeasure(iv: Interval)
    ensures Measure(t => Covers(iv, t)) == Duration(iv)
  {
    var p := t => Covers(iv, t);
    var hi := if iv.s <= iv.e then iv.e else iv.s;
    CountOutside(p, iv.s, hi);
    if iv.s <= iv.e {
      CountConstant(p, true, iv.s, iv.e);
    }
  }

  /** The total duration of non-overlapping intervals is the measure of their union. */
  lemma {:induction false} SumIsMeasure(ivs: seq<Interval>, S: set<nat>)
    requires NonOverlapping(ivs, S)
    ensures SumOf(ivs, S) == Measure(UnionOf(ivs, S))
    decreases |S|
  {
    hide CountIf;
    if S == {} {
      CountConstant(UnionOf(ivs, S), false, 0, TWO_64);
    } else {
      var x :| x in S;
      var R := S - {x};
      hide SumOf;
      SumRemove(ivs, S, x);
      SumIsMeasure(ivs, R);
      DurationIsMeasure(ivs[x]);
      var p, q, r := t => Covers(ivs[x], t), UnionOf(ivs, R), UnionOf(ivs, S);
      assert S == R + {x} && forall y :: y in R ==> Apart(ivs[x], ivs[y]);
      assert forall t :: (r(t) <==> p(t) || q(t)) && !(p(t) && q(t));
      CountDisjoint(p, q, r, 0, TWO_64);
    }
  }

  /** A non-overlapping set weighs at most the covered time, which fits in 64 bits. */
  lemma WeightWithinCovered(ivs: seq<Interval>, S: set<nat>)
    requires NonOverlapping(ivs, S)
    ensures SumOf(ivs, S) <= Measure(UnionAt(ivs, -1)) < TWO_64
  {
    hide CountIf, SumOf;
    SumIsMeasure(ivs, S);
    forall t | UnionOf(ivs, S)(t) ensures UnionAt(ivs, -1)(t) {
      var x :| x in S && x < |ivs| && Covers(ivs[x], t);
      AnyPriority(ivs[x].phase);
    }
    CountMonotone(UnionOf(ivs, S), UnionAt(ivs, -1), 0, TWO_64);
    CoveredFits(ivs);
  }

  /** No instant at or above the largest timestamp is covered. */
  lemma CoveredFits(ivs: seq<Interval>)
    ensures Measure(UnionAt(ivs, -1)) < TWO_64
  {
    var p := UnionAt(ivs, -1);
    CountSplit(p, 0, TWO_64 - 1, TWO_64);
    CountConstant(p, false, TWO_64 - 1, TWO_64);
  }

  /** No chain weight in the table exceeds 64 bits, so the accumulators never wrap. */
  lemma {:induction false} ChainsFit(ivs: seq<Interval>, order: seq<nat>, chain: seq<nat>, pred: seq<int>, p: nat)
    requires Table(ivs, order, chain, pred, |ivs|) && p < |ivs|
    ensures chain[order[p]] < TWO_64
    decreases p
  {
    hide SumOf, PathFrom;
    var i := order[p];
    if Duration(ivs[i]) > 0 {
      PathIsChain(ivs, order, chain, pred, p);
      WeightWithinCovered(ivs, PathFrom(ivs, order, chain, pred, p));
    } else {
      assert Entry(ivs, order, chain, pred, p);
      if pred[i] >= 0 {
        var q :| 0 <= q < p && order[q] == pred[i] && chain[i] == chain[order[q]] + Duration(ivs[i]);
        ChainsFit(ivs, order, chain, pred, q);
      }
    }
  }
}
