/** The exclusive sweep of src/latency.cpp:14-35 and 65-110: elapsed time is awarded, instant by
    instant, to the covering phase of highest priority. */
module Sweep {
  import opened Types
  import opened Ordering
  import opened Observations
  import opened Traces

  datatype Interval = Interval(phase: Phase, s: u64, e: u64, provenance: Provenance)

  /** Overlap priority; the order of phases with SPECULATION below PREFILL. */
  function Priority(p: Phase): int {
    match p
    case 6 => 7
    case 7 => 8
    case 8 => 9
    case 9 => 6
    case 13 => -1
    case _ => p
  }

  lemma PriorityInjective(p: Phase, q: Phase)
    requires Priority(p) == Priority(q)
    ensures p == q
  {
  }

  /** Which of two phases wins an instant that both cover: the later one in declaration order, except
      that SPECULATION comes right below PREFILL. */
  predicate Outranks(p: Phase, q: Phase) {
    if p == SPECULATION then q < PREFILL
    else if q == SPECULATION then p >= PREFILL
    else p > q
  }

  /** The priorities order the phases that way, TOTAL below all of them; so the execution phases outrank
      admission, queueing, batching, dispatch and transfer. */
  lemma PriorityIsRank(p: Phase, q: Phase)
    requires p != TOTAL
    ensures q != TOTAL ==> (Priority(p) > Priority(q) <==> Outranks(p, q))
    ensures Priority(p) > Priority(TOTAL)
    ensures (p in {PREFILL, FIRST_TOKEN, DECODE, SPECULATION} && q <= TRANSFER) ==> Priority(p) > Priority(q)
  {
  }

  /** TOTAL never takes part in the sweep. */
  ghost predicate NoTotal(ivs: seq<Interval>) {
    forall i :: 0 <= i < |ivs| ==> ivs[i].phase != TOTAL
  }

  predicate Covers(iv: Interval, t: int) {
    iv.s <= t < iv.e
  }

  function Duration(iv: Interval): (d: u64) {
    if iv.e >= iv.s then iv.e - iv.s else 0
  }

  /** Interval `i` owns instant `t`: it covers it, every other covering interval has lower priority,
      or the same and a later place. */
  ghost predicate Owns(ivs: seq<Interval>, i: int, t: int) {
    && 0 <= i < |ivs| && Covers(ivs[i], t)
    && forall j :: 0 <= j < |ivs| && j != i && Covers(ivs[j], t) ==>
         Priority(ivs[j].phase) < Priority(ivs[i].phase)
         || (Priority(ivs[j].phase) == Priority(ivs[i].phase) && i < j)
  }

  // ------------------------------------------------------------ measuring sets of instants

  ghost function CountIf(p: int -> bool, lo: int, hi: int): (n: nat)
    ensures lo <= hi ==> n <= hi - lo
    ensures hi < lo ==> n == 0
    decreases hi - lo
  {
    if hi <= lo then 0 else CountIf(p, lo, hi - 1) + if p(hi - 1) then 1 else 0
  }

  lemma {:induction false} CountSplit(p: int -> bool, lo: int, mid: int, hi: int)
    requires lo <= mid <= hi
    ensures CountIf(p, lo, hi) == CountIf(p, lo, mid) + CountIf(p, mid, hi)
    decreases hi - mid
  {
    if mid < hi { CountSplit(p, lo, mid, hi - 1); }
  }

  lemma {:induction false} CountSame(p: int -> bool, q: int -> bool, lo: int, hi: int)
    requires forall t :: lo <= t < hi ==> p(t) == q(t)
    ensures CountIf(p, lo, hi) == CountIf(q, lo, hi)
    decreases hi - lo
  {
    if lo < hi { CountSame(p, q, lo, hi - 1); }
  }

  lemma {:induction false} CountConstant(p: int -> bool, b: bool, lo: int, hi: int)
    requires lo <= hi && forall t :: lo <= t < hi ==> p(t) == b
    ensures CountIf(p, lo, hi) == if b then hi - lo else 0
    decreases hi - lo
  {
    if lo < hi { CountConstant(p, b, lo, hi - 1); }
  }

  lemma {:induction false} CountDisjoint(p: int -> bool, q: int -> bool, r: int -> bool, lo: int, hi: int)
    requires forall t :: lo <= t < hi ==> (r(t) <==> p(t) || q(t)) && !(p(t) && q(t))
    ensures CountIf(r, lo, hi) == CountIf(p, lo, hi) + CountIf(q, lo, hi)
    decreases hi - lo
  {
    if lo < hi { CountDisjoint(p, q, r, lo, hi - 1); }
  }

  lemma {:induction false} CountMonotone(p: int -> bool, q: int -> bool, lo: int, hi: int)
    requires forall t :: lo <= t < hi && p(t) ==> q(t)
    ensures CountIf(p, lo, hi) <= CountIf(q, lo, hi)
    decreases hi - lo
  {
    if lo < hi { CountMonotone(p, q, lo, hi - 1); }
  }

  /** CountIf is the cardinality of the set of instants. */
  lemma {:induction false} CountIsCardinality(p: int -> bool, lo: int, hi: int)
    ensures CountIf(p, lo, hi) == |set t | lo <= t < hi && p(t)|
    decreases hi - lo
  {
    if hi <= lo {
      assert (set t | lo <= t < hi && p(t)) == {};
    } else {
      CountIsCardinality(p, lo, hi - 1);
      var small := set t | lo <= t < hi - 1 && p(t);
      var all := set t | lo <= t < hi && p(t);
      assert all == if p(hi - 1) then small + {hi - 1} else small;
    }
  }

  /** The instants of the clock: timestamps are 64-bit nanoseconds. */
  ghost function Measure(p: int -> bool): (n: nat)
    ensures n <= TWO_64
  {
    CountIf(p, 0, TWO_64)
  }

  ghost function OwnedBy(ivs: seq<Interval>, i: int): int -> bool {
    t => Owns(ivs, i, t)
  }

  ghost predicate CoveredAtLevel(ivs: seq<Interval>, level: int, t: int) {
    exists i :: 0 <= i < |ivs| && Priority(ivs[i].phase) >= level && Covers(ivs[i], t)
  }

  /** The union of the intervals of priority `level` or above. */
  ghost function UnionAt(ivs: seq<Interval>, level: int): int -> bool {
    t => CoveredAtLevel(ivs, level, t)
  }

  // ------------------------------------------------------------ the winner of an instant

  /** The scan for the covering interval of highest priority among the first `n`. */
  function Winner(ivs: seq<Interval>, n: nat, t: int): (w: int)
    requires n <= |ivs|
    ensures -1 <= w < n
    ensures w >= 0 ==> Covers(ivs[w], t)
  {
    if n == 0 then -1
    else
      var w, i := Winner(ivs, n - 1, t), n - 1;
      if Covers(ivs[i], t)
         && (w < 0 || Priority(ivs[i].phase) > Priority(ivs[w].phase)
             || (Priority(ivs[i].phase) == Priority(ivs[w].phase) && ivs[i].phase < ivs[w].phase))
      then i else w
  }

  lemma {:induction false} WinnerBeats(ivs: seq<Interval>, n: nat, t: int)
    requires n <= |ivs|
    ensures var w := Winner(ivs, n, t);
            && (w < 0 ==> forall j :: 0 <= j < n ==> !Covers(ivs[j], t))
            && (w >= 0 ==> forall j :: 0 <= j < n && j != w && Covers(ivs[j], t) ==>
                  Priority(ivs[j].phase) < Priority(ivs[w].phase)
                  || (Priority(ivs[j].phase) == Priority(ivs[w].phase) && w < j))
  {
    hide Priority;
    if n > 0 {
      WinnerBeats(ivs, n - 1, t);
      var w := Winner(ivs, n - 1, t);
      if w >= 0 && Priority(ivs[n - 1].phase) == Priority(ivs[w].phase) {
        PriorityInjective(ivs[n - 1].phase, ivs[w].phase);
      }
    }
  }

  /** The scan finds the owner, or nobody covers the instant. */
  lemma WinnerOwns(ivs: seq<Interval>, t: int)
    ensures var w := Winner(ivs, |ivs|, t);
            && (forall i :: Owns(ivs, i, t) <==> i == w && w >= 0)
            && (w < 0 <==> !CoveredAtLevel(ivs, -1, t))
  {
    hide Priority;
    WinnerBeats(ivs, |ivs|, t);
    var w := Winner(ivs, |ivs|, t);
    if w >= 0 { AnyPriority(ivs[w].phase); }
  }

  lemma AnyPriority(p: Phase)
    ensures Priority(p) >= -1 && (p != TOTAL ==> Priority(p) >= 0)
  {
  }

  /** Between two adjacent coordinates, one probe decides for every instant. */
  lemma GapIsUniform(ivs: seq<Interval>, prev: u64, cur: u64, t: int, probe: int)
    requires prev <= t < cur && prev <= probe < cur
    requires forall i :: 0 <= i < |ivs| ==> !(prev < ivs[i].s < cur) && !(prev < ivs[i].e < cur)
    ensures forall i :: Owns(ivs, i, t) <==> Owns(ivs, i, probe)
    ensures CoveredAtLevel(ivs, -1, t) <==> CoveredAtLevel(ivs, -1, probe)
  {
    hide Priority;
    assert forall i :: 0 <= i < |ivs| ==> (Covers(ivs[i], t) <==> Covers(ivs[i], probe));
  }

  // ------------------------------------------------------------ conservation

  /** Sum of the awards to intervals of priority `level` or above. */
  function LevelSum(ivs: seq<Interval>, award: seq<nat>, level: int, n: nat): nat
    requires n <= |ivs| == |award|
  {
    if n == 0 then 0
    else LevelSum(ivs, award, level, n - 1) + if Priority(ivs[n - 1].phase) >= level then award[n - 1] else 0
  }

  /** Some interval of the first `n`, of priority `level` or above, owns the instant. */
  ghost function OwnedBelow(ivs: seq<Interval>, level: int, n: nat): int -> bool {
    t => exists i :: 0 <= i < n && Owns(ivs, i, t) && Priority(ivs[i].phase) >= level
  }

  lemma OwnerUnique(ivs: seq<Interval>, i: int, j: int, t: int)
    requires Owns(ivs, i, t) && Owns(ivs, j, t)
    ensures i == j
  {
    hide Priority;
  }

  lemma OneMoreOwner(ivs: seq<Interval>, level: int, n: nat, t: int)
    requires 0 < n <= |ivs|
    ensures var p, r := OwnedBelow(ivs, level, n - 1)(t), OwnedBelow(ivs, level, n)(t);
            if Priority(ivs[n - 1].phase) >= level
            then (r <==> p || Owns(ivs, n - 1, t)) && !(p && Owns(ivs, n - 1, t))
            else r == p
  {
    hide Owns, Priority;
    var p, r := OwnedBelow(ivs, level, n - 1)(t), OwnedBelow(ivs, level, n)(t);
    if p && Owns(ivs, n - 1, t) {
      var i :| 0 <= i < n - 1 && Owns(ivs, i, t) && Priority(ivs[i].phase) >= level;
      OwnerUnique(ivs, i, n - 1, t);
    }
  }

  lemma OneMoreMeasure(ivs: seq<Interval>, level: int, n: nat)
    requires 0 < n <= |ivs|
    ensures Measure(OwnedBelow(ivs, level, n)) == Measure(OwnedBelow(ivs, level, n - 1))
            + if Priority(ivs[n - 1].phase) >= level then Measure(OwnedBy(ivs, n - 1)) else 0
  {
    hide Owns, Priority;
    var p, q, r := OwnedBelow(ivs, level, n - 1), OwnedBy(ivs, n - 1), OwnedBelow(ivs, level, n);
    forall t
      ensures if Priority(ivs[n - 1].phase) >= level then (r(t) <==> p(t) || q(t)) && !(p(t) && q(t)) else r(t) == p(t)
    {
      OneMoreOwner(ivs, level, n, t);
    }
    hide OwnedBelow, OwnedBy, CountIf;
    if Priority(ivs[n - 1].phase) >= level {
      CountDisjoint(p, q, r, 0, TWO_64);
    } else {
      CountSame(p, r, 0, TWO_64);
    }
  }

  lemma {:induction false} LevelSumMeasures(ivs: seq<Interval>, award: seq<nat>, level: int, n: nat)
    requires n <= |ivs| == |award|
    requires forall i :: 0 <= i < |ivs| ==> award[i] == Measure(OwnedBy(ivs, i))
    ensures LevelSum(ivs, award, level, n) == Measure(OwnedBelow(ivs, level, n))
  {
    if n == 0 {
      CountConstant(OwnedBelow(ivs, level, 0), false, 0, TWO_64);
    } else {
      hide OwnedBelow, OwnedBy, Measure, Priority;
      LevelSumMeasures(ivs, award, level, n - 1);
      OneMoreMeasure(ivs, level, n);
    }
  }

  lemma OwnedIsCovered(ivs: seq<Interval>, level: int, t: int)
    ensures OwnedBelow(ivs, level, |ivs|)(t) <==> UnionAt(ivs, level)(t)
  {
    hide Priority;
    WinnerOwns(ivs, t);
    WinnerBeats(ivs, |ivs|, t);
    var w := Winner(ivs, |ivs|, t);
    if CoveredAtLevel(ivs, level, t) {
      var i :| 0 <= i < |ivs| && Priority(ivs[i].phase) >= level && Covers(ivs[i], t);
      assert Owns(ivs, w, t) && Priority(ivs[w].phase) >= level;
    }
  }

  /** At every priority level, the time awarded at that level or above is exactly the measure of the
      union of the intervals at that level or above: no instant is lost or counted twice. */
  lemma AwardsMeasureUnion(ivs: seq<Interval>, award: seq<nat>, level: int)
    requires |award| == |ivs|
    requires forall i :: 0 <= i < |ivs| ==> award[i] == Measure(OwnedBy(ivs, i))
    ensures LevelSum(ivs, award, level, |ivs|) == Measure(UnionAt(ivs, level))
  {
    LevelSumMeasures(ivs, award, level, |ivs|);
    forall t ensures OwnedBelow(ivs, level, |ivs|)(t) <==> UnionAt(ivs, level)(t) { OwnedIsCovered(ivs, level, t); }
    CountSame(OwnedBelow(ivs, level, |ivs|), UnionAt(ivs, level), 0, TWO_64);
  }

  // ------------------------------------------------------------ the sweep line

  /** Ends of all intervals. */
  function Coordinates(ivs: seq<Interval>): (c: set<int>)
    ensures forall i :: 0 <= i < |ivs| ==> ivs[i].s in c && ivs[i].e in c
    ensures forall x :: x in c ==> 0 <= x < TWO_64
  {
    if ivs == [] then {}
    else Coordinates(ivs[..|ivs| - 1]) + {ivs[|ivs| - 1].s, ivs[|ivs| - 1].e}
  }

  /** Awards made so far account for exactly the instants from `lo` up to `hi`. */
  ghost predicate AwardedBetween(ivs: seq<Interval>, award: seq<nat>, covered: nat, lo: int, hi: int) {
    && |award| == |ivs|
    && (forall i :: 0 <= i < |ivs| ==> award[i] == CountIf(OwnedBy(ivs, i), lo, hi))
    && covered == CountIf(UnionAt(ivs, -1), lo, hi)
  }

  lemma AwardGap(ivs: seq<Interval>, award: seq<nat>, covered: nat, lo: int, prev: u64, cur: u64, probe: int)
    requires lo <= prev <= probe < cur && AwardedBetween(ivs, award, covered, lo, prev)
    requires forall i :: 0 <= i < |ivs| ==> !(prev < ivs[i].s < cur) && !(prev < ivs[i].e < cur)
    ensures var w := Winner(ivs, |ivs|, probe);
            if w < 0 then AwardedBetween(ivs, award, covered, lo, cur)
            else AwardedBetween(ivs, award[w := award[w] + (cur - prev)], covered + (cur - prev), lo, cur)
  {
    hide Owns, Priority, Winner, Covers, CoveredAtLevel;
    var w := Winner(ivs, |ivs|, probe);
    WinnerOwns(ivs, probe);
    forall t | prev <= t < cur ensures CoveredAtLevel(ivs, -1, t) <==> w >= 0 {
      GapIsUniform(ivs, prev, cur, t, probe);
    }
    forall i | 0 <= i < |ivs|
      ensures CountIf(OwnedBy(ivs, i), lo, cur) == award[i] + if i == w then cur - prev else 0
    {
      CountSplit(OwnedBy(ivs, i), lo, prev, cur);
      forall t | prev <= t < cur ensures OwnedBy(ivs, i)(t) == (i == w) {
        GapIsUniform(ivs, prev, cur, t, probe);
        assert Owns(ivs, i, t) <==> Owns(ivs, i, probe);
      }
      CountConstant(OwnedBy(ivs, i), i == w, prev, cur);
    }
    CountSplit(UnionAt(ivs, -1), lo, prev, cur);
    CountConstant(UnionAt(ivs, -1), w >= 0, prev, cur);
  }

  /** Outside the outermost coordinates nothing is covered. */
  lemma NothingOutside(ivs: seq<Interval>, lo: int, hi: int, t: int)
    requires forall x :: x in Coordinates(ivs) ==> lo <= x <= hi
    requires t < lo || hi <= t
    ensures !CoveredAtLevel(ivs, -1, t) && forall i :: !Owns(ivs, i, t)
  {
    hide Priority;
    forall i | 0 <= i < |ivs| ensures !Covers(ivs[i], t) {
      assert ivs[i].s in Coordinates(ivs) && ivs[i].e in Coordinates(ivs);
    }
  }

  lemma CountOutside(p: int -> bool, lo: int, hi: int)
    requires 0 <= lo <= hi <= TWO_64
    requires forall t :: t < lo || hi <= t ==> !p(t)
    ensures Measure(p) == CountIf(p, lo, hi)
  {
    CountSplit(p, 0, lo, TWO_64);
    CountSplit(p, lo, hi, TWO_64);
    CountConstant(p, false, 0, lo);
    CountConstant(p, false, hi, TWO_64);
  }

  lemma AwardedEverywhere(ivs: seq<Interval>, award: seq<nat>, covered: nat, lo: int, hi: int)
    requires 0 <= lo <= hi <= TWO_64 && AwardedBetween(ivs, award, covered, lo, hi)
    requires forall x :: x in Coordinates(ivs) ==> lo <= x <= hi
    ensures forall i :: 0 <= i < |ivs| ==> award[i] == Measure(OwnedBy(ivs, i))
    ensures covered == Measure(UnionAt(ivs, -1))
  {
    hide Owns, CoveredAtLevel, Coordinates;
    forall t | t < lo || hi <= t ensures !UnionAt(ivs, -1)(t) {
      NothingOutside(ivs, lo, hi, t);
    }
    forall i | 0 <= i < |ivs| ensures award[i] == Measure(OwnedBy(ivs, i)) {
      forall t | t < lo || hi <= t ensures !OwnedBy(ivs, i)(t) {
        NothingOutside(ivs, lo, hi, t);
        assert !Owns(ivs, i, t);
      }
      CountOutside(OwnedBy(ivs, i), lo, hi);
    }
    CountOutside(UnionAt(ivs, -1), lo, hi);
  }

  lemma NoKeyBetween(keys: seq<int>, k: nat, x: int)
    requires StrictlySorted(IntLess, keys) && 0 < k < |keys| && x in keys
    ensures keys[k - 1] < keys[k] && !(keys[k - 1] < x < keys[k])
  {
    var j :| 0 <= j < |keys| && keys[j] == x;
    assert IntLess(keys[k - 1], keys[k]);
    if j < k - 1 { assert IntLess(keys[j], keys[k - 1]); }
    if j > k { assert IntLess(keys[k], keys[j]); }
  }

  /** Adjacent keys of the coordinate set have no coordinate between them. */
  lemma AdjacentKeys(ivs: seq<Interval>, keys: seq<int>, k: nat)
    requires keys == SortedKeys(IntLess, Coordinates(ivs)) && 0 < k < |keys|
    ensures 0 <= keys[k - 1] < keys[k] < TWO_64
    ensures forall i :: 0 <= i < |ivs| ==>
              !(keys[k - 1] < ivs[i].s < keys[k]) && !(keys[k - 1] < ivs[i].e < keys[k])
  {
    hide SortedKeys, Coordinates, StrictlySorted, TotalOrder, IntLess;
    IntLessTotal();
    SortedKeysSorted(IntLess, Coordinates(ivs));
    assert keys[k - 1] in keys && keys[k] in keys;
    NoKeyBetween(keys, k, keys[k]);
    forall i | 0 <= i < |ivs|
      ensures !(keys[k - 1] < ivs[i].s < keys[k]) && !(keys[k - 1] < ivs[i].e < keys[k])
    {
      NoKeyBetween(keys, k, ivs[i].s);
      NoKeyBetween(keys, k, ivs[i].e);
    }
  }

  lemma KeysSpan(ivs: seq<Interval>, keys: seq<int>)
    requires keys == SortedKeys(IntLess, Coordinates(ivs)) && keys != []
    ensures 0 <= keys[0] <= keys[|keys| - 1] < TWO_64
    ensures forall x :: x in Coordinates(ivs) ==> keys[0] <= x <= keys[|keys| - 1]
  {
    IntLessTotal();
    SortedKeysSorted(IntLess, Coordinates(ivs));
    hide SortedKeys;
    assert keys[0] in keys && keys[|keys| - 1] in keys;
    forall x | x in Coordinates(ivs) ensures keys[0] <= x <= keys[|keys| - 1] {
      var j :| 0 <= j < |keys| && keys[j] == x;
      if 0 < j { assert IntLess(keys[0], keys[j]); }
      if j < |keys| - 1 { assert IntLess(keys[j], keys[|keys| - 1]); }
    }
    if |keys| > 1 { assert IntLess(keys[0], keys[|keys| - 1]); }
  }

  method FindWinner(ivs: seq<Interval>, t: int) returns (best: int)
    requires NoTotal(ivs)
    ensures best == Winner(ivs, |ivs|, t)
  {
    hide Priority;
    var bestPri := -1;
    best := -1;
    for i := 0 to |ivs|
      invariant best == Winner(ivs, i, t) && bestPri == if best >= 0 then Priority(ivs[best].phase) else -1
    {
      if ivs[i].s <= t && t < ivs[i].e {
        var pri := Priority(ivs[i].phase);
        AnyPriority(ivs[i].phase);
        if pri > bestPri || (pri == bestPri && ivs[i].phase < ivs[best].phase) {
          bestPri, best := pri, i;
        }
      }
    }
  }

  method GatherCoordinates(ivs: seq<Interval>) returns (coords: set<int>)
    ensures coords == Coordinates(ivs)
  {
    coords := {};
    for i := 0 to |ivs|
      invariant coords == Coordinates(ivs[..i])
    {
      coords := coords + {ivs[i].s, ivs[i].e};
      assert ivs[..i + 1][..i] == ivs[..i];
    }
    assert ivs[..|ivs|] == ivs;
  }

  method SweepKeys(ivs: seq<Interval>, keys: seq<int>) returns (award: seq<nat>, covered: nat)
    requires NoTotal(ivs) && keys == SortedKeys(IntLess, Coordinates(ivs)) && keys != []
    ensures AwardedBetween(ivs, award, covered, keys[0], keys[|keys| - 1])
  {
    hide Winner, OwnedBy, UnionAt, CountIf, NoTotal, SortedKeys, Coordinates, AwardedBetween;
    award, covered := seq(|ivs|, _ => 0), 0;
    KeysSpan(ivs, keys);
    NothingYet(ivs, award, keys[0]);
    for k := 1 to |keys|
      invariant |award| == |ivs| && AwardedBetween(ivs, award, covered, keys[0], keys[k - 1])
      invariant keys[0] <= keys[k - 1]
    {
      AdjacentKeys(ivs, keys, k);
      var prev, cur := keys[k - 1], keys[k];
      var mid := prev + (cur - prev) / 2;
      AwardGap(ivs, award, covered, keys[0], prev, cur, mid);
      var best := FindWinner(ivs, mid);
      if best >= 0 {
        award := award[best := award[best] + (cur - prev)];
        covered := covered + (cur - prev);
      }
    }
  }

  /** Each interval is awarded exactly the instants it owns; together, exactly those covered. */
  method ExclusiveSweep(ivs: seq<Interval>) returns (award: seq<nat>, covered: nat)
    requires NoTotal(ivs)
    ensures |award| == |ivs| && forall i :: 0 <= i < |ivs| ==> award[i] == Measure(OwnedBy(ivs, i))
    ensures covered == Measure(UnionAt(ivs, -1))
  {
    hide Measure, NoTotal, SortedKeys, Coordinates;
    var coords := GatherCoordinates(ivs);
    IntLessTotal();
    hide TotalOrder;
    var keys := KeysInOrder(IntLess, coords);
    award, covered := seq(|ivs|, _ => 0), 0;
    if keys == [] {
      NoCoordinates(ivs);
      return;
    }
    award, covered := SweepKeys(ivs, keys);
    KeysSpan(ivs, keys);
    AwardedEverywhere(ivs, award, covered, keys[0], keys[|keys| - 1]);
  }

  lemma NothingYet(ivs: seq<Interval>, award: seq<nat>, lo: int)
    requires |award| == |ivs| && forall i :: 0 <= i < |ivs| ==> award[i] == 0
    ensures AwardedBetween(ivs, award, 0, lo, lo)
  {
  }

  lemma SomeCoordinate(ivs: seq<Interval>)
    requires ivs != []
    ensures SortedKeys(IntLess, Coordinates(ivs)) != []
  {
    hide SortedKeys;
    assert ivs[0].s in Coordinates(ivs);
    assert ivs[0].s in SortedKeys(IntLess, Coordinates(ivs));
  }

  lemma NoCoordinates(ivs: seq<Interval>)
    requires SortedKeys(IntLess, Coordinates(ivs)) == []
    ensures ivs == [] && Measure(UnionAt(ivs, -1)) == 0
  {
    if ivs != [] { SomeCoordinate(ivs); }
    CountConstant(UnionAt(ivs, -1), false, 0, TWO_64);
  }
}
