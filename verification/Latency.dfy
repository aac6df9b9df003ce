/** Latency decomposition (include/servingobs/trace/latency.hpp, src/latency.cpp:59-149) and its
    conservation laws, from evidence to breakdown. */
module Latency {
  import opened Types
  import opened Identity
  import opened Ordering
  import opened Observations
  import opened Traces
  import opened Sweep
  import opened CriticalPath

  datatype Component = Component(
    phase: Phase, durationNs: u64, exclusiveNs: u64, percentOfTotal: real, onCriticalPath: bool,
    provenance: Provenance, pointEvent: bool)

  datatype Breakdown = Breakdown(totalNs: u64, coveredNs: u64, gapNs: u64, components: seq<Component>)

  /** Every existing phase except TOTAL, in slot order. */
  function IntervalsOf(phases: seq<PhaseInterval>): (ivs: seq<Interval>)
    ensures NoTotal(ivs)
  {
    if phases == [] then []
    else
      var rest := IntervalsOf(phases[..|phases| - 1]);
      var p := phases[|phases| - 1];
      if !p.present || p.phase == TOTAL then rest else rest + [Interval(p.phase, p.start, p.end, p.provenance)]
  }

  function Saturating(a: u64, b: u64): u64 {
    if a >= b then a - b else 0
  }

  /** The share of the total, in exact arithmetic. */
  function Percent(part: nat, whole: nat): real {
    if whole == 0 then 0.0 else part as real / whole as real * 100.0
  }

  function CriticalSet(cs: seq<Component>): set<nat> {
    set i: nat | i < |cs| && cs[i].onCriticalPath
  }

  /** What a breakdown says: per component its span and the instants it owns, the covered time, the
      remaining gap, and a critical path. */
  ghost predicate Explains(b: Breakdown, total: PhaseInterval, ivs: seq<Interval>) {
    && b.totalNs == Saturating(total.end, total.start)
    && b.coveredNs == Measure(UnionAt(ivs, -1))
    && b.gapNs == Saturating(b.totalNs, b.coveredNs)
    && |b.components| == |ivs|
    && (forall i :: 0 <= i < |ivs| ==>
          var c := b.components[i];
          && c.phase == ivs[i].phase && c.provenance == ivs[i].provenance
          && c.durationNs == Duration(ivs[i]) && (c.pointEvent <==> c.durationNs == 0)
          && c.exclusiveNs == Measure(OwnedBy(ivs, i))
          && c.percentOfTotal == Percent(c.exclusiveNs, b.totalNs))
    && IsCriticalPath(ivs, CriticalSet(b.components))
  }

  method GatherIntervals(phases: seq<PhaseInterval>) returns (ivs: seq<Interval>)
    ensures ivs == IntervalsOf(phases)
  {
    ivs := [];
    for i := 0 to |phases|
      invariant ivs == IntervalsOf(phases[..i])
    {
      assert phases[..i + 1][..i] == phases[..i];
      if phases[i].present && phases[i].phase != TOTAL {
        ivs := ivs + [Interval(phases[i].phase, phases[i].start, phases[i].end, phases[i].provenance)];
      }
    }
    assert phases[..|phases|] == phases;
  }

  lemma AwardsFit(ivs: seq<Interval>, i: int)
    ensures Measure(OwnedBy(ivs, i)) <= Measure(UnionAt(ivs, -1)) < TWO_64
  {
    hide Priority, CountIf;
    forall t | OwnedBy(ivs, i)(t) ensures UnionAt(ivs, -1)(t) {
      AnyPriority(ivs[i].phase);
    }
    CountMonotone(OwnedBy(ivs, i), UnionAt(ivs, -1), 0, TWO_64);
    CoveredFits(ivs);
  }

  method DecomposeLatency(t: RequestTrace) returns (b: Breakdown)
    requires |t.phases| == 14
    ensures if t.phases[TOTAL].present
            then Explains(b, t.phases[TOTAL], IntervalsOf(t.phases))
            else b == Breakdown(0, 0, 0, [])
  {
    hide IsCriticalPath, Measure, OwnedBy, UnionAt, Percent;
    var total := t.phases[TOTAL];
    if !total.present { return Breakdown(0, 0, 0, []); }
    var ivs := GatherIntervals(t.phases);
    var award, covered := ExclusiveSweep(ivs);
    var marks := MarkCriticalPath(ivs);
    var cs: seq<Component> := [];
    var totalNs := Saturating(total.end, total.start);
    AwardsFit(ivs, -1);
    for i := 0 to |ivs|
      invariant |cs| == i
      invariant forall j :: 0 <= j < i ==>
                  && cs[j].phase == ivs[j].phase && cs[j].provenance == ivs[j].provenance
                  && cs[j].durationNs == Duration(ivs[j]) && (cs[j].pointEvent <==> cs[j].durationNs == 0)
                  && cs[j].exclusiveNs == award[j] && cs[j].onCriticalPath == marks[j]
                  && cs[j].percentOfTotal == Percent(award[j], totalNs)
    {
      AwardsFit(ivs, i);
      var d := Saturating(ivs[i].e, ivs[i].s);
      cs := cs + [Component(ivs[i].phase, d, award[i], Percent(award[i], totalNs), marks[i], ivs[i].provenance,
          d == 0)];
    }
    assert CriticalSet(cs) == Marked(marks);
    b := Breakdown(totalNs, covered, Saturating(totalNs, covered), cs);
  }

  // ------------------------------------------------------------ the breakdown in terms of slots

  /** The slots that take part, in slot order. */
  predicate TakesPart(p: PhaseInterval) {
    p.present && p.phase != TOTAL
  }

  ghost predicate Enumerates(f: seq<nat>, phases: seq<PhaseInterval>) {
    && (forall k, l :: 0 <= k < l < |f| ==> f[k] < f[l])
    && (forall i: nat :: i in f <==> i < |phases| && TakesPart(phases[i]))
  }

  ghost predicate CopiesSlot(iv: Interval, p: PhaseInterval) {
    iv.phase == p.phase && iv.s == p.start && iv.e == p.end && iv.provenance == p.provenance
  }

  function SlotIndices(phases: seq<PhaseInterval>): (f: seq<nat>)
    ensures |f| == |IntervalsOf(phases)|
    ensures forall k :: 0 <= k < |f| ==> f[k] < |phases|
  {
    if phases == [] then []
    else
      var n := |phases| - 1;
      if TakesPart(phases[n]) then SlotIndices(phases[..n]) + [n] else SlotIndices(phases[..n])
  }

  lemma {:induction false} SlotIndicesEnumerate(phases: seq<PhaseInterval>)
    ensures Enumerates(SlotIndices(phases), phases)
  {
    hide IntervalsOf;
    if phases != [] {
      var n := |phases| - 1;
      SlotIndicesEnumerate(phases[..n]);
      var g, f := SlotIndices(phases[..n]), SlotIndices(phases);
      hide TakesPart;
      forall i: nat ensures i in f <==> i < |phases| && TakesPart(phases[i]) {
        if i < n { assert phases[..n][i] == phases[i]; }
        assert i in f <==> i in g || (i == n && TakesPart(phases[n]));
      }
      forall k, l | 0 <= k < l < |f| ensures f[k] < f[l] {
        if l < |g| { assert f[k] == g[k] && f[l] == g[l]; }
      }
    }
  }

  lemma {:induction false} IntervalsCopySlots(phases: seq<PhaseInterval>)
    ensures var f, ivs := SlotIndices(phases), IntervalsOf(phases);
            forall k :: 0 <= k < |ivs| ==> CopiesSlot(ivs[k], phases[f[k]])
  {
    if phases != [] {
      var n := |phases| - 1;
      IntervalsCopySlots(phases[..n]);
      var g, f := SlotIndices(phases[..n]), SlotIndices(phases);
      forall k | 0 <= k < |f| ensures CopiesSlot(IntervalsOf(phases)[k], phases[f[k]]) {
        if k < |g| {
          assert CopiesSlot(IntervalsOf(phases[..n])[k], phases[..n][g[k]]);
          assert f[k] == g[k] && IntervalsOf(phases)[k] == IntervalsOf(phases[..n])[k];
        }
      }
    }
  }

  /** The intervals are exactly the slots that take part, once each and in slot order. */
  lemma IntervalsAreSlots(phases: seq<PhaseInterval>)
    ensures var f, ivs := SlotIndices(phases), IntervalsOf(phases);
            && Enumerates(f, phases)
            && forall k :: 0 <= k < |ivs| ==> CopiesSlot(ivs[k], phases[f[k]])
  {
    SlotIndicesEnumerate(phases);
    IntervalsCopySlots(phases);
  }

  /** Slot `i` wins instant `t`: it spans it, and every other slot that takes part and spans it is
      outranked, or is of the same phase and later. */
  ghost predicate SlotWins(phases: seq<PhaseInterval>, i: nat, t: int)
    requires i < |phases|
  {
    && Spans(phases[i], t)
    && forall j :: 0 <= j < |phases| && j != i && Spans(phases[j], t) ==>
         Outranks(phases[i].phase, phases[j].phase) || (phases[i].phase == phases[j].phase && i < j)
  }

  predicate Spans(p: PhaseInterval, t: int) {
    TakesPart(p) && p.start <= t < p.end
  }

  lemma OwnerIsSlotWinner(phases: seq<PhaseInterval>, k: nat, t: int)
    requires k < |IntervalsOf(phases)|
    ensures Owns(IntervalsOf(phases), k, t) <==> SlotWins(phases, SlotIndices(phases)[k], t)
  {
    var f, ivs := SlotIndices(phases), IntervalsOf(phases);
    IntervalsAreSlots(phases);
    hide SlotIndices, IntervalsOf, Priority, Outranks;
    assert f[k] in f && CopiesSlot(ivs[k], phases[f[k]]);
    if Owns(ivs, k, t) {
      forall j: nat | j < |phases| && j != f[k] && Spans(phases[j], t)
        ensures Outranks(phases[f[k]].phase, phases[j].phase) || (phases[f[k]].phase == phases[j].phase && f[k] < j)
      {
        assert j in f;
        var l :| 0 <= l < |f| && f[l] == j;
        assert CopiesSlot(ivs[l], phases[j]) && Covers(ivs[l], t);
        RankedPair(ivs[k].phase, ivs[l].phase);
      }
    }
    if SlotWins(phases, f[k], t) {
      forall l | 0 <= l < |ivs| && l != k && Covers(ivs[l], t)
        ensures Priority(ivs[l].phase) < Priority(ivs[k].phase)
                || (Priority(ivs[l].phase) == Priority(ivs[k].phase) && k < l)
      {
        assert f[l] in f && CopiesSlot(ivs[l], phases[f[l]]) && Spans(phases[f[l]], t);
        RankedPair(ivs[k].phase, ivs[l].phase);
      }
    }
  }

  lemma RankedPair(p: Phase, q: Phase)
    requires p != TOTAL && q != TOTAL
    ensures Priority(p) > Priority(q) <==> Outranks(p, q)
    ensures Priority(p) == Priority(q) <==> p == q
  {
    PriorityIsRank(p, q);
    if Priority(p) == Priority(q) { PriorityInjective(p, q); }
  }

  /** What one component says about its slot. */
  ghost predicate DescribesSlot(c: Component, phases: seq<PhaseInterval>, i: nat)
    requires i < |phases|
  {
    var p := phases[i];
    && c.phase == p.phase && c.provenance == p.provenance
    && c.durationNs == (if p.end >= p.start then p.end - p.start else 0)
    && (c.pointEvent <==> p.end <= p.start)
    && c.exclusiveNs == Measure(t => SlotWins(phases, i, t))
  }

  ghost predicate Describes(b: Breakdown, phases: seq<PhaseInterval>, f: seq<nat>) {
    && Enumerates(f, phases) && |b.components| == |f|
    && forall k :: 0 <= k < |f| ==> f[k] < |phases| && DescribesSlot(b.components[k], phases, f[k])
  }

  /** The components are exactly the present phases other than TOTAL, once each and in slot order, each
      with its own span, provenance and the number of instants it wins. */
  lemma ComponentsAreSlots(b: Breakdown, total: PhaseInterval, phases: seq<PhaseInterval>)
    requires Explains(b, total, IntervalsOf(phases))
    ensures exists f :: Describes(b, phases, f)
  {
    hide IsCriticalPath, CountIf, Owns, SlotWins;
    var f, ivs := SlotIndices(phases), IntervalsOf(phases);
    IntervalsAreSlots(phases);
    forall k | 0 <= k < |f| ensures DescribesSlot(b.components[k], phases, f[k]) {
      assert CopiesSlot(ivs[k], phases[f[k]]);
      forall t ensures OwnedBy(ivs, k)(t) == SlotWins(phases, f[k], t) { OwnerIsSlotWinner(phases, k, t); }
      CountSame(OwnedBy(ivs, k), t => SlotWins(phases, f[k], t), 0, TWO_64);
    }
    assert Describes(b, phases, f);
  }

  /** In the breakdown of a reconstructed trace, the components are the present phases below TOTAL, in
      phase order; each phase occurs once, and of two that cover an instant the one of higher rank gets it. */
  lemma ComponentsOfTrace(obs: seq<Observation>, rid: Id128, b: Breakdown)
    requires var t := Reconstruct(obs, rid); Explains(b, t.phases[TOTAL], IntervalsOf(t.phases))
    ensures var p := Reconstruct(obs, rid).phases;
            exists f ::
              && Describes(b, p, f)
              && (forall k :: 0 <= k < |f| ==> b.components[k].phase == f[k])
              && (forall i: nat :: i in f <==> i < TOTAL && p[i].present)
  {
    hide IsCriticalPath, CountIf, SlotWins, SortBy, IntervalsOf, DescribesSlot, OwnedBy, UnionAt, PhaseSlot;
    var v := SortBy(ObsLess, obs);
    var p := ExtractPhases(v);
    ComponentsAreSlots(b, p[TOTAL], p);
    var f :| Describes(b, p, f);
    forall i: nat | i < 14 ensures p[i].present ==> p[i].phase == i { SlotPhase(v, i); }
    forall k | 0 <= k < |f| ensures b.components[k].phase == f[k] {
      assert f[k] in f;
      PhaseOfComponent(b.components[k], p, f[k]);
    }
  }

  lemma PhaseOfComponent(c: Component, phases: seq<PhaseInterval>, i: nat)
    requires i < |phases| && DescribesSlot(c, phases, i)
    ensures c.phase == phases[i].phase
  {
  }

  // ------------------------------------------------------------ conservation

  function ExclusivesAtLevel(cs: seq<Component>, level: int): nat {
    if cs == [] then 0
    else
      var n := |cs| - 1;
      ExclusivesAtLevel(cs[..n], level) + if Priority(cs[n].phase) >= level then cs[n].exclusiveNs else 0
  }

  lemma {:induction false} ExclusivesAreLevelSum(cs: seq<Component>, ivs: seq<Interval>, award: seq<nat>,
          level: int, n: nat)
    requires |cs| == |ivs| == |award| && n <= |cs|
    requires forall i :: 0 <= i < |cs| ==> cs[i].phase == ivs[i].phase && cs[i].exclusiveNs == award[i]
    ensures ExclusivesAtLevel(cs[..n], level) == LevelSum(ivs, award, level, n)
  {
    hide Priority;
    if n > 0 {
      ExclusivesAreLevelSum(cs, ivs, award, level, n - 1);
      assert cs[..n][..n - 1] == cs[..n - 1];
    }
  }

  /** At every priority level the exclusives at that level or above add up to the measure of the
      union of those intervals; over all levels, to the covered time. */
  lemma ExclusivesConserve(b: Breakdown, total: PhaseInterval, ivs: seq<Interval>, level: int)
    requires Explains(b, total, ivs)
    ensures ExclusivesAtLevel(b.components, level) == Measure(UnionAt(ivs, level))
    ensures ExclusivesAtLevel(b.components, -1) == b.coveredNs
  {
    hide IsCriticalPath, CountIf, UnionAt, OwnedBy;
    var award: seq<nat> := seq(|ivs|, i requires 0 <= i < |ivs| => b.components[i].exclusiveNs as nat);
    assert b.components[..|ivs|] == b.components;
    ExclusivesAreLevelSum(b.components, ivs, award, level, |ivs|);
    ExclusivesAreLevelSum(b.components, ivs, award, -1, |ivs|);
    AwardsMeasureUnion(ivs, award, level);
    AwardsMeasureUnion(ivs, award, -1);
  }

  /** The critical path is never longer than the covered time. */
  lemma CriticalWithinCovered(b: Breakdown, total: PhaseInterval, ivs: seq<Interval>)
    requires Explains(b, total, ivs)
    ensures SumOf(ivs, CriticalSet(b.components)) <= b.coveredNs
  {
    hide CountIf, SumOf;
    WeightWithinCovered(ivs, CriticalSet(b.components));
  }

  ghost predicate AllInside(ivs: seq<Interval>, lo: int, hi: int) {
    forall i :: 0 <= i < |ivs| ==> lo <= ivs[i].s && ivs[i].e <= hi
  }

  lemma CoveredInsideWindow(ivs: seq<Interval>, lo: u64, hi: u64)
    requires lo <= hi && AllInside(ivs, lo, hi)
    ensures Measure(UnionAt(ivs, -1)) <= hi - lo
  {
    hide Priority, CountIf;
    CountOutside(UnionAt(ivs, -1), lo, hi);
  }

  lemma {:induction false} IntervalsInside(phases: seq<PhaseInterval>, total: PhaseInterval, n: nat)
    requires |phases| == 14 && phases[TOTAL] == total && n <= 14
    requires total.present ==> total.phase == TOTAL
    requires forall i :: 0 <= i < 13 ==> InsideTotal(phases[i], total)
    ensures AllInside(IntervalsOf(phases[..n]), total.start, total.end)
  {
    if n > 0 {
      IntervalsInside(phases, total, n - 1);
      assert phases[..n][..n - 1] == phases[..n - 1];
      if n == 14 && total.present { assert phases[..n][13] == total; }
    }
  }

  /** When the evidence that phases read lies between the chosen arrival and end: critical path at most
      covered, covered at most total, and covered plus gap is exactly total. */
  lemma ConservationFromEvidence(obs: seq<Observation>, b: Breakdown)
    requires var v := SortBy(ObsLess, obs);
             && TotalPhase(v).present && EvidenceContained(v) && BatchStartTimed(v)
             && Explains(b, TotalPhase(v), IntervalsOf(ExtractPhases(v)))
    ensures var ivs := IntervalsOf(ExtractPhases(SortBy(ObsLess, obs)));
            && b.coveredNs + b.gapNs == b.totalNs
            && SumOf(ivs, CriticalSet(b.components)) <= b.coveredNs <= b.totalNs
  {
    hide IsCriticalPath, CountIf, SumOf, SortBy, UnionAt, EvidenceContained, BatchStartTimed, IntervalsOf;
    var v := SortBy(ObsLess, obs);
    var phases := ExtractPhases(v);
    var ivs := IntervalsOf(phases);
    TotalIsOrdered(v);
    forall i | 0 <= i < 13 ensures InsideTotal(phases[i], TotalPhase(v)) {
      PhasesInsideTotal(v, i);
    }
    hide TotalPhase, PhaseSlot, InsideTotal;
    IntervalsInside(phases, phases[TOTAL], 14);
    assert phases[..14] == phases;
    CoveredInsideWindow(ivs, phases[TOTAL].start, phases[TOTAL].end);
    CriticalWithinCovered(b, TotalPhase(v), ivs);
  }

  lemma TotalIsOrdered(v: seq<Observation>)
    ensures ExtractPhases(v)[TOTAL] == TotalPhase(v) && TotalPhase(v).start <= TotalPhase(v).end
    ensures TotalPhase(v).phase == TOTAL
  {
  }

  function PercentSum(cs: seq<Component>): real {
    if cs == [] then 0.0 else PercentSum(cs[..|cs| - 1]) + cs[|cs| - 1].percentOfTotal
  }

  lemma PercentAdds(a: nat, b: nat, whole: nat)
    ensures Percent(a, whole) + Percent(b, whole) == Percent(a + b, whole)
  {
    if whole > 0 {
      var w := whole as real;
      assert (a + b) as real / w == a as real / w + b as real / w;
    }
  }

  lemma {:induction false} PercentsOfLevel(cs: seq<Component>, whole: nat)
    requires forall i :: 0 <= i < |cs| ==> cs[i].percentOfTotal == Percent(cs[i].exclusiveNs, whole)
    ensures PercentSum(cs) == Percent(ExclusivesAtLevel(cs, -1), whole)
  {
    hide Percent, Priority;
    if cs == [] {
      NothingIsNoPercent(whole);
    } else {
      var n := |cs| - 1;
      PercentsOfLevel(cs[..n], whole);
      AnyPriority(cs[n].phase);
      PercentAdds(ExclusivesAtLevel(cs[..n], -1), cs[n].exclusiveNs, whole);
    }
  }

  lemma NothingIsNoPercent(whole: nat)
    ensures Percent(0, whole) == 0.0
  {
  }

  /** The components' percentages add up to that of the covered time. */
  lemma PercentsConserve(b: Breakdown, total: PhaseInterval, ivs: seq<Interval>)
    requires Explains(b, total, ivs)
    ensures PercentSum(b.components) == Percent(b.coveredNs, b.totalNs)
  {
    hide IsCriticalPath, CountIf, UnionAt, OwnedBy, Percent;
    ExclusivesConserve(b, total, ivs, -1);
    PercentsOfLevel(b.components, b.totalNs);
  }

  // ------------------------------------------------------------ where conservation stops

  ghost predicate InTotal(total: PhaseInterval, t: int) {
    total.start <= t < total.end
  }

  /** The covered instants that the total does not contain. */
  ghost function Beyond(total: PhaseInterval, ivs: seq<Interval>): int -> bool {
    t => UnionAt(ivs, -1)(t) && !InTotal(total, t)
  }

  /** The instants of the total that no phase covers. */
  ghost function Idle(total: PhaseInterval, ivs: seq<Interval>): int -> bool {
    t => InTotal(total, t) && !UnionAt(ivs, -1)(t)
  }

  lemma TotalIsMeasure(b: Breakdown, total: PhaseInterval, ivs: seq<Interval>)
    requires Explains(b, total, ivs)
    ensures b.totalNs == Measure(t => InTotal(total, t))
  {
    hide IsCriticalPath, UnionAt, OwnedBy, CountIf;
    var hi := if total.start <= total.end then total.end else total.start;
    CountOutside(t => InTotal(total, t), total.start, hi);
    CountConstant(t => InTotal(total, t), total.start < total.end, total.start, hi);
  }

  /** For every breakdown: covered time and gap add up to the total exactly when the phases spend no
      more time outside the total than they leave idle inside it. */
  lemma BreakdownAddsUp(b: Breakdown, total: PhaseInterval, ivs: seq<Interval>)
    requires Explains(b, total, ivs)
    ensures b.coveredNs + b.gapNs == b.totalNs <==> Measure(Beyond(total, ivs)) <= Measure(Idle(total, ivs))
  {
    hide IsCriticalPath, UnionAt, OwnedBy, CountIf, InTotal;
    var U := UnionAt(ivs, -1);
    var W := t => InTotal(total, t);
    var both := t => U(t) && InTotal(total, t);
    TotalIsMeasure(b, total, ivs);
    CountDisjoint(both, Beyond(total, ivs), U, 0, TWO_64);
    CountDisjoint(both, Idle(total, ivs), W, 0, TWO_64);
  }

  /** A request that completed before its prefill was reported. */
  ghost predicate LateEvidence(v: seq<Observation>) {
    && |v| == 4
    && v[0].kind == REQUEST_OBS && v[1].kind == COMPLETION_OBS
    && v[2].kind == PREFILL_START_OBS && v[3].kind == PREFILL_END_OBS
    && 0 < ObsTime(v[0]).ts < ObsTime(v[1]).ts < ObsTime(v[2]).ts < ObsTime(v[3]).ts
  }

  lemma LateEvidenceInOrder(v: seq<Observation>)
    requires LateEvidence(v)
    ensures SortBy(ObsLess, v) == v
  {
    ObsLessIsWeakOrder();
    assert Sorted(ObsLess, v);
    forall x, y | x in multiset(v) && y in multiset(v) ensures x == y || ObsLess(x, y) || ObsLess(y, x) {
      var i :| 0 <= i < |v| && v[i] == x;
      var j :| 0 <= j < |v| && v[j] == y;
    }
    hide WeakOrder, SortBy, ObsLess;
    SortIsTheOnlySorting(ObsLess, v, v);
  }

  /** Exactly arrival, prefill and completion are extracted, besides the total. */
  lemma LatePhases(v: seq<Observation>, i: nat)
    requires LateEvidence(v) && i < 14
    ensures var p := ExtractPhases(v)[i];
            if i == ARRIVAL then p.present && p.phase == ARRIVAL && p.start == p.end
            else if i == PREFILL then p.present && p.phase == PREFILL && p.start == ObsTime(v[2]).ts
                && p.end == ObsTime(v[3]).ts
            else if i == COMPLETION then p.present && p.phase == COMPLETION && p.start == p.end
            else if i == TOTAL then p.present && p.phase == TOTAL && p.start == ObsTime(v[0]).ts
                && p.end == ObsTime(v[1]).ts
            else !p.present
  {
    hide FirstObs, LastObs, CountObs;
  }

  /** Every covered instant lies in the prefill and conversely. */
  lemma LateCovered(v: seq<Observation>, t: int)
    requires LateEvidence(v)
    ensures UnionAt(IntervalsOf(ExtractPhases(v)), -1)(t) <==> ObsTime(v[2]).ts <= t < ObsTime(v[3]).ts
  {
    var phases := ExtractPhases(v);
    forall i | 0 <= i < 14 { LatePhases(v, i); }
    IntervalsFrom(phases, t);
    hide ExtractPhases, UnionAt, IntervalsOf;
    assert Spans(phases[PREFILL], t) <==> ObsTime(v[2]).ts <= t < ObsTime(v[3]).ts;
  }

  /** An instant is covered when some extracted phase other than the total spans it. */
  lemma {:induction false} IntervalsFrom(phases: seq<PhaseInterval>, t: int)
    ensures UnionAt(IntervalsOf(phases), -1)(t) <==> exists i :: 0 <= i < |phases| && Spans(phases[i], t)
  {
    hide Priority;
    if phases != [] {
      var n := |phases| - 1;
      var before, now := IntervalsOf(phases[..n]), IntervalsOf(phases);
      IntervalsFrom(phases[..n], t);
      assert Spans(phases[n], t) ==> Covers(now[|now| - 1], t);
      forall k | 0 <= k < |before| ensures now[k] == before[k] { }
      forall k: nat | k < |now| { AnyPriority(now[k].phase); }
      forall i | 0 <= i < n ensures phases[..n][i] == phases[i] { }
    }
  }

  /** Evidence later than the completion can cover more time than the total has: the breakdown adds
      up exactly when the prefill is no longer than the request. */
  lemma LateEvidenceConserves(v: seq<Observation>, rid: Id128, b: Breakdown)
    requires LateEvidence(v)
    requires var t := Reconstruct(v, rid); Explains(b, t.phases[TOTAL], IntervalsOf(t.phases))
    ensures b.totalNs == ObsTime(v[1]).ts - ObsTime(v[0]).ts && b.coveredNs == ObsTime(v[3]).ts - ObsTime(v[2]).ts
    ensures b.coveredNs + b.gapNs == b.totalNs
            <==> ObsTime(v[3]).ts - ObsTime(v[2]).ts <= ObsTime(v[1]).ts - ObsTime(v[0]).ts
  {
    LateEvidenceInOrder(v);
    LatePhases(v, TOTAL);
    var ivs := IntervalsOf(ExtractPhases(v));
    var s, e := ObsTime(v[2]).ts, ObsTime(v[3]).ts;
    forall t ensures UnionAt(ivs, -1)(t) <==> s <= t < e { LateCovered(v, t); }
    hide UnionAt, CountIf, ExtractPhases, IntervalsOf, SortBy, IsCriticalPath;
    CountOutside(UnionAt(ivs, -1), s, e);
    CountConstant(UnionAt(ivs, -1), true, s, e);
  }
}
