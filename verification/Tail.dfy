/** Tail selection (src/analysis.cpp:208-232). */
module Tails {
  import opened Types
  import opened Identity
  import opened Ordering
  import opened Observations
  import opened Traces
  import opened Percentiles
  import opened Sweep
  import opened Latency
  import opened TraceFacts

  /** A trace has one slot per phase. */
  type FullTrace = t: RequestTrace | |t.phases| == 14
    witness RequestTrace(NULL_ID, NULL_ID, NULL_ID, NULL_ID, NULL_ID, NULL_ID, [], [], seq(14, _ => ABSENT),
                         OUTCOME_UNKNOWN, [], 0, 0, [], [], [])

  /** The TOTAL span, by unsigned 64-bit subtraction. */
  function LatencyOf(t: FullTrace): u64 {
    var total := t.phases[TOTAL];
    if total.present then (total.end - total.start) % TWO_64 else 0
  }

  function Latencies(ts: seq<FullTrace>): (ls: seq<u64>)
    ensures |ls| == |ts|
    ensures forall i :: 0 <= i < |ts| ==> ls[i] == LatencyOf(ts[i])
  {
    if ts == [] then [] else Latencies(ts[..|ts| - 1]) + [LatencyOf(ts[|ts| - 1])]
  }

  /** The sorting comparator: slower first. Equally slow traces may come in any order. */
  predicate Slower(a: FullTrace, b: FullTrace) {
    LatencyOf(a) > LatencyOf(b)
  }

  function Threshold(ts: seq<FullTrace>, p: real): u64 {
    Percentile(Latencies(ts), p)
  }

  function AtLeast(ts: seq<FullTrace>, threshold: u64): seq<FullTrace> {
    if ts == [] then []
    else
      var rest := AtLeast(ts[..|ts| - 1], threshold);
      if LatencyOf(ts[|ts| - 1]) >= threshold then rest + [ts[|ts| - 1]] else rest
  }

  /** How often a trace occurs. */
  function Copies(ts: seq<FullTrace>, t: FullTrace): nat {
    multiset(ts)[t]
  }

  lemma {:induction false} AtLeastCounts(ts: seq<FullTrace>, threshold: u64, t: FullTrace)
    ensures Copies(AtLeast(ts, threshold), t) == if LatencyOf(t) >= threshold then Copies(ts, t) else 0
  {
    hide LatencyOf;
    if ts != [] {
      var n := |ts| - 1;
      AtLeastCounts(ts[..n], threshold, t);
      assert ts == ts[..n] + [ts[n]];
    }
  }

  /** In slower-first order the selected traces are the leading ones. */
  lemma {:induction false} AtLeastIsPrefix(ts: seq<FullTrace>, threshold: u64)
    requires Sorted(Slower, ts)
    ensures AtLeast(ts, threshold) <= ts
  {
    hide LatencyOf;
    if ts != [] {
      var n := |ts| - 1;
      AtLeastIsPrefix(ts[..n], threshold);
      if LatencyOf(ts[n]) >= threshold {
        forall i | 0 <= i < n ensures LatencyOf(ts[i]) >= threshold {
          assert !Slower(ts[n], ts[i]);
        }
        AllAtLeast(ts[..n], threshold);
      }
    }
  }

  lemma {:induction false} AllAtLeast(ts: seq<FullTrace>, threshold: u64)
    requires forall i :: 0 <= i < |ts| ==> LatencyOf(ts[i]) >= threshold
    ensures AtLeast(ts, threshold) == ts
  {
    hide LatencyOf;
    if ts != [] {
      AllAtLeast(ts[..|ts| - 1], threshold);
      assert ts == ts[..|ts| - 1] + [ts[|ts| - 1]];
    }
  }

  lemma ThresholdIsReached(ts: seq<FullTrace>, p: real)
    requires ts != []
    ensures exists t :: t in ts && LatencyOf(t) == Threshold(ts, p)
  {
    hide LatencyOf, Rank, SortBy;
    var ls := Latencies(ts);
    SortedByValue(ls);
    var r := SortBy(U64Less, ls)[Rank(|ls|, p) - 1];
    assert r in ls;
    var i :| 0 <= i < |ls| && ls[i] == r;
    assert ts[i] in ts;
  }

  lemma PrefixSorted(out: seq<FullTrace>, ts: seq<FullTrace>)
    requires out <= ts && Sorted(Slower, ts)
    ensures Sorted(Slower, out)
  {
  }

  /** Whatever order the sort left equal traces in: exactly the traces at or above the threshold are
      explained, as often as they were given, slowest first, and some trace is whenever there is one. */
  lemma TailIsExact(ts: seq<FullTrace>, ordered: seq<FullTrace>, p: real)
    requires multiset(ordered) == multiset(ts) && Sorted(Slower, ordered)
    ensures var out := AtLeast(ordered, Threshold(ts, p));
            && (forall t: FullTrace :: Copies(out, t) == if LatencyOf(t) >= Threshold(ts, p) then Copies(ts, t) else 0)
            && Sorted(Slower, out)
            && (ts != [] ==> out != [])
  {
    hide LatencyOf, Threshold, Sorted, AtLeast;
    var threshold := Threshold(ts, p);
    var out := AtLeast(ordered, threshold);
    AtLeastIsPrefix(ordered, threshold);
    PrefixSorted(out, ordered);
    forall t: FullTrace ensures Copies(out, t) == if LatencyOf(t) >= threshold then Copies(ts, t) else 0 {
      AtLeastCounts(ordered, threshold, t);
    }
    if ts != [] {
      ThresholdIsReached(ts, p);
      var t :| t in ts && LatencyOf(t) == threshold;
      assert t in multiset(ts);
      AtLeastCounts(ordered, threshold, t);
      assert Copies(out, t) > 0;
    }
  }

  // ------------------------------------------------------------ latency as time spent

  /** TOTAL does not run backwards; reconstruction guarantees it. */
  ghost predicate Forward(t: FullTrace) {
    t.phases[TOTAL].present ==> t.phases[TOTAL].start <= t.phases[TOTAL].end
  }

  ghost predicate AllForward(ts: seq<FullTrace>) {
    forall i :: 0 <= i < |ts| ==> Forward(ts[i])
  }

  /** How many instants the request took. */
  ghost function Span(t: FullTrace): nat {
    Measure(i => t.phases[TOTAL].present && t.phases[TOTAL].start <= i < t.phases[TOTAL].end)
  }

  /** Latency is the number of instants of TOTAL; if TOTAL ran backwards it would wrap around. */
  lemma LatencyIsSpan(t: FullTrace)
    ensures Forward(t) ==> LatencyOf(t) == Span(t)
    ensures !Forward(t) ==> LatencyOf(t) == TWO_64 - (t.phases[TOTAL].start - t.phases[TOTAL].end)
    ensures !t.phases[TOTAL].present ==> LatencyOf(t) == 0
  {
    hide CountIf;
    var total := t.phases[TOTAL];
    var p := i => total.present && total.start <= i < total.end;
    if Forward(t) {
      var hi := if total.present then total.end else total.start;
      CountOutside(p, total.start, hi);
      CountConstant(p, true, total.start, hi);
    }
  }

  /** It is the total that the latency breakdown reports. */
  lemma LatencyIsTotal(t: FullTrace, b: Breakdown, ivs: seq<Interval>)
    requires Forward(t) && t.phases[TOTAL].present && Explains(b, t.phases[TOTAL], ivs)
    ensures LatencyOf(t) == b.totalNs
  {
    hide Measure, OwnedBy, UnionAt;
  }

  /** For a reconstructed trace it is the chosen end minus the chosen arrival, or 0 if that is not
      positive or nothing is timed. */
  lemma LatencyOfReconstructed(obs: seq<Observation>, rid: Id128)
    ensures var t := Reconstruct(obs, rid);
            && |t.phases| == 14 && Forward(t)
            && exists a: u64, e: u64 :: ArrivesAt(t.evidence, a) && EndsAt(t.evidence, e)
                 && LatencyOf(t) == if a == 0 || e <= a then 0 else e - a
  {
    hide Reconstruct, ArrivesAt, EndsAt, SlotsOf, LatencyOf, Forward;
    SlotsFromEvidence(obs, rid);
    var t := Reconstruct(obs, rid);
    TotalOfSlots(t.evidence, t.phases);
    var a: u64, e: u64 :| ArrivesAt(t.evidence, a) && EndsAt(t.evidence, e)
      && (t.phases[TOTAL].present <==> a != 0)
      && (t.phases[TOTAL].present ==> t.phases[TOTAL].start == a && t.phases[TOTAL].end == if e < a then a else e);
    LatencyBetween(t, a, e);
  }

  lemma LatencyBetween(t: FullTrace, a: u64, e: u64)
    requires t.phases[TOTAL].present <==> a != 0
    requires t.phases[TOTAL].present ==> t.phases[TOTAL].start == a && t.phases[TOTAL].end == if e < a then a else e
    ensures Forward(t) && LatencyOf(t) == if a == 0 || e <= a then 0 else e - a
  {
  }

  lemma TotalOfSlots(v: seq<Observation>, p: seq<PhaseInterval>)
    requires SlotsOf(v, p)
    ensures |p| == 14
    ensures exists a: u64, e: u64 ::
              && ArrivesAt(v, a) && EndsAt(v, e) && (p[TOTAL].present <==> a != 0)
              && (p[TOTAL].present ==> p[TOTAL].start == a && p[TOTAL].end == if e < a then a else e)
  {
    hide ArrivesAt, EndsAt, ArrivalSlot, MarksFirst, MarksLast, SpansFirstToLast;
    hide BatchSlot, DispatchSlot, FirstTokenSlot;
  }

  ghost function SpanOf(t: FullTrace): (n: u64)
    requires Forward(t)
  {
    LatencyIsSpan(t);
    Span(t)
  }

  ghost function Spans(ts: seq<FullTrace>): (s: seq<u64>)
    requires AllForward(ts)
  {
    seq(|ts|, i requires 0 <= i < |ts| => SpanOf(ts[i]))
  }

  lemma LatenciesAreSpans(ts: seq<FullTrace>)
    requires AllForward(ts)
    ensures Latencies(ts) == Spans(ts)
  {
    hide LatencyOf, Measure;
    forall i | 0 <= i < |ts| ensures Latencies(ts)[i] == Spans(ts)[i] { LatencyIsSpan(ts[i]); }
  }

  /** The tail in terms of time spent: exactly the traces that took at least the percentile of all
      spans, slowest first, and each explanation reports the time its request took. */
  lemma TailInSpans(ts: seq<FullTrace>, ordered: seq<FullTrace>, p: real, m: TailMetrics)
    requires AllForward(ts)
    requires multiset(ordered) == multiset(ts)
    requires forall i, j :: 0 <= i < j < |ordered| ==> Span(ordered[i]) >= Span(ordered[j])
    ensures Sorted(Slower, ordered) && Threshold(ts, p) == Percentile(Spans(ts), p)
    ensures var out := AtLeast(ordered, Threshold(ts, p));
            && (forall t: FullTrace :: t in ts ==>
                  Copies(out, t) == if Span(t) >= Percentile(Spans(ts), p) then Copies(ts, t) else 0)
            && (forall i, j :: 0 <= i < j < |out| ==> Span(out[i]) >= Span(out[j]))
            && (forall k :: 0 <= k < |out| ==> ExplainOne(out[k], m).latencyNs == Span(out[k]))
  {
    hide LatencyOf, Span, Percentile, AtLeast;
    LatenciesAreSpans(ts);
    forall i | 0 <= i < |ordered| ensures LatencyOf(ordered[i]) == Span(ordered[i]) {
      assert ordered[i] in multiset(ts);
      LatencyOfMember(ts, ordered[i]);
    }
    TailIsExact(ts, ordered, p);
    AtLeastIsPrefix(ordered, Threshold(ts, p));
    forall t: FullTrace | t in ts ensures LatencyOf(t) == Span(t) { LatencyOfMember(ts, t); }
  }

  lemma LatencyOfMember(ts: seq<FullTrace>, t: FullTrace)
    requires AllForward(ts) && t in ts
    ensures LatencyOf(t) == Span(t)
  {
    hide LatencyOf, Span;
    var i :| 0 <= i < |ts| && ts[i] == t;
    LatencyIsSpan(t);
  }

  /** The parts of an explanation that do not depend on floating point. */
  datatype TailExplanation = TailExplanation(requestId: Id128, latencyNs: u64, metrics: TailMetrics)

  function ExplainOne(t: FullTrace, m: TailMetrics): TailExplanation {
    TailExplanation(t.requestId, LatencyOf(t), m)
  }

  lemma SlowerIsWeakOrder()
    ensures WeakOrder(Slower)
  {
    hide LatencyOf;
  }

  method GatherLatencies(ts: seq<FullTrace>) returns (lats: seq<u64>)
    ensures lats == Latencies(ts)
  {
    hide LatencyOf;
    lats := [];
    for i := 0 to |ts|
      invariant lats == Latencies(ts[..i])
    {
      assert ts[..i + 1][..i] == ts[..i];
      lats := lats + [LatencyOf(ts[i])];
    }
    assert ts[..|ts|] == ts;
  }

  method SelectTail(ordered: seq<FullTrace>, threshold: u64, m: TailMetrics) returns (out: seq<TailExplanation>)
    ensures var tail := AtLeast(ordered, threshold);
            |out| == |tail| && forall i :: 0 <= i < |tail| ==> out[i] == ExplainOne(tail[i], m)
  {
    hide LatencyOf, ExplainOne;
    out := [];
    for i := 0 to |ordered|
      invariant var tail := AtLeast(ordered[..i], threshold);
                |out| == |tail| && forall k :: 0 <= k < |tail| ==> out[k] == ExplainOne(tail[k], m)
    {
      assert ordered[..i + 1][..i] == ordered[..i];
      if LatencyOf(ordered[i]) >= threshold {
        out := out + [ExplainOne(ordered[i], m)];
      }
    }
    assert ordered[..|ordered|] == ordered;
  }

  method ExplainTail(ts: seq<FullTrace>, p: real)
    returns (m: TailMetrics, ordered: seq<FullTrace>, out: seq<TailExplanation>)
    requires RankDefined(|ts|, p) && |ts| < TWO_64
    ensures Summarizes(m, Latencies(ts))
    ensures multiset(ordered) == multiset(ts) && Sorted(Slower, ordered)
    ensures var tail := AtLeast(ordered, Threshold(ts, p));
            |out| == |tail| && forall i :: 0 <= i < |tail| ==> out[i] == ExplainOne(tail[i], m)
  {
    hide LatencyOf, Percentile, RankDefined, Summarizes, SortBy, Sorted, Latencies, AtLeast, ExplainOne;
    var lats := GatherLatencies(ts);
    m := TailMetricsOf(lats);
    var threshold := PercentileOf(lats, p);
    ordered := SortBy(Slower, ts);
    SlowerIsWeakOrder();
    SortBySorts(Slower, ts);
    out := SelectTail(ordered, threshold, m);
  }
}
