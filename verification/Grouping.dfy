/** Correlation of traces by a key (src/analysis.cpp:278-315). */
module Grouping {
  import opened Types
  import opened Ordering
  import opened Observations
  import opened Traces
  import opened Percentiles
  import opened Tails

  const KV_HIT_OBS: ObsType := 17
  const KV_MISS_OBS: ObsType := 18
  const KERNEL_HIT_OBS: ObsType := 23
  const KERNEL_MISS_OBS: ObsType := 24
  const WORKER_DOWN_OBS: ObsType := 35
  const WORKER_RESTART_OBS: ObsType := 36

  type Key = FullTrace -> Bytes

  /** The eight totals kept per group. */
  datatype Tally = Tally(count: nat, latency: nat, retries: nat, restarts: nat,
                         kvHits: nat, kvMisses: nat, kernelHits: nat, kernelMisses: nat)

  const ZERO: Tally := Tally(0, 0, 0, 0, 0, 0, 0, 0)

  function Plus(a: Tally, b: Tally): Tally {
    Tally(a.count + b.count, a.latency + b.latency, a.retries + b.retries, a.restarts + b.restarts,
          a.kvHits + b.kvHits, a.kvMisses + b.kvMisses, a.kernelHits + b.kernelHits, a.kernelMisses + b.kernelMisses)
  }

  /** The totals are 64-bit counters. */
  function Wrap(a: Tally): Tally {
    Tally(a.count % TWO_64, a.latency % TWO_64, a.retries % TWO_64, a.restarts % TWO_64,
          a.kvHits % TWO_64, a.kvMisses % TWO_64, a.kernelHits % TWO_64, a.kernelMisses % TWO_64)
  }

  predicate FitsCounters(a: Tally) {
    && a.count < TWO_64 && a.latency < TWO_64 && a.retries < TWO_64 && a.restarts < TWO_64
    && a.kvHits < TWO_64 && a.kvMisses < TWO_64 && a.kernelHits < TWO_64 && a.kernelMisses < TWO_64
  }

  /** What one observation adds. */
  function Effect(kind: ObsType): Tally {
    if kind == RETRY_OBS then ZERO.(retries := 1)
    else if kind == WORKER_RESTART_OBS || kind == WORKER_DOWN_OBS then ZERO.(restarts := 1)
    else if kind == KV_HIT_OBS then ZERO.(kvHits := 1)
    else if kind == KV_MISS_OBS then ZERO.(kvMisses := 1)
    else if kind == KERNEL_HIT_OBS then ZERO.(kernelHits := 1)
    else if kind == KERNEL_MISS_OBS then ZERO.(kernelMisses := 1)
    else ZERO
  }

  function EvidenceTally(v: seq<Observation>): Tally {
    if v == [] then ZERO else Plus(EvidenceTally(v[..|v| - 1]), Effect(v[|v| - 1].kind))
  }

  function TallyOfTrace(t: FullTrace): Tally {
    Plus(ZERO.(count := 1, latency := LatencyOf(t)), EvidenceTally(t.evidence))
  }

  /** The totals of a list of traces, without any bound. */
  function TallyOf(ts: seq<FullTrace>): Tally {
    if ts == [] then ZERO else Plus(TallyOf(ts[..|ts| - 1]), TallyOfTrace(ts[|ts| - 1]))
  }

  function ForKey(ts: seq<FullTrace>, key: Key, k: Bytes): (group: seq<FullTrace>)
    ensures |group| <= |ts|
  {
    if ts == [] then []
    else
      var rest := ForKey(ts[..|ts| - 1], key, k);
      if key(ts[|ts| - 1]) == k then rest + [ts[|ts| - 1]] else rest
  }

  function KeysOf(ts: seq<FullTrace>, key: Key): set<Bytes> {
    set t | t in ts :: key(t)
  }

  /** The mean is exact; the code divides in binary64. */
  datatype GroupSummary = GroupSummary(key: Bytes, tally: Tally, mean: real, p50: u64, p90: u64, p99: u64)

  /** Total latency over count, both as the 64-bit counters hold them. */
  function MeanOfTally(a: Tally): real {
    if a.count == 0 then 0.0 else a.latency as real / a.count as real
  }

  function Summary(k: Bytes, group: seq<FullTrace>): GroupSummary {
    var ls := Latencies(group);
    var tally := Wrap(TallyOf(group));
    GroupSummary(k, tally, MeanOfTally(tally), Percentile(ls, 50.0), Percentile(ls, 90.0), Percentile(ls, 99.0))
  }

  function Summaries(ts: seq<FullTrace>, key: Key, ks: seq<Bytes>): (out: seq<GroupSummary>)
    ensures |out| == |ks|
    ensures forall i :: 0 <= i < |ks| ==> out[i].key == ks[i]
  {
    if ks == [] then []
    else Summaries(ts, key, ks[..|ks| - 1]) + [Summary(ks[|ks| - 1], ForKey(ts, key, ks[|ks| - 1]))]
  }

  /** One summary per key, in key order. */
  ghost function Correlate(ts: seq<FullTrace>, key: Key): seq<GroupSummary> {
    Summaries(ts, key, SortedKeys(BytesLess, KeysOf(ts, key)))
  }

  // ------------------------------------------------------------ arithmetic of tallies

  lemma PlusAssociates(a: Tally, b: Tally, c: Tally)
    ensures Plus(Plus(a, b), c) == Plus(a, Plus(b, c))
    ensures Plus(Plus(a, b), c) == Plus(Plus(a, c), b)
    ensures Plus(a, ZERO) == a
  {
  }

  lemma WrapOnce(a: nat, b: nat)
    ensures (a % TWO_64 + b) % TWO_64 == (a + b) % TWO_64
  {
  }

  /** Wrapping after every addition is wrapping once at the end. */
  lemma WrapAbsorbs(a: Tally, b: Tally)
    ensures Wrap(Plus(Wrap(a), b)) == Wrap(Plus(a, b))
  {
    WrapOnce(a.count, b.count);
    WrapOnce(a.latency, b.latency);
    WrapOnce(a.retries, b.retries);
    WrapOnce(a.restarts, b.restarts);
    WrapOnce(a.kvHits, b.kvHits);
    WrapOnce(a.kvMisses, b.kvMisses);
    WrapOnce(a.kernelHits, b.kernelHits);
    WrapOnce(a.kernelMisses, b.kernelMisses);
  }

  // ------------------------------------------------------------ conservation

  function SumOverKeys(ts: seq<FullTrace>, key: Key, ks: seq<Bytes>): Tally {
    if ks == [] then ZERO
    else Plus(SumOverKeys(ts, key, ks[..|ks| - 1]), TallyOf(ForKey(ts, key, ks[|ks| - 1])))
  }

  ghost predicate Distinct(ks: seq<Bytes>) {
    forall i, j :: 0 <= i < j < |ks| ==> ks[i] != ks[j]
  }

  lemma ForKeyLast(ts: seq<FullTrace>, key: Key, k: Bytes)
    requires ts != []
    ensures var n := |ts| - 1;
            TallyOf(ForKey(ts, key, k)) ==
            if key(ts[n]) == k then Plus(TallyOf(ForKey(ts[..n], key, k)), TallyOfTrace(ts[n]))
            else TallyOf(ForKey(ts[..n], key, k))
  {
    hide TallyOfTrace, Plus;
    var n := |ts| - 1;
    var rest := ForKey(ts[..n], key, k);
    assert (rest + [ts[n]])[..|rest|] == rest;
  }

  /** The last trace adds to the group of its key and to no other. */
  lemma {:induction false} SumLast(ts: seq<FullTrace>, key: Key, ks: seq<Bytes>)
    requires ts != [] && Distinct(ks)
    ensures var n := |ts| - 1;
            SumOverKeys(ts, key, ks) ==
            if key(ts[n]) in ks then Plus(SumOverKeys(ts[..n], key, ks), TallyOfTrace(ts[n]))
            else SumOverKeys(ts[..n], key, ks)
    decreases |ks|
  {
    hide TallyOf, ForKey, TallyOfTrace, Plus;
    if ks != [] {
      var n, m := |ts| - 1, |ks| - 1;
      SumLast(ts, key, ks[..m]);
      ForKeyLast(ts, key, ks[m]);
      assert ks == ks[..m] + [ks[m]];
      var sum, group, t := SumOverKeys(ts[..n], key, ks[..m]), TallyOf(ForKey(ts[..n], key, ks[m])),
          TallyOfTrace(ts[n]);
      PlusAssociates(sum, group, t);
      PlusAssociates(sum, t, group);
    }
  }

  lemma EmptyGroup(key: Key, k: Bytes)
    ensures TallyOf(ForKey([], key, k)) == ZERO
  {
  }

  lemma {:induction false} NothingToSum(key: Key, ks: seq<Bytes>)
    ensures SumOverKeys([], key, ks) == ZERO
  {
    hide TallyOf, ForKey, Plus;
    if ks != [] {
      NothingToSum(key, ks[..|ks| - 1]);
      EmptyGroup(key, ks[|ks| - 1]);
      PlusAssociates(ZERO, ZERO, ZERO);
    }
  }

  lemma {:induction false} SumIsWhole(ts: seq<FullTrace>, key: Key, ks: seq<Bytes>)
    requires Distinct(ks) && forall t :: t in ts ==> key(t) in ks
    ensures SumOverKeys(ts, key, ks) == TallyOf(ts)
    decreases |ts|
  {
    hide TallyOfTrace, Plus, SumOverKeys;
    if ts == [] {
      NothingToSum(key, ks);
    } else {
      var n := |ts| - 1;
      SumIsWhole(ts[..n], key, ks);
      SumLast(ts, key, ks);
      assert ts[n] in ts;
    }
  }

  /** Adding up what the summaries report. */
  function SumReported(gs: seq<GroupSummary>): Tally {
    if gs == [] then ZERO else Plus(SumReported(gs[..|gs| - 1]), gs[|gs| - 1].tally)
  }

  lemma {:induction false} ReportedIsWrapped(ts: seq<FullTrace>, key: Key, ks: seq<Bytes>)
    ensures Wrap(SumReported(Summaries(ts, key, ks))) == Wrap(SumOverKeys(ts, key, ks))
    ensures FitsCounters(SumOverKeys(ts, key, ks)) ==> SumReported(Summaries(ts, key, ks)) == SumOverKeys(ts, key, ks)
    decreases |ks|
  {
    hide TallyOf, ForKey, Percentile, Latencies;
    if ks != [] {
      var m := |ks| - 1;
      var group := TallyOf(ForKey(ts, key, ks[m]));
      ReportedIsWrapped(ts, key, ks[..m]);
      var out := Summaries(ts, key, ks);
      assert out[..m] == Summaries(ts, key, ks[..m]);
      assert out[m].tally == Wrap(group);
      WrapBoth(SumReported(out[..m]), SumOverKeys(ts, key, ks[..m]), group);
    }
  }

  lemma WrapBoth(a: Tally, b: Tally, g: Tally)
    requires Wrap(a) == Wrap(b)
    ensures Wrap(Plus(a, Wrap(g))) == Wrap(Plus(b, g))
    ensures FitsCounters(Plus(b, g)) ==> FitsCounters(b) && Wrap(g) == g
  {
    PlusCommutes(a, Wrap(g));
    PlusCommutes(a, g);
    WrapAbsorbs(g, a);
    WrapAbsorbs(a, g);
    WrapAbsorbs(b, g);
    FittingParts(b, g);
  }

  lemma PlusCommutes(a: Tally, b: Tally)
    ensures Plus(a, b) == Plus(b, a)
  {
  }

  lemma FittingParts(b: Tally, g: Tally)
    ensures FitsCounters(Plus(b, g)) ==> FitsCounters(b) && Wrap(g) == g
  {
  }

  lemma KeysAreDistinct(s: set<Bytes>)
    ensures StrictlySorted(BytesLess, SortedKeys(BytesLess, s)) && Distinct(SortedKeys(BytesLess, s))
  {
    hide BytesLess, SortedKeys;
    BytesLessTotal();
    SortedKeysSorted(BytesLess, s);
    DistinctFromSet(s, SortedKeys(BytesLess, s));
  }

  /** For every key function: one summary per key that occurs, in strictly increasing key order, and
      every total adds up over the groups to that of the whole list, modulo the counter width and
      exactly when the whole fits. */
  lemma GroupingConserves(ts: seq<FullTrace>, key: Key)
    ensures var out := Correlate(ts, key);
            && (forall i, j :: 0 <= i < j < |out| ==> BytesLess(out[i].key, out[j].key))
            && (forall k :: (exists i :: 0 <= i < |out| && out[i].key == k) <==> k in KeysOf(ts, key))
            && Wrap(SumReported(out)) == Wrap(TallyOf(ts))
            && (FitsCounters(TallyOf(ts)) ==> SumReported(out) == TallyOf(ts))
  {
    hide BytesLess, SortedKeys, Wrap, FitsCounters, SumReported, TallyOf, SumOverKeys, Summaries;
    var ks := SortedKeys(BytesLess, KeysOf(ts, key));
    var out := Correlate(ts, key);
    KeysAreDistinct(KeysOf(ts, key));
    forall k ensures (exists i :: 0 <= i < |out| && out[i].key == k) <==> k in KeysOf(ts, key) {
      assert k in ks <==> k in KeysOf(ts, key);
      if k in ks {
        var i :| 0 <= i < |ks| && ks[i] == k;
        assert out[i].key == k;
      }
    }
    SumIsWhole(ts, key, ks);
    ReportedIsWrapped(ts, key, ks);
  }

  // ------------------------------------------------------------ what the totals count

  /** Where the evidence of a trace is of one of some kinds. */
  function Hits(v: seq<Observation>, kinds: set<ObsType>): set<nat> {
    set j: nat | j < |v| && v[j].kind in kinds
  }

  lemma HitsStep(v: seq<Observation>, kinds: set<ObsType>)
    requires v != []
    ensures var n := |v| - 1; |Hits(v, kinds)| == |Hits(v[..n], kinds)| + if v[n].kind in kinds then 1 else 0
  {
    var n := |v| - 1;
    assert Hits(v, kinds) == Hits(v[..n], kinds) + if v[n].kind in kinds then {n} else {};
  }

  const RETRIES: set<ObsType> := {RETRY_OBS}
  const RESTARTS: set<ObsType> := {WORKER_RESTART_OBS, WORKER_DOWN_OBS}

  lemma {:induction false} EvidenceCounted(v: seq<Observation>)
    ensures var e := EvidenceTally(v);
            && e.count == 0 && e.latency == 0
            && e.retries == |Hits(v, RETRIES)| && e.restarts == |Hits(v, RESTARTS)|
            && e.kvHits == |Hits(v, {KV_HIT_OBS})| && e.kvMisses == |Hits(v, {KV_MISS_OBS})|
            && e.kernelHits == |Hits(v, {KERNEL_HIT_OBS})| && e.kernelMisses == |Hits(v, {KERNEL_MISS_OBS})|
  {
    hide Hits;
    if v == [] {
      NoHits(v);
    } else {
      EvidenceCounted(v[..|v| - 1]);
      HitsStep(v, RETRIES);
      HitsStep(v, RESTARTS);
      HitsStep(v, {KV_HIT_OBS});
      HitsStep(v, {KV_MISS_OBS});
      HitsStep(v, {KERNEL_HIT_OBS});
      HitsStep(v, {KERNEL_MISS_OBS});
    }
  }

  lemma NoHits(v: seq<Observation>)
    requires v == []
    ensures forall kinds :: |Hits(v, kinds)| == 0
  {
    forall kinds ensures |Hits(v, kinds)| == 0 { assert Hits(v, kinds) == {}; }
  }

  /** Which evidence, of which trace, is of one of some kinds. */
  function Occurrences(ts: seq<FullTrace>, kinds: set<ObsType>): set<(nat, nat)> {
    set i: nat, j: nat | i < |ts| && j in Hits(ts[i].evidence, kinds) :: (i, j)
  }

  function Row(n: nat, hits: set<nat>): set<(nat, nat)> {
    set j: nat | j in hits :: (n, j)
  }

  lemma {:induction false} RowSize(n: nat, hits: set<nat>)
    ensures |Row(n, hits)| == |hits|
    decreases |hits|
  {
    if hits == {} {
      assert Row(n, hits) == {};
    } else {
      var j :| j in hits;
      RowSize(n, hits - {j});
      assert Row(n, hits) == Row(n, hits - {j}) + {(n, j)};
    }
  }

  lemma OccurrencesStep(ts: seq<FullTrace>, kinds: set<ObsType>)
    requires ts != []
    ensures var n := |ts| - 1;
            |Occurrences(ts, kinds)| == |Occurrences(ts[..n], kinds)| + |Hits(ts[n].evidence, kinds)|
  {
    hide Hits;
    var n := |ts| - 1;
    var before, row := Occurrences(ts[..n], kinds), Row(n, Hits(ts[n].evidence, kinds));
    RowSize(n, Hits(ts[n].evidence, kinds));
    assert forall i :: 0 <= i < n ==> ts[..n][i] == ts[i];
    assert Occurrences(ts, kinds) == before + row;
    assert before !! row;
  }

  lemma NoOccurrences(ts: seq<FullTrace>, kinds: set<ObsType>)
    requires ts == []
    ensures |Occurrences(ts, kinds)| == 0
  {
    assert Occurrences(ts, kinds) == {};
  }

  ghost function TotalSpan(ts: seq<FullTrace>): nat {
    if ts == [] then 0 else TotalSpan(ts[..|ts| - 1]) + Span(ts[|ts| - 1])
  }

  /** The totals are: how many traces, the time they took, and how many occurrences of each kind of
      evidence there are in them. */
  ghost predicate Totals(a: Tally, ts: seq<FullTrace>) {
    && a.count == |ts|
    && (AllForward(ts) ==> a.latency == TotalSpan(ts))
    && a.retries == |Occurrences(ts, RETRIES)| && a.restarts == |Occurrences(ts, RESTARTS)|
    && a.kvHits == |Occurrences(ts, {KV_HIT_OBS})| && a.kvMisses == |Occurrences(ts, {KV_MISS_OBS})|
    && a.kernelHits == |Occurrences(ts, {KERNEL_HIT_OBS})| && a.kernelMisses == |Occurrences(ts, {KERNEL_MISS_OBS})|
  }

  lemma OneTrace(t: FullTrace)
    ensures var e := TallyOfTrace(t);
            && e.count == 1 && (Forward(t) ==> e.latency == Span(t))
            && e.retries == |Hits(t.evidence, RETRIES)| && e.restarts == |Hits(t.evidence, RESTARTS)|
            && e.kvHits == |Hits(t.evidence, {KV_HIT_OBS})| && e.kvMisses == |Hits(t.evidence, {KV_MISS_OBS})|
            && e.kernelHits == |Hits(t.evidence, {KERNEL_HIT_OBS})|
            && e.kernelMisses == |Hits(t.evidence, {KERNEL_MISS_OBS})|
  {
    hide Hits, EvidenceTally, LatencyOf, Span, Forward;
    EvidenceCounted(t.evidence);
    LatencyIsSpan(t);
  }

  lemma {:induction false} TalliesAreTotals(ts: seq<FullTrace>)
    ensures Totals(TallyOf(ts), ts)
  {
    hide Occurrences, Hits, TallyOfTrace, Span, Forward;
    if ts == [] {
      NoOccurrences(ts, RETRIES);
      NoOccurrences(ts, RESTARTS);
      NoOccurrences(ts, {KV_HIT_OBS});
      NoOccurrences(ts, {KV_MISS_OBS});
      NoOccurrences(ts, {KERNEL_HIT_OBS});
      NoOccurrences(ts, {KERNEL_MISS_OBS});
    } else {
      var n := |ts| - 1;
      TalliesAreTotals(ts[..n]);
      OneTrace(ts[n]);
      OccurrencesStep(ts, RETRIES);
      OccurrencesStep(ts, RESTARTS);
      OccurrencesStep(ts, {KV_HIT_OBS});
      OccurrencesStep(ts, {KV_MISS_OBS});
      OccurrencesStep(ts, {KERNEL_HIT_OBS});
      OccurrencesStep(ts, {KERNEL_MISS_OBS});
      assert forall i :: 0 <= i < n ==> ts[..n][i] == ts[i];
    }
  }

  /** Every group reports, modulo the counter width, the totals of exactly the traces of its key, and the
      percentiles of their latencies. */
  ghost predicate Reports(g: GroupSummary, group: seq<FullTrace>) {
    exists a: Tally ::
      && Totals(a, group)
      && g.tally == Tally(a.count % TWO_64, a.latency % TWO_64, a.retries % TWO_64, a.restarts % TWO_64,
                          a.kvHits % TWO_64, a.kvMisses % TWO_64, a.kernelHits % TWO_64, a.kernelMisses % TWO_64)
      && g.p50 == Percentile(Latencies(group), 50.0) && g.p90 == Percentile(Latencies(group), 90.0)
      && g.p99 == Percentile(Latencies(group), 99.0)
  }

  /** The traces of a key: those given, as often and in the order given. */
  lemma {:induction false} GroupIsItsTraces(ts: seq<FullTrace>, key: Key, k: Bytes)
    ensures forall t: FullTrace ::
              Copies(ForKey(ts, key, k), t) == if key(t) == k then Copies(ts, t) else 0
  {
    if ts != [] {
      var n := |ts| - 1;
      GroupIsItsTraces(ts[..n], key, k);
      assert ts == ts[..n] + [ts[n]];
    }
  }

  lemma GroupsReport(ts: seq<FullTrace>, key: Key)
    ensures var out := Correlate(ts, key);
            forall i :: 0 <= i < |out| ==> Reports(out[i], ForKey(ts, key, out[i].key))
  {
    hide Totals, Percentile, Latencies, TallyOf, ForKey, SortedKeys, Wrap;
    var ks := SortedKeys(BytesLess, KeysOf(ts, key));
    SummariesAt(ts, key, ks);
    forall i | 0 <= i < |ks| ensures Reports(Correlate(ts, key)[i], ForKey(ts, key, ks[i])) {
      var group := ForKey(ts, key, ks[i]);
      TalliesAreTotals(group);
      WrapIsModulo(TallyOf(group));
    }
  }

  lemma WrapIsModulo(a: Tally)
    ensures Wrap(a) == Tally(a.count % TWO_64, a.latency % TWO_64, a.retries % TWO_64, a.restarts % TWO_64,
                             a.kvHits % TWO_64, a.kvMisses % TWO_64, a.kernelHits % TWO_64, a.kernelMisses % TWO_64)
  {
  }

  lemma {:induction false} SummariesAt(ts: seq<FullTrace>, key: Key, ks: seq<Bytes>)
    ensures forall i :: 0 <= i < |ks| ==> Summaries(ts, key, ks)[i] == Summary(ks[i], ForKey(ts, key, ks[i]))
    decreases |ks|
  {
    hide Summary, ForKey;
    if ks != [] {
      var n := |ks| - 1;
      SummariesAt(ts, key, ks[..n]);
      forall i | 0 <= i < n ensures Summaries(ts, key, ks)[i] == Summary(ks[i], ForKey(ts, key, ks[i])) {
        assert ks[..n][i] == ks[i];
      }
    }
  }

  // ------------------------------------------------------------ the code

  datatype Accumulator = Accumulator(tally: Tally, lats: seq<u64>)

  function Accumulated(group: seq<FullTrace>): Accumulator {
    Accumulator(Wrap(TallyOf(group)), Latencies(group))
  }

  method AddEvidence(a: Tally, v: seq<Observation>) returns (r: Tally)
    requires a == Wrap(a)
    ensures r == Wrap(Plus(a, EvidenceTally(v)))
  {
    hide Wrap, Plus, Effect;
    r := a;
    PlusAssociates(a, ZERO, ZERO);
    for i := 0 to |v|
      invariant r == Wrap(Plus(a, EvidenceTally(v[..i])))
    {
      assert v[..i + 1][..i] == v[..i];
      var so := EvidenceTally(v[..i]);
      WrapAbsorbs(Plus(a, so), Effect(v[i].kind));
      PlusAssociates(a, so, Effect(v[i].kind));
      r := Wrap(Plus(r, Effect(v[i].kind)));
    }
    assert v[..|v|] == v;
  }

  lemma AccumulateStep(group: seq<FullTrace>, t: FullTrace)
    ensures Accumulated(group + [t]) ==
            var bumped := Wrap(Plus(Wrap(TallyOf(group)), ZERO.(count := 1, latency := LatencyOf(t))));
            Accumulator(Wrap(Plus(bumped, EvidenceTally(t.evidence))), Latencies(group) + [LatencyOf(t)])
  {
    hide Wrap, Plus, LatencyOf;
    assert (group + [t])[..|group|] == group;
    var one, g, e := ZERO.(count := 1, latency := LatencyOf(t)), TallyOf(group), EvidenceTally(t.evidence);
    WrapAbsorbs(g, one);
    WrapAbsorbs(Plus(g, one), e);
    PlusAssociates(g, one, e);
  }

  lemma WrapTwice(a: Tally)
    ensures Wrap(Wrap(a)) == Wrap(a)
  {
  }

  /** One trace joins the accumulator of its group. */
  method Accumulate(a: Accumulator, t: FullTrace, ghost group: seq<FullTrace>) returns (r: Accumulator)
    requires a == Accumulated(group)
    ensures r == Accumulated(group + [t])
  {
    hide Wrap, Plus, LatencyOf;
    var l := LatencyOf(t);
    var bumped := Wrap(Plus(a.tally, ZERO.(count := 1, latency := l)));
    WrapTwice(Plus(a.tally, ZERO.(count := 1, latency := l)));
    AccumulateStep(group, t);
    var tally := AddEvidence(bumped, t.evidence);
    r := Accumulator(tally, a.lats + [l]);
  }

  ghost predicate Gathered(acc: map<Bytes, Accumulator>, ts: seq<FullTrace>, key: Key) {
    acc.Keys == KeysOf(ts, key) && forall k :: k in acc ==> acc[k] == Accumulated(ForKey(ts, key, k))
  }

  lemma {:induction false} NoneForKey(ts: seq<FullTrace>, key: Key, k: Bytes)
    requires k !in KeysOf(ts, key)
    ensures ForKey(ts, key, k) == []
  {
    if ts != [] {
      var n := |ts| - 1;
      assert ts[n] in ts && forall t :: t in ts[..n] ==> t in ts;
      NoneForKey(ts[..n], key, k);
    }
  }

  lemma GatherStep(acc: map<Bytes, Accumulator>, ts: seq<FullTrace>, key: Key, i: nat)
    requires i < |ts| && Gathered(acc, ts[..i], key)
    ensures Gathered(acc[key(ts[i]) := Accumulated(ForKey(ts[..i], key, key(ts[i])) + [ts[i]])], ts[..i + 1], key)
  {
    hide Accumulated;
    assert ts[..i + 1][..i] == ts[..i];
    assert forall t :: t in ts[..i + 1] <==> t in ts[..i] || t == ts[i];
  }

  method Gather(ts: seq<FullTrace>, key: Key) returns (acc: map<Bytes, Accumulator>)
    ensures Gathered(acc, ts, key)
  {
    hide Accumulated, ForKey;
    acc := map[];
    for i := 0 to |ts|
      invariant Gathered(acc, ts[..i], key)
    {
      var k := key(ts[i]);
      if k !in acc { NoneForKey(ts[..i], key, k); }
      NothingAccumulated();
      var a := if k in acc then acc[k] else Accumulator(ZERO, []);
      GatherStep(acc, ts, key, i);
      a := Accumulate(a, ts[i], ForKey(ts[..i], key, k));
      acc := acc[k := a];
    }
    assert ts[..|ts|] == ts;
  }

  lemma NothingAccumulated()
    ensures Accumulated([]) == Accumulator(ZERO, [])
  {
  }

  predicate KeyBefore(a: GroupSummary, b: GroupSummary) {
    BytesLess(a.key, b.key)
  }

  lemma KeyBeforeIsWeakOrder()
    ensures WeakOrder(KeyBefore)
  {
    hide BytesLess;
    BytesLessTotal();
    TotalOrderIsWeak(BytesLess);
    forall x, y, z | KeyBefore(x, z) ensures KeyBefore(x, y) || KeyBefore(y, z) {
      assert BytesLess(x.key, z.key);
    }
    forall x, y, z | KeyBefore(x, y) && KeyBefore(y, z) ensures KeyBefore(x, z) {
      assert BytesLess(x.key, y.key) && BytesLess(y.key, z.key);
    }
    forall x ensures !KeyBefore(x, x) {
      assert !BytesLess(x.key, x.key);
    }
  }

  lemma KeysCompare(out: seq<GroupSummary>)
    requires forall i, j :: 0 <= i < j < |out| ==> BytesLess(out[i].key, out[j].key)
    ensures TotalOn(KeyBefore, multiset(out))
  {
    hide BytesLess;
    forall x, y | x in multiset(out) && y in multiset(out) ensures x == y || KeyBefore(x, y) || KeyBefore(y, x) {
      var i :| 0 <= i < |out| && out[i] == x;
      var j :| 0 <= j < |out| && out[j] == y;
    }
  }

  lemma KeysSorted(out: seq<GroupSummary>)
    requires forall i, j :: 0 <= i < j < |out| ==> BytesLess(out[i].key, out[j].key)
    ensures Sorted(KeyBefore, out)
  {
    hide BytesLess;
    KeyBeforeIsWeakOrder();
    forall i, j | 0 <= i < j < |out| ensures !KeyBefore(out[j], out[i]) {
      assert KeyBefore(out[i], out[j]) && !KeyBefore(out[i], out[i]);
    }
  }

  /** Sorting by key changes nothing, since the map was traversed in key order. */
  lemma AlreadySorted(out: seq<GroupSummary>)
    requires forall i, j :: 0 <= i < j < |out| ==> BytesLess(out[i].key, out[j].key)
    ensures SortBy(KeyBefore, out) == out
  {
    hide BytesLess, WeakOrder, TotalOn, Sorted, SortBy;
    KeyBeforeIsWeakOrder();
    KeysCompare(out);
    KeysSorted(out);
    SortIsTheOnlySorting(KeyBefore, out, out);
  }

  method Summarize(k: Bytes, a: Accumulator, ghost group: seq<FullTrace>) returns (g: GroupSummary)
    requires a == Accumulated(group) && |group| < TWO_64
    ensures g == Summary(k, group)
  {
    hide Percentile, RankDefined, TallyOf, Wrap, MeanOfTally;
    PercentsAreDefined(|a.lats|, 50.0);
    PercentsAreDefined(|a.lats|, 90.0);
    PercentsAreDefined(|a.lats|, 99.0);
    var p50 := PercentileOf(a.lats, 50.0);
    var p90 := PercentileOf(a.lats, 90.0);
    var p99 := PercentileOf(a.lats, 99.0);
    g := GroupSummary(k, a.tally, MeanOfTally(a.tally), p50, p90, p99);
  }

  method SummarizeAll(ghost ts: seq<FullTrace>, ghost key: Key, acc: map<Bytes, Accumulator>, ks: seq<Bytes>)
    returns (out: seq<GroupSummary>)
    requires |ts| < TWO_64 && Gathered(acc, ts, key) && forall k :: k in ks ==> k in acc
    ensures out == Summaries(ts, key, ks)
  {
    hide BytesLess, KeysOf, ForKey, Summary, Accumulated;
    out := [];
    for i := 0 to |ks|
      invariant out == Summaries(ts, key, ks[..i])
    {
      assert ks[..i + 1][..i] == ks[..i];
      var k := ks[i];
      assert k in acc;
      var g := Summarize(k, acc[k], ForKey(ts, key, k));
      out := out + [g];
    }
    assert ks[..|ks|] == ks;
  }

  /** The final sort changes nothing. */
  lemma CorrelateSorted(ts: seq<FullTrace>, key: Key)
    ensures SortBy(KeyBefore, Correlate(ts, key)) == Correlate(ts, key)
  {
    hide BytesLess, SortedKeys, KeysOf, SortBy, Summary, ForKey;
    KeysAreDistinct(KeysOf(ts, key));
    AlreadySorted(Correlate(ts, key));
  }

  method CorrelateBy(ts: seq<FullTrace>, key: Key) returns (out: seq<GroupSummary>)
    requires |ts| < TWO_64
    ensures out == Correlate(ts, key)
  {
    var acc := Gather(ts, key);
    BytesLessTotal();
    hide BytesLess, SortedKeys, ForKey, Summaries, Accumulated, SortBy, TotalOrder;
    var ks := KeysInOrder(BytesLess, acc.Keys);
    out := SummarizeAll(ts, key, acc, ks);
    CorrelateSorted(ts, key);
    out := SortBy(KeyBefore, out);
  }
}
