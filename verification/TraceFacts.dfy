/** What a reconstructed trace says about its evidence, index by index (src/trace.cpp:32-254): which
    observation each phase, identity and outcome is taken from, and when there is none. */
module TraceFacts {
  import opened Types
  import opened Identity
  import opened Ordering
  import opened Observations
  import opened Traces

  // ------------------------------------------------------------ order and time of the evidence

  /** The receive time counts when there is one, else the source's own time, else there is none. */
  lemma TimeOfEvidence(o: Observation)
    ensures o.hasRecvTs ==> ObsTime(o).ts == o.recvTs && ObsTime(o).inRecvDomain
    ensures !o.hasRecvTs && o.hasObsTs ==> ObsTime(o).ts == o.obsTs && !ObsTime(o).inRecvDomain
    ensures !o.hasRecvTs && !o.hasObsTs ==> ObsTime(o).ts == 0 && !ObsTime(o).inRecvDomain
  {
  }

  /** Time first, the coordinator's clock before the source's at equal times, then sequence number,
      then identity. */
  ghost predicate InOrder(a: Observation, b: Observation) {
    var s, t := ObsTime(a), ObsTime(b);
    || s.ts < t.ts
    || (s.ts == t.ts && s.inRecvDomain && !t.inRecvDomain)
    || (s == t && a.seqNum < b.seqNum)
    || (s == t && a.seqNum == b.seqNum && (a.id.hi < b.id.hi || (a.id.hi == b.id.hi && a.id.lo <= b.id.lo)))
  }

  /** The evidence of a trace is what it was given, in that order. */
  lemma EvidenceInOrder(obs: seq<Observation>, rid: Id128)
    ensures var v := Reconstruct(obs, rid).evidence;
            multiset(v) == multiset(obs) && forall i, j :: 0 <= i < j < |v| ==> InOrder(v[i], v[j])
  {
    hide SortBy, Timeline, ExtractPhases;
    var v := SortBy(ObsLess, obs);
    ObsLessIsWeakOrder();
    SortBySorts(ObsLess, obs);
    hide WeakOrder;
    forall i, j | 0 <= i < j < |v| ensures InOrder(v[i], v[j]) {
      assert !ObsLess(v[j], v[i]);
    }
  }

  // ------------------------------------------------------------ first and last of a kind

  ghost predicate First(v: seq<Observation>, t: ObsType, i: nat) {
    i < |v| && v[i].kind == t && forall k :: 0 <= k < i ==> v[k].kind != t
  }

  ghost predicate Last(v: seq<Observation>, t: ObsType, j: nat) {
    j < |v| && v[j].kind == t && forall k :: j < k < |v| ==> v[k].kind != t
  }

  ghost predicate Absent(v: seq<Observation>, t: ObsType) {
    forall k :: 0 <= k < |v| ==> v[k].kind != t
  }

  lemma {:induction false} FirstFound(v: seq<Observation>, t: ObsType)
    ensures FirstObs(v, t).None? <==> Absent(v, t)
    ensures FirstObs(v, t).Some? ==> exists i: nat :: First(v, t, i) && v[i] == FirstObs(v, t).value
  {
    if v != [] {
      if v[0].kind == t {
        assert First(v, t, 0);
      } else {
        FirstFound(v[1..], t);
        if FirstObs(v[1..], t).Some? {
          var i: nat :| First(v[1..], t, i) && v[1..][i] == FirstObs(v[1..], t).value;
          assert First(v, t, i + 1);
        }
      }
    }
  }

  lemma LastExtends(v: seq<Observation>, t: ObsType, j: nat)
    requires v != [] && v[|v| - 1].kind != t && Last(v[..|v| - 1], t, j)
    ensures Last(v, t, j) && v[j] == v[..|v| - 1][j]
  {
    var n := |v| - 1;
    forall k | j < k < |v| ensures v[k].kind != t { if k < n { assert v[..n][k] == v[k]; } }
  }

  lemma {:induction false} LastFound(v: seq<Observation>, t: ObsType)
    ensures LastObs(v, t).None? <==> Absent(v, t)
    ensures LastObs(v, t).Some? ==> exists j: nat :: Last(v, t, j) && v[j] == LastObs(v, t).value
  {
    if v != [] {
      var n := |v| - 1;
      if v[n].kind == t {
        assert Last(v, t, n);
      } else {
        LastFound(v[..n], t);
        if LastObs(v[..n], t).Some? {
          var j: nat :| Last(v[..n], t, j) && v[..n][j] == LastObs(v[..n], t).value;
          LastExtends(v, t, j);
        }
      }
    }
  }

  lemma FirstUnique(v: seq<Observation>, t: ObsType, i: nat)
    requires First(v, t, i)
    ensures FirstObs(v, t) == Some(v[i])
  {
    FirstFound(v, t);
  }

  lemma LastUnique(v: seq<Observation>, t: ObsType, j: nat)
    requires Last(v, t, j)
    ensures LastObs(v, t) == Some(v[j])
  {
    LastFound(v, t);
  }

  // ------------------------------------------------------------ what a slot says

  ghost predicate IsTimed(o: Observation) {
    ObsTime(o).ts != 0
  }

  /** A mark at the first observation of a kind, if that has a time. */
  ghost predicate MarksFirst(v: seq<Observation>, p: PhaseInterval, phase: Phase, t: ObsType) {
    && (p.present <==> exists i: nat :: First(v, t, i) && IsTimed(v[i]))
    && forall i: nat :: p.present && First(v, t, i) ==> MarksAt(p, phase, v[i])
  }

  ghost predicate MarksLast(v: seq<Observation>, p: PhaseInterval, phase: Phase, t: ObsType) {
    && (p.present <==> exists i: nat :: Last(v, t, i) && IsTimed(v[i]))
    && forall i: nat :: p.present && Last(v, t, i) ==> MarksAt(p, phase, v[i])
  }

  ghost predicate MarksAt(p: PhaseInterval, phase: Phase, o: Observation) {
    && p.phase == phase && p.start == p.end == ObsTime(o).ts
    && p.provenance == o.provenance && p.source == Some(o.source)
  }

  /** Measured when both ends are on the coordinator's clock. */
  ghost predicate EndsClock(p: PhaseInterval, s: TimedObs, e: TimedObs) {
    p.provenance == if s.inRecvDomain && e.inRecvDomain then MEASURED else RECONSTRUCTED
  }

  /** From the first observation of one kind to the last of another, if both have a time. */
  ghost predicate SpansFirstToLast(v: seq<Observation>, p: PhaseInterval, phase: Phase, s: ObsType, e: ObsType) {
    && (p.present <==> exists i: nat, j: nat :: First(v, s, i) && Last(v, e, j) && IsTimed(v[i]) && IsTimed(v[j]))
    && forall i: nat, j: nat :: p.present && First(v, s, i) && Last(v, e, j) ==> SpansBetween(p, phase, v[i], v[j])
  }

  ghost predicate SpansBetween(p: PhaseInterval, phase: Phase, s: Observation, e: Observation) {
    && p.phase == phase && p.start == ObsTime(s).ts && p.end == ObsTime(e).ts
    && p.source == Some(s.source) && EndsClock(p, ObsTime(s), ObsTime(e))
  }

  lemma MarkFirst(v: seq<Observation>, phase: Phase, t: ObsType, n: nat)
    ensures MarksFirst(v, Mark(phase, FirstObs(v, t), n), phase, t)
  {
    FirstFound(v, t);
    hide FirstObs, ObsTime;
    forall i: nat | First(v, t, i) ensures FirstObs(v, t) == Some(v[i]) { FirstUnique(v, t, i); }
  }

  lemma MarkLast(v: seq<Observation>, phase: Phase, t: ObsType, n: nat)
    ensures MarksLast(v, Mark(phase, LastObs(v, t), n), phase, t)
  {
    LastFound(v, t);
    hide LastObs, ObsTime;
    forall i: nat | Last(v, t, i) ensures LastObs(v, t) == Some(v[i]) { LastUnique(v, t, i); }
  }

  lemma SpanFirstToLast(v: seq<Observation>, phase: Phase, s: ObsType, e: ObsType, n: nat)
    ensures SpansFirstToLast(v, Between(phase, FirstObs(v, s), LastObs(v, e), n), phase, s, e)
  {
    FirstFound(v, s);
    LastFound(v, e);
    hide FirstObs, LastObs, ObsTime;
    forall i: nat | First(v, s, i) ensures FirstObs(v, s) == Some(v[i]) { FirstUnique(v, s, i); }
    forall i: nat | Last(v, e, i) ensures LastObs(v, e) == Some(v[i]) { LastUnique(v, e, i); }
  }

  // ------------------------------------------------------------ arrival, end, total

  ghost predicate TimedFirst(v: seq<Observation>, t: ObsType, i: nat) {
    First(v, t, i) && IsTimed(v[i])
  }

  ghost predicate NoTimedFirst(v: seq<Observation>, t: ObsType) {
    forall i: nat :: !TimedFirst(v, t, i)
  }

  /** The first REQUEST's time, else the first QUEUE_ENTER's, else that of the earliest evidence. */
  ghost predicate ArrivesAt(v: seq<Observation>, a: u64) {
    || (exists i: nat :: TimedFirst(v, REQUEST_OBS, i) && a == ObsTime(v[i]).ts)
    || (NoTimedFirst(v, REQUEST_OBS) && exists i: nat :: TimedFirst(v, QUEUE_ENTER_OBS, i) && a == ObsTime(v[i]).ts)
    || (NoTimedFirst(v, REQUEST_OBS) && NoTimedFirst(v, QUEUE_ENTER_OBS)
        && a == if v == [] then 0 else ObsTime(v[0]).ts)
  }

  ghost predicate TimedLast(v: seq<Observation>, t: ObsType, i: nat) {
    Last(v, t, i) && IsTimed(v[i])
  }

  ghost predicate NoTimedLast(v: seq<Observation>, t: ObsType) {
    forall i: nat :: !TimedLast(v, t, i)
  }

  /** The last COMPLETION's time, else that of the latest evidence. */
  ghost predicate EndsAt(v: seq<Observation>, e: u64) {
    || (exists i: nat :: TimedLast(v, COMPLETION_OBS, i) && e == ObsTime(v[i]).ts)
    || (NoTimedLast(v, COMPLETION_OBS) && e == if v == [] then 0 else ObsTime(v[|v| - 1]).ts)
  }

  lemma TimedFirstFound(v: seq<Observation>, t: ObsType)
    ensures TimeOf(FirstObs(v, t)).ts == 0 <==> NoTimedFirst(v, t)
    ensures TimeOf(FirstObs(v, t)).ts != 0 ==>
              exists i: nat :: TimedFirst(v, t, i) && ObsTime(v[i]) == TimeOf(FirstObs(v, t))
  {
    FirstFound(v, t);
    hide FirstObs, ObsTime;
    forall i: nat | First(v, t, i) ensures FirstObs(v, t) == Some(v[i]) { FirstUnique(v, t, i); }
    if FirstObs(v, t).Some? {
      var i: nat :| First(v, t, i) && v[i] == FirstObs(v, t).value;
      assert TimedFirst(v, t, i) <==> TimeOf(FirstObs(v, t)).ts != 0;
    }
  }

  lemma TimedLastFound(v: seq<Observation>, t: ObsType)
    ensures TimeOf(LastObs(v, t)).ts == 0 <==> NoTimedLast(v, t)
    ensures TimeOf(LastObs(v, t)).ts != 0 ==>
              exists i: nat :: TimedLast(v, t, i) && ObsTime(v[i]) == TimeOf(LastObs(v, t))
  {
    LastFound(v, t);
    hide LastObs, ObsTime;
    forall i: nat | Last(v, t, i) ensures LastObs(v, t) == Some(v[i]) { LastUnique(v, t, i); }
    if LastObs(v, t).Some? {
      var i: nat :| Last(v, t, i) && v[i] == LastObs(v, t).value;
      assert TimedLast(v, t, i) <==> TimeOf(LastObs(v, t)).ts != 0;
    }
  }

  lemma ArrivalIsChosen(v: seq<Observation>)
    ensures ArrivesAt(v, ArrivalTime(v).ts)
  {
    TimedFirstFound(v, REQUEST_OBS);
    TimedFirstFound(v, QUEUE_ENTER_OBS);
    hide FirstObs, ObsTime, TimedFirst, NoTimedFirst, TimeOf;
  }

  lemma EndIsChosen(v: seq<Observation>)
    ensures EndsAt(v, EndTime(v).ts)
  {
    TimedLastFound(v, COMPLETION_OBS);
    hide LastObs, ObsTime, TimedLast, NoTimedLast, TimeOf;
  }

  /** ARRIVAL is a mark at the chosen arrival, attributed to the first REQUEST if there is one. */
  ghost predicate ArrivalSlot(v: seq<Observation>, p: PhaseInterval) {
    exists a: u64 ::
      && ArrivesAt(v, a) && (p.present <==> a != 0)
      && (p.present ==> p.phase == ARRIVAL && p.start == p.end == a)
      && (p.present && Absent(v, REQUEST_OBS) ==> p.provenance == RECONSTRUCTED && p.source == None)
      && forall i: nat :: p.present && First(v, REQUEST_OBS, i) ==>
           p.provenance == v[i].provenance && p.source == Some(v[i].source)
  }

  /** TOTAL runs from the chosen arrival to the chosen end, and never backwards. */
  ghost predicate TotalSlot(v: seq<Observation>, p: PhaseInterval) {
    exists a: u64, e: u64 ::
      && ArrivesAt(v, a) && EndsAt(v, e) && (p.present <==> a != 0)
      && (p.present ==>
            && p.phase == TOTAL && p.start == a && p.end == (if e < a then a else e)
            && p.provenance == RECONSTRUCTED && p.source == None)
  }

  lemma ArrivalSlotHolds(v: seq<Observation>)
    ensures ArrivalSlot(v, ArrivalPhase(v))
  {
    ArrivalIsChosen(v);
    FirstFound(v, REQUEST_OBS);
    hide FirstObs, ArrivalTime, ArrivesAt;
    forall i: nat | First(v, REQUEST_OBS, i)
        ensures FirstObs(v, REQUEST_OBS) == Some(v[i]) { FirstUnique(v, REQUEST_OBS, i); }
  }

  lemma TotalSlotHolds(v: seq<Observation>)
    ensures TotalSlot(v, TotalPhase(v))
  {
    ArrivalIsChosen(v);
    EndIsChosen(v);
    TotalEnd(v);
    hide ArrivalTime, EndTime, ArrivesAt, EndsAt;
  }

  lemma TotalEnd(v: seq<Observation>)
    ensures TotalPhase(v).present ==>
              TotalPhase(v).end == if EndTime(v).ts < ArrivalTime(v).ts then ArrivalTime(v).ts else EndTime(v).ts
  {
  }

  // ------------------------------------------------------------ batch wait, dispatch, first token

  /** The first BATCH_FORM, else the first BATCH_SEAL. */
  ghost predicate StartsBatch(v: seq<Observation>, i: nat) {
    First(v, BATCH_FORM_OBS, i) || (Absent(v, BATCH_FORM_OBS) && First(v, BATCH_SEAL_OBS, i))
  }

  /** From the batch start, timed or not, to the first DISPATCH if that has a time. */
  ghost predicate BatchSlot(v: seq<Observation>, p: PhaseInterval) {
    && (p.present <==> exists i: nat, d: nat :: StartsBatch(v, i) && TimedFirst(v, DISPATCH_OBS, d))
    && forall i: nat, d: nat :: p.present && StartsBatch(v, i) && TimedFirst(v, DISPATCH_OBS, d) ==>
         SpansBetween(p, BATCH_WAIT, v[i], v[d])
  }

  lemma BatchSlotHolds(v: seq<Observation>)
    ensures BatchSlot(v, BatchWaitPhase(v))
  {
    FirstFound(v, BATCH_FORM_OBS);
    FirstFound(v, BATCH_SEAL_OBS);
    FirstFound(v, DISPATCH_OBS);
    hide FirstObs, ObsTime;
    forall i: nat | StartsBatch(v, i) ensures BatchStart(v) == Some(v[i]) {
      if First(v, BATCH_FORM_OBS, i) { FirstUnique(v, BATCH_FORM_OBS, i); } else { FirstUnique(v, BATCH_SEAL_OBS, i); }
    }
    forall d: nat | First(v, DISPATCH_OBS, d)
        ensures FirstObs(v, DISPATCH_OBS) == Some(v[d]) { FirstUnique(v, DISPATCH_OBS, d); }
    BatchStartFound(v);
    DispatchFound(v);
  }

  lemma BatchStartFound(v: seq<Observation>)
    ensures BatchStart(v).Some? ==> exists i: nat :: StartsBatch(v, i)
  {
    FirstFound(v, BATCH_FORM_OBS);
    FirstFound(v, BATCH_SEAL_OBS);
    hide FirstObs;
    if FirstObs(v, BATCH_FORM_OBS).Some? {
      var i: nat :| First(v, BATCH_FORM_OBS, i);
      assert StartsBatch(v, i);
    } else if FirstObs(v, BATCH_SEAL_OBS).Some? {
      var i: nat :| First(v, BATCH_SEAL_OBS, i);
      assert StartsBatch(v, i);
    }
  }

  lemma DispatchFound(v: seq<Observation>)
    ensures Timed(FirstObs(v, DISPATCH_OBS)) <==> exists d: nat :: TimedFirst(v, DISPATCH_OBS, d)
  {
    TimedFirstFound(v, DISPATCH_OBS);
    hide FirstObs, ObsTime, TimedFirst;
  }

  /** The start of execution: the first PREFILL_START if timed, else the first DECODE_STEP_START. */
  ghost predicate ExecutesAt(v: seq<Observation>, e: TimedObs) {
    || (exists i: nat :: TimedFirst(v, PREFILL_START_OBS, i) && e == ObsTime(v[i]))
    || (NoTimedFirst(v, PREFILL_START_OBS) && exists i: nat :: First(v, DECODE_START_OBS, i) && e == ObsTime(v[i]))
    || (NoTimedFirst(v, PREFILL_START_OBS) && Absent(v, DECODE_START_OBS) && e == UNTIMED)
  }

  /** From the first DISPATCH to the start of execution, and never backwards. */
  ghost predicate DispatchSlot(v: seq<Observation>, p: PhaseInterval) {
    && (p.present <==> exists d: nat :: TimedFirst(v, DISPATCH_OBS, d))
    && forall d: nat :: p.present && TimedFirst(v, DISPATCH_OBS, d) ==>
         exists e :: ExecutesAt(v, e)
           && p.phase == DISPATCH && p.start == ObsTime(v[d]).ts && p.source == Some(v[d].source)
           && p.end == (if e.ts < p.start then p.start else e.ts) && EndsClock(p, ObsTime(v[d]), e)
  }

  function ExecutionStart(v: seq<Observation>): TimedObs {
    var pf := TimeOf(FirstObs(v, PREFILL_START_OBS));
    if pf.ts == 0 then TimeOf(FirstObs(v, DECODE_START_OBS)) else pf
  }

  lemma ExecutionFound(v: seq<Observation>)
    ensures ExecutesAt(v, ExecutionStart(v))
  {
    TimedFirstFound(v, PREFILL_START_OBS);
    FirstFound(v, DECODE_START_OBS);
    hide FirstObs, ObsTime, TimedFirst, NoTimedFirst;
  }

  lemma DispatchSlotHolds(v: seq<Observation>)
    ensures DispatchSlot(v, DispatchPhase(v))
  {
    DispatchFound(v);
    ExecutionFound(v);
    hide FirstObs, ObsTime, ExecutesAt;
    forall d: nat | TimedFirst(v, DISPATCH_OBS, d)
        ensures FirstObs(v, DISPATCH_OBS) == Some(v[d]) { FirstUnique(v, DISPATCH_OBS, d); }
  }

  /** The end of prefill if it has a time, else the first decode step. */
  ghost predicate TokenBase(v: seq<Observation>, i: nat, b: u64)
    requires i < |v|
  {
    || (exists k: nat :: TimedLast(v, PREFILL_END_OBS, k) && b == ObsTime(v[k]).ts)
    || (NoTimedLast(v, PREFILL_END_OBS) && b == ObsTime(v[i]).ts)
  }

  /** From that base to the last decode step's end, or to the first decode step if that is earlier. */
  ghost predicate FirstTokenSlot(v: seq<Observation>, p: PhaseInterval) {
    && (p.present <==> exists i: nat, j: nat :: TimedFirst(v, DECODE_START_OBS, i) && TimedLast(v, DECODE_END_OBS, j))
    && forall i: nat, j: nat :: p.present && TimedFirst(v, DECODE_START_OBS, i) && TimedLast(v, DECODE_END_OBS, j) ==>
         && TokenBase(v, i, p.start)
         && p.end == (if ObsTime(v[j]).ts < p.start then ObsTime(v[i]).ts else ObsTime(v[j]).ts)
         && p.phase == FIRST_TOKEN && p.provenance == RECONSTRUCTED && p.source == Some(v[i].source)
  }

  lemma FirstTokenSlotHolds(v: seq<Observation>)
    ensures FirstTokenSlot(v, FirstTokenPhase(v))
  {
    TimedFirstFound(v, DECODE_START_OBS);
    TimedLastFound(v, DECODE_END_OBS);
    TimedLastFound(v, PREFILL_END_OBS);
    hide FirstObs, LastObs, ObsTime, NoTimedLast;
    forall i: nat | TimedFirst(v, DECODE_START_OBS, i) ensures FirstObs(v, DECODE_START_OBS) == Some(v[i]) {
      FirstUnique(v, DECODE_START_OBS, i);
    }
    forall j: nat | TimedLast(v, DECODE_END_OBS, j) ensures LastObs(v, DECODE_END_OBS) == Some(v[j]) {
      LastUnique(v, DECODE_END_OBS, j);
    }
    hide TimedFirst, TimedLast;
  }

  // ------------------------------------------------------------ the fourteen slots

  ghost predicate SlotsOf(v: seq<Observation>, p: seq<PhaseInterval>) {
    && |p| == 14
    && ArrivalSlot(v, p[ARRIVAL])
    && MarksFirst(v, p[ADMISSION], ADMISSION, ADMISSION_OBS)
    && SpansFirstToLast(v, p[QUEUE], QUEUE, QUEUE_ENTER_OBS, QUEUE_LEAVE_OBS)
    && BatchSlot(v, p[BATCH_WAIT])
    && DispatchSlot(v, p[DISPATCH])
    && SpansFirstToLast(v, p[TRANSFER], TRANSFER, TRANSFER_START_OBS, TRANSFER_END_OBS)
    && SpansFirstToLast(v, p[PREFILL], PREFILL, PREFILL_START_OBS, PREFILL_END_OBS)
    && FirstTokenSlot(v, p[FIRST_TOKEN])
    && SpansFirstToLast(v, p[DECODE], DECODE, DECODE_START_OBS, DECODE_END_OBS)
    && SpansFirstToLast(v, p[SPECULATION], SPECULATION, SPECULATION_START_OBS, SPECULATION_VERIFY_OBS)
    && MarksFirst(v, p[RETRY], RETRY, RETRY_OBS)
    && MarksFirst(v, p[RECOVERY], RECOVERY, RECOVERY_OBS)
    && MarksLast(v, p[COMPLETION], COMPLETION, COMPLETION_OBS)
    && TotalSlot(v, p[TOTAL])
  }

  lemma SlotsHold(v: seq<Observation>)
    ensures SlotsOf(v, ExtractPhases(v))
  {
    hide ArrivalSlot, MarksFirst, MarksLast, SpansFirstToLast, BatchSlot, DispatchSlot, FirstTokenSlot, TotalSlot;
    hide ArrivalPhase, Mark, Between, BatchWaitPhase, DispatchPhase, FirstTokenPhase, TotalPhase;
    hide FirstObs, LastObs, CountObs;
    ArrivalSlotHolds(v);
    MarkFirst(v, ADMISSION, ADMISSION_OBS, 0);
    SpanFirstToLast(v, QUEUE, QUEUE_ENTER_OBS, QUEUE_LEAVE_OBS, CountObs(v, QUEUE_ENTER_OBS));
    BatchSlotHolds(v);
    DispatchSlotHolds(v);
    SpanFirstToLast(v, TRANSFER, TRANSFER_START_OBS, TRANSFER_END_OBS, 0);
    SpanFirstToLast(v, PREFILL, PREFILL_START_OBS, PREFILL_END_OBS, 0);
    FirstTokenSlotHolds(v);
    SpanFirstToLast(v, DECODE, DECODE_START_OBS, DECODE_END_OBS, CountObs(v, DECODE_START_OBS));
    SpanFirstToLast(v, SPECULATION, SPECULATION_START_OBS, SPECULATION_VERIFY_OBS, 0);
    MarkFirst(v, RETRY, RETRY_OBS, CountObs(v, RETRY_OBS));
    MarkFirst(v, RECOVERY, RECOVERY_OBS, 0);
    MarkLast(v, COMPLETION, COMPLETION_OBS, 0);
    TotalSlotHolds(v);
  }

  /** Each of the fourteen phases of a trace, by the indices of the evidence it is taken from. */
  lemma SlotsFromEvidence(obs: seq<Observation>, rid: Id128)
    ensures var t := Reconstruct(obs, rid); SlotsOf(t.evidence, t.phases)
  {
    hide SortBy, SlotsOf, ExtractPhases, Timeline, OutcomeOf;
    SlotsHold(SortBy(ObsLess, obs));
  }

  // ------------------------------------------------------------ event counts

  /** Where evidence of a kind is. */
  function IndicesOf(v: seq<Observation>, t: ObsType): set<int> {
    set k | 0 <= k < |v| && v[k].kind == t
  }

  lemma {:induction false} CountIsCardinality(v: seq<Observation>, t: ObsType)
    ensures CountObs(v, t) == |IndicesOf(v, t)|
  {
    if v == [] {
      assert IndicesOf(v, t) == {};
    } else {
      var n := |v| - 1;
      CountIsCardinality(v[..n], t);
      assert IndicesOf(v, t) == IndicesOf(v[..n], t) + if v[n].kind == t then {n} else {};
    }
  }

  /** The event counts in the detail texts: queue entries, decode steps, retries. */
  lemma EventsCounted(v: seq<Observation>)
    ensures var p := ExtractPhases(v);
            && (p[QUEUE].present ==> p[QUEUE].events == |IndicesOf(v, QUEUE_ENTER_OBS)|)
            && (p[DECODE].present ==> p[DECODE].events == |IndicesOf(v, DECODE_START_OBS)|)
            && (p[RETRY].present ==> p[RETRY].events == |IndicesOf(v, RETRY_OBS)|)
  {
    hide CountObs, FirstObs, LastObs, IndicesOf;
    CountIsCardinality(v, QUEUE_ENTER_OBS);
    CountIsCardinality(v, DECODE_START_OBS);
    CountIsCardinality(v, RETRY_OBS);
  }

  // ------------------------------------------------------------ identities, sources, outcome

  /** The observation names an identity under the key. */
  ghost predicate Names(o: Observation, key: Bytes, id: Id128) {
    key in o.fields && o.fields[key] == Ident(id) && !id.IsNull()
  }

  /** The identity that the earliest naming evidence names, or the null identity if none does. */
  ghost predicate FirstNamed(v: seq<Observation>, key: Bytes, r: Id128) {
    || (exists i :: 0 <= i < |v| && Names(v[i], key, r) && forall k, id :: 0 <= k < i ==> !Names(v[k], key, id))
    || (r == NULL_ID && forall k, id :: 0 <= k < |v| ==> !Names(v[k], key, id))
  }

  lemma FieldIsNamed(o: Observation, key: Bytes)
    ensures forall id :: Names(o, key, id) <==> IdField(o, key) == id && !id.IsNull()
  {
  }

  lemma {:induction false} IdentityIsFirstNamed(v: seq<Observation>, key: Bytes)
    ensures FirstNamed(v, key, FirstIdentity(v, key))
  {
    if v != [] {
      var n := |v| - 1;
      var r := FirstIdentity(v[..n], key);
      IdentityIsFirstNamed(v[..n], key);
      FieldIsNamed(v[n], key);
      hide Names, IdField;
      if !r.IsNull() {
        var i :| 0 <= i < n && Names(v[..n][i], key, r) && forall k, id :: 0 <= k < i ==> !Names(v[..n][k], key, id);
        assert Names(v[i], key, r);
        forall k, id | 0 <= k < i ensures !Names(v[k], key, id) { assert v[..n][k] == v[k]; }
      } else {
        NobodyNamed(v[..n], key, r);
        forall k, id | 0 <= k < n ensures !Names(v[k], key, id) { assert v[..n][k] == v[k]; }
        if !IdField(v[n], key).IsNull() { assert Names(v[n], key, IdField(v[n], key)); }
      }
    }
  }

  lemma NobodyNamed(v: seq<Observation>, key: Bytes, r: Id128)
    requires FirstNamed(v, key, r) && r.IsNull()
    ensures forall k, id :: 0 <= k < |v| ==> !Names(v[k], key, id)
  {
  }

  /** The values that occur, once each. */
  ghost predicate Collects<T(!new)>(s: seq<T>, v: seq<Observation>, f: Observation -> T) {
    && (forall i, j :: 0 <= i < j < |s| ==> s[i] != s[j])
    && (forall x :: x in s <==> exists i :: 0 <= i < |v| && f(v[i]) == x)
  }

  lemma CollectStep<T(!new)>(s: seq<T>, v: seq<Observation>, f: Observation -> T)
    requires v != [] && Collects(s, v[..|v| - 1], f)
    ensures Collects(AddNew(s, f(v[|v| - 1])), v, f)
  {
    var n := |v| - 1;
    var r := AddNew(s, f(v[n]));
    forall x ensures x in r <==> exists i :: 0 <= i < |v| && f(v[i]) == x {
      if x in s {
        var i :| 0 <= i < n && f(v[..n][i]) == x;
        assert f(v[i]) == x;
      }
      if x == f(v[n]) { assert f(v[n]) == x; }
      if exists i :: 0 <= i < |v| && f(v[i]) == x {
        var i :| 0 <= i < |v| && f(v[i]) == x;
        if i < n { assert f(v[..n][i]) == x; }
      }
    }
  }

  lemma {:induction false} OriginsCollected(v: seq<Observation>)
    ensures Collects(Boots(v), v, (o: Observation) => o.boot)
    ensures Collects(SrcGens(v), v, (o: Observation) => o.srcGen)
    ensures Collects(ObsGens(v), v, (o: Observation) => o.obsGen)
  {
    hide Collects;
    if v == [] {
      NothingCollected(v);
    } else {
      OriginsCollected(v[..|v| - 1]);
      CollectStep(Boots(v[..|v| - 1]), v, (o: Observation) => o.boot);
      CollectStep(SrcGens(v[..|v| - 1]), v, (o: Observation) => o.srcGen);
      CollectStep(ObsGens(v[..|v| - 1]), v, (o: Observation) => o.obsGen);
    }
  }

  lemma NothingCollected(v: seq<Observation>)
    requires v == []
    ensures Collects<Id128>([], v, (o: Observation) => o.boot)
    ensures Collects<u64>([], v, (o: Observation) => o.srcGen)
    ensures Collects<u64>([], v, (o: Observation) => o.obsGen)
  {
  }

  lemma {:induction false} MaxEpochIsGreatest(v: seq<Observation>)
    ensures v == [] ==> MaxEpoch(v) == 0
    ensures v != [] ==> exists i :: 0 <= i < |v| && v[i].epoch == MaxEpoch(v)
    ensures forall i :: 0 <= i < |v| ==> v[i].epoch <= MaxEpoch(v)
  {
    if v != [] {
      var n := |v| - 1;
      MaxEpochIsGreatest(v[..n]);
      forall i | 0 <= i < |v| ensures v[i].epoch <= MaxEpoch(v) { if i < n { assert v[..n][i] == v[i]; } }
      if v[n].epoch <= MaxEpoch(v[..n]) && n > 0 {
        var i :| 0 <= i < n && v[..n][i].epoch == MaxEpoch(v[..n]);
        assert v[i].epoch == MaxEpoch(v);
      } else {
        assert v[n].epoch == MaxEpoch(v);
      }
    }
  }

  lemma {:induction false} TimelineIsEvidence(v: seq<Observation>)
    ensures forall k :: 0 <= k < |v| ==>
              var e, o := Timeline(v)[k], v[k];
              && e.ordinal == k % TWO_32 && e.kind == o.kind && e.ts == ObsTime(o).ts
                  && (e.hasTs <==> ObsTime(o).ts != 0)
              && e.provenance == o.provenance && e.source == o.source && e.worker == o.worker && e.boot == o.boot
              && e.srcGen == o.srcGen && e.obsGen == o.obsGen && e.epoch == o.epoch && e.seqNum == o.seqNum
              && e.fields == o.fields
  {
    hide ObsTime;
    if v != [] {
      var n := |v| - 1;
      TimelineIsEvidence(v[..n]);
      forall k | 0 <= k < n ensures Timeline(v)[k] == Timeline(v[..n])[k] && v[..n][k] == v[k] { }
    }
  }

  /** A request is completed, with the outcome the last COMPLETION names if it names one; else cancelled,
      else failed, if there is evidence of that; else unknown. The reason is taken from the same evidence. */
  lemma OutcomeFromEvidence(v: seq<Observation>)
    ensures forall i: nat :: Last(v, COMPLETION_OBS, i) ==>
              var named := OutcomeFromCode(TextField(v[i], Ascii("outcome")));
              && OutcomeOf(v) == (if named == OUTCOME_UNKNOWN then COMPLETED else named)
              && TerminalReason(v) == TextField(v[i], Ascii("reason"))
    ensures forall i: nat :: Absent(v, COMPLETION_OBS) && First(v, CANCEL_OBS, i) ==>
              OutcomeOf(v) == CANCELLED && TerminalReason(v) == TextField(v[i], Ascii("reason"))
    ensures forall i: nat :: Absent(v, COMPLETION_OBS) && Absent(v, CANCEL_OBS) && First(v, FAILURE_OBS, i) ==>
              OutcomeOf(v) == FAILED && TerminalReason(v) == TextField(v[i], Ascii("reason"))
    ensures Absent(v, COMPLETION_OBS) && Absent(v, CANCEL_OBS) && Absent(v, FAILURE_OBS) ==>
              OutcomeOf(v) == OUTCOME_UNKNOWN && TerminalReason(v) == []
  {
    FirstFound(v, CANCEL_OBS);
    FirstFound(v, FAILURE_OBS);
    LastFound(v, COMPLETION_OBS);
    hide FirstObs, LastObs, OutcomeFromCode, TextField;
    forall i: nat | Last(v, COMPLETION_OBS, i)
        ensures LastObs(v, COMPLETION_OBS) == Some(v[i]) { LastUnique(v, COMPLETION_OBS, i); }
    forall i: nat | First(v, CANCEL_OBS, i)
        ensures FirstObs(v, CANCEL_OBS) == Some(v[i]) { FirstUnique(v, CANCEL_OBS, i); }
    forall i: nat | First(v, FAILURE_OBS, i)
        ensures FirstObs(v, FAILURE_OBS) == Some(v[i]) { FirstUnique(v, FAILURE_OBS, i); }
  }

  /** The identities, origins, epochs and timeline of a trace, in terms of its evidence. */
  lemma TraceFromEvidence(obs: seq<Observation>, rid: Id128)
    ensures var t := Reconstruct(obs, rid);
            var v := t.evidence;
            && t.requestId == rid
            && FirstNamed(v, Ascii("tenant_id"), t.tenant) && FirstNamed(v, Ascii("workload_id"), t.workload)
            && FirstNamed(v, Ascii("model_id"), t.model) && FirstNamed(v, Ascii("model_rev_id"), t.modelRev)
            && FirstNamed(v, Ascii("adapter_id"), t.adapter)
            && Collects(t.boots, v, (o: Observation) => o.boot)
            && Collects(t.srcGens, v, (o: Observation) => o.srcGen)
            && Collects(t.obsGens, v, (o: Observation) => o.obsGen)
            && (forall i :: 0 <= i < |v| ==> v[i].epoch <= t.maxEpoch)
            && (v != [] ==> exists i :: 0 <= i < |v| && v[i].epoch == t.maxEpoch)
            && |t.timeline| == |v|
  {
    hide SortBy, FirstNamed, Collects, ExtractPhases, OutcomeOf, FirstIdentity, MaxEpoch, MinEpoch;
    var v := SortBy(ObsLess, obs);
    IdentityIsFirstNamed(v, Ascii("tenant_id"));
    IdentityIsFirstNamed(v, Ascii("workload_id"));
    IdentityIsFirstNamed(v, Ascii("model_id"));
    IdentityIsFirstNamed(v, Ascii("model_rev_id"));
    IdentityIsFirstNamed(v, Ascii("adapter_id"));
    OriginsCollected(v);
    MaxEpochIsGreatest(v);
  }
}
