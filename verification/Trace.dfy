/** Per-request reconstruction (include/servingobs/trace/trace.hpp, src/trace.cpp:32-254). */
module Traces {
  import opened Types
  import opened Identity
  import opened Ordering
  import opened Observations

  /** Phases by their declared index. */
  type Phase = x: int | 0 <= x <= 13

  const ARRIVAL: Phase := 0
  const ADMISSION: Phase := 1
  const QUEUE: Phase := 2
  const BATCH_WAIT: Phase := 3
  const DISPATCH: Phase := 4
  const TRANSFER: Phase := 5
  const PREFILL: Phase := 6
  const FIRST_TOKEN: Phase := 7
  const DECODE: Phase := 8
  const SPECULATION: Phase := 9
  const RETRY: Phase := 10
  const RECOVERY: Phase := 11
  const COMPLETION: Phase := 12
  const TOTAL: Phase := 13

  const REQUEST_OBS: ObsType := 1
  const ADMISSION_OBS: ObsType := 2
  const QUEUE_ENTER_OBS: ObsType := 3
  const QUEUE_LEAVE_OBS: ObsType := 4
  const BATCH_FORM_OBS: ObsType := 5
  const BATCH_SEAL_OBS: ObsType := 6
  const DISPATCH_OBS: ObsType := 9
  const PREFILL_START_OBS: ObsType := 10
  const PREFILL_END_OBS: ObsType := 11
  const DECODE_START_OBS: ObsType := 12
  const DECODE_END_OBS: ObsType := 13
  const SPECULATION_START_OBS: ObsType := 14
  const SPECULATION_VERIFY_OBS: ObsType := 15
  const TRANSFER_START_OBS: ObsType := 30
  const TRANSFER_END_OBS: ObsType := 31
  const RETRY_OBS: ObsType := 32
  const CANCEL_OBS: ObsType := 33
  const FAILURE_OBS: ObsType := 34
  const RECOVERY_OBS: ObsType := 37
  const COMPLETION_OBS: ObsType := 38

  const RECONSTRUCTED: Provenance := 5

  /** `source` is the contributing source, if single; `events` the number shown in the detail text
      of the phases that count events. */
  datatype PhaseInterval = PhaseInterval(
    phase: Phase, present: bool, start: u64, end: u64, provenance: Provenance, source: Option<Id128>, events: nat)

  const ABSENT: PhaseInterval := PhaseInterval(TOTAL, false, 0, 0, PROVENANCE_UNKNOWN, None, 0)

  datatype TraceEvent = TraceEvent(
    ordinal: u32, kind: ObsType, ts: u64, hasTs: bool, provenance: Provenance,
    source: Id128, worker: Id128, boot: Id128, srcGen: u64, obsGen: u64, epoch: u64, seqNum: u64,
    fields: map<Bytes, FieldValue>)

  type Outcome = x: int | 0 <= x <= 8
  const OUTCOME_UNKNOWN: Outcome := 0
  const COMPLETED: Outcome := 1
  const FAILED: Outcome := 2
  const CANCELLED: Outcome := 3

  datatype RequestTrace = RequestTrace(
    requestId: Id128,
    tenant: Id128, workload: Id128, model: Id128, modelRev: Id128, adapter: Id128,
    evidence: seq<Observation>,
    timeline: seq<TraceEvent>,
    phases: seq<PhaseInterval>,
    outcome: Outcome, terminalReason: Bytes,
    minEpoch: u64, maxEpoch: u64,
    boots: seq<Id128>, srcGens: seq<u64>, obsGens: seq<u64>)

  // ------------------------------------------------------------ evidence order

  datatype TimedObs = TimedObs(ts: u64, inRecvDomain: bool)

  const UNTIMED: TimedObs := TimedObs(0, false)

  /** Receive time when there is one, else source time, else nothing. */
  function ObsTime(o: Observation): TimedObs {
    if o.hasRecvTs then TimedObs(o.recvTs, true)
    else if o.hasObsTs then TimedObs(o.obsTs, false)
    else UNTIMED
  }

  /** The sorting comparator: time, receive domain first, sequence number, identity. */
  predicate ObsLess(a: Observation, b: Observation) {
    var ta, tb := ObsTime(a), ObsTime(b);
    if ta.ts != tb.ts then ta.ts < tb.ts
    else if ta.inRecvDomain != tb.inRecvDomain then ta.inRecvDomain
    else if a.seqNum != b.seqNum then a.seqNum < b.seqNum
    else IdLess(a.id, b.id)
  }

  lemma ObsLessIsWeakOrder()
    ensures WeakOrder(ObsLess)
  {
  }

  ghost predicate DistinctIds(s: seq<Observation>) {
    forall i, j :: 0 <= i < j < |s| ==> s[i].id != s[j].id
  }

  lemma DistinctIdsCompare(s: seq<Observation>)
    requires DistinctIds(s)
    ensures TotalOn(ObsLess, multiset(s))
  {
    forall x, y | x in multiset(s) && y in multiset(s) ensures x == y || ObsLess(x, y) || ObsLess(y, x) {
      var i :| 0 <= i < |s| && s[i] == x;
      var j :| 0 <= j < |s| && s[j] == y;
    }
  }

  /** Arrival order is forgotten: the sorted evidence depends only on which observations there are. */
  lemma EvidenceOrderUnique(s: seq<Observation>, t: seq<Observation>)
    requires DistinctIds(s) && multiset(s) == multiset(t)
    ensures SortBy(ObsLess, s) == SortBy(ObsLess, t)
  {
    ObsLessIsWeakOrder();
    DistinctIdsCompare(s);
    SortIsTheOnlySorting(ObsLess, s, t);
  }

  // ------------------------------------------------------------ scans

  function FirstObs(v: seq<Observation>, t: ObsType): (r: Option<Observation>)
    ensures r.Some? ==> r.value in v && r.value.kind == t
    ensures r.None? ==> forall o :: o in v ==> o.kind != t
  {
    if v == [] then None
    else if v[0].kind == t then Some(v[0])
    else FirstObs(v[1..], t)
  }

  function LastObs(v: seq<Observation>, t: ObsType): (r: Option<Observation>)
    ensures r.Some? ==> r.value in v && r.value.kind == t
    ensures r.None? ==> forall o :: o in v ==> o.kind != t
  {
    if v == [] then None
    else if v[|v| - 1].kind == t then Some(v[|v| - 1])
    else
      var r := LastObs(v[..|v| - 1], t);
      assert forall o :: o in v ==> o in v[..|v| - 1] || o == v[|v| - 1];
      r
  }

  function CountObs(v: seq<Observation>, t: ObsType): nat {
    if v == [] then 0
    else CountObs(v[..|v| - 1], t) + if v[|v| - 1].kind == t then 1 else 0
  }

  function TimeOf(o: Option<Observation>): TimedObs {
    if o.Some? then ObsTime(o.value) else UNTIMED
  }

  predicate Timed(o: Option<Observation>) {
    TimeOf(o).ts != 0
  }

  // ------------------------------------------------------------ phases

  function Mark(p: Phase, o: Option<Observation>, events: nat): PhaseInterval {
    if o.Some? && Timed(o)
    then PhaseInterval(p, true, TimeOf(o).ts, TimeOf(o).ts, o.value.provenance, Some(o.value.source), events)
    else ABSENT
  }

  /** Both ends in the coordinator's receive domain make an interval measured. */
  function EndsProvenance(s: TimedObs, e: TimedObs): Provenance {
    if s.inRecvDomain && e.inRecvDomain then MEASURED else RECONSTRUCTED
  }

  function Between(p: Phase, s: Option<Observation>, e: Option<Observation>, events: nat): PhaseInterval {
    if s.Some? && e.Some? && Timed(s) && Timed(e)
    then PhaseInterval(p, true, TimeOf(s).ts, TimeOf(e).ts, EndsProvenance(TimeOf(s), TimeOf(e)),
        Some(s.value.source), events)
    else ABSENT
  }

  /** First REQUEST, else first QUEUE_ENTER, else the earliest evidence. */
  function ArrivalTime(v: seq<Observation>): TimedObs {
    var req := TimeOf(FirstObs(v, REQUEST_OBS));
    var a := if req.ts == 0 then TimeOf(FirstObs(v, QUEUE_ENTER_OBS)) else req;
    if a.ts == 0 && v != [] then ObsTime(v[0]) else a
  }

  /** Last COMPLETION, else the latest evidence. */
  function EndTime(v: seq<Observation>): TimedObs {
    var c := TimeOf(LastObs(v, COMPLETION_OBS));
    if c.ts == 0 && v != [] then ObsTime(v[|v| - 1]) else c
  }

  function ArrivalPhase(v: seq<Observation>): PhaseInterval {
    var a, req := ArrivalTime(v), FirstObs(v, REQUEST_OBS);
    if a.ts != 0 then
      PhaseInterval(ARRIVAL, true, a.ts, a.ts, if req.Some? then req.value.provenance else RECONSTRUCTED,
                    if req.Some? then Some(req.value.source) else None, 0)
    else ABSENT
  }

  function BatchStart(v: seq<Observation>): Option<Observation> {
    var form := FirstObs(v, BATCH_FORM_OBS);
    if form.Some? then form else FirstObs(v, BATCH_SEAL_OBS)
  }

  /** The batch start need not be timed: only the dispatch is checked. */
  function BatchWaitPhase(v: seq<Observation>): PhaseInterval {
    var x := BatchStart(v);
    var disp := FirstObs(v, DISPATCH_OBS);
    if x.Some? && Timed(disp) then
      PhaseInterval(BATCH_WAIT, true, TimeOf(x).ts, TimeOf(disp).ts,
                    EndsProvenance(TimeOf(x), TimeOf(disp)), Some(x.value.source), 0)
    else ABSENT
  }

  /** Dispatch to the start of prefill, else of decode, never ending before it starts. */
  function DispatchPhase(v: seq<Observation>): PhaseInterval {
    var disp := FirstObs(v, DISPATCH_OBS);
    if disp.Some? && Timed(disp) then
      var s := TimeOf(disp);
      var pf := TimeOf(FirstObs(v, PREFILL_START_OBS));
      var e := if pf.ts == 0 then TimeOf(FirstObs(v, DECODE_START_OBS)) else pf;
      PhaseInterval(DISPATCH, true, s.ts, if e.ts < s.ts then s.ts else e.ts,
                    EndsProvenance(s, e), Some(disp.value.source), 0)
    else ABSENT
  }

  /** From the end of prefill (else the first decode step) to the last decode step's end, or to the
      first decode step when that lies before the base. */
  function FirstTokenPhase(v: seq<Observation>): PhaseInterval {
    var start, end := FirstObs(v, DECODE_START_OBS), LastObs(v, DECODE_END_OBS);
    if start.Some? && end.Some? && Timed(start) && Timed(end) then
      var prefillEnd := TimeOf(LastObs(v, PREFILL_END_OBS));
      var base := if prefillEnd.ts != 0 then prefillEnd else TimeOf(start);
      PhaseInterval(FIRST_TOKEN, true, base.ts,
                    if TimeOf(end).ts < base.ts then TimeOf(start).ts else TimeOf(end).ts,
                    RECONSTRUCTED, Some(start.value.source), 0)
    else ABSENT
  }

  function TotalPhase(v: seq<Observation>): PhaseInterval {
    var a, c := ArrivalTime(v), EndTime(v);
    if a.ts != 0 then
      var last := if c.ts != 0 then c else if v == [] then a else ObsTime(v[|v| - 1]);
      PhaseInterval(TOTAL, true, a.ts, if last.ts < a.ts then a.ts else last.ts, RECONSTRUCTED, None, 0)
    else ABSENT
  }

  function PhaseSlot(v: seq<Observation>, i: nat): PhaseInterval
    requires i < 14
  {
    match i
    case 0 => ArrivalPhase(v)
    case 1 => Mark(ADMISSION, FirstObs(v, ADMISSION_OBS), 0)
    case 2 => Between(QUEUE, FirstObs(v, QUEUE_ENTER_OBS), LastObs(v, QUEUE_LEAVE_OBS), CountObs(v, QUEUE_ENTER_OBS))
    case 3 => BatchWaitPhase(v)
    case 4 => DispatchPhase(v)
    case 5 => Between(TRANSFER, FirstObs(v, TRANSFER_START_OBS), LastObs(v, TRANSFER_END_OBS), 0)
    case 6 => Between(PREFILL, FirstObs(v, PREFILL_START_OBS), LastObs(v, PREFILL_END_OBS), 0)
    case 7 => FirstTokenPhase(v)
    case 8 => Between(DECODE, FirstObs(v, DECODE_START_OBS), LastObs(v, DECODE_END_OBS), CountObs(v, DECODE_START_OBS))
    case 9 => Between(SPECULATION, FirstObs(v, SPECULATION_START_OBS), LastObs(v, SPECULATION_VERIFY_OBS), 0)
    case 10 => Mark(RETRY, FirstObs(v, RETRY_OBS), CountObs(v, RETRY_OBS))
    case 11 => Mark(RECOVERY, FirstObs(v, RECOVERY_OBS), 0)
    case 12 => Mark(COMPLETION, LastObs(v, COMPLETION_OBS), 0)
    case _ => TotalPhase(v)
  }

  /** All fourteen phase slots, in index order. */
  function ExtractPhases(v: seq<Observation>): (p: seq<PhaseInterval>)
    ensures |p| == 14
  {
    seq(14, i requires 0 <= i < 14 => PhaseSlot(v, i))
  }

  /** A present phase sits in the slot of its own index. */
  lemma SlotPhase(v: seq<Observation>, i: nat)
    requires i < 14
    ensures PhaseSlot(v, i).present ==> PhaseSlot(v, i).phase == i
  {
    hide FirstObs, LastObs, CountObs, ArrivalTime, EndTime;
  }

  // ------------------------------------------------------------ identity, epochs, outcome

  /** The first non-null identity stored under a key. */
  function FirstIdentity(v: seq<Observation>, key: Bytes): Id128 {
    if v == [] then NULL_ID
    else
      var r := FirstIdentity(v[..|v| - 1], key);
      if r.IsNull() then IdField(v[|v| - 1], key) else r
  }

  function AddNew<T(==)>(s: seq<T>, x: T): seq<T> {
    if x in s then s else s + [x]
  }

  function Boots(v: seq<Observation>): seq<Id128> {
    if v == [] then [] else AddNew(Boots(v[..|v| - 1]), v[|v| - 1].boot)
  }

  function SrcGens(v: seq<Observation>): seq<u64> {
    if v == [] then [] else AddNew(SrcGens(v[..|v| - 1]), v[|v| - 1].srcGen)
  }

  function ObsGens(v: seq<Observation>): seq<u64> {
    if v == [] then [] else AddNew(ObsGens(v[..|v| - 1]), v[|v| - 1].obsGen)
  }

  /** Zero counts as "not set yet", even when an epoch really is zero. */
  function MinEpoch(v: seq<Observation>): u64 {
    if v == [] then 0
    else
      var m, e := MinEpoch(v[..|v| - 1]), v[|v| - 1].epoch;
      if m == 0 || e < m then e else m
  }

  function MaxEpoch(v: seq<Observation>): u64 {
    if v == [] then 0
    else
      var m, e := MaxEpoch(v[..|v| - 1]), v[|v| - 1].epoch;
      if e > m then e else m
  }

  ghost predicate IsLeastEpoch(v: seq<Observation>, m: u64) {
    (exists i :: 0 <= i < |v| && v[i].epoch == m) && forall i :: 0 <= i < |v| ==> m <= v[i].epoch
  }

  ghost predicate NoZeroEpoch(v: seq<Observation>) {
    forall i :: 0 <= i < |v| ==> v[i].epoch != 0
  }

  lemma {:induction false} MinEpochOfPositive(v: seq<Observation>)
    requires v != [] && NoZeroEpoch(v)
    ensures IsLeastEpoch(v, MinEpoch(v))
  {
    var n := |v| - 1;
    if n == 0 {
      assert v[..0] == [] && MinEpoch(v) == v[0].epoch;
    } else {
      var m := MinEpoch(v[..n]);
      MinEpochOfPositive(v[..n]);
      var i :| 0 <= i < n && v[..n][i].epoch == m;
      assert m != 0 && MinEpoch(v) == if v[n].epoch < m then v[n].epoch else m;
      forall j | 0 <= j < n ensures m <= v[j].epoch { assert v[..n][j] == v[j]; }
      assert v[i].epoch == m;
    }
  }

  /** The reported least epoch is the least one exactly when no epoch is zero or the last one is. */
  lemma {:induction false} MinEpochExact(v: seq<Observation>)
    requires v != []
    ensures IsLeastEpoch(v, MinEpoch(v)) <==> NoZeroEpoch(v) || v[|v| - 1].epoch == 0
  {
    if NoZeroEpoch(v) {
      MinEpochOfPositive(v);
    } else {
      var i :| 0 <= i < |v| && v[i].epoch == 0;
      assert MinEpoch(v) == 0 <==> v[|v| - 1].epoch == 0;
      assert IsLeastEpoch(v, MinEpoch(v)) ==> MinEpoch(v) <= v[i].epoch;
      assert v[|v| - 1].epoch == 0 ==> MinEpoch(v) == v[|v| - 1].epoch;
    }
  }

  function EventOf(o: Observation, ordinal: u32): TraceEvent {
    TraceEvent(ordinal, o.kind, ObsTime(o).ts, ObsTime(o).ts != 0, o.provenance, o.source, o.worker, o.boot,
               o.srcGen, o.obsGen, o.epoch, o.seqNum, o.fields)
  }

  function Timeline(v: seq<Observation>): (t: seq<TraceEvent>)
    ensures |t| == |v|
  {
    if v == [] then [] else Timeline(v[..|v| - 1]) + [EventOf(v[|v| - 1], (|v| - 1) % TWO_32)]
  }

  function TextField(o: Observation, key: Bytes): Bytes {
    if key in o.fields && o.fields[key].Text? then o.fields[key].t else []
  }

  function OutcomeFromCode(code: Bytes): Outcome {
    if code == Ascii("completed") then 1
    else if code == Ascii("failed") then 2
    else if code == Ascii("cancelled") then 3
    else if code == Ascii("timed_out") then 4
    else if code == Ascii("preempted") then 5
    else if code == Ascii("abandoned") then 6
    else if code == Ascii("retried") then 7
    else if code == Ascii("partial") then 8
    else 0
  }

  function OutcomeOf(v: seq<Observation>): Outcome {
    var comp := LastObs(v, COMPLETION_OBS);
    if comp.Some? then
      var o := OutcomeFromCode(TextField(comp.value, Ascii("outcome")));
      if o == OUTCOME_UNKNOWN then COMPLETED else o
    else if FirstObs(v, CANCEL_OBS).Some? then CANCELLED
    else if FirstObs(v, FAILURE_OBS).Some? then FAILED
    else OUTCOME_UNKNOWN
  }

  function TerminalReason(v: seq<Observation>): Bytes {
    var comp, cancel, fail := LastObs(v, COMPLETION_OBS), FirstObs(v, CANCEL_OBS), FirstObs(v, FAILURE_OBS);
    if comp.Some? then TextField(comp.value, Ascii("reason"))
    else if cancel.Some? then TextField(cancel.value, Ascii("reason"))
    else if fail.Some? then TextField(fail.value, Ascii("reason"))
    else []
  }

  /** The trace of evidence already in order. */
  function Build(v: seq<Observation>, rid: Id128): RequestTrace {
    RequestTrace(rid,
                 FirstIdentity(v, Ascii("tenant_id")), FirstIdentity(v, Ascii("workload_id")),
                 FirstIdentity(v, Ascii("model_id")), FirstIdentity(v, Ascii("model_rev_id")),
                 FirstIdentity(v, Ascii("adapter_id")),
                 v, Timeline(v), ExtractPhases(v), OutcomeOf(v), TerminalReason(v),
                 MinEpoch(v), MaxEpoch(v), Boots(v), SrcGens(v), ObsGens(v))
  }

  function Reconstruct(obs: seq<Observation>, rid: Id128): RequestTrace {
    Build(SortBy(ObsLess, obs), rid)
  }

  /** Reconstruction depends only on the set of observations, not on their arrival order. */
  lemma ReconstructionIgnoresOrder(s: seq<Observation>, t: seq<Observation>, rid: Id128)
    requires DistinctIds(s) && multiset(s) == multiset(t)
    ensures Reconstruct(s, rid) == Reconstruct(t, rid)
  {
    hide Build;
    EvidenceOrderUnique(s, t);
  }

  // ------------------------------------------------------------ containment in TOTAL

  /** The kinds of evidence whose first, and whose last, observation some phase reads. */
  const FIRST_READ: set<ObsType> := {
    REQUEST_OBS, ADMISSION_OBS, QUEUE_ENTER_OBS, BATCH_FORM_OBS, BATCH_SEAL_OBS, DISPATCH_OBS, TRANSFER_START_OBS,
    PREFILL_START_OBS, DECODE_START_OBS, SPECULATION_START_OBS, RETRY_OBS, RECOVERY_OBS}
  const LAST_READ: set<ObsType> := {
    QUEUE_LEAVE_OBS, TRANSFER_END_OBS, PREFILL_END_OBS, DECODE_END_OBS, SPECULATION_VERIFY_OBS, COMPLETION_OBS}

  /** If there is such an observation and it is timed, it lies between the chosen arrival and end. */
  ghost predicate Contained(v: seq<Observation>, o: Option<Observation>) {
    Timed(o) ==> ArrivalTime(v).ts <= TimeOf(o).ts <= EndTime(v).ts
  }

  /** The evidence that phases read is contained. Nothing is asked of any other observation. */
  ghost predicate EvidenceContained(v: seq<Observation>) {
    && (forall t :: t in FIRST_READ ==> Contained(v, FirstObs(v, t)))
    && (forall t :: t in LAST_READ ==> Contained(v, LastObs(v, t)))
  }

  /** A batch start that is used has a time. */
  ghost predicate BatchStartTimed(v: seq<Observation>) {
    BatchStart(v).Some? && Timed(FirstObs(v, DISPATCH_OBS)) ==> Timed(BatchStart(v))
  }

  ghost predicate InsideTotal(p: PhaseInterval, total: PhaseInterval) {
    p.present ==> total.present && total.start <= p.start <= total.end && total.start <= p.end <= total.end
  }

  lemma TotalSpansEnds(v: seq<Observation>)
    requires TotalPhase(v).present
    ensures TotalPhase(v).start == ArrivalTime(v).ts <= TotalPhase(v).end && EndTime(v).ts <= TotalPhase(v).end
  {
  }

  lemma SimpleInside(v: seq<Observation>, p: Phase, s: Option<Observation>, e: Option<Observation>, n: nat)
    requires TotalPhase(v).present && Contained(v, s) && Contained(v, e)
    ensures InsideTotal(Mark(p, s, n), TotalPhase(v)) && InsideTotal(Between(p, s, e, n), TotalPhase(v))
  {
    TotalSpansEnds(v);
    hide TotalPhase, ArrivalTime, EndTime;
  }

  lemma OthersInside(v: seq<Observation>)
    requires TotalPhase(v).present && EvidenceContained(v)
    ensures InsideTotal(ArrivalPhase(v), TotalPhase(v))
    ensures InsideTotal(BatchWaitPhase(v), TotalPhase(v)) <==> BatchStartTimed(v)
    ensures InsideTotal(DispatchPhase(v), TotalPhase(v)) && InsideTotal(FirstTokenPhase(v), TotalPhase(v))
  {
    TotalSpansEnds(v);
    hide TotalPhase, ArrivalTime, EndTime, FirstObs, LastObs;
  }

  /** When the evidence that phases read lies between the chosen arrival and end, every extracted
      phase lies inside TOTAL, except that BATCH_WAIT does exactly when its start has a time. */
  lemma PhasesInsideTotal(v: seq<Observation>, i: nat)
    requires TotalPhase(v).present && EvidenceContained(v) && i < 13
    ensures InsideTotal(ExtractPhases(v)[i], ExtractPhases(v)[TOTAL]) <==> i != BATCH_WAIT || BatchStartTimed(v)
  {
    hide InsideTotal, Contained, BatchStart, BatchStartTimed, ArrivalPhase, BatchWaitPhase, DispatchPhase;
    hide FirstTokenPhase, TotalPhase;
    hide Mark, Between, FirstObs, LastObs, CountObs;
    OthersInside(v);
    SimpleInside(v, ADMISSION, FirstObs(v, ADMISSION_OBS), FirstObs(v, ADMISSION_OBS), 0);
    SimpleInside(v, QUEUE, FirstObs(v, QUEUE_ENTER_OBS), LastObs(v, QUEUE_LEAVE_OBS), CountObs(v, QUEUE_ENTER_OBS));
    SimpleInside(v, TRANSFER, FirstObs(v, TRANSFER_START_OBS), LastObs(v, TRANSFER_END_OBS), 0);
    SimpleInside(v, PREFILL, FirstObs(v, PREFILL_START_OBS), LastObs(v, PREFILL_END_OBS), 0);
    SimpleInside(v, DECODE, FirstObs(v, DECODE_START_OBS), LastObs(v, DECODE_END_OBS), CountObs(v, DECODE_START_OBS));
    SimpleInside(v, SPECULATION, FirstObs(v, SPECULATION_START_OBS), LastObs(v, SPECULATION_VERIFY_OBS), 0);
    SimpleInside(v, RETRY, FirstObs(v, RETRY_OBS), FirstObs(v, RETRY_OBS), CountObs(v, RETRY_OBS));
    SimpleInside(v, RECOVERY, FirstObs(v, RECOVERY_OBS), FirstObs(v, RECOVERY_OBS), 0);
    SimpleInside(v, COMPLETION, LastObs(v, COMPLETION_OBS), LastObs(v, COMPLETION_OBS), 0);
  }

  // ------------------------------------------------------------ the code

  method FindFirst(v: seq<Observation>, t: ObsType) returns (r: Option<Observation>)
    ensures r == FirstObs(v, t)
  {
    for i := 0 to |v|
      invariant FirstObs(v, t) == FirstObs(v[i..], t)
    {
      if v[i].kind == t { return Some(v[i]); }
      assert v[i..][1..] == v[i + 1..];
    }
    return None;
  }

  method FindLast(v: seq<Observation>, t: ObsType) returns (r: Option<Observation>)
    ensures r == LastObs(v, t)
  {
    assert v[..|v|] == v;
    for i := |v| downto 0
      invariant LastObs(v, t) == LastObs(v[..i], t)
    {
      if v[i].kind == t { return Some(v[i]); }
      assert v[..i + 1][..i] == v[..i];
    }
    return None;
  }

  method CountKind(v: seq<Observation>, t: ObsType) returns (n: nat)
    ensures n == CountObs(v, t)
  {
    n := 0;
    for i := 0 to |v|
      invariant n == CountObs(v[..i], t)
    {
      if v[i].kind == t { n := n + 1; }
      assert v[..i + 1][..i] == v[..i];
    }
    assert v[..|v|] == v;
  }

  /** `add_phase`: fill one of the fourteen slots. */
  function AddPhase(phases: seq<PhaseInterval>, p: PhaseInterval): (r: seq<PhaseInterval>)
    requires |phases| == 14
    ensures |r| == 14
  {
    phases[p.phase := p]
  }

  method AddMark(phases: seq<PhaseInterval>, p: Phase, o: Option<Observation>, events: nat)
          returns (r: seq<PhaseInterval>)
    requires |phases| == 14 && phases[p] == ABSENT
    ensures r == phases[p := Mark(p, o, events)]
  {
    r := phases;
    if o.Some? && Timed(o) {
      var t := TimeOf(o);
      r := AddPhase(r, PhaseInterval(p, true, t.ts, t.ts, o.value.provenance, Some(o.value.source), events));
    }
  }

  method AddBetween(phases: seq<PhaseInterval>, p: Phase, s: Option<Observation>, e: Option<Observation>, events: nat)
    returns (r: seq<PhaseInterval>)
    requires |phases| == 14 && phases[p] == ABSENT
    ensures r == phases[p := Between(p, s, e, events)]
  {
    r := phases;
    if s.Some? && e.Some? && Timed(s) && Timed(e) {
      var ts, te := TimeOf(s), TimeOf(e);
      r := AddPhase(r, PhaseInterval(p, true, ts.ts, te.ts, EndsProvenance(ts, te), Some(s.value.source), events));
    }
  }

  method AddBatchWait(v: seq<Observation>, phases: seq<PhaseInterval>, disp: Option<Observation>)
          returns (r: seq<PhaseInterval>)
    requires |phases| == 14 && phases[BATCH_WAIT] == ABSENT && disp == FirstObs(v, DISPATCH_OBS)
    ensures r == phases[BATCH_WAIT := BatchWaitPhase(v)]
  {
    hide FirstObs, ObsTime;
    var form := FindFirst(v, BATCH_FORM_OBS);
    var seal := FindFirst(v, BATCH_SEAL_OBS);
    r := phases;
    if (form.Some? || seal.Some?) && disp.Some? && Timed(disp) {
      var x := if form.Some? then form else seal;
      r := AddPhase(r, PhaseInterval(BATCH_WAIT, true, TimeOf(x).ts, TimeOf(disp).ts,
                                     EndsProvenance(TimeOf(x), TimeOf(disp)), Some(x.value.source), 0));
    }
  }

  method AddDispatch(v: seq<Observation>, phases: seq<PhaseInterval>, disp: Option<Observation>,
                     ps: Option<Observation>, ds: Option<Observation>) returns (r: seq<PhaseInterval>)
    requires |phases| == 14 && phases[DISPATCH] == ABSENT && disp == FirstObs(v, DISPATCH_OBS)
    requires ps == FirstObs(v, PREFILL_START_OBS) && ds == FirstObs(v, DECODE_START_OBS)
    ensures r == phases[DISPATCH := DispatchPhase(v)]
  {
    hide FirstObs, ObsTime;
    r := phases;
    if disp.Some? && Timed(disp) {
      var s, e := TimeOf(disp), TimeOf(ps);
      if e.ts == 0 { e := TimeOf(ds); }
      if e.ts < s.ts { e := e.(ts := s.ts); }
      r := AddPhase(r, PhaseInterval(DISPATCH, true, s.ts, e.ts, EndsProvenance(s, e), Some(disp.value.source), 0));
    }
  }

  method AddFirstToken(v: seq<Observation>, phases: seq<PhaseInterval>, pe: Option<Observation>,
                       ds: Option<Observation>, de: Option<Observation>) returns (r: seq<PhaseInterval>)
    requires |phases| == 14 && phases[FIRST_TOKEN] == ABSENT && pe == LastObs(v, PREFILL_END_OBS)
    requires ds == FirstObs(v, DECODE_START_OBS) && de == LastObs(v, DECODE_END_OBS)
    ensures r == phases[FIRST_TOKEN := FirstTokenPhase(v)]
  {
    hide FirstObs, LastObs, ObsTime;
    r := phases;
    if ds.Some? && de.Some? && Timed(ds) && Timed(de) {
      var end := TimeOf(de);
      var base := if TimeOf(pe).ts != 0 then TimeOf(pe) else TimeOf(ds);
      if end.ts < base.ts { end := TimeOf(ds); }
      r := AddPhase(r, PhaseInterval(FIRST_TOKEN, true, base.ts, end.ts, RECONSTRUCTED, Some(ds.value.source), 0));
    }
  }

  method AddArrivalAndTotal(v: seq<Observation>, phases: seq<PhaseInterval>, req: Option<Observation>,
                            qe: Option<Observation>, comp: Option<Observation>) returns (r: seq<PhaseInterval>)
    requires |phases| == 14 && phases[ARRIVAL] == ABSENT && phases[TOTAL] == ABSENT
    requires req == FirstObs(v, REQUEST_OBS) && qe == FirstObs(v, QUEUE_ENTER_OBS) && comp == LastObs(v, COMPLETION_OBS)
    ensures r == phases[ARRIVAL := ArrivalPhase(v)][TOTAL := TotalPhase(v)]
  {
    hide FirstObs, LastObs, ObsTime;
    var a := TimeOf(req);
    if a.ts == 0 { a := TimeOf(qe); }
    if a.ts == 0 && v != [] { a := ObsTime(v[0]); }
    var c := TimeOf(comp);
    if c.ts == 0 && v != [] { c := ObsTime(v[|v| - 1]); }
    r := phases;
    if a.ts != 0 {
      r := AddPhase(r, PhaseInterval(ARRIVAL, true, a.ts, a.ts,
                                     if req.Some? then req.value.provenance else RECONSTRUCTED,
                                     if req.Some? then Some(req.value.source) else None, 0));
      var last := if c.ts != 0 then c else if v == [] then a else ObsTime(v[|v| - 1]);
      if last.ts < a.ts { last := last.(ts := a.ts); }
      r := AddPhase(r, PhaseInterval(TOTAL, true, a.ts, last.ts, RECONSTRUCTED, None, 0));
    }
  }

  method AddExecution(v: seq<Observation>, phases: seq<PhaseInterval>) returns (r: seq<PhaseInterval>)
    requires |phases| == 14 && forall p :: BATCH_WAIT <= p <= SPECULATION ==> phases[p] == ABSENT
    ensures |r| == 14
    ensures forall p :: 0 <= p < 14 ==> r[p] == if BATCH_WAIT <= p <= SPECULATION then PhaseSlot(v, p) else phases[p]
  {
    var disp := FindFirst(v, DISPATCH_OBS);
    var ts := FindFirst(v, TRANSFER_START_OBS);
    var te := FindLast(v, TRANSFER_END_OBS);
    var ps := FindFirst(v, PREFILL_START_OBS);
    var pe := FindLast(v, PREFILL_END_OBS);
    var ds := FindFirst(v, DECODE_START_OBS);
    var de := FindLast(v, DECODE_END_OBS);
    var ss := FindFirst(v, SPECULATION_START_OBS);
    var se := FindLast(v, SPECULATION_VERIFY_OBS);
    var steps := CountKind(v, DECODE_START_OBS);
    hide FirstObs, LastObs, CountObs, BatchWaitPhase, DispatchPhase, FirstTokenPhase, Between, ArrivalPhase;
    hide TotalPhase, Mark;
    r := AddBatchWait(v, phases, disp);
    r := AddDispatch(v, r, disp, ps, ds);
    r := AddBetween(r, TRANSFER, ts, te, 0);
    r := AddBetween(r, PREFILL, ps, pe, 0);
    r := AddFirstToken(v, r, pe, ds, de);
    r := AddBetween(r, DECODE, ds, de, steps);
    r := AddBetween(r, SPECULATION, ss, se, 0);
  }

  method ExtractAll(v: seq<Observation>) returns (phases: seq<PhaseInterval>)
    ensures phases == ExtractPhases(v)
  {
    var req := FindFirst(v, REQUEST_OBS);
    var adm := FindFirst(v, ADMISSION_OBS);
    var qe := FindFirst(v, QUEUE_ENTER_OBS);
    var ql := FindLast(v, QUEUE_LEAVE_OBS);
    var retry := FindFirst(v, RETRY_OBS);
    var rec := FindFirst(v, RECOVERY_OBS);
    var comp := FindLast(v, COMPLETION_OBS);
    var entered := CountKind(v, QUEUE_ENTER_OBS);
    var retries := CountKind(v, RETRY_OBS);
    hide FirstObs, LastObs, CountObs, BatchWaitPhase, DispatchPhase, FirstTokenPhase, Between, ArrivalPhase;
    hide TotalPhase, Mark;
    phases := seq(14, _ => ABSENT);
    phases := AddArrivalAndTotal(v, phases, req, qe, comp);
    phases := AddMark(phases, ADMISSION, adm, 0);
    phases := AddBetween(phases, QUEUE, qe, ql, entered);
    phases := AddExecution(v, phases);
    phases := AddMark(phases, RETRY, retry, retries);
    phases := AddMark(phases, RECOVERY, rec, 0);
    phases := AddMark(phases, COMPLETION, comp, 0);
    assert forall i :: 0 <= i < 14 ==> phases[i] == PhaseSlot(v, i);
  }

  /** The identity snapshot and coordination metadata, gathered in one pass. */
  method Snapshot(v: seq<Observation>, rid: Id128) returns (tr: RequestTrace)
    ensures tr == Build(v, rid).(timeline := [], phases := [], outcome := OUTCOME_UNKNOWN, terminalReason := [])
  {
    hide ExtractPhases, Timeline, OutcomeOf, TerminalReason, IdField, AddNew;
    var tenantKey, workloadKey := Ascii("tenant_id"), Ascii("workload_id");
    var modelKey, revKey, adapterKey := Ascii("model_id"), Ascii("model_rev_id"), Ascii("adapter_id");
    var tenant, workload, model, modelRev, adapter := NULL_ID, NULL_ID, NULL_ID, NULL_ID, NULL_ID;
    var boots, srcGens, obsGens := [], [], [];
    var minEpoch, maxEpoch := 0, 0;
    for i := 0 to |v|
      invariant tenant == FirstIdentity(v[..i], tenantKey) && workload == FirstIdentity(v[..i], workloadKey)
      invariant model == FirstIdentity(v[..i], modelKey) && modelRev == FirstIdentity(v[..i], revKey)
      invariant adapter == FirstIdentity(v[..i], adapterKey)
      invariant boots == Boots(v[..i]) && srcGens == SrcGens(v[..i]) && obsGens == ObsGens(v[..i])
      invariant minEpoch == MinEpoch(v[..i]) && maxEpoch == MaxEpoch(v[..i])
    {
      var o := v[i];
      assert v[..i + 1][..i] == v[..i] && v[..i + 1][i] == o;
      if tenant.IsNull() { tenant := IdField(o, tenantKey); }
      if workload.IsNull() { workload := IdField(o, workloadKey); }
      if model.IsNull() { model := IdField(o, modelKey); }
      if modelRev.IsNull() { modelRev := IdField(o, revKey); }
      if adapter.IsNull() { adapter := IdField(o, adapterKey); }
      boots := AddNew(boots, o.boot);
      srcGens := AddNew(srcGens, o.srcGen);
      obsGens := AddNew(obsGens, o.obsGen);
      if minEpoch == 0 || o.epoch < minEpoch { minEpoch := o.epoch; }
      if o.epoch > maxEpoch { maxEpoch := o.epoch; }
    }
    assert v[..|v|] == v;
    tr := RequestTrace(rid, tenant, workload, model, modelRev, adapter, v, [], [], OUTCOME_UNKNOWN, [],
                       minEpoch, maxEpoch, boots, srcGens, obsGens);
  }

  method BuildTimeline(v: seq<Observation>) returns (timeline: seq<TraceEvent>)
    ensures timeline == Timeline(v)
  {
    timeline := [];
    for i := 0 to |v|
      invariant timeline == Timeline(v[..i])
    {
      timeline := timeline + [EventOf(v[i], i % TWO_32)];
      assert v[..i + 1][..i] == v[..i];
    }
    assert v[..|v|] == v;
  }

  method ReconstructTrace(obs: seq<Observation>, rid: Id128) returns (tr: RequestTrace)
    ensures tr == Reconstruct(obs, rid)
  {
    hide ExtractPhases, Timeline, FirstIdentity, OutcomeFromCode, TextField, FirstObs, LastObs;
    var v := SortBy(ObsLess, obs);
    tr := Snapshot(v, rid);
    var timeline := BuildTimeline(v);
    var phases := ExtractAll(v);
    var comp := FindLast(v, COMPLETION_OBS);
    var cancel := FindFirst(v, CANCEL_OBS);
    var fail := FindFirst(v, FAILURE_OBS);
    var outcome, reason := OUTCOME_UNKNOWN, [];
    if comp.Some? {
      outcome := OutcomeFromCode(TextField(comp.value, Ascii("outcome")));
      reason := TextField(comp.value, Ascii("reason"));
    } else if cancel.Some? {
      outcome, reason := CANCELLED, TextField(cancel.value, Ascii("reason"));
    } else if fail.Some? {
      outcome, reason := FAILED, TextField(fail.value, Ascii("reason"));
    }
    if outcome == OUTCOME_UNKNOWN {
      var failures := CountKind(v, FAILURE_OBS);
      if fail.None? { NoneCounted(v, FAILURE_OBS); }
      if failures > 0 && comp.None? { outcome := FAILED; }
      else if comp.Some? { outcome := COMPLETED; }
    }
    assert outcome == OutcomeOf(v) && reason == TerminalReason(v);
    tr := tr.(timeline := timeline, phases := phases, outcome := outcome, terminalReason := reason);
  }

  lemma {:induction false} NoneCounted(v: seq<Observation>, t: ObsType)
    requires FirstObs(v, t).None?
    ensures CountObs(v, t) == 0
  {
    hide FirstObs;
    if v != [] {
      var w := v[..|v| - 1];
      assert v[|v| - 1] in v && forall o :: o in w ==> o in v;
      assert forall o :: o in w ==> o.kind != t;
      if FirstObs(w, t).None? { NoneCounted(w, t); }
    }
  }
}

