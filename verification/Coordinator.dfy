/** The coordinator as a step system (include/servingobs/store/coordinator.hpp,
    src/coordinator.cpp:17-110). Every public operation runs under one mutex, so a concurrent
    execution is a sequence of atomic steps; the theorems are about all such sequences. */
module Coordinators {
  import opened Types
  import opened Identity
  import opened Ordering
  import opened Observations
  import opened Authority

  datatype HelloPayload = HelloPayload(
    source: Id128, worker: Id128, boot: Id128, srcGen: u64, obsGen: u64, epoch: u64,
    clockDomain: Bytes, role: Bytes, extra: Bytes)

  datatype State = State(
    epoch: u64,
    registry: Registry,
    accepted: map<Id128, Observation>,
    byRequest: map<Id128, seq<Observation>>,
    stale: seq<(Observation, Reason)>,
    acceptedTotal: u32, staleTotal: u32, duplicateTotal: u32)

  const EMPTY: State := State(1, map[], map[], map[], [], 0, 0, 0)

  /** Decision code 0xFF marks a duplicate identity; otherwise the authority's decision. */
  datatype Verdict = ByAuthority(d: Decision) | KnownId

  datatype IngestResult = IngestResult(accepted: bool, verdict: Verdict, reason: Reason, acceptedTotal: u32,
      rejectedTotal: u32)

  /** The observation a HELLO registers with. */
  function HelloObservation(h: HelloPayload): Observation {
    Observation(NULL_ID, 1, h.source, h.worker, h.boot, h.srcGen, h.obsGen, h.epoch, 0, h.clockDomain,
                false, 0, false, 0, PROVENANCE_UNKNOWN, false, HEALTH_UNKNOWN, false, 0, map[])
  }

  function Increment(n: u32): u32 { (n + 1) % TWO_32 }

  function Indexed(index: map<Id128, seq<Observation>>, o: Observation): map<Id128, seq<Observation>> {
    var r := RequestIdOf(o);
    if r.IsNull() then index
    else index[r := (if r in index then index[r] else []) + [o]]
  }

  predicate Accepts(keyOf: KeyFunction, s: State, o: Observation) {
    o.id !in s.accepted && Judge(s.registry, KeyOf(keyOf, o), o).0.Accepted?
  }

  function Ingest(keyOf: KeyFunction, s: State, o: Observation): State {
    if o.id in s.accepted then
      s.(duplicateTotal := Increment(s.duplicateTotal), stale := s.stale + [(o, DuplicateObservation(o.id))])
    else
      var (d, why) := Judge(s.registry, KeyOf(keyOf, o), o);
      if !d.Accepted? then
        s.(staleTotal := Increment(s.staleTotal), stale := s.stale + [(o, why)])
      else
        s.(registry := Validate(s.registry, KeyOf(keyOf, o), o),
           accepted := s.accepted[o.id := o],
           byRequest := Indexed(s.byRequest, o),
           acceptedTotal := Increment(s.acceptedTotal))
  }

  function IngestAnswer(keyOf: KeyFunction, s: State, o: Observation): IngestResult {
    var t := Ingest(keyOf, s, o);
    if o.id in s.accepted
    then IngestResult(false, KnownId, DuplicateObservation(o.id), t.acceptedTotal, t.staleTotal)
    else
      var (d, why) := Judge(s.registry, KeyOf(keyOf, o), o);
      IngestResult(d.Accepted?, ByAuthority(d), why, t.acceptedTotal, t.staleTotal)
  }

  // ------------------------------------------------------------ runs

  datatype Step =
    | SetEpoch(epoch: u64)
    | RegisterStep(o: Observation, epoch: u64, force: bool)
    | IngestStep(o: Observation)
    | RestartStep(source: Id128, worker: Id128, boot: Id128, epoch: u64)
    | ResetStep

  function HelloStep(h: HelloPayload): Step {
    RegisterStep(HelloObservation(h), h.epoch, false)
  }

  function Apply(keyOf: KeyFunction, s: State, step: Step): State {
    match step
    case SetEpoch(e) => s.(epoch := e)
    case RegisterStep(o, e, force) =>
      var k := KeyOf(keyOf, o);
      s.(registry := s.registry[k := Register(s.registry, k, o, e, force)])
    case IngestStep(o) => Ingest(keyOf, s, o)
    case RestartStep(source, worker, boot, e) =>
      var k := keyOf(source, worker);
      s.(registry := s.registry[k := Restarted(s.registry, k, source, worker, boot, e)])
    case ResetStep => State(s.epoch, map[], map[], map[], [], 0, 0, 0)
  }

  /** A state together with what happened since construction or the last reset: the acceptances in
      order, and how many ingest calls there were. */
  datatype World = World(s: State, log: seq<Observation>, calls: nat)

  function Next(keyOf: KeyFunction, w: World, step: Step): World {
    var t := Apply(keyOf, w.s, step);
    match step
    case IngestStep(o) => World(t, if Accepts(keyOf, w.s, o) then w.log + [o] else w.log, w.calls + 1)
    case ResetStep => World(t, [], 0)
    case _ => w.(s := t)
  }

  function Run(keyOf: KeyFunction, steps: seq<Step>): World {
    if steps == [] then World(EMPTY, [], 0)
    else Next(keyOf, Run(keyOf, steps[..|steps| - 1]), steps[|steps| - 1])
  }

  /** The acceptances of one request, in acceptance order. */
  function ForRequest(log: seq<Observation>, r: Id128): seq<Observation> {
    if log == [] then []
    else
      var rest := ForRequest(log[..|log| - 1], r);
      var o := log[|log| - 1];
      if RequestIdOf(o) == r then rest + [o] else rest
  }

  // ------------------------------------------------------------ conservation and the live index

  /** The accepted map is the log, by identity, and identities are never accepted twice. */
  ghost predicate MapIsLog(s: State, log: seq<Observation>) {
    && (forall i, j :: 0 <= i < j < |log| ==> log[i].id != log[j].id)
    && (forall i :: 0 <= i < |log| ==> log[i].id in s.accepted && s.accepted[log[i].id] == log[i])
    && (forall id :: id in s.accepted ==> s.accepted[id] in log && s.accepted[id].id == id)
  }

  /** The live index is the log filtered by request, over exactly the requests accepted. */
  ghost predicate IndexIsLog(s: State, log: seq<Observation>) {
    && (forall r :: r in s.byRequest <==> !r.IsNull() && exists o :: o in log && RequestIdOf(o) == r)
    && (forall r :: r in s.byRequest ==> s.byRequest[r] == ForRequest(log, r))
  }

  /** How many retained observations were refused for their identity. */
  function Duplicates(stale: seq<(Observation, Reason)>): (n: nat)
    ensures n <= |stale|
  {
    if stale == [] then 0
    else Duplicates(stale[..|stale| - 1]) + if stale[|stale| - 1].1.DuplicateObservation? then 1 else 0
  }

  /** Each counter counts its own kind of call, modulo its 32-bit width, and every call was either
      accepted or retained as stale. */
  ghost predicate Counted(w: World) {
    && |w.s.accepted| == |w.log|
    && w.s.acceptedTotal == |w.log| % TWO_32
    && w.s.duplicateTotal == Duplicates(w.s.stale) % TWO_32
    && w.s.staleTotal == (|w.s.stale| - Duplicates(w.s.stale)) % TWO_32
    && |w.log| + |w.s.stale| == w.calls
  }

  /** No timestamp is held for an authority that has seen none. */
  ghost predicate TimestampsCanonical(reg: Registry) {
    forall k :: k in reg && !reg[k].hasLastTs ==> reg[k].lastObsTs == 0
  }

  ghost predicate Consistent(w: World) {
    MapIsLog(w.s, w.log) && IndexIsLog(w.s, w.log) && Counted(w) && TimestampsCanonical(w.s.registry)
  }

  lemma ForRequestAppend(log: seq<Observation>, o: Observation, r: Id128)
    ensures ForRequest(log + [o], r) == if RequestIdOf(o) == r then ForRequest(log, r) + [o] else ForRequest(log, r)
  {
    assert (log + [o])[..|log|] == log;
  }

  lemma {:induction false} ForRequestNone(log: seq<Observation>, r: Id128)
    requires forall o :: o in log ==> RequestIdOf(o) != r
    ensures ForRequest(log, r) == []
  {
    if log != [] {
      ForRequestNone(log[..|log| - 1], r);
    }
  }

  lemma AcceptKeepsIndex(s: State, log: seq<Observation>, o: Observation)
    requires IndexIsLog(s, log)
    ensures IndexIsLog(s.(byRequest := Indexed(s.byRequest, o)), log + [o])
  {
    hide RequestIdOf, ForRequest;
    var index := Indexed(s.byRequest, o);
    var q := RequestIdOf(o);
    forall r ensures r in index <==> !r.IsNull() && exists p :: p in log + [o] && RequestIdOf(p) == r {
      assert o in log + [o];
      if exists p :: p in log && RequestIdOf(p) == r {
        var p :| p in log && RequestIdOf(p) == r;
        assert p in log + [o];
      }
    }
    forall r | r in index ensures index[r] == ForRequest(log + [o], r) {
      ForRequestAppend(log, o, r);
      if r !in s.byRequest { ForRequestNone(log, r); }
    }
  }

  lemma AcceptKeepsMap(s: State, log: seq<Observation>, o: Observation)
    requires MapIsLog(s, log) && o.id !in s.accepted
    ensures MapIsLog(s.(accepted := s.accepted[o.id := o]), log + [o])
  {
    var m := s.accepted[o.id := o];
    forall id | id in m ensures m[id] in log + [o] && m[id].id == id {
      if id != o.id { assert s.accepted[id] in log; }
    }
  }

  lemma IncrementCounts(n: nat)
    ensures Increment(n % TWO_32) == (n + 1) % TWO_32
  {
  }

  lemma DuplicatesAppend(stale: seq<(Observation, Reason)>, o: Observation, why: Reason)
    ensures Duplicates(stale + [(o, why)]) == Duplicates(stale) + if why.DuplicateObservation? then 1 else 0
  {
    assert (stale + [(o, why)])[..|stale|] == stale;
  }

  lemma JudgeNamesNoDuplicate(reg: Registry, k: u64, o: Observation)
    ensures !Judge(reg, k, o).1.DuplicateObservation?
  {
  }

  lemma IngestKeepsCounts(keyOf: KeyFunction, w: World, o: Observation)
    requires Counted(w)
    ensures Counted(Next(keyOf, w, IngestStep(o)))
  {
    hide Judge, Validate, Indexed, Increment, Duplicates;
    var why := Judge(w.s.registry, KeyOf(keyOf, o), o).1;
    JudgeNamesNoDuplicate(w.s.registry, KeyOf(keyOf, o), o);
    if Accepts(keyOf, w.s, o) {
      assert |w.s.accepted[o.id := o]| == |w.s.accepted| + 1;
      IncrementCounts(|w.log|);
    } else if o.id in w.s.accepted {
      IncrementCounts(Duplicates(w.s.stale));
      DuplicatesAppend(w.s.stale, o, DuplicateObservation(o.id));
    } else {
      IncrementCounts(|w.s.stale| - Duplicates(w.s.stale));
      DuplicatesAppend(w.s.stale, o, why);
    }
  }

  lemma StepKeepsTimestamps(keyOf: KeyFunction, s: State, step: Step)
    requires TimestampsCanonical(s.registry)
    ensures TimestampsCanonical(Apply(keyOf, s, step).registry)
  {
    hide Indexed;
  }

  lemma StepKeepsConsistent(keyOf: KeyFunction, w: World, step: Step)
    requires Consistent(w)
    ensures Consistent(Next(keyOf, w, step))
  {
    hide Judge, Validate, Register, Restarted, Indexed, MapIsLog, IndexIsLog, TimestampsCanonical;
    StepKeepsTimestamps(keyOf, w.s, step);
    match step
    case IngestStep(o) =>
      IngestKeepsCounts(keyOf, w, o);
      SameMap(w.s, Next(keyOf, w, step).s, w.log);
      if Accepts(keyOf, w.s, o) {
        AcceptKeepsMap(w.s, w.log, o);
        AcceptKeepsIndex(w.s, w.log, o);
        SameMap(w.s.(accepted := w.s.accepted[o.id := o]), Next(keyOf, w, step).s, w.log + [o]);
        SameMap(w.s.(byRequest := Indexed(w.s.byRequest, o)), Next(keyOf, w, step).s, w.log + [o]);
      }
    case ResetStep => EmptyConsistent(w.s.epoch);
    case _ => SameMap(w.s, Next(keyOf, w, step).s, w.log);
  }

  /** MapIsLog looks at the accepted map only, IndexIsLog at the index only. */
  lemma SameMap(s: State, t: State, log: seq<Observation>)
    ensures s.accepted == t.accepted ==> (MapIsLog(s, log) <==> MapIsLog(t, log))
    ensures s.byRequest == t.byRequest ==> (IndexIsLog(s, log) <==> IndexIsLog(t, log))
  {
  }

  lemma EmptyConsistent(epoch: u64)
    ensures Consistent(World(State(epoch, map[], map[], map[], [], 0, 0, 0), [], 0))
  {
  }

  /** Conservation, distinct identities and the live index hold in every reachable state. */
  lemma {:induction false} ReachableConsistent(keyOf: KeyFunction, steps: seq<Step>)
    ensures Consistent(Run(keyOf, steps))
  {
    hide Consistent, Next;
    if steps == [] {
      EmptyConsistent(1);
    } else {
      ReachableConsistent(keyOf, steps[..|steps| - 1]);
      StepKeepsConsistent(keyOf, Run(keyOf, steps[..|steps| - 1]), steps[|steps| - 1]);
    }
  }

  /** Below 2^32 calls the counters are exact: the accepted map has as many entries as the one, and
      the stale history as many as the other two together. */
  lemma CountersAreExact(keyOf: KeyFunction, steps: seq<Step>)
    requires Run(keyOf, steps).calls < TWO_32
    ensures var s := Run(keyOf, steps).s;
            && s.acceptedTotal == |s.accepted|
            && s.duplicateTotal == Duplicates(s.stale)
            && s.staleTotal + s.duplicateTotal == |s.stale|
            && s.acceptedTotal + s.staleTotal + s.duplicateTotal == Run(keyOf, steps).calls
  {
    hide Run, Duplicates, MapIsLog, IndexIsLog, TimestampsCanonical;
    ReachableConsistent(keyOf, steps);
  }

  /** A call that is not accepted leaves registry, accepted map and index as they were and retains
      the observation, last, with its reason; an accepted one leaves the stale history alone. */
  lemma IngestFrame(keyOf: KeyFunction, s: State, o: Observation)
    ensures var t := Ingest(keyOf, s, o);
            if IngestAnswer(keyOf, s, o).accepted
            then t.stale == s.stale && t.accepted == s.accepted[o.id := o] && o.id !in s.accepted
            else && t.registry == s.registry && t.accepted == s.accepted && t.byRequest == s.byRequest
                 && t.stale == s.stale + [(o, IngestAnswer(keyOf, s, o).reason)]
    ensures IngestAnswer(keyOf, s, o).accepted <==> Accepts(keyOf, s, o)
  {
  }

  /** What the answer to an ingest call says: a known identity is named as such; otherwise it is the
      decision and the reason that the registry entry and the observation deserve. A refused
      observation is the last stale entry, with that reason. */
  lemma AnswersExactly(keyOf: KeyFunction, s: State, o: Observation)
    ensures var r := IngestAnswer(keyOf, s, o);
            var t := Ingest(keyOf, s, o);
            && (r.verdict == KnownId <==> o.id in s.accepted)
            && (o.id in s.accepted ==> !r.accepted && r.reason == DuplicateObservation(o.id))
            && (o.id !in s.accepted ==>
                  && r.verdict.ByAuthority? && Deserves(s.registry, KeyOf(keyOf, o), o, r.verdict.d, r.reason)
                  && (r.accepted <==> r.verdict.d == Accepted))
            && (!r.accepted ==> t.stale != [] && t.stale[|t.stale| - 1] == (o, r.reason))
            && r.acceptedTotal == t.acceptedTotal && r.rejectedTotal == t.staleTotal
  {
    hide Indexed, Judge, Deserves, Validate;
    var (d, why) := Judge(s.registry, KeyOf(keyOf, o), o);
    JudgedExactly(s.registry, KeyOf(keyOf, o), o, d, why);
  }

  // ------------------------------------------------------------ authority over whole runs

  /** The caller's side of the registration contract, checkable before the call: a known key is only
      re-registered in a way that keeps its frontier, and source generations do not wrap. */
  ghost predicate Permitted(keyOf: KeyFunction, s: State, step: Step) {
    match step
    case RegisterStep(o, _, force) =>
      var k := KeyOf(keyOf, o);
      k in s.registry ==> KeepsFrontier(s.registry[k], o, force)
    case RestartStep(source, worker, _, _) =>
      var k := keyOf(source, worker);
      k in s.registry ==> s.registry[k].srcGen + 1 < TWO_64
    case _ => true
  }

  ghost predicate Disciplined(keyOf: KeyFunction, steps: seq<Step>) {
    forall i :: 0 <= i < |steps| ==> Permitted(keyOf, Run(keyOf, steps[..i]).s, steps[i])
  }

  /** Every accepted observation is at or below its key's frontier. */
  ghost predicate UnderFrontier(keyOf: KeyFunction, w: World) {
    forall i {:trigger w.log[i]} :: 0 <= i < |w.log| ==>
      var k := KeyOf(keyOf, w.log[i]);
      k in w.s.registry
      && AtMost(w.log[i].srcGen, w.log[i].seqNum, w.s.registry[k].srcGen, w.s.registry[k].lastSeq)
  }

  /** Per key, acceptances never go back in (source generation, sequence), and every acceptance
      with a positive sequence number is strictly above all earlier ones. */
  ghost predicate MonotonePerKey(keyOf: KeyFunction, log: seq<Observation>) {
    forall i, j :: 0 <= i < j < |log| && KeyOf(keyOf, log[i]) == KeyOf(keyOf, log[j]) ==>
      && AtMost(log[i].srcGen, log[i].seqNum, log[j].srcGen, log[j].seqNum)
      && (log[j].seqNum > 0 ==> Below(log[i].srcGen, log[i].seqNum, log[j].srcGen, log[j].seqNum))
  }

  lemma AcceptMonotone(keyOf: KeyFunction, w: World, o: Observation)
    requires UnderFrontier(keyOf, w) && MonotonePerKey(keyOf, w.log) && Accepts(keyOf, w.s, o)
    ensures var w' := Next(keyOf, w, IngestStep(o)); UnderFrontier(keyOf, w') && MonotonePerKey(keyOf, w'.log)
  {
    hide Judge, Indexed;
    var w' := Next(keyOf, w, IngestStep(o));
    var k := KeyOf(keyOf, o);
    AcceptanceExact(w.s.registry, k, o);
    assert w'.log == w.log + [o];
    forall i | 0 <= i < |w'.log|
      ensures var q := KeyOf(keyOf, w'.log[i]);
              q in w'.s.registry
              && AtMost(w'.log[i].srcGen, w'.log[i].seqNum, w'.s.registry[q].srcGen, w'.s.registry[q].lastSeq)
    {
      if i < |w.log| { assert w'.log[i] == w.log[i]; }
    }
    forall i, j | 0 <= i < j < |w'.log| && KeyOf(keyOf, w'.log[i]) == KeyOf(keyOf, w'.log[j])
      ensures AtMost(w'.log[i].srcGen, w'.log[i].seqNum, w'.log[j].srcGen, w'.log[j].seqNum)
      ensures w'.log[j].seqNum > 0 ==> Below(w'.log[i].srcGen, w'.log[i].seqNum, w'.log[j].srcGen, w'.log[j].seqNum)
    {
      assert w'.log[i] == w.log[i];
      if j < |w.log| { assert w'.log[j] == w.log[j]; }
    }
  }

  lemma PermittedMonotone(keyOf: KeyFunction, w: World, step: Step)
    requires UnderFrontier(keyOf, w) && MonotonePerKey(keyOf, w.log) && Permitted(keyOf, w.s, step)
    ensures var w' := Next(keyOf, w, step); UnderFrontier(keyOf, w') && MonotonePerKey(keyOf, w'.log)
  {
    hide Judge, Indexed;
    if step.IngestStep? {
      if Accepts(keyOf, w.s, step.o) { AcceptMonotone(keyOf, w, step.o); }
    }
  }

  /** Authority over every disciplined run. */
  lemma {:induction false} DisciplinedMonotone(keyOf: KeyFunction, steps: seq<Step>)
    requires Disciplined(keyOf, steps)
    ensures UnderFrontier(keyOf, Run(keyOf, steps)) && MonotonePerKey(keyOf, Run(keyOf, steps).log)
  {
    hide UnderFrontier, MonotonePerKey, Permitted, Next;
    if steps == [] {
      EmptyMonotone(keyOf);
    } else {
      var n := |steps| - 1;
      var before := steps[..n];
      forall i | 0 <= i < n ensures Permitted(keyOf, Run(keyOf, before[..i]).s, before[i]) {
        assert before[..i] == steps[..i];
      }
      DisciplinedMonotone(keyOf, before);
      PermittedMonotone(keyOf, Run(keyOf, before), steps[n]);
    }
  }

  lemma EmptyMonotone(keyOf: KeyFunction)
    ensures UnderFrontier(keyOf, World(EMPTY, [], 0)) && MonotonePerKey(keyOf, [])
  {
  }

  /** At most one acceptance per key, source generation and positive sequence number, whatever
      identities the observations carry. */
  lemma AtMostOncePerSequence(keyOf: KeyFunction, steps: seq<Step>, i: nat, j: nat)
    requires Disciplined(keyOf, steps)
    requires i < |Run(keyOf, steps).log| && j < |Run(keyOf, steps).log|
    requires var a, b := Run(keyOf, steps).log[i], Run(keyOf, steps).log[j];
             KeyOf(keyOf, a) == KeyOf(keyOf, b) && a.srcGen == b.srcGen && a.seqNum == b.seqNum > 0
    ensures i == j
  {
    hide Run;
    DisciplinedMonotone(keyOf, steps);
  }

  // ------------------------------------------------------------ exactly when order is safe

  /** A key whose last sequence number is positive got it from its latest acceptance. */
  ghost predicate IsLatest(keyOf: KeyFunction, log: seq<Observation>, k: u64, srcGen: u64, seqNum: u64, j: nat)
    requires j < |log|
  {
    && KeyOf(keyOf, log[j]) == k && log[j].srcGen == srcGen && log[j].seqNum == seqNum
    && forall i :: j < i < |log| ==> KeyOf(keyOf, log[i]) != k
  }

  ghost predicate FrontiersEarned(keyOf: KeyFunction, w: World) {
    && (forall i :: 0 <= i < |w.log| ==> KeyOf(keyOf, w.log[i]) in w.s.registry)
    && (forall k :: k in w.s.registry && w.s.registry[k].lastSeq > 0 ==>
          exists j: nat :: j < |w.log| && IsLatest(keyOf, w.log, k, w.s.registry[k].srcGen, w.s.registry[k].lastSeq, j))
  }

  lemma AcceptKeepsEarned(keyOf: KeyFunction, w: World, o: Observation)
    requires FrontiersEarned(keyOf, w) && Accepts(keyOf, w.s, o)
    ensures FrontiersEarned(keyOf, Next(keyOf, w, IngestStep(o)))
  {
    hide Judge, Indexed;
    var w' := Next(keyOf, w, IngestStep(o));
    var q := KeyOf(keyOf, o);
    AcceptanceExact(w.s.registry, q, o);
    assert w'.log == w.log + [o];
    forall k | k in w'.s.registry && w'.s.registry[k].lastSeq > 0
      ensures exists j: nat :: j < |w'.log|
                && IsLatest(keyOf, w'.log, k, w'.s.registry[k].srcGen, w'.s.registry[k].lastSeq, j)
    {
      var a := w'.s.registry[k];
      if k == q {
        assert IsLatest(keyOf, w'.log, k, a.srcGen, a.lastSeq, |w.log|);
      } else {
        var j: nat :| j < |w.log| && IsLatest(keyOf, w.log, k, a.srcGen, a.lastSeq, j);
        assert IsLatest(keyOf, w'.log, k, a.srcGen, a.lastSeq, j);
      }
    }
  }

  lemma StepKeepsEarned(keyOf: KeyFunction, w: World, step: Step)
    requires FrontiersEarned(keyOf, w)
    ensures FrontiersEarned(keyOf, Next(keyOf, w, step))
  {
    hide Judge, Indexed, IsLatest;
    if step.IngestStep? && Accepts(keyOf, w.s, step.o) {
      AcceptKeepsEarned(keyOf, w, step.o);
    }
  }

  lemma {:induction false} ReachableEarned(keyOf: KeyFunction, steps: seq<Step>)
    ensures FrontiersEarned(keyOf, Run(keyOf, steps))
  {
    hide Next;
    if steps != [] {
      var n := |steps| - 1;
      ReachableEarned(keyOf, steps[..n]);
      hide FrontiersEarned;
      StepKeepsEarned(keyOf, Run(keyOf, steps[..n]), steps[n]);
    }
  }

  /** Whatever is accepted next, order per key survives. */
  ghost predicate NextKeepsOrder(keyOf: KeyFunction, w: World) {
    forall p :: Accepts(keyOf, w.s, p) ==> MonotonePerKey(keyOf, w.log + [p])
  }

  /** An observation the authority would accept with sequence number 0. */
  function Zero(a: SourceAuthority, like: Observation, id: Id128): Observation {
    like.(id := id, boot := a.boot, srcGen := a.srcGen, obsGen := a.obsGen, epoch := a.epoch, seqNum := 0)
  }

  lemma AboveFrontierBreaks(keyOf: KeyFunction, w: World, i: nat, unused: Id128)
    requires NextKeepsOrder(keyOf, w) && unused !in w.s.accepted && i < |w.log|
    requires var k := KeyOf(keyOf, w.log[i]); k in w.s.registry && w.s.registry[k].lastSeq == 0
    ensures var a := w.s.registry[KeyOf(keyOf, w.log[i])]; AtMost(w.log[i].srcGen, w.log[i].seqNum, a.srcGen, 0)
  {
    var o := w.log[i];
    var k := KeyOf(keyOf, o);
    var p := Zero(w.s.registry[k], o, unused);
    AcceptanceExact(w.s.registry, k, p);
    assert Accepts(keyOf, w.s, p);
    var log := w.log + [p];
    assert MonotonePerKey(keyOf, log);
    assert log[i] == o && log[|w.log|] == p;
  }

  lemma EarnedIsAbove(keyOf: KeyFunction, w: World, i: nat)
    requires FrontiersEarned(keyOf, w) && MonotonePerKey(keyOf, w.log) && i < |w.log|
    requires w.s.registry[KeyOf(keyOf, w.log[i])].lastSeq > 0
    ensures var a := w.s.registry[KeyOf(keyOf, w.log[i])];
            AtMost(w.log[i].srcGen, w.log[i].seqNum, a.srcGen, a.lastSeq)
  {
    var k := KeyOf(keyOf, w.log[i]);
    var a := w.s.registry[k];
    var j: nat :| j < |w.log| && IsLatest(keyOf, w.log, k, a.srcGen, a.lastSeq, j);
  }

  /** In every reachable state whose acceptances are in order, the next one cannot break the order
      exactly when every acceptance so far is at or below its key's frontier. */
  lemma OrderIsSafeExactly(keyOf: KeyFunction, steps: seq<Step>, unused: Id128)
    requires MonotonePerKey(keyOf, Run(keyOf, steps).log) && unused !in Run(keyOf, steps).s.accepted
    ensures NextKeepsOrder(keyOf, Run(keyOf, steps)) <==> UnderFrontier(keyOf, Run(keyOf, steps))
  {
    var w := Run(keyOf, steps);
    ReachableEarned(keyOf, steps);
    hide Run, Judge, Indexed;
    if UnderFrontier(keyOf, w) {
      forall p | Accepts(keyOf, w.s, p) ensures MonotonePerKey(keyOf, w.log + [p]) {
        AcceptMonotone(keyOf, w, p);
      }
    }
    if NextKeepsOrder(keyOf, w) {
      hide NextKeepsOrder;
      forall i: nat | i < |w.log|
        ensures var k := KeyOf(keyOf, w.log[i]);
                k in w.s.registry
                && AtMost(w.log[i].srcGen, w.log[i].seqNum, w.s.registry[k].srcGen, w.s.registry[k].lastSeq)
      {
        if w.s.registry[KeyOf(keyOf, w.log[i])].lastSeq == 0 {
          AboveFrontierBreaks(keyOf, w, i, unused);
        } else {
          EarnedIsAbove(keyOf, w, i);
        }
      }
    }
  }

  /** Nothing of this key has been accepted above the authority. */
  ghost predicate NothingAbove(keyOf: KeyFunction, log: seq<Observation>, k: u64, a: SourceAuthority) {
    forall i :: 0 <= i < |log| && KeyOf(keyOf, log[i]) == k
        ==> AtMost(log[i].srcGen, log[i].seqNum, a.srcGen, a.lastSeq)
  }

  /** Re-registering a source keeps acceptances in order exactly when nothing of its key has been
      accepted above the new frontier, whatever the registration changes. */
  lemma RegistrationKeepsOrder(keyOf: KeyFunction, steps: seq<Step>, o: Observation, epoch: u64, force: bool,
          unused: Id128)
    requires var w := Run(keyOf, steps);
             MonotonePerKey(keyOf, w.log) && UnderFrontier(keyOf, w) && unused !in w.s.accepted
    ensures var w := Run(keyOf, steps);
            var k := KeyOf(keyOf, o);
            NextKeepsOrder(keyOf, Next(keyOf, w, RegisterStep(o, epoch, force)))
            <==> NothingAbove(keyOf, w.log, k, Register(w.s.registry, k, o, epoch, force))
  {
    var step := RegisterStep(o, epoch, force);
    var w := Run(keyOf, steps);
    RunAppend(keyOf, steps, step);
    assert Next(keyOf, w, step).log == w.log && Next(keyOf, w, step).s.accepted == w.s.accepted;
    hide Run, NextKeepsOrder, MonotonePerKey, Register;
    OrderIsSafeExactly(keyOf, steps + [step], unused);
  }

  /** Without the discipline the guarantee fails: registering another boot under the same source
      generation makes an already accepted sequence number acceptable again. */
  lemma UndisciplinedRepeats(keyOf: KeyFunction, o: Observation, p: Observation)
    requires o.seqNum > 0 && o.id != p.id
    requires p == o.(id := p.id, boot := p.boot) && p.boot != o.boot
    ensures var steps := [RegisterStep(o, o.epoch, false), IngestStep(o), RegisterStep(p, p.epoch, false),
            IngestStep(p)];
            Run(keyOf, steps).log == [o, p] && !Disciplined(keyOf, steps)
  {
    hide Indexed;
    var s1, s2 := RegisterStep(o, o.epoch, false), IngestStep(o);
    var s3, s4 := RegisterStep(p, p.epoch, false), IngestStep(p);
    var steps := [s1, s2, s3, s4];
    assert steps[..3] == [s1, s2, s3] && [s1, s2, s3][..2] == [s1, s2] && [s1, s2][..1] == [s1] && [s1][..0] == [];
    var w1, w2 := Run(keyOf, [s1]), Run(keyOf, [s1, s2]);
    var w3 := Run(keyOf, [s1, s2, s3]);
    assert Run(keyOf, []) == World(EMPTY, [], 0);
    assert w1 == Next(keyOf, Run(keyOf, [s1][..0]), s1);
    assert w2 == Next(keyOf, w1, s2) && w2.log == [o];
    assert steps[..2] == [s1, s2] && !Permitted(keyOf, w2.s, s3);
    assert w3 == Next(keyOf, w2, s3) && w3.log == [o];
    assert p.id !in w3.s.accepted;
    assert Accepts(keyOf, w3.s, p);
    assert [o] + [p] == [o, p];
  }

  function IngestAll(os: seq<Observation>): (steps: seq<Step>)
    ensures |steps| == |os|
  {
    if os == [] then [] else IngestAll(os[..|os| - 1]) + [IngestStep(os[|os| - 1])]
  }

  /** One source sending sequence number 0 over and over. */
  ghost predicate AllZero(first: Observation, os: seq<Observation>) {
    && (forall i :: 0 <= i < |os| ==> os[i].seqNum == 0 && os[i].source == first.source && os[i].worker == first.worker
                                      && os[i].boot == first.boot && os[i].srcGen == first.srcGen
                                      && os[i].obsGen == first.obsGen && os[i].epoch == first.epoch)
    && (forall i, j :: 0 <= i < j < |os| ==> os[i].id != os[j].id)
  }

  /** The registration of `first` is current and nothing but sequence number 0 was accepted. */
  ghost predicate StillZero(keyOf: KeyFunction, s: State, first: Observation) {
    var k := KeyOf(keyOf, first);
    k in s.registry && Repeats(s.registry[k], first) && s.registry[k].epoch == first.epoch && s.registry[k].lastSeq == 0
  }

  lemma ZeroStep(keyOf: KeyFunction, w: World, first: Observation, o: Observation)
    requires StillZero(keyOf, w.s, first) && AllZero(first, [o]) && o.id !in w.s.accepted
    ensures var w' := Next(keyOf, w, IngestStep(o)); w'.log == w.log + [o] && StillZero(keyOf, w'.s, first)
  {
    hide Indexed;
    assert [o][0] == o;
    AcceptanceExact(w.s.registry, KeyOf(keyOf, o), o);
  }

  lemma RunAppend(keyOf: KeyFunction, before: seq<Step>, step: Step)
    ensures Run(keyOf, before + [step]) == Next(keyOf, Run(keyOf, before), step)
    ensures Disciplined(keyOf, before) && Permitted(keyOf, Run(keyOf, before).s, step)
            ==> Disciplined(keyOf, before + [step])
  {
    hide Next, Permitted;
    var steps := before + [step];
    assert steps[..|before|] == before;
    forall i | 0 <= i < |before| ensures steps[..i] == before[..i] && steps[i] == before[i] { }
  }

  lemma FirstRegistration(keyOf: KeyFunction, first: Observation)
    ensures var steps := [RegisterStep(first, first.epoch, false)];
            Run(keyOf, steps).log == [] && StillZero(keyOf, Run(keyOf, steps).s, first) && Disciplined(keyOf, steps)
  {
    var register := RegisterStep(first, first.epoch, false);
    assert [] + [register] == [register];
    RunAppend(keyOf, [], register);
  }

  lemma NewIdentity(keyOf: KeyFunction, steps: seq<Step>, id: Id128)
    requires forall i :: 0 <= i < |Run(keyOf, steps).log| ==> Run(keyOf, steps).log[i].id != id
    ensures id !in Run(keyOf, steps).s.accepted
  {
    hide Run;
    ReachableConsistent(keyOf, steps);
  }

  /** Sequence number 0 is outside the guarantee, even in a disciplined run: any number of
      observations carrying it under one registration are all accepted. */
  lemma {:induction false} ZeroSequenceRepeats(keyOf: KeyFunction, first: Observation, os: seq<Observation>)
    requires AllZero(first, os)
    ensures var steps := [RegisterStep(first, first.epoch, false)] + IngestAll(os);
            var w := Run(keyOf, steps);
            w.log == os && Disciplined(keyOf, steps) && StillZero(keyOf, w.s, first)
  {
    hide Run, Next, Disciplined, StillZero;
    var register := RegisterStep(first, first.epoch, false);
    if os == [] {
      FirstRegistration(keyOf, first);
      assert [register] + IngestAll(os) == [register];
    } else {
      var n := |os| - 1;
      var before := [register] + IngestAll(os[..n]);
      ZeroSequenceRepeats(keyOf, first, os[..n]);
      NewIdentity(keyOf, before, os[n].id);
      ZeroStep(keyOf, Run(keyOf, before), first, os[n]);
      RunAppend(keyOf, before, IngestStep(os[n]));
      assert [register] + IngestAll(os) == before + [IngestStep(os[n])];
      assert os == os[..n] + [os[n]];
    }
  }

  // ------------------------------------------------------------ the object

  class Coordinator {
    const registry: SourceRegistry
    var epoch: u64
    var accepted: map<Id128, Observation>
    var byRequest: map<Id128, seq<Observation>>
    var stale: seq<(Observation, Reason)>
    var acceptedTotal: u32
    var staleTotal: u32
    var duplicateTotal: u32

    ghost function Now(): State
      reads this, registry
    {
      State(epoch, registry.byKey, accepted, byRequest, stale, acceptedTotal, staleTotal, duplicateTotal)
    }

    constructor (keyOf: KeyFunction)
      ensures Now() == EMPTY && registry.keyOf == keyOf && fresh(registry)
    {
      registry := new SourceRegistry(keyOf);
      epoch := 1;
      accepted, byRequest, stale := map[], map[], [];
      acceptedTotal, staleTotal, duplicateTotal := 0, 0, 0;
    }

    method SetEpochTo(e: u64)
      modifies this
      ensures Now() == Apply(registry.keyOf, old(Now()), SetEpoch(e))
    {
      epoch := e;
    }

    method RegisterHello(h: HelloPayload) returns (a: SourceAuthority)
      modifies this, registry
      ensures Now() == Apply(registry.keyOf, old(Now()), HelloStep(h))
      ensures var k := registry.keyOf(h.source, h.worker);
              && k in registry.byKey && a == registry.byKey[k]
              && a.boot == h.boot && a.srcGen == h.srcGen && a.obsGen == h.obsGen && a.epoch == h.epoch
    {
      a := registry.RegisterSource(HelloObservation(h), h.epoch, false);
    }

    method MarkRestart(source: Id128, worker: Id128, boot: Id128, e: u64) returns (a: SourceAuthority)
      modifies this, registry
      ensures Now() == Apply(registry.keyOf, old(Now()), RestartStep(source, worker, boot, e))
    {
      a := registry.MarkRestart(source, worker, boot, e);
    }

    method IngestObservation(o: Observation) returns (r: IngestResult)
      modifies this, registry
      ensures Now() == Apply(registry.keyOf, old(Now()), IngestStep(o))
      ensures r == IngestAnswer(registry.keyOf, old(Now()), o)
    {
      hide Judge, Advance;
      if o.id in accepted {
        duplicateTotal := Increment(duplicateTotal);
        stale := stale + [(o, DuplicateObservation(o.id))];
        return IngestResult(false, KnownId, DuplicateObservation(o.id), acceptedTotal, staleTotal);
      }
      var d, why := registry.ValidateObservation(o);
      if d != Accepted {
        staleTotal := Increment(staleTotal);
        stale := stale + [(o, why)];
        return IngestResult(false, ByAuthority(d), why, acceptedTotal, staleTotal);
      }
      accepted := accepted[o.id := o];
      var rid := RequestIdOf(o);
      if !rid.IsNull() {
        byRequest := byRequest[rid := (if rid in byRequest then byRequest[rid] else []) + [o]];
      }
      acceptedTotal := Increment(acceptedTotal);
      return IngestResult(true, ByAuthority(Accepted), why, acceptedTotal, staleTotal);
    }

    /** The accepted observations in identity order. */
    method AllAccepted() returns (out: seq<Observation>)
      ensures out == AcceptedInOrder(accepted)
    {
      IdLessTotal();
      var ids := KeysInOrder(IdLess, accepted.Keys);
      out := [];
      for i := 0 to |ids|
        invariant out == Lookup(accepted, ids[..i])
      {
        out := out + [accepted[ids[i]]];
        assert ids[..i + 1][..i] == ids[..i];
      }
      assert ids[..|ids|] == ids;
    }

    /** The authorities in key order. */
    method RegistrySnapshot() returns (out: seq<SourceAuthority>)
      ensures out == AuthoritiesInOrder(registry.byKey)
    {
      var ks := KeysInOrder(U64Less, registry.byKey.Keys);
      out := [];
      for i := 0 to |ks|
        invariant out == Lookup(registry.byKey, ks[..i])
      {
        out := out + [registry.byKey[ks[i]]];
        assert ks[..i + 1][..i] == ks[..i];
      }
      assert ks[..|ks|] == ks;
    }

    method Reset()
      modifies this, registry
      ensures Now() == Apply(registry.keyOf, old(Now()), ResetStep)
    {
      accepted, byRequest, stale := map[], map[], [];
      acceptedTotal, staleTotal, duplicateTotal := 0, 0, 0;
      registry.byKey := map[];
    }
  }

  function Lookup<K, T>(m: map<K, T>, ks: seq<K>): (r: seq<T>)
    requires forall k :: k in ks ==> k in m
    ensures |r| == |ks|
  {
    if ks == [] then [] else Lookup(m, ks[..|ks| - 1]) + [m[ks[|ks| - 1]]]
  }

  ghost function AcceptedInOrder(m: map<Id128, Observation>): seq<Observation> {
    Lookup(m, SortedKeys(IdLess, m.Keys))
  }

  ghost function AuthoritiesInOrder(reg: Registry): seq<SourceAuthority> {
    Lookup(reg, SortedKeys(U64Less, reg.Keys))
  }
}
