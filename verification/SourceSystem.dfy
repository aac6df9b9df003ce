/** A source and the coordinator composed over a network (src/source.cpp:84-119 with
    src/coordinator.cpp:22-110). HELLOs of the tracked source arrive in the order they were sent;
    its observations may be delayed, duplicated and reordered at will; everybody else is arbitrary
    traffic on other registry keys, and the coordinator may be reset at any time. */
module SourceSystem {
  import opened Types
  import opened Identity
  import opened Observations
  import opened ObservationCodec
  import opened Authority
  import opened Coordinators

  datatype SourceState = SourceState(
    source: Id128, worker: Id128, boot: Id128, srcGen: u64, obsGen: u64, epoch: u64,
    clockDomain: Bytes, role: Bytes, seqNum: u64, serial: u64)

  function RestartBoot(s: SourceState, derive: u64 -> Id128): SourceState {
    s.(boot := derive(s.serial), srcGen := (s.srcGen + 1) % TWO_64,
       obsGen := (s.obsGen + 1) % TWO_64, serial := (s.serial + 1) % TWO_64)
  }

  function HelloOf(s: SourceState): HelloPayload {
    HelloPayload(s.source, s.worker, s.boot, s.srcGen, s.obsGen, s.epoch, s.clockDomain, s.role, [])
  }

  /** An observation made by the source: its envelope, the next sequence number, an identity
      derived from both, and no payload yet. */
  function MakeObservation(s: SourceState, kind: ObsType, id: Id128): Observation {
    Observation(id, kind, s.source, s.worker, s.boot, s.srcGen, s.obsGen, s.epoch, (s.seqNum + 1) % TWO_64,
                s.clockDomain, false, 0, false, 0, MEASURED, false, HEALTH_UNKNOWN, false, 0, map[])
  }

  /** Whatever payload, times or health are filled in afterwards, the envelope stays. */
  predicate Stamped(s: SourceState, o: Observation) {
    o.source == s.source && o.worker == s.worker && o.boot == s.boot
    && o.srcGen == s.srcGen && o.obsGen == s.obsGen && o.epoch == s.epoch
  }

  class Source {
    var cfg: SourceState
    const deriveBoot: u64 -> Id128
    const deriveId: (SourceState, ObsType) -> Id128

    constructor (cfg: SourceState, deriveBoot: u64 -> Id128, deriveId: (SourceState, ObsType) -> Id128)
      ensures this.cfg == cfg && this.deriveBoot == deriveBoot && this.deriveId == deriveId
    {
      this.cfg, this.deriveBoot, this.deriveId := cfg, deriveBoot, deriveId;
    }

    method Restart() returns (boot: Id128)
      modifies this
      ensures cfg == RestartBoot(old(cfg), deriveBoot) && boot == cfg.boot
      ensures old(cfg).srcGen + 1 < TWO_64 ==> cfg.srcGen == old(cfg).srcGen + 1
    {
      boot := deriveBoot(cfg.serial);
      cfg := cfg.(boot := boot);
      cfg := cfg.(srcGen := (cfg.srcGen + 1) % TWO_64);
      cfg := cfg.(obsGen := (cfg.obsGen + 1) % TWO_64);
      cfg := cfg.(serial := (cfg.serial + 1) % TWO_64);
    }

    method NextSeq()
      modifies this
      ensures cfg == old(cfg).(seqNum := (old(cfg).seqNum + 1) % TWO_64)
    {
      cfg := cfg.(seqNum := (cfg.seqNum + 1) % TWO_64);
    }

    /** Building an observation changes nothing in the source. */
    method Make(kind: ObsType, request: Id128, obsTs: u64) returns (o: Observation)
      ensures Stamped(cfg, o) && o.seqNum == (cfg.seqNum + 1) % TWO_64
      ensures o.kind == kind && o.id == deriveId(cfg, kind) && o.clockDomain == cfg.clockDomain
              && o.provenance == MEASURED
      ensures RequestIdOf(o) == request && o.fields.Keys == (if request.IsNull() then {} else {REQUEST_ID_KEY})
      ensures (o.hasObsTs <==> obsTs != 0) && o.obsTs == obsTs
      ensures !o.hasRecvTs && !o.hasHealth && !o.hasConfidence && Canonical(o)
    {
      o := MakeObservation(cfg, kind, deriveId(cfg, kind));
      if !request.IsNull() { o := o.(fields := o.fields[REQUEST_ID_KEY := Ident(request)]); }
      if obsTs != 0 { o := o.(hasObsTs := true, obsTs := obsTs); }
    }
  }

  // ------------------------------------------------------------ the composed system

  /** What the coordinator did with the tracked source's messages. */
  datatype Event = Registered(srcGen: u64, boot: Id128) | AcceptedObs(o: Observation)

  datatype System = System(
    src: SourceState,
    w: World,
    hellos: seq<HelloPayload>,
    wire: set<Observation>,
    events: seq<Event>,
    /** The boot and observation generation of every incarnation so far, by source generation. */
    incarnations: map<u64, (Id128, u64)>)

  datatype Action =
    | Restart
    | AdvanceSeq
    | SendHello
    | SendObs(o: Observation)
    | DeliverHello
    | DeliverObs(o: Observation)
    | Foreign(step: Step)

  function StepKey(keyOf: KeyFunction, step: Step): u64 {
    match step
    case RegisterStep(o, _, _) => KeyOf(keyOf, o)
    case IngestStep(o) => KeyOf(keyOf, o)
    case RestartStep(source, worker, _, _) => keyOf(source, worker)
    case _ => 0
  }

  /** What others do: traffic on another key, and resets of the coordinator. */
  predicate IsForeign(keyOf: KeyFunction, k: u64, step: Step) {
    step.ResetStep? || step.SetEpoch? || StepKey(keyOf, step) != k
  }

  function TrackedKey(keyOf: KeyFunction, sys: System): u64 {
    keyOf(sys.src.source, sys.src.worker)
  }

  /** When an action can happen. Source generations are assumed not to wrap. */
  predicate Enabled(keyOf: KeyFunction, sys: System, a: Action) {
    match a
    case Restart => sys.src.srcGen + 1 < TWO_64
    case SendObs(o) => Stamped(sys.src, o)
    case DeliverHello => sys.hellos != []
    case DeliverObs(o) => o in sys.wire
    case Foreign(step) => IsForeign(keyOf, TrackedKey(keyOf, sys), step)
    case _ => true
  }

  function Act(keyOf: KeyFunction, derive: u64 -> Id128, sys: System, a: Action): System
    requires Enabled(keyOf, sys, a)
  {
    match a
    case Restart =>
      var src := RestartBoot(sys.src, derive);
      sys.(src := src, incarnations := sys.incarnations[src.srcGen := (src.boot, src.obsGen)])
    case AdvanceSeq => sys.(src := sys.src.(seqNum := (sys.src.seqNum + 1) % TWO_64))
    case SendHello => sys.(hellos := sys.hellos + [HelloOf(sys.src)])
    case SendObs(o) => sys.(wire := sys.wire + {o})
    case DeliverHello =>
      var h := sys.hellos[0];
      sys.(hellos := sys.hellos[1..], w := Next(keyOf, sys.w, HelloStep(h)),
           events := sys.events + [Registered(h.srcGen, h.boot)])
    case DeliverObs(o) =>
      sys.(w := Next(keyOf, sys.w, IngestStep(o)),
           events := if Accepts(keyOf, sys.w.s, o) then sys.events + [AcceptedObs(o)] else sys.events)
    case Foreign(step) => sys.(w := Next(keyOf, sys.w, step))
  }

  function Start(src: SourceState): System {
    System(src, World(EMPTY, [], 0), [], {}, [], map[src.srcGen := (src.boot, src.obsGen)])
  }

  /** Executions: every action was enabled when it happened. */
  ghost predicate Reaches(keyOf: KeyFunction, derive: u64 -> Id128, src: SourceState, actions: seq<Action>,
          sys: System) {
    if actions == [] then sys == Start(src)
    else
      var n := |actions| - 1;
      exists before ::
        Reaches(keyOf, derive, src, actions[..n], before) && Enabled(keyOf, before, actions[n])
        && sys == Act(keyOf, derive, before, actions[n])
  }

  // ------------------------------------------------------------ the invariant

  ghost predicate Known(sys: System, srcGen: u64, boot: Id128, obsGen: u64) {
    srcGen in sys.incarnations && sys.incarnations[srcGen] == (boot, obsGen)
  }

  ghost predicate SourceCurrent(sys: System) {
    && Known(sys, sys.src.srcGen, sys.src.boot, sys.src.obsGen)
    && forall g :: g in sys.incarnations ==> g <= sys.src.srcGen
  }

  /** Messages in flight are the tracked source's own; HELLOs are queued in generation order. */
  ghost predicate MessagesGenuine(keyOf: KeyFunction, sys: System) {
    && (forall h :: h in sys.hellos ==>
          && Known(sys, h.srcGen, h.boot, h.obsGen)
          && h.source == sys.src.source && h.worker == sys.src.worker)
    && (forall o :: o in sys.wire ==>
          && Known(sys, o.srcGen, o.boot, o.obsGen)
          && o.source == sys.src.source && o.worker == sys.src.worker)
    && (forall i, j :: 0 <= i < j < |sys.hellos| ==> sys.hellos[i].srcGen <= sys.hellos[j].srcGen)
  }

  /** The registered generation of the tracked key after a history, if any. */
  function LastRegistered(events: seq<Event>): Option<(u64, Id128)> {
    if events == [] then None
    else
      var e := events[|events| - 1];
      if e.Registered? then Some((e.srcGen, e.boot)) else LastRegistered(events[..|events| - 1])
  }

  ghost predicate RegistryFollows(keyOf: KeyFunction, sys: System) {
    var k := TrackedKey(keyOf, sys);
    && (k in sys.w.s.registry ==>
          var a := sys.w.s.registry[k];
          && Known(sys, a.srcGen, a.boot, a.obsGen)
          && LastRegistered(sys.events) == Some((a.srcGen, a.boot)))
    && (LastRegistered(sys.events).Some? ==>
          LastRegistered(sys.events).value.0 <= sys.src.srcGen
          && forall h :: h in sys.hellos ==> LastRegistered(sys.events).value.0 <= h.srcGen)
  }

  /** Every acceptance is of exactly the incarnation registered at that moment, and registrations
      never go back. */
  ghost predicate EventsOrdered(events: seq<Event>) {
    && (forall j :: 0 <= j < |events| && events[j].AcceptedObs? ==>
          LastRegistered(events[..j]) == Some((events[j].o.srcGen, events[j].o.boot)))
    && (forall i, j :: 0 <= i < j < |events| && events[i].Registered? && events[j].Registered? ==>
          events[i].srcGen <= events[j].srcGen)
    && (forall i :: 0 <= i < |events| && events[i].Registered? && LastRegistered(events).Some? ==>
          events[i].srcGen <= LastRegistered(events).value.0)
  }

  ghost predicate Inv(keyOf: KeyFunction, sys: System) {
    SourceCurrent(sys) && MessagesGenuine(keyOf, sys) && RegistryFollows(keyOf, sys) && EventsOrdered(sys.events)
  }

  lemma LastRegisteredAppend(events: seq<Event>, e: Event)
    ensures LastRegistered(events + [e]) == if e.Registered? then Some((e.srcGen, e.boot)) else LastRegistered(events)
  {
    assert (events + [e])[..|events|] == events;
  }

  lemma EventsAppend(events: seq<Event>, e: Event)
    requires EventsOrdered(events)
    requires e.Registered? ==> LastRegistered(events).Some? ==> LastRegistered(events).value.0 <= e.srcGen
    requires e.Registered? && LastRegistered(events).None? ==> forall i :: 0 <= i < |events| ==> !events[i].Registered?
    requires e.AcceptedObs? ==> LastRegistered(events) == Some((e.o.srcGen, e.o.boot))
    ensures EventsOrdered(events + [e])
  {
    var all := events + [e];
    LastRegisteredAppend(events, e);
    forall j | 0 <= j < |all| && all[j].AcceptedObs?
      ensures LastRegistered(all[..j]) == Some((all[j].o.srcGen, all[j].o.boot))
    {
      assert all[..j] == events[..j];
      if j < |events| { assert all[j] == events[j]; } else { assert events[..j] == events; }
    }
    forall i | 0 <= i < |all| && all[i].Registered? && LastRegistered(all).Some?
      ensures all[i].srcGen <= LastRegistered(all).value.0
    {
      if i < |events| { assert all[i] == events[i]; }
    }
  }

  lemma {:induction false} NeverRegistered(events: seq<Event>)
    requires LastRegistered(events).None?
    ensures forall i :: 0 <= i < |events| ==> !events[i].Registered?
  {
    if events != [] {
      var n := |events| - 1;
      NeverRegistered(events[..n]);
      forall i | 0 <= i < |events| ensures !events[i].Registered? {
        if i < n { assert events[..n][i] == events[i]; }
      }
    }
  }

  lemma RestartKeeps(keyOf: KeyFunction, derive: u64 -> Id128, sys: System)
    requires Inv(keyOf, sys) && Enabled(keyOf, sys, Restart)
    ensures Inv(keyOf, Act(keyOf, derive, sys, Restart))
  {
    hide EventsOrdered, LastRegistered;
    var t := Act(keyOf, derive, sys, Restart);
    assert t.src.srcGen == sys.src.srcGen + 1;
    assert t.src.srcGen !in sys.incarnations;
    forall g, b, q | Known(sys, g, b, q) ensures Known(t, g, b, q) {}
  }

  lemma SendKeeps(keyOf: KeyFunction, derive: u64 -> Id128, sys: System, a: Action)
    requires Inv(keyOf, sys) && Enabled(keyOf, sys, a)
    requires a.SendHello? || a.SendObs? || a.AdvanceSeq?
    ensures Inv(keyOf, Act(keyOf, derive, sys, a))
  {
    hide EventsOrdered, LastRegistered;
  }

  lemma DeliverHelloKeeps(keyOf: KeyFunction, derive: u64 -> Id128, sys: System)
    requires Inv(keyOf, sys) && Enabled(keyOf, sys, DeliverHello)
    ensures Inv(keyOf, Act(keyOf, derive, sys, DeliverHello))
  {
    hide EventsOrdered, LastRegistered;
    var h := sys.hellos[0];
    var t := Act(keyOf, derive, sys, DeliverHello);
    var k := TrackedKey(keyOf, sys);
    assert h in sys.hellos;
    assert forall x :: x in t.hellos ==> x in sys.hellos;
    LastRegisteredAppend(sys.events, Registered(h.srcGen, h.boot));
    if LastRegistered(sys.events).None? { NeverRegistered(sys.events); }
    EventsAppend(sys.events, Registered(h.srcGen, h.boot));
    assert t.w.s.registry[k].srcGen == h.srcGen && t.w.s.registry[k].boot == h.boot;
    assert t.w.s.registry[k].obsGen == h.obsGen;
    forall x | x in t.hellos ensures h.srcGen <= x.srcGen {
      var i :| 0 <= i < |t.hellos| && t.hellos[i] == x;
      assert sys.hellos[i + 1] == x;
    }
  }

  lemma DeliverObsKeeps(keyOf: KeyFunction, derive: u64 -> Id128, sys: System, o: Observation)
    requires Inv(keyOf, sys) && Enabled(keyOf, sys, DeliverObs(o))
    ensures Inv(keyOf, Act(keyOf, derive, sys, DeliverObs(o)))
  {
    hide EventsOrdered, LastRegistered, Indexed, Judge;
    if Accepts(keyOf, sys.w.s, o) {
      AcceptanceExact(sys.w.s.registry, KeyOf(keyOf, o), o);
      LastRegisteredAppend(sys.events, AcceptedObs(o));
      EventsAppend(sys.events, AcceptedObs(o));
    }
  }

  lemma ForeignKeeps(keyOf: KeyFunction, derive: u64 -> Id128, sys: System, step: Step)
    requires Inv(keyOf, sys) && Enabled(keyOf, sys, Foreign(step))
    ensures Inv(keyOf, Act(keyOf, derive, sys, Foreign(step)))
  {
    hide EventsOrdered, LastRegistered, Indexed, Judge;
    var k := TrackedKey(keyOf, sys);
    var s, t := sys.w.s.registry, Apply(keyOf, sys.w.s, step).registry;
    assert k in t ==> k in s && s[k] == t[k];
  }

  lemma ActKeeps(keyOf: KeyFunction, derive: u64 -> Id128, sys: System, a: Action)
    requires Inv(keyOf, sys) && Enabled(keyOf, sys, a)
    ensures Inv(keyOf, Act(keyOf, derive, sys, a))
  {
    hide Inv, Act;
    match a
    case Restart => RestartKeeps(keyOf, derive, sys);
    case DeliverHello => DeliverHelloKeeps(keyOf, derive, sys);
    case DeliverObs(o) => DeliverObsKeeps(keyOf, derive, sys, o);
    case Foreign(step) => ForeignKeeps(keyOf, derive, sys, step);
    case _ => SendKeeps(keyOf, derive, sys, a);
  }

  lemma {:induction false} ReachableInv(keyOf: KeyFunction, derive: u64 -> Id128, src: SourceState,
                                        actions: seq<Action>, sys: System)
    requires Reaches(keyOf, derive, src, actions, sys)
    ensures Inv(keyOf, sys)
    decreases |actions|
  {
    hide Act, Enabled;
    if actions != [] {
      var n := |actions| - 1;
      var before :|
        Reaches(keyOf, derive, src, actions[..n], before) && Enabled(keyOf, before, actions[n])
        && sys == Act(keyOf, derive, before, actions[n]);
      ReachableInv(keyOf, derive, src, actions[..n], before);
      ActKeeps(keyOf, derive, before, actions[n]);
    }
  }

  lemma {:induction false} LastRegisteredIsAnEvent(events: seq<Event>)
    requires LastRegistered(events).Some?
    ensures var r := LastRegistered(events).value;
            exists i :: 0 <= i < |events| && events[i] == Registered(r.0, r.1)
  {
    var n := |events| - 1;
    if !events[n].Registered? {
      LastRegisteredIsAnEvent(events[..n]);
      var v := LastRegistered(events).value;
      var i :| 0 <= i < n && events[..n][i] == Registered(v.0, v.1);
      assert events[i] == Registered(v.0, v.1);
    } else {
      assert events[n] == Registered(LastRegistered(events).value.0, LastRegistered(events).value.1);
    }
  }

  lemma {:induction false} LastRegisteredBounds(events: seq<Event>, i: nat)
    requires EventsOrdered(events) && i < |events| && events[i].Registered?
    ensures LastRegistered(events).Some? && events[i].srcGen <= LastRegistered(events).value.0
  {
    if LastRegistered(events).None? { NeverRegistered(events); }
  }

  lemma EventsPrefix(events: seq<Event>, j: nat)
    requires EventsOrdered(events) && j <= |events|
    ensures EventsOrdered(events[..j])
  {
    var p := events[..j];
    forall i | 0 <= i < |p| && p[i].AcceptedObs?
      ensures LastRegistered(p[..i]) == Some((p[i].o.srcGen, p[i].o.boot))
    {
      assert p[..i] == events[..i] && p[i] == events[i];
    }
    if LastRegistered(p).Some? {
      RegisteredBelowLast(p);
    }
  }

  lemma {:induction false} RegisteredBelowLast(p: seq<Event>)
    requires LastRegistered(p).Some?
    requires forall i, j :: 0 <= i < j < |p| && p[i].Registered? && p[j].Registered? ==> p[i].srcGen <= p[j].srcGen
    ensures forall i :: 0 <= i < |p| && p[i].Registered? ==> p[i].srcGen <= LastRegistered(p).value.0
  {
    var n := |p| - 1;
    if !p[n].Registered? {
      var q := p[..n];
      forall i, j | 0 <= i < j < |q| && q[i].Registered? && q[j].Registered? ensures q[i].srcGen <= q[j].srcGen {
        assert q[i] == p[i] && q[j] == p[j];
      }
      RegisteredBelowLast(q);
      forall i | 0 <= i < |p| && p[i].Registered? ensures p[i].srcGen <= LastRegistered(p).value.0 {
        assert q[i] == p[i];
      }
    }
  }

  /** In every execution: once a boot is registered, no observation of an earlier boot is accepted
      any more; nothing is accepted before the HELLO of its own boot; and what is accepted carries
      the boot registered last. */
  lemma OldBootsStayOut(keyOf: KeyFunction, derive: u64 -> Id128, src: SourceState,
                        actions: seq<Action>, sys: System, j: nat)
    requires Reaches(keyOf, derive, src, actions, sys)
    requires j < |sys.events| && sys.events[j].AcceptedObs?
    ensures forall i :: 0 <= i < j && sys.events[i].Registered? ==> sys.events[i].srcGen <= sys.events[j].o.srcGen
    ensures exists i :: 0 <= i < j && sys.events[i] == Registered(sys.events[j].o.srcGen, sys.events[j].o.boot)
  {
    hide Reaches;
    ReachableInv(keyOf, derive, src, actions, sys);
    var events := sys.events;
    var o := events[j].o;
    EventsPrefix(events, j);
    hide LastRegistered;
    assert LastRegistered(events[..j]) == Some((o.srcGen, o.boot));
    LastRegisteredIsAnEvent(events[..j]);
    var m :| 0 <= m < j && events[..j][m] == Registered(o.srcGen, o.boot);
    assert events[m] == Registered(o.srcGen, o.boot);
    forall i | 0 <= i < j && events[i].Registered? ensures events[i].srcGen <= o.srcGen {
      assert events[..j][i] == events[i];
      LastRegisteredBounds(events[..j], i);
    }
  }
}
