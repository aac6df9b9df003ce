/** From the network to the archive: a coordinator that was only ever fed bytes can always be saved
    and loaded back, within the loader's size limits. */
module Served {
  import opened Types
  import opened Identity
  import opened Ordering
  import opened Observations
  import opened ObservationCodec
  import opened Authority
  import opened Coordinators
  import opened Delivery
  import opened Decoded
  import opened Traces
  import opened Replays
  import opened Archives
  import F = Frames

  ghost predicate Durable(o: Observation) {
    Storable(o) && Readable(o) && Canonical(o)
  }

  ghost predicate AllDurable(s: State) {
    && (forall id :: id in s.accepted ==> Durable(s.accepted[id]))
    && (forall i :: 0 <= i < |s.stale| ==> Durable(s.stale[i].0))
  }

  /** Whatever arrives in a frame is durable. */
  lemma ReceivedIsDurable(wire: Bytes)
    requires StepOf(wire).Some? && StepOf(wire).value.IngestStep?
    ensures Durable(StepOf(wire).value.o)
  {
    hide F.Decode, F.Encode, DecodePayload, Encode, Fits, Readable, Canonical, Payloads.DecodeHello;
    var f := F.Decode(wire).value;
    F.AcceptedIffEncoded(wire, f);
    DecodedIsGood(f.payload);
    PayloadRoundTrip(DecodePayload(f.payload).value);
  }

  lemma IngestKeepsDurable(keyOf: KeyFunction, s: State, o: Observation)
    requires AllDurable(s) && Durable(o)
    ensures AllDurable(Ingest(keyOf, s, o))
  {
    hide Durable, Judge, Validate, Indexed;
  }

  lemma DeliveryKeepsDurable(keyOf: KeyFunction, s: State, wire: Bytes)
    requires AllDurable(s)
    ensures AllDurable(Deliver(keyOf, s, wire))
  {
    hide Durable, Ingest, F.Decode, DecodePayload, Payloads.DecodeHello, Register;
    if StepOf(wire).Some? && StepOf(wire).value.IngestStep? {
      ReceivedIsDurable(wire);
      IngestKeepsDurable(keyOf, s, StepOf(wire).value.o);
    }
  }

  lemma {:induction false} ReceivedStateIsDurable(keyOf: KeyFunction, wires: seq<Bytes>)
    ensures AllDurable(DeliverAll(keyOf, wires))
  {
    hide Deliver, Durable;
    if wires != [] {
      ReceivedStateIsDurable(keyOf, wires[..|wires| - 1]);
      DeliveryKeepsDurable(keyOf, DeliverAll(keyOf, wires[..|wires| - 1]), wires[|wires| - 1]);
    }
  }

  lemma AcceptedAreDurable(s: State, o: Observation)
    requires AllDurable(s) && o in AcceptedInOrder(s.accepted)
    ensures Durable(o)
  {
    hide SortedKeys, Durable;
    var ids := SortedKeys(IdLess, s.accepted.Keys);
    LookupValues(s.accepted, ids);
  }

  /** What is left to chance: the texts rendered outside this model fit their length prefixes. */
  ghost predicate Renders(views: Views, say: Wording, s: State) {
    && Renderable(views.trace, TracesOf(AcceptedInOrder(s.accepted)))
    && Renderable(views.explanation, TracesOf(AcceptedInOrder(s.accepted)))
    && forall i :: 0 <= i < |s.stale| ==> |say(s.stale[i].1)| < TWO_32
  }

  lemma DurableIsSavable(views: Views, say: Wording, s: State)
    requires AllDurable(s) && Renders(views, say, s)
    ensures Savable(views, say, s)
  {
    hide AcceptedInOrder, TracesOf, Renderable, Storable, Readable, Canonical;
    forall o | o in AcceptedInOrder(s.accepted) ensures Storable(o) { AcceptedAreDurable(s, o); }
  }

  lemma DurableIsCanonical(views: Views, say: Wording, s: State, a: Archive)
    requires AllDurable(s) && Replayable(views, AcceptedInOrder(s.accepted)) && a == BuildFrom(views, say, s)
    ensures EverythingCanonical(a) && AllReadable(a.accepted) && StaleReadable(a.stale)
  {
    hide AcceptedInOrder, Replayable, Replay, Storable, Readable, Canonical;
    forall i | 0 <= i < |a.accepted| ensures Durable(a.accepted[i]) {
      assert a.accepted[i] in a.accepted;
      AcceptedAreDurable(s, a.accepted[i]);
    }
  }

  /** What saving reads while frames keep arriving. */
  ghost function ServedSnapshot(keyOf: KeyFunction, wires: seq<Bytes>, e: nat, r: nat, q: nat, p: nat): State
    requires e <= r <= q <= p <= |wires|
  {
    Mixed(DeliverAll(keyOf, wires[..e]), DeliverAll(keyOf, wires[..r]),
          DeliverAll(keyOf, wires[..q]), DeliverAll(keyOf, wires[..p]))
  }

  lemma ServedFacts(keyOf: KeyFunction, wires: seq<Bytes>)
    ensures var s := DeliverAll(keyOf, wires);
            && AllDurable(s) && TimestampsCanonical(s.registry) && DistinctIds(AcceptedInOrder(s.accepted))
            && RestartsUpTo(s.registry, |wires|) && |s.accepted| <= |wires| && |s.stale| <= |wires|
  {
    hide DeliverAll, StepsOf, Run, AllDurable, AcceptedInOrder, DistinctIds, MapIsLog, IndexIsLog, TimestampsCanonical;
    AnyBytesAreARun(keyOf, wires);
    ReceivedStateIsDurable(keyOf, wires);
    var w := Run(keyOf, StepsOf(wires));
    RunBounded(keyOf, StepsOf(wires));
    AcceptedPermutesLog(w.s, w.log);
  }

  lemma ServedSnapshotFacts(keyOf: KeyFunction, wires: seq<Bytes>, e: nat, r: nat, q: nat, p: nat)
    requires e <= r <= q <= p <= |wires|
    ensures var s := ServedSnapshot(keyOf, wires, e, r, q, p);
            && AllDurable(s) && TimestampsCanonical(s.registry) && DistinctIds(AcceptedInOrder(s.accepted))
            && (|wires| < 0x8000_0000 ==> CountersFit(s))
  {
    hide DeliverAll, Durable, AcceptedInOrder, DistinctIds, TimestampsCanonical;
    ServedFacts(keyOf, wires[..r]);
    ServedFacts(keyOf, wires[..q]);
    ServedFacts(keyOf, wires[..p]);
  }

  /** For any byte strings received, and an archive read while they arrive: it can be written, and it
      loads back completely, verified, exactly when its body and counts are within the limits. Below
      2^31 frames the counters fit by themselves. */
  lemma ServedArchiveLoads(views: Views, say: Wording, keyOf: KeyFunction, wires: seq<Bytes>,
                           e: nat, r: nat, q: nat, p: nat, verify: bool)
    requires e <= r <= q <= p <= |wires|
    requires var s := ServedSnapshot(keyOf, wires, e, r, q, p);
             Renders(views, say, s) && (|wires| < 0x8000_0000 || CountersFit(s))
    ensures var s := ServedSnapshot(keyOf, wires, e, r, q, p);
            Savable(views, say, s) && LoadsBack(views, BuildFrom(views, say, s), verify)
  {
    hide ServedSnapshot, AllDurable, Renders, AcceptedInOrder, Replayable, AllRetainedFit, Worded, CountersFit;
    hide TimestampsCanonical, DistinctIds;
    var s := ServedSnapshot(keyOf, wires, e, r, q, p);
    ServedSnapshotFacts(keyOf, wires, e, r, q, p);
    DurableIsSavable(views, say, s);
    var a := BuildFrom(views, say, s);
    hide *;
    DurableIsCanonical(views, say, s, a);
    SavableIsWritable(views, say, s, a);
    ConsistentIsBuilt(views, say, s, a);
    ArchiveRoundTrip(views, a, verify);
    InLimits(views, a, verify);
  }

  /** Writable, and loaded back exactly when body and counts are within the limits. */
  ghost predicate LoadsBack(views: Views, a: Archive, verify: bool) {
    Writable(a) &&
    (Load(views, Sealed(Body(a)), verify) == Ok(Expected(a, verify)) <==> |Body(a)| < TWO_32 && WithinLimits(a))
  }

  lemma InLimits(views: Views, a: Archive, verify: bool)
    requires Writable(a) && EverythingCanonical(a) && AllReadable(a.accepted) && StaleReadable(a.stale)
    requires Load(views, Sealed(Body(a)), verify) == Ok(Expected(a, verify)) <==> Loadable(a) && EverythingCanonical(a)
    ensures LoadsBack(views, a, verify)
  {
    hide Load, Sealed, Body, Expected, WithinLimits, AllReadable, StaleReadable, EverythingCanonical, Writable;
  }
}
