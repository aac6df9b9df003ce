/** From bytes on a connection to coordinator steps (src/coordinator.cpp:150-217 without the
    sockets): frames are decoded, dispatched on their type and answered. Only bytes that decode
    can change anything, so the theorems about runs hold for arbitrary input. */
module Delivery {
  import opened Types
  import opened Observations
  import opened ObservationCodec
  import opened Authority
  import opened Coordinators
  import opened Payloads
  import F = Frames

  const HELLO: F.MsgType := 1
  const HELLO_ACK: F.MsgType := 2
  const OBS: F.MsgType := 3
  const OBS_ACK: F.MsgType := 4
  const STATUS: F.MsgType := 5
  const BYE: F.MsgType := 6
  const PING: F.MsgType := 7
  const PONG: F.MsgType := 8

  function Code(v: Verdict): u8 {
    match v
    case KnownId => 0xFF
    case ByAuthority(d) =>
      match d
      case Accepted => 0
      case StaleEpoch => 1
      case StaleSourceGeneration => 2
      case StaleObservationGeneration => 3
      case StaleBoot => 4
      case DuplicateSequence => 5
      case OutOfOrderSequence => 6
      case UnregisteredSource => 7
  }

  /** The step a received frame stands for, if any. */
  function StepOf(wire: Bytes): Option<Step> {
    match F.Decode(wire)
    case Err(_) => None
    case Ok(f) =>
      if f.msgType == HELLO then
        match DecodeHello(f.payload)
        case Err(_) => None
        case Ok(h) => Some(HelloStep(h))
      else if f.msgType == OBS then
        match DecodePayload(f.payload)
        case Err(_) => None
        case Ok(o) => Some(IngestStep(o))
      else None
  }

  function Deliver(keyOf: KeyFunction, s: State, wire: Bytes): State {
    match StepOf(wire)
    case None => s
    case Some(step) => Apply(keyOf, s, step)
  }

  function ObsAck(keyOf: KeyFunction, say: Wording, s: State, o: Observation): AckPayload {
    var r := IngestAnswer(keyOf, s, o);
    AckPayload(r.accepted, Code(r.verdict), r.acceptedTotal, say(r.reason))
  }

  function StatusOf(s: State): StatusPayload {
    StatusPayload(Ascii("healthy"), |s.registry| % TWO_32, s.acceptedTotal, s.staleTotal, s.epoch)
  }

  /** The frame sent back. */
  function Reply(keyOf: KeyFunction, say: Wording, s: State, wire: Bytes): Option<Bytes> {
    match F.Decode(wire)
    case Err(_) => None
    case Ok(f) =>
      if f.msgType == HELLO then
        (if DecodeHello(f.payload).Ok?
         then Some(F.Encode(HELLO_ACK, AckBytes(AckPayload(true, 0, s.acceptedTotal, [])), F.PROTOCOL_VERSION))
         else None)
      else if f.msgType == OBS then
        match DecodePayload(f.payload)
        case Err(_) => None
        case Ok(o) => Some(F.Encode(OBS_ACK, AckBytes(ObsAck(keyOf, say, s, o)), F.PROTOCOL_VERSION))
      else if f.msgType == STATUS then Some(F.Encode(STATUS, StatusBytes(StatusOf(s)), F.PROTOCOL_VERSION))
      else if f.msgType == PING then Some(F.Encode(PONG, [], F.PROTOCOL_VERSION))
      else None
  }

  /** A frame that does not decode, or a BYE, ends the connection. */
  predicate KeepsOpen(wire: Bytes) {
    F.Decode(wire).Ok? && F.Decode(wire).value.msgType != BYE
  }

  /** What a source receives for a reply frame. */
  function AckIn(wire: Bytes, expected: F.MsgType): Option<AckPayload> {
    match F.Decode(wire)
    case Err(_) => None
    case Ok(f) => if f.msgType == expected && DecodeAck(f.payload).Ok? then Some(DecodeAck(f.payload).value) else None
  }

  // ------------------------------------------------------------ end to end

  /** An observation small enough for a frame. */
  ghost predicate Sendable(o: Observation) {
    Fits(o) && Readable(o) && Canonical(o) && |Encode(o)| + 8 <= F.MAX_FRAME
  }

  /** Sending an observation ingests exactly that observation, and the source reads back exactly the
      coordinator's answer. */
  lemma ObservationExchange(keyOf: KeyFunction, say: Wording, s: State, o: Observation)
    requires Sendable(o) && |say(IngestAnswer(keyOf, s, o).reason)| + 18 <= F.MAX_FRAME
    ensures var wire := F.Encode(OBS, Encode(o), F.PROTOCOL_VERSION);
            && Deliver(keyOf, s, wire) == Ingest(keyOf, s, o)
            && Reply(keyOf, say, s, wire).Some?
            && AckIn(Reply(keyOf, say, s, wire).value, OBS_ACK) == Some(ObsAck(keyOf, say, s, o))
            && KeepsOpen(wire)
  {
    hide F.Decode, F.Encode, DecodePayload, Encode, DecodeAck, AckBytes, Ingest, Code, Fits, Readable;
    hide Canonical, IngestAnswer;
    PayloadRoundTrip(o);
    F.DecodeEncode(OBS, Encode(o), F.PROTOCOL_VERSION);
    AckTravels(ObsAck(keyOf, say, s, o), OBS_ACK);
  }

  lemma AckTravels(a: AckPayload, t: F.MsgType)
    requires |a.reason| + 18 <= F.MAX_FRAME
    ensures AckIn(F.Encode(t, AckBytes(a), F.PROTOCOL_VERSION), t) == Some(a)
  {
    hide F.Decode, F.Encode, DecodeAck;
    AckExact(AckBytes(a), a);
    assert |AckBytes(a)| == 10 + |a.reason|;
    F.DecodeEncode(t, AckBytes(a), F.PROTOCOL_VERSION);
  }

  /** A HELLO registers exactly what was announced and is acknowledged as accepted. */
  lemma HelloExchange(keyOf: KeyFunction, say: Wording, s: State, h: HelloPayload)
    requires HelloFits(h) && |HelloBytes(h)| + 8 <= F.MAX_FRAME
    ensures var wire := F.Encode(HELLO, HelloBytes(h), F.PROTOCOL_VERSION);
            && Deliver(keyOf, s, wire) == Apply(keyOf, s, HelloStep(h))
            && Reply(keyOf, say, s, wire).Some?
            && AckIn(Reply(keyOf, say, s, wire).value, HELLO_ACK) == Some(AckPayload(true, 0, s.acceptedTotal, []))
  {
    hide F.Decode, F.Encode, DecodeHello, HelloBytes, DecodeAck, AckBytes, Apply, HelloFits;
    HelloExact(HelloBytes(h), h);
    F.DecodeEncode(HELLO, HelloBytes(h), F.PROTOCOL_VERSION);
    AckTravels(AckPayload(true, 0, s.acceptedTotal, []), HELLO_ACK);
  }

  lemma StatusTravels(s: State)
    ensures F.Decode(F.Encode(STATUS, StatusBytes(StatusOf(s)), F.PROTOCOL_VERSION))
         == Ok(F.Frame(F.PROTOCOL_VERSION, STATUS, StatusBytes(StatusOf(s))))
    ensures DecodeStatus(StatusBytes(StatusOf(s))) == Ok(StatusOf(s))
  {
    hide F.Decode, F.Encode, DecodeStatus;
    assert |Ascii("healthy")| == 7;
    StatusExact(StatusBytes(StatusOf(s)), StatusOf(s));
    assert |StatusBytes(StatusOf(s))| == 31;
    F.DecodeEncode(STATUS, StatusBytes(StatusOf(s)), F.PROTOCOL_VERSION);
  }

  /** A frame of type 5 that decodes to the figures of the coordinator. */
  ghost predicate ReportsStatus(wire: Bytes, s: State) {
    && F.Decode(wire).Ok? && F.Decode(wire).value.msgType == 5
    && DecodeStatus(F.Decode(wire).value.payload)
       == Ok(StatusPayload(Ascii("healthy"), |s.registry| % TWO_32, s.acceptedTotal, s.staleTotal, s.epoch))
  }

  /** What the type of a received frame decides, by its number: 5 asks for the status and gets it, 7 is
      answered by an empty 8, 6 closes the connection, 1 and 3 are answered exactly when their payload
      decodes and alone can change the state, and nothing else is answered. */
  lemma TypesDecide(keyOf: KeyFunction, say: Wording, s: State, wire: Bytes)
    requires F.Decode(wire).Ok?
    ensures var f := F.Decode(wire).value;
            var r := Reply(keyOf, say, s, wire);
            && (KeepsOpen(wire) <==> f.msgType != 6)
            && (f.msgType == 5 ==> r.Some? && ReportsStatus(r.value, s))
            && (f.msgType == 7 ==> r.Some? && F.Decode(r.value) == Ok(F.Frame(1, 8, [])))
            && (f.msgType == 1 ==> (r.Some? <==> DecodeHello(f.payload).Ok?))
            && (f.msgType == 3 ==> (r.Some? <==> DecodePayload(f.payload).Ok?))
            && (f.msgType in {2, 4, 6, 8} ==> r == None)
            && (f.msgType !in {1, 3} || r == None ==> Deliver(keyOf, s, wire) == s)
  {
    hide F.Decode, F.Encode, DecodeHello, DecodePayload, DecodeStatus, Apply, IngestAnswer, AckBytes, StatusBytes, Code;
    StatusTravels(s);
    F.DecodeEncode(PONG, [], F.PROTOCOL_VERSION);
  }

  /** A frame damaged within at most four consecutive bytes changes nothing, is not answered and
      ends the connection. */
  lemma DamageIsHarmless(keyOf: KeyFunction, say: Wording, s: State, before: Bytes, a: Bytes, a': Bytes, after: Bytes)
    requires |a| == |a'| <= 4 && a != a' && F.Decode(before + a + after).Ok?
    ensures var wire := before + a' + after;
            Deliver(keyOf, s, wire) == s && Reply(keyOf, say, s, wire) == None && !KeepsOpen(wire)
  {
    hide F.Decode;
    F.BurstRejected(before, a, a', after);
  }

  /** The decision byte a source receives, in terms of the registry entry and the observation. */
  lemma AckCodes(keyOf: KeyFunction, say: Wording, s: State, o: Observation)
    ensures var code := ObsAck(keyOf, say, s, o).decision;
            var k := KeyOf(keyOf, o);
            if o.id in s.accepted then code == 0xFF
            else if k !in s.registry then code == 7
            else
              var a := s.registry[k];
              && (code == 1 <==> o.epoch < a.epoch)
              && (code == 2 <==> o.epoch >= a.epoch && o.srcGen != a.srcGen)
              && (code == 3 <==> o.epoch >= a.epoch && o.srcGen == a.srcGen && o.obsGen != a.obsGen)
              && (code == 4 <==> SameGenerations(a, o) && o.boot != a.boot)
              && (code == 5 <==> SameGenerations(a, o) && o.boot == a.boot && o.seqNum == a.lastSeq > 0)
              && (code == 6 <==> SameGenerations(a, o) && o.boot == a.boot && o.seqNum < a.lastSeq)
              && (code == 0 <==> ObsAck(keyOf, say, s, o).accepted)
  {
    hide Ingest, IngestAnswer;
    AnswersExactly(keyOf, s, o);
  }

  // ------------------------------------------------------------ arbitrary input

  /** The coordinator after any byte strings have been received, on any connections, in this order. */
  function DeliverAll(keyOf: KeyFunction, wires: seq<Bytes>): State {
    if wires == [] then EMPTY else Deliver(keyOf, DeliverAll(keyOf, wires[..|wires| - 1]), wires[|wires| - 1])
  }

  function StepsOf(wires: seq<Bytes>): (steps: seq<Step>)
    ensures |steps| <= |wires|
  {
    if wires == [] then []
    else
      var steps := StepsOf(wires[..|wires| - 1]);
      match StepOf(wires[|wires| - 1])
      case None => steps
      case Some(step) => steps + [step]
  }

  /** Receiving bytes is running the steps they decode to, so every reachable state is consistent
      whatever was received. */
  lemma {:induction false} AnyBytesAreARun(keyOf: KeyFunction, wires: seq<Bytes>)
    ensures DeliverAll(keyOf, wires) == Run(keyOf, StepsOf(wires)).s
    ensures Consistent(Run(keyOf, StepsOf(wires)))
  {
    hide StepOf, Apply, Consistent;
    ReachableConsistent(keyOf, StepsOf(wires));
    if wires != [] {
      var n := |wires| - 1;
      AnyBytesAreARun(keyOf, wires[..n]);
      var steps := StepsOf(wires[..n]);
      match StepOf(wires[n])
      case None =>
      case Some(step) => assert (steps + [step])[..|steps|] == steps;
    }
  }

  // ------------------------------------------------------------ the code

  /** Handles one received frame. Refusal texts are short enough for an acknowledgement. */
  method HandleFrame(c: Coordinator, say: Wording, wire: Bytes) returns (reply: Option<Bytes>, open: bool)
    requires forall r: Reason :: |say(r)| < TWO_32
    modifies c, c.registry
    ensures c.Now() == Deliver(c.registry.keyOf, old(c.Now()), wire)
    ensures reply == Reply(c.registry.keyOf, say, old(c.Now()), wire)
    ensures open <==> KeepsOpen(wire)
  {
    hide F.Decode, F.Encode, DecodePayload, DecodeHello, AckBytes, StatusBytes, Ingest, IngestAnswer, Code;
    hide HelloObservation, Register;
    var frame := F.DecodeFrame(wire);
    if frame.Err? { return None, false; }
    var f := frame.value;
    if f.msgType == HELLO {
      reply := HandleHello(c, f.payload);
    } else if f.msgType == OBS {
      reply := HandleObservation(c, say, f.payload);
    } else if f.msgType == STATUS {
      var status := StatusPayload(Ascii("healthy"), |c.registry.byKey| % TWO_32, c.acceptedTotal, c.staleTotal,
          c.epoch);
      var b := EncodeStatus(status);
      var wireOut := F.EncodeFrame(STATUS, b.value, F.PROTOCOL_VERSION);
      reply := Some(wireOut);
    } else if f.msgType == PING {
      var wireOut := F.EncodeFrame(PONG, [], F.PROTOCOL_VERSION);
      reply := Some(wireOut);
    } else {
      return None, f.msgType != BYE;
    }
    open := true;
  }

  method HandleHello(c: Coordinator, payload: Bytes) returns (reply: Option<Bytes>)
    modifies c, c.registry
    ensures var h := DecodeHello(payload);
            if h.Err? then c.Now() == old(c.Now()) && reply == None
            else && c.Now() == Apply(c.registry.keyOf, old(c.Now()), HelloStep(h.value))
                 && reply == Some(F.Encode(HELLO_ACK, AckBytes(AckPayload(true, 0, old(c.acceptedTotal), [])),
                     F.PROTOCOL_VERSION))
  {
    hide F.Encode, DecodeHello, AckBytes, HelloObservation, Register;
    var h := ParseHello(payload);
    if h.Err? { return None; }
    var _ := c.RegisterHello(h.value);
    var ack := EncodeAck(true, 0, c.acceptedTotal, []);
    var wire := F.EncodeFrame(HELLO_ACK, ack.value, F.PROTOCOL_VERSION);
    return Some(wire);
  }

  method HandleObservation(c: Coordinator, say: Wording, payload: Bytes) returns (reply: Option<Bytes>)
    requires forall r: Reason :: |say(r)| < TWO_32
    modifies c, c.registry
    ensures var o := DecodePayload(payload);
            if o.Err? then c.Now() == old(c.Now()) && reply == None
            else && c.Now() == Ingest(c.registry.keyOf, old(c.Now()), o.value)
                 && reply == Some(F.Encode(OBS_ACK,
                     AckBytes(ObsAck(c.registry.keyOf, say, old(c.Now()), o.value)), F.PROTOCOL_VERSION))
  {
    hide F.Encode, DecodePayload, AckBytes, Ingest, IngestAnswer, Code;
    var o := ReadPayload(payload);
    if o.Err? { return None; }
    var r := c.IngestObservation(o.value);
    var ack := EncodeAck(r.accepted, Code(r.verdict), r.acceptedTotal, say(r.reason));
    var wire := F.EncodeFrame(OBS_ACK, ack.value, F.PROTOCOL_VERSION);
    return Some(wire);
  }
}
