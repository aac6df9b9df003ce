/** The observation codec as a whole: layout, decoder, round trip, self-delimitation, and the
    writer and reader methods (src/observation.cpp:53-189). */
module ObservationCodec {
  import opened Types
  import opened BigEndian
  import opened Identity
  import opened Ordering
  import opened Wire
  import opened Observations

  // ------------------------------------------------------------ layout, section by section

  function HeadBytes(id: Id128, kind: u16): Bytes {
    IdBytes(id) + BE(kind, 2)
  }

  function OriginBytes(source: Id128, worker: Id128, boot: Id128): Bytes {
    IdBytes(source) + (IdBytes(worker) + IdBytes(boot))
  }

  function StampBytes(srcGen: u64, obsGen: u64, epoch: u64, seqNum: u64): Bytes {
    BE(srcGen, 8) + (BE(obsGen, 8) + (BE(epoch, 8) + BE(seqNum, 8)))
  }

  /** The part of an observation whose presence is flagged, and its provenance. */
  datatype Marks = Marks(
    hasObsTs: bool, obsTs: u64,
    hasRecvTs: bool, recvTs: u64,
    hasHealth: bool, health: Health,
    hasConfidence: bool, confidence: u32,
    provenance: Provenance)

  function MarksOf(o: Observation): Marks {
    Marks(o.hasObsTs, o.obsTs, o.hasRecvTs, o.recvTs, o.hasHealth, o.health,
          o.hasConfidence, o.confidence, o.provenance)
  }

  function Bit(b: bool): u8 { if b then 1 else 0 }

  function Presence(m: Marks): u8 {
    Bit(m.hasObsTs) + 2 * Bit(m.hasRecvTs) + 4 * Bit(m.hasHealth) + 8 * Bit(m.hasConfidence)
  }

  function When(present: bool, b: Bytes): Bytes {
    if present then b else []
  }

  function MarksBytes(m: Marks): Bytes {
    [Presence(m)]
    + (When(m.hasObsTs, BE(m.obsTs, 8))
       + (When(m.hasRecvTs, BE(m.recvTs, 8))
          + (When(m.hasHealth, [m.health])
             + (When(m.hasConfidence, BE(m.confidence, 4)) + [m.provenance]))))
  }

  /** The writer accepts an observation when every length fits its 32-bit prefix. */
  predicate Fits(o: Observation) {
    |o.clockDomain| < TWO_32 && FieldsFit(o.fields)
  }

  ghost function Encode(o: Observation): Bytes
    requires Fits(o)
  {
    HeadBytes(o.id, o.kind)
    + (OriginBytes(o.source, o.worker, o.boot)
       + (StampBytes(o.srcGen, o.obsGen, o.epoch, o.seqNum)
          + (Blob(o.clockDomain) + (MarksBytes(MarksOf(o)) + EncodeFields(o.fields)))))
  }

  // ------------------------------------------------------------ decoder

  function ReadHead(c: Cursor): (r: Read<(Id128, u16)>)
    ensures Advances(c, r.next)
  {
    var id := ReadId(c);
    var kind := ReadU16(id.next);
    Read((id.value, kind.value), kind.next)
  }

  function ReadOrigin(c: Cursor): (r: Read<(Id128, Id128, Id128)>)
    ensures Advances(c, r.next)
  {
    var source := ReadId(c);
    var worker := ReadId(source.next);
    var boot := ReadId(worker.next);
    hide *;
    AdvancesTransitive(c, source.next, worker.next);
    AdvancesTransitive(c, worker.next, boot.next);
    Read((source.value, worker.value, boot.value), boot.next)
  }

  function ReadStamp(c: Cursor): (r: Read<(u64, u64, u64, u64)>)
    ensures Advances(c, r.next)
  {
    var srcGen := ReadU64(c);
    var obsGen := ReadU64(srcGen.next);
    var epoch := ReadU64(obsGen.next);
    var seqNum := ReadU64(epoch.next);
    hide *;
    AdvancesTransitive(c, srcGen.next, obsGen.next);
    AdvancesTransitive(c, obsGen.next, epoch.next);
    AdvancesTransitive(c, epoch.next, seqNum.next);
    Read((srcGen.value, obsGen.value, epoch.value, seqNum.value), seqNum.next)
  }

  function ReadU64When(present: bool, c: Cursor): (r: Read<u64>)
    ensures Advances(c, r.next)
  {
    if present then ReadU64(c) else Read(0, c)
  }

  function ReadU32When(present: bool, c: Cursor): (r: Read<u32>)
    ensures Advances(c, r.next)
  {
    if present then ReadU32(c) else Read(0, c)
  }

  /** Undeclared health and provenance codes fall back to "unknown" instead of failing. */
  function Lenient(code: u8): int {
    if code <= 6 then code else 0
  }

  function ReadHealthWhen(present: bool, c: Cursor): (r: Read<Health>)
    ensures Advances(c, r.next)
  {
    if present then var r := ReadByte(c); Read(Lenient(r.value), r.next) else Read(HEALTH_UNKNOWN, c)
  }

  predicate Flagged(pres: u8, weight: int)
    requires weight > 0
  {
    pres / weight % 2 == 1
  }

  function ReadMarksBody(pres: u8, c: Cursor): (r: Read<Marks>)
    ensures Advances(c, r.next)
  {
    var obsTs := ReadU64When(Flagged(pres, 1), c);
    var recvTs := ReadU64When(Flagged(pres, 2), obsTs.next);
    var health := ReadHealthWhen(Flagged(pres, 4), recvTs.next);
    var confidence := ReadU32When(Flagged(pres, 8), health.next);
    var provenance := ReadByte(confidence.next);
    hide *;
    AdvancesTransitive(c, obsTs.next, recvTs.next);
    AdvancesTransitive(c, recvTs.next, health.next);
    AdvancesTransitive(c, health.next, confidence.next);
    AdvancesTransitive(c, confidence.next, provenance.next);
    Read(Marks(Flagged(pres, 1), obsTs.value, Flagged(pres, 2), recvTs.value,
               Flagged(pres, 4), health.value, Flagged(pres, 8), confidence.value,
               Lenient(provenance.value)),
         provenance.next)
  }

  function ReadMarks(c: Cursor): (r: Read<Marks>)
    ensures Advances(c, r.next)
  {
    var pres := ReadByte(c);
    ReadMarksBody(pres.value, pres.next)
  }

  function Assemble(head: (Id128, u16), origin: (Id128, Id128, Id128), stamp: (u64, u64, u64, u64),
                    clock: Bytes, m: Marks, fields: map<Bytes, FieldValue>): Observation
    requires head.1 <= 41
  {
    Observation(head.0, head.1, origin.0, origin.1, origin.2, stamp.0, stamp.1, stamp.2, stamp.3, clock,
                m.hasObsTs, m.obsTs, m.hasRecvTs, m.recvTs, m.provenance, m.hasHealth, m.health,
                m.hasConfidence, m.confidence, fields)
  }

  function ReadRest(head: (Id128, u16), c: Cursor): (r: Read<Result<Observation>>)
    requires head.1 <= 41
    ensures Advances(c, r.next) && (r.value.Ok? ==> !r.next.failed)
  {
    var origin := ReadOrigin(c);
    var stamp := ReadStamp(origin.next);
    var clock := ReadBlob(stamp.next);
    var marks := ReadMarks(clock.next);
    var fields := ReadFields(marks.next);
    hide *;
    AdvancesTransitive(c, origin.next, stamp.next);
    AdvancesTransitive(c, stamp.next, clock.next);
    AdvancesTransitive(c, clock.next, marks.next);
    AdvancesTransitive(c, marks.next, fields.next);
    if fields.value.Err? then Read(Err(fields.value.error), fields.next)
    else Read(Ok(Assemble(head, origin.value, stamp.value, clock.value, marks.value, fields.value.value)), fields.next)
  }

  /** Over arbitrary bytes: never past the end, never backwards, and never moved once failed. */
  function ReadObservation(c: Cursor): (r: Read<Result<Observation>>)
    ensures Advances(c, r.next) && (r.value.Ok? ==> !r.next.failed)
  {
    var head := ReadHead(c);
    if head.value.1 > 41 then Read(Err(InvalidType), head.next)
    else
      var rest := ReadRest(head.value, head.next);
      hide *;
      AdvancesTransitive(c, head.next, rest.next);
      rest
  }

  /** A stand-alone payload must be consumed entirely. */
  function DecodePayload(b: Bytes): Result<Observation> {
    var r := ReadObservation(Cursor(b, false));
    if r.value.Ok? && r.next.rest != [] then Err(TrailingGarbage) else r.value
  }

  // ------------------------------------------------------------ decode after encode

  lemma HeadBack(id: Id128, kind: u16, s: Bytes)
    ensures ReadHead(Cursor(HeadBytes(id, kind) + s, false)) == Read((id, kind), Cursor(s, false))
  {
    assert HeadBytes(id, kind) + s == IdBytes(id) + (BE(kind, 2) + s);
    IdBack(id, BE(kind, 2) + s);
    U16Back(kind, s);
  }

  lemma OriginBack(a: Id128, b: Id128, d: Id128, s: Bytes)
    ensures ReadOrigin(Cursor(OriginBytes(a, b, d) + s, false)) == Read((a, b, d), Cursor(s, false))
  {
    hide ReadId, IdBytes;
    assert OriginBytes(a, b, d) + s == IdBytes(a) + (IdBytes(b) + (IdBytes(d) + s));
    IdBack(a, IdBytes(b) + (IdBytes(d) + s));
    IdBack(b, IdBytes(d) + s);
    IdBack(d, s);
  }

  lemma StampBack(g: u64, h: u64, e: u64, q: u64, s: Bytes)
    ensures ReadStamp(Cursor(StampBytes(g, h, e, q) + s, false)) == Read((g, h, e, q), Cursor(s, false))
  {
    hide ReadU64, BE;
    assert StampBytes(g, h, e, q) + s == BE(g, 8) + (BE(h, 8) + (BE(e, 8) + (BE(q, 8) + s)));
    U64Back(g, BE(h, 8) + (BE(e, 8) + (BE(q, 8) + s)));
    U64Back(h, BE(e, 8) + (BE(q, 8) + s));
    U64Back(e, BE(q, 8) + s);
    U64Back(q, s);
  }

  lemma U64WhenBack(p: bool, v: u64, s: Bytes)
    ensures ReadU64When(p, Cursor(When(p, BE(v, 8)) + s, false)) == Read(if p then v else 0, Cursor(s, false))
  {
    if p { U64Back(v, s); } else { assert [] + s == s; }
  }

  lemma U32WhenBack(p: bool, v: u32, s: Bytes)
    ensures ReadU32When(p, Cursor(When(p, BE(v, 4)) + s, false)) == Read(if p then v else 0, Cursor(s, false))
  {
    if p { U32Back(v, s); } else { assert [] + s == s; }
  }

  lemma HealthWhenBack(p: bool, h: Health, s: Bytes)
    ensures ReadHealthWhen(p, Cursor(When(p, [h]) + s, false))
            == Read(if p then h else HEALTH_UNKNOWN, Cursor(s, false))
  {
    if p { ByteBack(h, s); } else { assert [] + s == s; }
  }

  lemma PresenceBits(m: Marks)
    ensures Flagged(Presence(m), 1) == m.hasObsTs && Flagged(Presence(m), 2) == m.hasRecvTs
    ensures Flagged(Presence(m), 4) == m.hasHealth && Flagged(Presence(m), 8) == m.hasConfidence
  {
  }

  /** Absent parts read back as their defaults. */
  function CanonicalMarks(m: Marks): Marks {
    m.(obsTs := if m.hasObsTs then m.obsTs else 0,
       recvTs := if m.hasRecvTs then m.recvTs else 0,
       health := if m.hasHealth then m.health else HEALTH_UNKNOWN,
       confidence := if m.hasConfidence then m.confidence else 0)
  }

  lemma MarksBack(m: Marks, s: Bytes)
    ensures ReadMarks(Cursor(MarksBytes(m) + s, false)) == Read(CanonicalMarks(m), Cursor(s, false))
  {
    hide ReadU64When, ReadU32When, ReadHealthWhen, When, BE, Presence, Flagged, ReadByte;
    var t4 := [m.provenance] + s;
    var t3 := When(m.hasConfidence, BE(m.confidence, 4)) + t4;
    var t2 := When(m.hasHealth, [m.health]) + t3;
    var t1 := When(m.hasRecvTs, BE(m.recvTs, 8)) + t2;
    var t0 := When(m.hasObsTs, BE(m.obsTs, 8)) + t1;
    assert MarksBytes(m) + s == [Presence(m)] + t0;
    ByteBack(Presence(m), t0);
    PresenceBits(m);
    U64WhenBack(m.hasObsTs, m.obsTs, t1);
    U64WhenBack(m.hasRecvTs, m.recvTs, t2);
    HealthWhenBack(m.hasHealth, m.health, t3);
    U32WhenBack(m.hasConfidence, m.confidence, t4);
    ByteBack(m.provenance, s);
  }

  /** Optional parts that are absent hold their default values. */
  predicate Canonical(o: Observation) {
    && (!o.hasObsTs ==> o.obsTs == 0)
    && (!o.hasRecvTs ==> o.recvTs == 0)
    && (!o.hasHealth ==> o.health == HEALTH_UNKNOWN)
    && (!o.hasConfidence ==> o.confidence == 0)
  }

  function Canonicalize(o: Observation): (r: Observation)
    ensures Canonical(r) && (Canonical(o) <==> r == o)
  {
    var m := CanonicalMarks(MarksOf(o));
    o.(obsTs := m.obsTs, recvTs := m.recvTs, health := m.health, confidence := m.confidence)
  }

  /** What the reader demands beyond the writer's length limits. */
  predicate Readable(o: Observation) {
    |o.fields| <= MAX_FIELDS && FieldsFinite(o.fields)
  }

  lemma RestBack(o: Observation, s: Bytes)
    requires Fits(o)
    ensures var tail := OriginBytes(o.source, o.worker, o.boot)
                        + (StampBytes(o.srcGen, o.obsGen, o.epoch, o.seqNum)
                           + (Blob(o.clockDomain) + (MarksBytes(MarksOf(o)) + (EncodeFields(o.fields) + s))));
            var r := ReadRest((o.id, o.kind), Cursor(tail, false));
            if Readable(o) then r == Read(Ok(Canonicalize(o)), Cursor(s, false)) else r.value.Err?
  {
    hide ReadOrigin, ReadStamp, ReadBlob, ReadMarks, ReadFields, FieldsFinite, FieldsFit;
    hide OriginBytes, StampBytes, Blob, MarksBytes, EncodeFields;
    var t3 := EncodeFields(o.fields) + s;
    var t2 := MarksBytes(MarksOf(o)) + t3;
    var t1 := Blob(o.clockDomain) + t2;
    var t0 := StampBytes(o.srcGen, o.obsGen, o.epoch, o.seqNum) + t1;
    OriginBack(o.source, o.worker, o.boot, t0);
    StampBack(o.srcGen, o.obsGen, o.epoch, o.seqNum, t1);
    BlobBack(o.clockDomain, t2);
    MarksBack(MarksOf(o), t3);
    FieldsBack(o.fields, s);
  }

  lemma Reassociate(a: Bytes, b: Bytes, c: Bytes, d: Bytes, e: Bytes, f: Bytes, s: Bytes)
    ensures a + (b + (c + (d + (e + f)))) + s == a + (b + (c + (d + (e + (f + s)))))
  {
    assert e + f + s == e + (f + s);
    assert d + (e + f) + s == d + (e + f + s);
    assert c + (d + (e + f)) + s == c + (d + (e + f) + s);
    assert b + (c + (d + (e + f))) + s == b + (c + (d + (e + f)) + s);
  }

  /** Reading an encoding followed by anything gives the observation back, absent parts defaulted,
      and stops at the end of the encoding; it fails exactly for oversized or non-finite fields. */
  lemma ObservationBack(o: Observation, s: Bytes)
    requires Fits(o)
    ensures var r := ReadObservation(Cursor(Encode(o) + s, false));
            if Readable(o) then r == Read(Ok(Canonicalize(o)), Cursor(s, false)) else r.value.Err?
  {
    hide ReadHead, ReadRest, FieldsFit, FieldsFinite, Canonicalize;
    hide HeadBytes, OriginBytes, StampBytes, Blob, MarksBytes, EncodeFields;
    var origin := OriginBytes(o.source, o.worker, o.boot);
    var stamp := StampBytes(o.srcGen, o.obsGen, o.epoch, o.seqNum);
    var clock, marks, fields := Blob(o.clockDomain), MarksBytes(MarksOf(o)), EncodeFields(o.fields);
    Reassociate(HeadBytes(o.id, o.kind), origin, stamp, clock, marks, fields, s);
    HeadBack(o.id, o.kind, origin + (stamp + (clock + (marks + (fields + s)))));
    RestBack(o, s);
  }

  /** The exact condition under which decoding undoes encoding. */
  lemma PayloadRoundTrip(o: Observation)
    requires Fits(o)
    ensures DecodePayload(Encode(o)) == Ok(o) <==> Readable(o) && Canonical(o)
    ensures DecodePayload(Encode(o)).Ok? <==> Readable(o)
  {
    hide Encode, ReadObservation, FieldsFit, FieldsFinite, Canonical;
    ObservationBack(o, []);
    assert Encode(o) + [] == Encode(o);
  }

  // ------------------------------------------------------------ self-delimitation

  lemma HeadExtends(c: Cursor, s: Bytes)
    requires !ReadHead(c).next.failed
    ensures ReadHead(Extend(c, s)) == Read(ReadHead(c).value, Extend(ReadHead(c).next, s))
  {
    IdExtends(c, s);
    UintExtends(ReadId(c).next, 2, s);
  }

  lemma OriginExtends(c: Cursor, s: Bytes)
    requires !ReadOrigin(c).next.failed
    ensures ReadOrigin(Extend(c, s)) == Read(ReadOrigin(c).value, Extend(ReadOrigin(c).next, s))
  {
    hide ReadId;
    var a := ReadId(c).next;
    var b := ReadId(a).next;
    IdExtends(c, s);
    IdExtends(a, s);
    IdExtends(b, s);
  }

  lemma U64Extends(c: Cursor, s: Bytes)
    requires !ReadU64(c).next.failed
    ensures ReadU64(Extend(c, s)) == Read(ReadU64(c).value, Extend(ReadU64(c).next, s))
  {
    UintExtends(c, 8, s);
  }

  lemma StampExtends(c: Cursor, s: Bytes)
    requires !ReadStamp(c).next.failed
    ensures ReadStamp(Extend(c, s)) == Read(ReadStamp(c).value, Extend(ReadStamp(c).next, s))
  {
    hide ReadU64;
    var a := ReadU64(c).next;
    var b := ReadU64(a).next;
    var d := ReadU64(b).next;
    U64Extends(c, s);
    U64Extends(a, s);
    U64Extends(b, s);
    U64Extends(d, s);
  }

  lemma WhenExtends(p: bool, c: Cursor, s: Bytes)
    ensures !ReadU64When(p, c).next.failed ==>
              ReadU64When(p, Extend(c, s)) == Read(ReadU64When(p, c).value, Extend(ReadU64When(p, c).next, s))
    ensures !ReadU32When(p, c).next.failed ==>
              ReadU32When(p, Extend(c, s)) == Read(ReadU32When(p, c).value, Extend(ReadU32When(p, c).next, s))
    ensures !ReadHealthWhen(p, c).next.failed ==>
              ReadHealthWhen(p, Extend(c, s)) == Read(ReadHealthWhen(p, c).value, Extend(ReadHealthWhen(p, c).next, s))
  {
    if p {
      if !ReadU64(c).next.failed { UintExtends(c, 8, s); }
      if !ReadU32(c).next.failed { UintExtends(c, 4, s); }
      if !ReadByte(c).next.failed { ByteExtends(c, s); }
    }
  }

  lemma MarksExtend(c: Cursor, s: Bytes)
    requires !ReadMarks(c).next.failed
    ensures ReadMarks(Extend(c, s)) == Read(ReadMarks(c).value, Extend(ReadMarks(c).next, s))
  {
    hide ReadU64When, ReadU32When, ReadHealthWhen, ReadByte, Flagged, Extend;
    var pres := ReadByte(c);
    var p := pres.value;
    var c1 := ReadU64When(Flagged(p, 1), pres.next).next;
    var c2 := ReadU64When(Flagged(p, 2), c1).next;
    var c3 := ReadHealthWhen(Flagged(p, 4), c2).next;
    var c4 := ReadU32When(Flagged(p, 8), c3).next;
    ByteExtends(c, s);
    WhenExtends(Flagged(p, 1), pres.next, s);
    WhenExtends(Flagged(p, 2), c1, s);
    WhenExtends(Flagged(p, 4), c2, s);
    WhenExtends(Flagged(p, 8), c3, s);
    ByteExtends(c4, s);
  }

  lemma RestExtends(head: (Id128, u16), c: Cursor, s: Bytes)
    requires head.1 <= 41 && ReadRest(head, c).value.Ok?
    ensures ReadRest(head, Extend(c, s)) == Read(ReadRest(head, c).value, Extend(ReadRest(head, c).next, s))
  {
    hide ReadOrigin, ReadStamp, ReadBlob, ReadMarks, ReadFields, Extend;
    var c1 := ReadOrigin(c).next;
    var c2 := ReadStamp(c1).next;
    var c3 := ReadBlob(c2).next;
    var c4 := ReadMarks(c3).next;
    OriginExtends(c, s);
    StampExtends(c1, s);
    BlobExtends(c2, s);
    MarksExtend(c3, s);
    FieldsExtend(c4, s);
  }

  /** A successful decode does not depend on what follows the bytes it consumed. */
  lemma ObservationExtends(c: Cursor, s: Bytes)
    requires ReadObservation(c).value.Ok?
    ensures ReadObservation(Extend(c, s)) ==
            Read(ReadObservation(c).value, Extend(ReadObservation(c).next, s))
  {
    hide ReadHead, ReadRest, Extend;
    HeadExtends(c, s);
    RestExtends(ReadHead(c).value, ReadHead(c).next, s);
  }

  /** Every proper extension of an encoded payload is rejected as trailing garbage. */
  lemma ProperExtensionRejected(o: Observation, s: Bytes)
    requires Fits(o) && Readable(o) && s != []
    ensures DecodePayload(Encode(o) + s) == Err(TrailingGarbage)
  {
    hide Encode, ReadObservation, FieldsFit, FieldsFinite;
    ObservationBack(o, s);
  }

  /** Every strict prefix of an encoded payload is rejected. */
  lemma StrictPrefixRejected(o: Observation, n: nat)
    requires Fits(o) && Readable(o) && n < |Encode(o)|
    ensures DecodePayload(Encode(o)[..n]).Err?
  {
    hide Encode, ReadObservation, FieldsFit, FieldsFinite;
    var b := Encode(o);
    var c := Cursor(b[..n], false);
    assert b[..n] + b[n..] == b && b + [] == b && [] + b[n..] == b[n..];
    ObservationBack(o, []);
    if ReadObservation(c).value.Ok? && ReadObservation(c).next.rest == [] {
      ObservationExtends(c, b[n..]);
    }
  }

  ghost function EncodeAll(os: seq<Observation>): Bytes
    requires forall o :: o in os ==> Fits(o)
  {
    if os == [] then [] else Encode(os[0]) + EncodeAll(os[1..])
  }

  ghost predicate Exact(os: seq<Observation>) {
    forall o :: o in os ==> Fits(o) && Readable(o) && Canonical(o)
  }

  lemma EncodingIsNotEmpty(o: Observation)
    requires Fits(o)
    ensures Encode(o) != []
  {
    assert |Encode(o)| >= 18;
  }

  /** Concatenated encodings parse back uniquely. */
  lemma {:induction false} ConcatenationIsUnambiguous(os: seq<Observation>, ps: seq<Observation>)
    requires Exact(os) && Exact(ps) && EncodeAll(os) == EncodeAll(ps)
    ensures os == ps
    decreases |os|
  {
    hide Encode, ReadObservation, Fits, Readable, Canonical;
    if os == [] {
      if ps != [] { EncodingIsNotEmpty(ps[0]); }
    } else if ps == [] {
      EncodingIsNotEmpty(os[0]);
    } else {
      ObservationBack(os[0], EncodeAll(os[1..]));
      ObservationBack(ps[0], EncodeAll(ps[1..]));
      ConcatenationIsUnambiguous(os[1..], ps[1..]);
      assert os == [os[0]] + os[1..] && ps == [ps[0]] + ps[1..];
    }
  }

  // ------------------------------------------------------------ the writer

  method WriteValue(w: BinaryWriter, v: FieldValue) returns (r: Result<()>)
    modifies w
    ensures r.Ok? <==> ValueFits(v)
    ensures r.Ok? ==> w.buf == old(w.buf) + EncodeValue(v)
  {
    w.WriteU8(ValueTag(v));
    match v {
      case Null =>
      case Flag(b) => w.WriteBool(b);
      case Signed(i) => w.WriteI64(i);
      case Unsigned(u) => w.WriteU64(u);
      case Float(bits) => w.WriteU64(bits);
      case Text(t) => var _ :- w.WriteBlob(t);
      case Ident(id) => w.WriteId(id);
      case Raw(b) => var _ :- w.WriteBlob(b);
    }
    assert w.buf == old(w.buf) + [ValueTag(v)] + ValueBody(v);
    assert w.buf == old(w.buf) + ([ValueTag(v)] + ValueBody(v));
    return Ok(());
  }

  lemma {:induction false} EntriesAppend(keys: seq<Bytes>, k: Bytes, m: map<Bytes, FieldValue>)
    requires FieldsFit(m) && k in m && forall x :: x in keys ==> x in m
    ensures EncodeEntries(keys + [k], m) == EncodeEntries(keys, m) + (Blob(k) + EncodeValue(m[k]))
  {
    hide Blob, EncodeValue, ValueFits;
    if keys == [] {
      assert [] + [k] == [k] && [k][1..] == [];
      assert EncodeEntries([], m) == [];
      assert EncodeValue(m[k]) + [] == EncodeValue(m[k]);
    } else {
      assert (keys + [k])[1..] == keys[1..] + [k];
      EntriesAppend(keys[1..], k, m);
      var a, b, d := Blob(keys[0]), EncodeValue(m[keys[0]]), EncodeEntries(keys[1..], m);
      var e := Blob(k) + EncodeValue(m[k]);
      assert a + (b + (d + e)) == (a + (b + d)) + e;
    }
  }

  method WriteEntry(w: BinaryWriter, k: Bytes, v: FieldValue) returns (r: Result<()>)
    modifies w
    ensures r.Ok? <==> |k| < TWO_32 && ValueFits(v)
    ensures r.Ok? ==> w.buf == old(w.buf) + (Blob(k) + EncodeValue(v))
  {
    hide Blob, EncodeValue, ValueFits;
    var _ :- w.WriteBlob(k);
    var _ :- WriteValue(w, v);
    assert old(w.buf) + Blob(k) + EncodeValue(v) == old(w.buf) + (Blob(k) + EncodeValue(v));
    return Ok(());
  }

  method WriteEntries(w: BinaryWriter, keys: seq<Bytes>, m: map<Bytes, FieldValue>) returns (r: Result<()>)
    requires |m| < TWO_32 && forall k :: k in m <==> k in keys
    modifies w
    ensures r.Ok? <==> FieldsFit(m)
    ensures r.Ok? ==> w.buf == old(w.buf) + EncodeEntries(keys, m)
  {
    hide Blob, EncodeValue, ValueFits;
    for i := 0 to |keys|
      invariant forall k :: k in keys[..i] ==> |k| < TWO_32 && ValueFits(m[k])
      invariant FieldsFit(m) ==> w.buf == old(w.buf) + EncodeEntries(keys[..i], m)
    {
      var k := keys[i];
      assert k in m && keys[..i + 1] == keys[..i] + [k];
      var _ :- WriteEntry(w, k, m[k]);
      if FieldsFit(m) {
        EntriesAppend(keys[..i], k, m);
        assert old(w.buf) + EncodeEntries(keys[..i], m) + (Blob(k) + EncodeValue(m[k]))
            == old(w.buf) + EncodeEntries(keys[..i + 1], m);
      }
    }
    assert keys[..|keys|] == keys;
    return Ok(());
  }

  lemma FieldsLayout(base: Bytes, m: map<Bytes, FieldValue>, keys: seq<Bytes>)
    requires FieldsFit(m) && keys == SortedKeys(BytesLess, m.Keys)
    ensures base + BE(|m|, 4) + EncodeEntries(keys, m) == base + EncodeFields(m)
  {
    hide EncodeEntries, SortedKeys, FieldsFit;
    assert base + BE(|m|, 4) + AllEntries(m) == base + (BE(|m|, 4) + AllEntries(m));
  }

  method WriteFields(w: BinaryWriter, m: map<Bytes, FieldValue>) returns (r: Result<()>)
    modifies w
    ensures r.Ok? <==> FieldsFit(m)
    ensures r.Ok? ==> w.buf == old(w.buf) + EncodeFields(m)
  {
    var _ :- w.WriteCount(|m|);
    hide EncodeEntries, EncodeFields, SortedKeys, FieldsFit;
    BytesLessTotal();
    hide TotalOrder;
    var keys := KeysInOrder(BytesLess, m.Keys);
    var _ :- WriteEntries(w, keys, m);
    FieldsLayout(old(w.buf), m, keys);
    return Ok(());
  }

  method WriteMarks(w: BinaryWriter, m: Marks)
    modifies w
    ensures w.buf == old(w.buf) + MarksBytes(m)
  {
    var pres := 0;
    if m.hasObsTs { pres := pres + 1; }
    if m.hasRecvTs { pres := pres + 2; }
    if m.hasHealth { pres := pres + 4; }
    if m.hasConfidence { pres := pres + 8; }
    w.WriteU8(pres);
    ghost var b0 := w.buf;
    if m.hasObsTs { w.WriteU64(m.obsTs); }
    ghost var b1 := w.buf;
    assert b1 == b0 + When(m.hasObsTs, BE(m.obsTs, 8));
    if m.hasRecvTs { w.WriteU64(m.recvTs); }
    ghost var b2 := w.buf;
    assert b2 == b1 + When(m.hasRecvTs, BE(m.recvTs, 8));
    if m.hasHealth { w.WriteU8(m.health); }
    ghost var b3 := w.buf;
    assert b3 == b2 + When(m.hasHealth, [m.health]);
    if m.hasConfidence { w.WriteU32(m.confidence); }
    ghost var b4 := w.buf;
    assert b4 == b3 + When(m.hasConfidence, BE(m.confidence, 4));
    w.WriteU8(m.provenance);
    Regroup6(old(w.buf), [Presence(m)], When(m.hasObsTs, BE(m.obsTs, 8)), When(m.hasRecvTs, BE(m.recvTs, 8)),
             When(m.hasHealth, [m.health]), When(m.hasConfidence, BE(m.confidence, 4)), [m.provenance]);
  }

  /** Writing pieces one after another leaves the layout that nests to the right. */
  lemma Regroup6(base: Bytes, a: Bytes, b: Bytes, c: Bytes, d: Bytes, e: Bytes, f: Bytes)
    ensures base + a + b + c + d + e + f == base + (a + (b + (c + (d + (e + f)))))
  {
    Reassociate(a, b, c, d, e, f, []);
    assert f + [] == f;
    assert base + a + b == base + (a + b);
    assert base + (a + b) + c == base + (a + (b + c));
    assert base + (a + (b + c)) + d == base + (a + (b + (c + d)));
    assert base + (a + (b + (c + d))) + e == base + (a + (b + (c + (d + e))));
  }

  /** The writer emits the layout, or throws exactly when a length does not fit. */
  method WriteObservation(w: BinaryWriter, o: Observation) returns (r: Result<()>)
    modifies w
    ensures r.Ok? <==> Fits(o)
    ensures r.Ok? ==> w.buf == old(w.buf) + Encode(o)
  {
    hide IdBytes, BE, Blob, MarksBytes, EncodeFields, FieldsFit;
    w.WriteId(o.id);
    w.WriteU16(o.kind);
    ghost var b0 := w.buf;
    assert b0 == old(w.buf) + HeadBytes(o.id, o.kind);
    w.WriteId(o.source);
    w.WriteId(o.worker);
    w.WriteId(o.boot);
    ghost var b1 := w.buf;
    assert b1 == b0 + OriginBytes(o.source, o.worker, o.boot);
    w.WriteU64(o.srcGen);
    w.WriteU64(o.obsGen);
    w.WriteU64(o.epoch);
    w.WriteU64(o.seqNum);
    ghost var b2 := w.buf;
    assert b2 == b1 + StampBytes(o.srcGen, o.obsGen, o.epoch, o.seqNum);
    var _ :- w.WriteBlob(o.clockDomain);
    WriteMarks(w, MarksOf(o));
    var _ :- WriteFields(w, o.fields);
    Regroup6(old(w.buf), HeadBytes(o.id, o.kind), OriginBytes(o.source, o.worker, o.boot),
             StampBytes(o.srcGen, o.obsGen, o.epoch, o.seqNum), Blob(o.clockDomain),
             MarksBytes(MarksOf(o)), EncodeFields(o.fields));
    return Ok(());
  }

  method EncodePayload(o: Observation) returns (r: Result<Bytes>)
    ensures r.Ok? <==> Fits(o)
    ensures r.Ok? ==> r.value == Encode(o)
  {
    var w := new BinaryWriter();
    var _ :- WriteObservation(w, o);
    assert [] + Encode(o) == Encode(o);
    return Ok(w.buf);
  }

  // ------------------------------------------------------------ the reader

  method GetValue(r: BinaryReader) returns (v: FieldValue)
    requires r.Valid()
    modifies r
    ensures r.Valid() && Read(v, r.View()) == ReadValue(old(r.View()))
  {
    var tag := r.GetByte();
    if !r.Good() { return Null; }
    match tag
    case 0 => v := Null;
    case 1 => var x := r.GetBool(); v := Flag(x);
    case 2 => var x := r.GetI64(); v := Signed(x);
    case 3 => var x := r.GetU64(); v := Unsigned(x);
    case 4 => var x := r.GetF64(); v := Float(x);
    case 5 => var x := r.GetBlob(); v := Text(x);
    case 6 => var x := r.GetId(); v := Ident(x);
    case 7 => var x := r.GetBlob(); v := Raw(x);
    case _ =>
      r.SetFailed();
      v := Null;
  }

  method GetEntry(r: BinaryReader) returns (res: Result<(Bytes, FieldValue)>)
    requires r.Valid()
    modifies r
    ensures r.Valid() && Read(res, r.View()) == ReadEntry(old(r.View()))
  {
    hide ReadBlob, ReadValue;
    var key := r.GetBlob();
    if !r.Good() { return Err(CorruptInput); }
    var v := GetValue(r);
    if !r.Good() { return Err(CorruptInput); }
    return Ok((key, v));
  }

  method GetFields(r: BinaryReader) returns (res: Result<map<Bytes, FieldValue>>)
    requires r.Valid()
    modifies r
    ensures r.Valid() && Read(res, r.View()) == ReadFields(old(r.View()))
  {
    hide ReadEntry, ReadU32, Emplace, Advances;
    var n := r.GetU32();
    if !r.Good() { return Err(CorruptInput); }
    if n > MAX_FIELDS { return Err(FieldCountOverflow); }
    var fields: map<Bytes, FieldValue> := map[];
    for i := 0 to n
      invariant r.Valid()
      invariant ReadFields(old(r.View())) == ReadEntries(r.View(), n - i, fields)
    {
      var entry :- GetEntry(r);
      fields := Emplace(fields, entry.0, entry.1);
    }
    return Ok(fields);
  }

  method GetMarksBody(pres: u8, r: BinaryReader) returns (m: Marks)
    requires r.Valid()
    modifies r
    ensures r.Valid() && Read(m, r.View()) == ReadMarksBody(pres, old(r.View()))
  {
    hide ReadU64, ReadU32, ReadByte, Flagged;
    var obsTs, recvTs, health, confidence := 0, 0, 0, 0;
    ghost var c0 := r.View();
    if Flagged(pres, 1) { obsTs := r.GetU64(); }
    ghost var c1 := r.View();
    assert Read(obsTs, c1) == ReadU64When(Flagged(pres, 1), c0);
    if Flagged(pres, 2) { recvTs := r.GetU64(); }
    ghost var c2 := r.View();
    assert Read(recvTs, c2) == ReadU64When(Flagged(pres, 2), c1);
    if Flagged(pres, 4) {
      health := r.GetByte();
      health := Lenient(health);
    }
    ghost var c3 := r.View();
    assert Read(health, c3) == ReadHealthWhen(Flagged(pres, 4), c2);
    if Flagged(pres, 8) { confidence := r.GetU32(); }
    ghost var c4 := r.View();
    assert Read(confidence, c4) == ReadU32When(Flagged(pres, 8), c3);
    var provenance := r.GetByte();
    m := Marks(Flagged(pres, 1), obsTs, Flagged(pres, 2), recvTs,
               Flagged(pres, 4), health, Flagged(pres, 8), confidence, Lenient(provenance));
  }

  method GetMarks(r: BinaryReader) returns (m: Marks)
    requires r.Valid()
    modifies r
    ensures r.Valid() && Read(m, r.View()) == ReadMarks(old(r.View()))
  {
    hide ReadMarksBody, ReadByte;
    var pres := r.GetByte();
    m := GetMarksBody(pres, r);
  }

  method GetHead(r: BinaryReader) returns (head: (Id128, u16))
    requires r.Valid()
    modifies r
    ensures r.Valid() && Read(head, r.View()) == ReadHead(old(r.View()))
  {
    var id := r.GetId();
    var kind := r.GetU16();
    head := (id, kind);
  }

  method GetOrigin(r: BinaryReader) returns (origin: (Id128, Id128, Id128))
    requires r.Valid()
    modifies r
    ensures r.Valid() && Read(origin, r.View()) == ReadOrigin(old(r.View()))
  {
    var source := r.GetId();
    var worker := r.GetId();
    var boot := r.GetId();
    origin := (source, worker, boot);
  }

  method GetStamp(r: BinaryReader) returns (stamp: (u64, u64, u64, u64))
    requires r.Valid()
    modifies r
    ensures r.Valid() && Read(stamp, r.View()) == ReadStamp(old(r.View()))
  {
    var srcGen := r.GetU64();
    var obsGen := r.GetU64();
    var epoch := r.GetU64();
    var seqNum := r.GetU64();
    stamp := (srcGen, obsGen, epoch, seqNum);
  }

  method GetObservation(r: BinaryReader) returns (res: Result<Observation>)
    requires r.Valid()
    modifies r
    ensures r.Valid() && Read(res, r.View()) == ReadObservation(old(r.View()))
  {
    hide ReadHead, ReadOrigin, ReadStamp, ReadMarks, ReadFields, ReadBlob;
    var head := GetHead(r);
    if head.1 > 41 { return Err(InvalidType); }
    var origin := GetOrigin(r);
    var stamp := GetStamp(r);
    var clock := r.GetBlob();
    var marks := GetMarks(r);
    var fields :- GetFields(r);
    return Ok(Assemble(head, origin, stamp, clock, marks, fields));
  }

  method ReadPayload(b: Bytes) returns (res: Result<Observation>)
    ensures res == DecodePayload(b)
  {
    hide ReadObservation;
    var r := new BinaryReader(b);
    res := GetObservation(r);
    if res.Err? { return; }
    var done := r.RequireEnd();
    if !done { return Err(TrailingGarbage); }
  }
}
