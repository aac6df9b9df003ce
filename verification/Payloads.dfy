/** HELLO, OBS_ACK and STATUS payloads (include/servingobs/store/protocol.hpp,
    src/protocol.cpp:98-171): each decoder accepts exactly what its encoder produces, except that
    an acknowledgement's flag byte may be any non-zero value. */
module Payloads {
  import opened Types
  import opened BigEndian
  import opened Identity
  import opened Wire
  import opened ObservationCodec
  import opened Coordinators

  datatype AckPayload = AckPayload(accepted: bool, decision: u8, acceptedTotal: u32, reason: Bytes)

  datatype StatusPayload = StatusPayload(health: Bytes, online: u32, total: u32, dropped: u32, epoch: u64)

  // ------------------------------------------------------------ layouts

  predicate HelloFits(h: HelloPayload) {
    |h.clockDomain| < TWO_32 && |h.role| < TWO_32 && |h.extra| < TWO_32
  }

  function GensBytes(a: u64, b: u64, d: u64): Bytes {
    BE(a, 8) + (BE(b, 8) + BE(d, 8))
  }

  function TextsBytes(a: Bytes, b: Bytes, d: Bytes): Bytes {
    Blob(a) + (Blob(b) + Blob(d))
  }

  function HelloBytes(h: HelloPayload): Bytes {
    OriginBytes(h.source, h.worker, h.boot)
    + (GensBytes(h.srcGen, h.obsGen, h.epoch) + TextsBytes(h.clockDomain, h.role, h.extra))
  }

  function AckTail(a: AckPayload): Bytes {
    [a.decision] + (BE(a.acceptedTotal, 4) + Blob(a.reason))
  }

  function AckBytes(a: AckPayload): Bytes {
    [Bit(a.accepted)] + AckTail(a)
  }

  function CountersBytes(a: u32, b: u32, d: u32): Bytes {
    BE(a, 4) + (BE(b, 4) + BE(d, 4))
  }

  function StatusBytes(s: StatusPayload): Bytes {
    Blob(s.health) + (CountersBytes(s.online, s.total, s.dropped) + BE(s.epoch, 8))
  }

  // ------------------------------------------------------------ decoders

  function ReadGens(c: Cursor): (r: Read<(u64, u64, u64)>)
    ensures Advances(c, r.next)
  {
    var a := ReadU64(c);
    var b := ReadU64(a.next);
    var d := ReadU64(b.next);
    hide *;
    AdvancesTransitive(c, a.next, b.next);
    AdvancesTransitive(c, b.next, d.next);
    Read((a.value, b.value, d.value), d.next)
  }

  function ReadTexts(c: Cursor): (r: Read<(Bytes, Bytes, Bytes)>)
    ensures Advances(c, r.next)
  {
    var a := ReadBlob(c);
    var b := ReadBlob(a.next);
    var d := ReadBlob(b.next);
    hide *;
    AdvancesTransitive(c, a.next, b.next);
    AdvancesTransitive(c, b.next, d.next);
    Read((a.value, b.value, d.value), d.next)
  }

  function ReadCounters(c: Cursor): (r: Read<(u32, u32, u32)>)
    ensures Advances(c, r.next)
  {
    var a := ReadU32(c);
    var b := ReadU32(a.next);
    var d := ReadU32(b.next);
    hide *;
    AdvancesTransitive(c, a.next, b.next);
    AdvancesTransitive(c, b.next, d.next);
    Read((a.value, b.value, d.value), d.next)
  }

  /** Every read must have succeeded, then nothing may be left. */
  function Finish<T>(r: Read<T>): Result<T> {
    if r.next.failed then Err(CorruptInput)
    else if r.next.rest != [] then Err(TrailingGarbage)
    else Ok(r.value)
  }

  function ReadHello(c: Cursor): (r: Read<HelloPayload>)
    ensures Advances(c, r.next)
  {
    var ids := ReadOrigin(c);
    var gens := ReadGens(ids.next);
    var texts := ReadTexts(gens.next);
    hide *;
    AdvancesTransitive(c, ids.next, gens.next);
    AdvancesTransitive(c, gens.next, texts.next);
    Read(HelloPayload(ids.value.0, ids.value.1, ids.value.2, gens.value.0, gens.value.1, gens.value.2,
                      texts.value.0, texts.value.1, texts.value.2), texts.next)
  }

  function ReadAck(c: Cursor): (r: Read<AckPayload>)
    ensures Advances(c, r.next)
  {
    var accepted := ReadByte(c);
    var decision := ReadByte(accepted.next);
    var total := ReadU32(decision.next);
    var reason := ReadBlob(total.next);
    hide *;
    AdvancesTransitive(c, accepted.next, decision.next);
    AdvancesTransitive(c, decision.next, total.next);
    AdvancesTransitive(c, total.next, reason.next);
    Read(AckPayload(accepted.value != 0, decision.value, total.value, reason.value), reason.next)
  }

  function ReadStatus(c: Cursor): (r: Read<StatusPayload>)
    ensures Advances(c, r.next)
  {
    var health := ReadBlob(c);
    var counters := ReadCounters(health.next);
    var epoch := ReadU64(counters.next);
    hide *;
    AdvancesTransitive(c, health.next, counters.next);
    AdvancesTransitive(c, counters.next, epoch.next);
    Read(StatusPayload(health.value, counters.value.0, counters.value.1, counters.value.2, epoch.value), epoch.next)
  }

  function DecodeHello(b: Bytes): Result<HelloPayload> { Finish(ReadHello(Cursor(b, false))) }
  function DecodeAck(b: Bytes): Result<AckPayload> { Finish(ReadAck(Cursor(b, false))) }
  function DecodeStatus(b: Bytes): Result<StatusPayload> { Finish(ReadStatus(Cursor(b, false))) }

  // ------------------------------------------------------------ what a successful read consumed

  lemma UintConsumed(c: Cursor, n: nat)
    requires !ReadUint(c, n).next.failed
    ensures var r := ReadUint(c, n); !c.failed && c.rest == BE(r.value, n) + r.next.rest
  {
    hide ReadUint, BE, Value;
    UintSuccessMeansEnough(c, n);
    ReadUintSucceeds(c, n);
    var head := c.rest[..n];
    BEOfValue(head);
    assert c.rest == head + c.rest[n..];
  }

  lemma U64Consumed(c: Cursor)
    requires !ReadU64(c).next.failed
    ensures var r := ReadU64(c); !c.failed && c.rest == BE(r.value, 8) + r.next.rest
  {
    UintConsumed(c, 8);
  }

  lemma U32Consumed(c: Cursor)
    requires !ReadU32(c).next.failed
    ensures var r := ReadU32(c); !c.failed && c.rest == BE(r.value, 4) + r.next.rest
  {
    UintConsumed(c, 4);
  }

  lemma BlobConsumed(c: Cursor)
    requires !ReadBlob(c).next.failed
    ensures var r := ReadBlob(c); !c.failed && |r.value| < TWO_32 && c.rest == Blob(r.value) + r.next.rest
  {
    hide ReadU32, BE;
    var len := ReadU32(c);
    U32Consumed(c);
    var t := len.next.rest;
    assert t == t[..len.value] + t[len.value..];
    assert BE(len.value, 4) + (t[..len.value] + t[len.value..]) == (BE(len.value, 4) + t[..len.value]) + t[len.value..];
  }

  lemma IdConsumed(c: Cursor)
    requires !ReadId(c).next.failed
    ensures var r := ReadId(c); !c.failed && c.rest == IdBytes(r.value) + r.next.rest
  {
    hide ReadU64, BE;
    var hi := ReadU64(c);
    U64Consumed(hi.next);
    U64Consumed(c);
    var lo := ReadU64(hi.next);
    assert BE(hi.value, 8) + (BE(lo.value, 8) + lo.next.rest) == (BE(hi.value, 8) + BE(lo.value, 8)) + lo.next.rest;
  }

  lemma OriginConsumed(c: Cursor)
    requires !ReadOrigin(c).next.failed
    ensures var r := ReadOrigin(c);
            !c.failed && c.rest == OriginBytes(r.value.0, r.value.1, r.value.2) + r.next.rest
  {
    hide ReadId, IdBytes;
    var a := ReadId(c);
    var b := ReadId(a.next);
    IdConsumed(b.next);
    IdConsumed(a.next);
    IdConsumed(c);
    var d := ReadId(b.next);
    Join3(IdBytes(a.value), IdBytes(b.value), IdBytes(d.value), d.next.rest);
  }

  lemma Join3(a: Bytes, b: Bytes, d: Bytes, t: Bytes)
    ensures a + (b + (d + t)) == (a + (b + d)) + t
  {
  }

  lemma GensConsumed(c: Cursor)
    requires !ReadGens(c).next.failed
    ensures var r := ReadGens(c);
            !c.failed && c.rest == GensBytes(r.value.0, r.value.1, r.value.2) + r.next.rest
  {
    hide ReadU64, BE;
    var a := ReadU64(c);
    var b := ReadU64(a.next);
    U64Consumed(b.next);
    U64Consumed(a.next);
    U64Consumed(c);
    var d := ReadU64(b.next);
    Join3(BE(a.value, 8), BE(b.value, 8), BE(d.value, 8), d.next.rest);
  }

  lemma TextsConsumed(c: Cursor)
    requires !ReadTexts(c).next.failed
    ensures var r := ReadTexts(c);
            && !c.failed && c.rest == TextsBytes(r.value.0, r.value.1, r.value.2) + r.next.rest
            && |r.value.0| < TWO_32 && |r.value.1| < TWO_32 && |r.value.2| < TWO_32
  {
    hide ReadBlob, Blob;
    var a := ReadBlob(c);
    var b := ReadBlob(a.next);
    BlobConsumed(b.next);
    BlobConsumed(a.next);
    BlobConsumed(c);
    var d := ReadBlob(b.next);
    Join3(Blob(a.value), Blob(b.value), Blob(d.value), d.next.rest);
  }

  lemma CountersConsumed(c: Cursor)
    requires !ReadCounters(c).next.failed
    ensures var r := ReadCounters(c);
            !c.failed && c.rest == CountersBytes(r.value.0, r.value.1, r.value.2) + r.next.rest
  {
    hide ReadU32, BE;
    var a := ReadU32(c);
    var b := ReadU32(a.next);
    U32Consumed(b.next);
    U32Consumed(a.next);
    U32Consumed(c);
    var d := ReadU32(b.next);
    Join3(BE(a.value, 4), BE(b.value, 4), BE(d.value, 4), d.next.rest);
  }

  // ------------------------------------------------------------ decode after encode

  lemma GensBack(a: u64, b: u64, d: u64, t: Bytes)
    ensures ReadGens(Cursor(GensBytes(a, b, d) + t, false)) == Read((a, b, d), Cursor(t, false))
  {
    hide ReadU64, BE;
    Join3(BE(a, 8), BE(b, 8), BE(d, 8), t);
    U64Back(a, BE(b, 8) + (BE(d, 8) + t));
    U64Back(b, BE(d, 8) + t);
    U64Back(d, t);
  }

  lemma TextsBack(a: Bytes, b: Bytes, d: Bytes, t: Bytes)
    requires |a| < TWO_32 && |b| < TWO_32 && |d| < TWO_32
    ensures ReadTexts(Cursor(TextsBytes(a, b, d) + t, false)) == Read((a, b, d), Cursor(t, false))
  {
    hide ReadBlob, Blob;
    Join3(Blob(a), Blob(b), Blob(d), t);
    BlobBack(a, Blob(b) + (Blob(d) + t));
    BlobBack(b, Blob(d) + t);
    BlobBack(d, t);
  }

  lemma CountersBack(a: u32, b: u32, d: u32, t: Bytes)
    ensures ReadCounters(Cursor(CountersBytes(a, b, d) + t, false)) == Read((a, b, d), Cursor(t, false))
  {
    hide ReadU32, BE;
    Join3(BE(a, 4), BE(b, 4), BE(d, 4), t);
    U32Back(a, BE(b, 4) + (BE(d, 4) + t));
    U32Back(b, BE(d, 4) + t);
    U32Back(d, t);
  }

  lemma EmptyTail(b: Bytes)
    ensures b + [] == b
  {
  }

  lemma HelloBack(h: HelloPayload)
    requires HelloFits(h)
    ensures DecodeHello(HelloBytes(h)) == Ok(h)
  {
    hide ReadOrigin, ReadGens, ReadTexts, OriginBytes, GensBytes, TextsBytes;
    var texts := TextsBytes(h.clockDomain, h.role, h.extra);
    OriginBack(h.source, h.worker, h.boot, GensBytes(h.srcGen, h.obsGen, h.epoch) + texts);
    GensBack(h.srcGen, h.obsGen, h.epoch, texts);
    TextsBack(h.clockDomain, h.role, h.extra, []);
    EmptyTail(texts);
  }

  lemma HelloForth(b: Bytes)
    requires DecodeHello(b).Ok?
    ensures HelloFits(DecodeHello(b).value) && HelloBytes(DecodeHello(b).value) == b
  {
    hide ReadOrigin, ReadGens, ReadTexts, OriginBytes, GensBytes, TextsBytes;
    var c := Cursor(b, false);
    var ids := ReadOrigin(c);
    var gens := ReadGens(ids.next);
    TextsConsumed(gens.next);
    GensConsumed(ids.next);
    OriginConsumed(c);
    var texts := ReadTexts(gens.next);
    EmptyTail(TextsBytes(texts.value.0, texts.value.1, texts.value.2));
  }

  /** The HELLO decoder accepts exactly the encoder's output. */
  lemma HelloExact(b: Bytes, h: HelloPayload)
    ensures DecodeHello(b) == Ok(h) <==> HelloFits(h) && b == HelloBytes(h)
  {
    hide DecodeHello, HelloFits, HelloBytes;
    if DecodeHello(b) == Ok(h) { HelloForth(b); }
    if HelloFits(h) { HelloBack(h); }
  }

  lemma StatusBack(s: StatusPayload)
    requires |s.health| < TWO_32
    ensures DecodeStatus(StatusBytes(s)) == Ok(s)
  {
    hide ReadBlob, ReadCounters, ReadU64, Blob, CountersBytes, BE;
    BlobBack(s.health, CountersBytes(s.online, s.total, s.dropped) + BE(s.epoch, 8));
    CountersBack(s.online, s.total, s.dropped, BE(s.epoch, 8));
    U64Back(s.epoch, []);
    EmptyTail(BE(s.epoch, 8));
  }

  lemma StatusForth(b: Bytes)
    requires DecodeStatus(b).Ok?
    ensures |DecodeStatus(b).value.health| < TWO_32 && StatusBytes(DecodeStatus(b).value) == b
  {
    hide ReadBlob, ReadCounters, ReadU64, Blob, CountersBytes, BE;
    var c := Cursor(b, false);
    var health := ReadBlob(c);
    var counters := ReadCounters(health.next);
    U64Consumed(counters.next);
    CountersConsumed(health.next);
    BlobConsumed(c);
    EmptyTail(BE(ReadU64(counters.next).value, 8));
  }

  /** The STATUS decoder accepts exactly the encoder's output. */
  lemma StatusExact(b: Bytes, s: StatusPayload)
    ensures DecodeStatus(b) == Ok(s) <==> |s.health| < TWO_32 && b == StatusBytes(s)
  {
    hide DecodeStatus, StatusBytes;
    if DecodeStatus(b) == Ok(s) { StatusForth(b); }
    if |s.health| < TWO_32 { StatusBack(s); }
  }

  lemma AckBack(a: AckPayload, flag: u8)
    requires |a.reason| < TWO_32 && (flag != 0 <==> a.accepted)
    ensures DecodeAck([flag] + AckTail(a)) == Ok(a)
  {
    hide ReadByte, ReadU32, ReadBlob, BE, Blob;
    ByteBack(flag, AckTail(a));
    ByteBack(a.decision, BE(a.acceptedTotal, 4) + Blob(a.reason));
    U32Back(a.acceptedTotal, Blob(a.reason));
    BlobBack(a.reason, []);
    EmptyTail(Blob(a.reason));
  }

  lemma ByteConsumed(c: Cursor)
    requires !ReadByte(c).next.failed
    ensures var r := ReadByte(c); !c.failed && c.rest == [r.value] + r.next.rest
  {
  }

  lemma AckForth(b: Bytes)
    requires DecodeAck(b).Ok?
    ensures var a := DecodeAck(b).value;
            b != [] && (b[0] != 0 <==> a.accepted) && |a.reason| < TWO_32 && b[1..] == AckTail(a)
  {
    hide ReadByte, ReadU32, ReadBlob, BE, Blob;
    var c := Cursor(b, false);
    var flag := ReadByte(c);
    var decision := ReadByte(flag.next);
    var total := ReadU32(decision.next);
    BlobConsumed(total.next);
    U32Consumed(decision.next);
    ByteConsumed(flag.next);
    ByteConsumed(c);
    EmptyTail(Blob(ReadBlob(total.next).value));
  }

  /** The acknowledgement decoder reads any non-zero flag byte as "accepted", and is exact otherwise. */
  lemma AckExact(b: Bytes, a: AckPayload)
    ensures DecodeAck(b) == Ok(a) <==>
            b != [] && (b[0] != 0 <==> a.accepted) && |a.reason| < TWO_32 && b[1..] == AckTail(a)
    ensures |a.reason| < TWO_32 ==> DecodeAck(AckBytes(a)) == Ok(a)
  {
    hide DecodeAck, AckTail;
    if DecodeAck(b) == Ok(a) { AckForth(b); }
    if b != [] && (b[0] != 0 <==> a.accepted) && |a.reason| < TWO_32 && b[1..] == AckTail(a) {
      AckBack(a, b[0]);
      assert b == [b[0]] + AckTail(a);
    }
    if |a.reason| < TWO_32 { AckBack(a, Bit(a.accepted)); }
  }

  // ------------------------------------------------------------ the code

  method WriteTexts(w: BinaryWriter, a: Bytes, b: Bytes, d: Bytes) returns (r: Result<()>)
    modifies w
    ensures r == if |a| < TWO_32 && |b| < TWO_32 && |d| < TWO_32 then Ok(()) else Err(LengthOverflow)
    ensures r.Ok? ==> w.buf == old(w.buf) + TextsBytes(a, b, d)
  {
    hide Blob;
    var r0 := w.WriteBlob(a);
    if r0.Err? { return Err(LengthOverflow); }
    var r1 := w.WriteBlob(b);
    if r1.Err? { return Err(LengthOverflow); }
    var r2 := w.WriteBlob(d);
    if r2.Err? { return Err(LengthOverflow); }
    return Ok(());
  }

  method EncodeHello(h: HelloPayload) returns (r: Result<Bytes>)
    ensures r == if HelloFits(h) then Ok(HelloBytes(h)) else Err(LengthOverflow)
  {
    hide IdBytes, BE, TextsBytes;
    var w := new BinaryWriter();
    w.WriteId(h.source);
    w.WriteId(h.worker);
    w.WriteId(h.boot);
    ghost var b0 := w.buf;
    assert b0 == OriginBytes(h.source, h.worker, h.boot);
    w.WriteU64(h.srcGen);
    w.WriteU64(h.obsGen);
    w.WriteU64(h.epoch);
    ghost var b1 := w.buf;
    assert b1 == b0 + GensBytes(h.srcGen, h.obsGen, h.epoch);
    var texts := WriteTexts(w, h.clockDomain, h.role, h.extra);
    if texts.Err? { return Err(LengthOverflow); }
    assert w.buf == HelloBytes(h);
    return Ok(w.buf);
  }

  method EncodeAck(accepted: bool, decision: u8, acceptedTotal: u32, reason: Bytes) returns (r: Result<Bytes>)
    ensures r == if |reason| < TWO_32 then Ok(AckBytes(AckPayload(accepted, decision, acceptedTotal, reason)))
            else Err(LengthOverflow)
  {
    hide BE, Blob;
    var w := new BinaryWriter();
    w.WriteU8(if accepted then 1 else 0);
    w.WriteU8(decision);
    w.WriteU32(acceptedTotal);
    var r0 := w.WriteBlob(reason);
    if r0.Err? { return Err(LengthOverflow); }
    assert w.buf == AckBytes(AckPayload(accepted, decision, acceptedTotal, reason));
    return Ok(w.buf);
  }

  method EncodeStatus(s: StatusPayload) returns (r: Result<Bytes>)
    ensures r == if |s.health| < TWO_32 then Ok(StatusBytes(s)) else Err(LengthOverflow)
  {
    hide BE, Blob;
    var w := new BinaryWriter();
    var r0 := w.WriteBlob(s.health);
    if r0.Err? { return Err(LengthOverflow); }
    w.WriteU32(s.online);
    w.WriteU32(s.total);
    w.WriteU32(s.dropped);
    w.WriteU64(s.epoch);
    assert w.buf == StatusBytes(s);
    return Ok(w.buf);
  }

  method ParseHello(b: Bytes) returns (res: Result<HelloPayload>)
    ensures res == DecodeHello(b)
  {
    hide ReadId, ReadU64, ReadBlob;
    var r := new BinaryReader(b);
    var source := r.GetId();
    var worker := r.GetId();
    var boot := r.GetId();
    ghost var c1 := r.View();
    assert Read((source, worker, boot), c1) == ReadOrigin(Cursor(b, false));
    var srcGen := r.GetU64();
    var obsGen := r.GetU64();
    var epoch := r.GetU64();
    ghost var c2 := r.View();
    assert Read((srcGen, obsGen, epoch), c2) == ReadGens(c1);
    var clockDomain := r.GetBlob();
    var role := r.GetBlob();
    var extra := r.GetBlob();
    assert Read((clockDomain, role, extra), r.View()) == ReadTexts(c2);
    if !r.Good() { return Err(CorruptInput); }
    var done := r.RequireEnd();
    if !done { return Err(TrailingGarbage); }
    return Ok(HelloPayload(source, worker, boot, srcGen, obsGen, epoch, clockDomain, role, extra));
  }

  method ParseAck(b: Bytes) returns (res: Result<AckPayload>)
    ensures res == DecodeAck(b)
  {
    hide ReadByte, ReadU32, ReadBlob;
    var r := new BinaryReader(b);
    var accepted := r.GetByte();
    var decision := r.GetByte();
    var total := r.GetU32();
    var reason := r.GetBlob();
    if !r.Good() { return Err(CorruptInput); }
    var done := r.RequireEnd();
    if !done { return Err(TrailingGarbage); }
    return Ok(AckPayload(accepted != 0, decision, total, reason));
  }

  method ParseStatus(b: Bytes) returns (res: Result<StatusPayload>)
    ensures res == DecodeStatus(b)
  {
    hide ReadU64, ReadU32, ReadBlob;
    var r := new BinaryReader(b);
    var health := r.GetBlob();
    var online := r.GetU32();
    var total := r.GetU32();
    var dropped := r.GetU32();
    var epoch := r.GetU64();
    if !r.Good() { return Err(CorruptInput); }
    var done := r.RequireEnd();
    if !done { return Err(TrailingGarbage); }
    return Ok(StatusPayload(health, online, total, dropped, epoch));
  }
}
