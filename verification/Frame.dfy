/** Wire frames (include/servingobs/store/protocol.hpp, src/protocol.cpp:40-96):
    length, CRC-32, version, message type, payload. */
module Frames {
  import opened Types
  import opened BigEndian
  import opened Wire
  import opened Crc32

  const PROTOCOL_VERSION: u16 := 1
  const MAX_FRAME: nat := 0x400_0000

  type MsgType = x: int | 1 <= x <= 8 witness 1

  datatype Frame = Frame(version: u16, msgType: MsgType, payload: Bytes)

  function Body(t: MsgType, payload: Bytes, version: u16): (b: Bytes)
    ensures |b| == 4 + |payload|
  {
    BE(version, 2) + (BE(t, 2) + payload)
  }

  /** The length field is a 32-bit cast of the true length. */
  function WireLength(payload: Bytes): u32 {
    (8 + |payload|) % TWO_32
  }

  function Encode(t: MsgType, payload: Bytes, version: u16): (b: Bytes)
    ensures |b| == 12 + |payload|
  {
    BE(WireLength(payload), 4) + (BE(Crc(Body(t, payload, version)), 4) + Body(t, payload, version))
  }

  /** The checks on a complete frame, in the order they are made. */
  function Decode(b: Bytes): Result<Frame> {
    if |b| < 4 then Err(CorruptInput)
    else if Value(b[..4]) != |b| - 4 then Err(LengthMismatch)
    else if |b| - 4 < 8 || |b| - 4 > MAX_FRAME then Err(LengthOutOfRange)
    else if Value(b[4..8]) != Crc(b[8..]) then Err(ChecksumMismatch)
    else DecodeBody(b[8..])
  }

  /** Version, type and payload, once the checksum has matched. */
  function DecodeBody(body: Bytes): Result<Frame>
    requires |body| >= 4
  {
    if Value(body[..2]) != PROTOCOL_VERSION then Err(UnsupportedVersion)
    else
      var t := Value(body[2..4]);
      if 1 <= t <= 8 then Ok(Frame(PROTOCOL_VERSION, t, body[4..])) else Err(UnknownMessage)
  }

  lemma EncodedParts(t: MsgType, payload: Bytes, version: u16)
    ensures var b := Encode(t, payload, version);
            && b[..4] == BE(WireLength(payload), 4) && b[4..8] == BE(Crc(Body(t, payload, version)), 4)
            && b[8..] == Body(t, payload, version)
  {
    hide BE, Crc, WireLength, Body;
    assert Encode(t, payload, version)[8..] == Body(t, payload, version);
  }

  lemma BodyBack(t: MsgType, payload: Bytes, version: u16)
    ensures DecodeBody(Body(t, payload, version)) ==
            if version == PROTOCOL_VERSION then Ok(Frame(version, t, payload)) else Err(UnsupportedVersion)
  {
    var body := Body(t, payload, version);
    assert body[..2] == BE(version, 2) && body[2..4] == BE(t, 2) && body[4..] == payload;
    Pow256Values();
    ValueOfBE(version, 2);
    ValueOfBE(t, 2);
  }

  lemma BodyForth(body: Bytes)
    requires |body| >= 4 && DecodeBody(body).Ok?
    ensures var f := DecodeBody(body).value;
            f.version == PROTOCOL_VERSION && Body(f.msgType, f.payload, f.version) == body
    ensures body[..2] == BE(PROTOCOL_VERSION, 2) && body[2] == 0
  {
    BEOfValue(body[..2]);
    BEOfValue(body[2..4]);
    assert body == body[..2] + (body[2..4] + body[4..]);
    var t := Value(body[2..4]);
    ShiftedBytes2(t);
    assert body[2] == body[2..4][0] == t / 0x100 % 256;
  }

  /** Decoding an encoded frame succeeds exactly for the current version and payloads of at most
      64 MiB less 8 bytes, and then gives the frame back. */
  lemma DecodeEncode(t: MsgType, payload: Bytes, version: u16)
    ensures var r := Decode(Encode(t, payload, version));
            if version == PROTOCOL_VERSION && |payload| + 8 <= MAX_FRAME
            then r == Ok(Frame(version, t, payload)) else r.Err?
  {
    hide Crc, Body, Encode, DecodeBody;
    EncodedParts(t, payload, version);
    Pow256Values();
    ValueOfBE(WireLength(payload), 4);
    ValueOfBE(Crc(Body(t, payload, version)), 4);
    BodyBack(t, payload, version);
  }

  /** Every accepted frame is, byte for byte, the encoding of what it decodes to. */
  lemma EncodeDecode(b: Bytes)
    requires Decode(b).Ok?
    ensures var f := Decode(b).value; Encode(f.msgType, f.payload, f.version) == b
  {
    hide Crc, DecodeBody, Body;
    BEOfValue(b[..4]);
    BEOfValue(b[4..8]);
    BodyForth(b[8..]);
    assert b == b[..4] + (b[4..8] + b[8..]);
  }

  /** Decode accepts exactly the frames Encode produces for the current version. */
  lemma AcceptedIffEncoded(b: Bytes, f: Frame)
    ensures Decode(b) == Ok(f) <==>
            f.version == PROTOCOL_VERSION && |f.payload| + 8 <= MAX_FRAME
            && b == Encode(f.msgType, f.payload, f.version)
  {
    hide Encode;
    if Decode(b) == Ok(f) { EncodeDecode(b); }
    DecodeEncode(f.msgType, f.payload, f.version);
  }

  lemma AcceptedHeader(b: Bytes)
    requires Decode(b).Ok?
    ensures |b| >= 12 && b[..4] == BE(|b| - 4, 4) && b[4..8] == BE(Crc(b[8..]), 4)
    ensures b[8..10] == BE(PROTOCOL_VERSION, 2) && b[10] == 0
  {
    hide Crc, DecodeBody, Body;
    BEOfValue(b[..4]);
    BEOfValue(b[4..8]);
    BodyForth(b[8..]);
    assert b[8..10] == b[8..][..2] && b[10] == b[8..][2];
  }

  lemma BurstInHeader(before: Bytes, a: Bytes, a': Bytes, after: Bytes)
    requires |a| == |a'| <= 4 && |before| < 8
    requires Decode(before + a + after).Ok? && Decode(before + a' + after).Ok?
    ensures a == a'
  {
    hide Decode, Crc, BE;
    var e, e' := before + a + after, before + a' + after;
    AcceptedHeader(e);
    AcceptedHeader(e');
    assert e[8..] == e[8..10] + ([e[10]] + e[11..]);
    assert e'[8..] == e'[8..10] + ([e'[10]] + e'[11..]);
    assert e[11..] == e'[11..];
    assert e == e[..4] + (e[4..8] + e[8..]) && e' == e'[..4] + (e'[4..8] + e'[8..]);
    assert a == e[|before|..|before| + |a|] && a' == e'[|before|..|before| + |a|];
  }

  lemma BurstInBody(before: Bytes, a: Bytes, a': Bytes, after: Bytes)
    requires |a| == |a'| <= 4 && |before| >= 8
    requires Decode(before + a + after).Ok? && Decode(before + a' + after).Ok?
    ensures a == a'
  {
    hide Decode, Crc;
    var e, e' := before + a + after, before + a' + after;
    AcceptedHeader(e);
    AcceptedHeader(e');
    assert e[4..8] == before[4..8] == e'[4..8];
    Pow256Values();
    BEInjective(Crc(e[8..]), Crc(e'[8..]), 4);
    assert e[8..] == before[8..] + a + after && e'[8..] == before[8..] + a' + after;
    CrcDetectsBurst(before[8..], a, a', after);
  }

  /** Corrupting an acceptable frame within at most four consecutive bytes, anywhere in the frame,
      always makes it unacceptable. */
  lemma BurstRejected(before: Bytes, a: Bytes, a': Bytes, after: Bytes)
    requires |a| == |a'| <= 4 && a != a'
    requires Decode(before + a + after).Ok?
    ensures Decode(before + a' + after).Err?
  {
    if Decode(before + a' + after).Ok? {
      if |before| < 8 {
        BurstInHeader(before, a, a', after);
      } else {
        BurstInBody(before, a, a', after);
      }
    }
  }

  // ------------------------------------------------------------ the code

  /** Byte-by-byte copy into a writer. */
  method CopyInto(w: BinaryWriter, b: Bytes)
    modifies w
    ensures w.buf == old(w.buf) + b
  {
    for i := 0 to |b|
      invariant w.buf == old(w.buf) + b[..i]
    {
      w.WriteU8(b[i]);
    }
    assert b[..|b|] == b;
  }

  method EncodeFrame(t: MsgType, payload: Bytes, version: u16) returns (b: Bytes)
    ensures b == Encode(t, payload, version)
  {
    hide Crc, BE;
    var body := new BinaryWriter();
    body.WriteU16(version);
    body.WriteU16(t);
    CopyInto(body, payload);
    assert body.buf == Body(t, payload, version);
    var w := new BinaryWriter();
    w.WriteU32(WireLength(payload));
    var crc := ComputeCrc32(body.buf);
    w.WriteU32(crc);
    CopyInto(w, body.buf);
    b := w.buf;
    assert b == BE(WireLength(payload), 4) + (BE(crc, 4) + body.buf);
  }

  lemma ReadIsValue(c: Cursor, n: nat)
    requires !c.failed && n <= |c.rest|
    ensures ReadUint(c, n) == Read(Value(c.rest[..n]), Cursor(c.rest[n..], false))
  {
    ReadUintSucceeds(c, n);
  }

  method ReadBody(body: BinaryReader) returns (res: Result<Frame>)
    requires body.Valid() && !body.failed && |body.View().rest| >= 4
    modifies body
    ensures res == DecodeBody(old(body.View().rest))
  {
    hide ReadUint, Value;
    ghost var b := body.View().rest;
    ReadIsValue(body.View(), 2);
    var version := body.GetU16();
    if version != PROTOCOL_VERSION { return Err(UnsupportedVersion); }
    ReadIsValue(body.View(), 2);
    var t := body.GetU16();
    assert b[2..][..2] == b[2..4] && b[2..][2..] == b[4..];
    if !(1 <= t <= 8) { return Err(UnknownMessage); }
    var payload := body.GetRaw(body.Remaining());
    assert b[4..][..|b| - 4] == b[4..];
    var done := body.RequireEnd();
    if !done { return Err(TrailingGarbage); }
    return Ok(Frame(version, t, payload));
  }

  method GetWord(r: BinaryReader) returns (v: u32)
    requires r.Valid() && !r.failed
    modifies r
    ensures r.Valid()
    ensures var c := old(r.View());
            if |c.rest| < 4 then r.failed
            else v == Value(c.rest[..4]) && r.View() == Cursor(c.rest[4..], false)
  {
    hide Value;
    ghost var c := r.View();
    v := r.GetU32();
    hide ReadUint;
    if |c.rest| < 4 { ReadUintFails(c, 4); } else { ReadIsValue(c, 4); }
  }

  method DecodeFrame(b: Bytes) returns (res: Result<Frame>)
    ensures res == Decode(b)
  {
    hide Crc, DecodeBody, Value, Advances;
    var r := new BinaryReader(b);
    var len := GetWord(r);
    if !r.Good() { return Err(CorruptInput); }
    if len != |b| - 4 { return Err(LengthMismatch); }
    if len < 8 || len > MAX_FRAME { return Err(LengthOutOfRange); }
    var expected := GetWord(r);
    assert b[4..][..4] == b[4..8] && b[4..][4..] == b[8..];
    var body := r.Sub(len - 4);
    assert b[8..][..len - 4] == b[8..];
    if !body.Good() { return Err(CorruptInput); }
    var actual := ComputeCrc32(b[8..]);
    if actual != expected { return Err(ChecksumMismatch); }
    res := ReadBody(body);
  }
}
