/** Where every value stands in the encoded forms: payloads, frames and authorities by absolute byte
    positions, independently of how the encoders are put together (src/observation.cpp:55-115,
    src/authority.cpp:148-161, src/protocol.cpp:46-171). */
module Layouts {
  import opened Types
  import opened BigEndian
  import opened Division
  import opened Identity
  import opened Ordering
  import opened Wire
  import opened Observations
  import opened ObservationCodec
  import opened Authority
  import opened AuthorityCodec
  import opened Coordinators
  import opened Payloads
  import Frames
  import Crc32

  // ------------------------------------------------------------ values at positions

  ghost predicate ByteAt(b: Bytes, at: nat, v: u8) {
    at < |b| && b[at] == v
  }

  /** `n` bytes from `at` are the base-256 digits of `v`, the most significant first. */
  ghost predicate NumberAt(b: Bytes, at: nat, n: nat, v: nat) {
    at + n <= |b| && forall j :: at <= j < at + n ==> b[j] == v / Pow256(at + n - 1 - j) % 256
  }

  /** Two's complement in eight bytes. */
  ghost predicate SignedAt(b: Bytes, at: nat, i: int) {
    -0x8000_0000_0000_0000 <= i && NumberAt(b, at, 8, if i < 0 then 0x1_0000_0000_0000_0000 + i else i)
  }

  /** High half first. */
  ghost predicate IdAt(b: Bytes, at: nat, id: Id128) {
    NumberAt(b, at, 8, id.hi) && NumberAt(b, at + 8, 8, id.lo)
  }

  /** A 32-bit length and the bytes. */
  ghost predicate TextAt(b: Bytes, at: nat, t: Bytes) {
    NumberAt(b, at, 4, |t|) && at + 4 + |t| <= |b| && b[at + 4..at + 4 + |t|] == t
  }

  /** A tag and the value behind it. */
  ghost predicate ValueAt(b: Bytes, at: nat, v: FieldValue) {
    match v
    case Null => ByteAt(b, at, 0)
    case Flag(f) => ByteAt(b, at, 1) && ByteAt(b, at + 1, if f then 1 else 0)
    case Signed(i) => ByteAt(b, at, 2) && SignedAt(b, at + 1, i)
    case Unsigned(u) => ByteAt(b, at, 3) && NumberAt(b, at + 1, 8, u)
    case Float(bits) => ByteAt(b, at, 4) && NumberAt(b, at + 1, 8, bits)
    case Text(t) => ByteAt(b, at, 5) && TextAt(b, at + 1, t)
    case Ident(id) => ByteAt(b, at, 6) && IdAt(b, at + 1, id)
    case Raw(w) => ByteAt(b, at, 7) && TextAt(b, at + 1, w)
  }

  function Width(v: FieldValue): nat {
    match v
    case Null => 1
    case Flag(_) => 2
    case Text(t) => 5 + |t|
    case Ident(_) => 17
    case Raw(w) => 5 + |w|
    case _ => 9
  }

  /** One key and its value after another, up to the end. */
  ghost predicate EntriesAt(b: Bytes, at: nat, keys: seq<Bytes>, m: map<Bytes, FieldValue>)
    requires forall k :: k in keys ==> k in m
    decreases |keys|
  {
    if keys == [] then at == |b|
    else
      && TextAt(b, at, keys[0])
      && ValueAt(b, at + 4 + |keys[0]|, m[keys[0]])
      && EntriesAt(b, at + 4 + |keys[0]| + Width(m[keys[0]]), keys[1..], m)
  }

  // ------------------------------------------------------------ reading a concatenation from the left

  ghost predicate Rests(b: Bytes, at: nat, s: Bytes) {
    at <= |b| && b[at..] == s
  }

  /** Byte `i` of a big-endian number is its `i`-th base-256 digit from the left. */
  lemma {:induction false} DigitOfBE(v: nat, n: nat, i: nat)
    requires i < n
    ensures BE(v, n)[i] == v / Pow256(n - 1 - i) % 256
  {
    if i < n - 1 {
      DigitOfBE(v / 256, n - 1, i);
      DivideTwice(v, 256, Pow256(n - 2 - i));
    } else {
      assert Pow256(0) == 1;
    }
  }

  lemma TakeNumber(b: Bytes, at: nat, v: nat, n: nat, s: Bytes)
    requires Rests(b, at, BE(v, n) + s)
    ensures NumberAt(b, at, n, v) && Rests(b, at + n, s)
  {
    forall j | at <= j < at + n ensures b[j] == v / Pow256(at + n - 1 - j) % 256 {
      DigitOfBE(v, n, j - at);
      assert b[at..][j - at] == BE(v, n)[j - at];
    }
    assert b[at + n..] == b[at..][n..];
  }

  lemma TakeByte(b: Bytes, at: nat, v: u8, s: Bytes)
    requires Rests(b, at, [v] + s)
    ensures ByteAt(b, at, v) && Rests(b, at + 1, s)
  {
    assert b[at..][0] == v;
    assert b[at + 1..] == b[at..][1..];
  }

  lemma TakeId(b: Bytes, at: nat, id: Id128, s: Bytes)
    requires Rests(b, at, IdBytes(id) + s)
    ensures IdAt(b, at, id) && Rests(b, at + 16, s)
  {
    hide BE, NumberAt;
    assert IdBytes(id) + s == BE(id.hi, 8) + (BE(id.lo, 8) + s);
    TakeNumber(b, at, id.hi, 8, BE(id.lo, 8) + s);
    TakeNumber(b, at + 8, id.lo, 8, s);
  }

  lemma TakeText(b: Bytes, at: nat, t: Bytes, s: Bytes)
    requires Rests(b, at, Blob(t) + s)
    ensures TextAt(b, at, t) && Rests(b, at + 4 + |t|, s)
  {
    hide BE, NumberAt;
    assert Blob(t) + s == BE(|t|, 4) + (t + s);
    TakeNumber(b, at, |t|, 4, t + s);
    assert b[at + 4..][..|t|] == t;
    assert b[at + 4 + |t|..] == b[at + 4..][|t|..];
  }

  lemma TakeValue(b: Bytes, at: nat, v: FieldValue, s: Bytes)
    requires ValueFits(v) && Rests(b, at, EncodeValue(v) + s)
    ensures ValueAt(b, at, v) && Rests(b, at + Width(v), s)
  {
    hide BE, NumberAt, TextAt, IdAt, Rests, ByteAt, Blob, IdBytes;
    assert EncodeValue(v) + s == [ValueTag(v)] + (ValueBody(v) + s);
    TakeByte(b, at, ValueTag(v), ValueBody(v) + s);
    match v
    case Null => assert [] + s == s;
    case Flag(f) => TakeByte(b, at + 1, if f then 1 else 0, s);
    case Signed(i) => TakeNumber(b, at + 1, ToUnsigned(i), 8, s);
    case Unsigned(u) => TakeNumber(b, at + 1, u, 8, s);
    case Float(bits) => TakeNumber(b, at + 1, bits, 8, s);
    case Text(t) => TakeText(b, at + 1, t, s);
    case Ident(id) => TakeId(b, at + 1, id, s);
    case Raw(w) => TakeText(b, at + 1, w, s);
  }

  lemma {:induction false} TakeEntries(b: Bytes, at: nat, keys: seq<Bytes>, m: map<Bytes, FieldValue>)
    requires FieldsFit(m) && (forall k :: k in keys ==> k in m) && Rests(b, at, EncodeEntries(keys, m))
    ensures EntriesAt(b, at, keys, m)
    decreases |keys|
  {
    hide EncodeValue, ValueAt, TextAt, Blob, ValueFits, Width;
    if keys != [] {
      var k := keys[0];
      var rest := EncodeEntries(keys[1..], m);
      hide Rests;
      TakeText(b, at, k, EncodeValue(m[k]) + rest);
      TakeValue(b, at + 4 + |k|, m[k], rest);
      TakeEntries(b, at + 4 + |k| + Width(m[k]), keys[1..], m);
    }
  }

  // ------------------------------------------------------------ observations

  /** Bit 0 observed time, bit 1 receive time, bit 2 health, bit 3 confidence. */
  function PresenceByte(o: Observation): u8 {
    (if o.hasObsTs then 1 else 0) + (if o.hasRecvTs then 2 else 0) + (if o.hasHealth then 4 else 0)
    + (if o.hasConfidence then 8 else 0)
  }

  /** The flagged values follow the presence byte without gaps, then the provenance. */
  ghost predicate MarksAt(b: Bytes, at: nat, o: Observation) {
    var recv := at + 1 + if o.hasObsTs then 8 else 0;
    var health := recv + if o.hasRecvTs then 8 else 0;
    var confidence := health + if o.hasHealth then 1 else 0;
    && ByteAt(b, at, PresenceByte(o))
    && (o.hasObsTs ==> NumberAt(b, at + 1, 8, o.obsTs))
    && (o.hasRecvTs ==> NumberAt(b, recv, 8, o.recvTs))
    && (o.hasHealth ==> ByteAt(b, health, o.health))
    && (o.hasConfidence ==> NumberAt(b, confidence, 4, o.confidence))
    && ByteAt(b, confidence + (if o.hasConfidence then 4 else 0), o.provenance)
  }

  function MarksWidth(o: Observation): nat {
    2 + (if o.hasObsTs then 8 else 0) + (if o.hasRecvTs then 8 else 0) + (if o.hasHealth then 1 else 0)
    + (if o.hasConfidence then 4 else 0)
  }

  lemma TakeFlagged(b: Bytes, at: nat, present: bool, v: nat, n: nat, s: Bytes)
    requires Rests(b, at, When(present, BE(v, n)) + s)
    ensures (present ==> NumberAt(b, at, n, v)) && Rests(b, at + if present then n else 0, s)
  {
    hide BE, NumberAt, Rests;
    if present { TakeNumber(b, at, v, n, s); } else { assert [] + s == s; }
  }

  lemma TakeFlaggedByte(b: Bytes, at: nat, present: bool, v: u8, s: Bytes)
    requires Rests(b, at, When(present, [v]) + s)
    ensures (present ==> ByteAt(b, at, v)) && Rests(b, at + if present then 1 else 0, s)
  {
    hide Rests;
    if present { TakeByte(b, at, v, s); } else { assert [] + s == s; }
  }

  /** What follows the presence byte. */
  function FlaggedBytes(o: Observation, s: Bytes): Bytes {
    When(o.hasObsTs, BE(o.obsTs, 8))
    + (When(o.hasRecvTs, BE(o.recvTs, 8))
       + (When(o.hasHealth, [o.health]) + (When(o.hasConfidence, BE(o.confidence, 4)) + ([o.provenance] + s))))
  }

  lemma Regroup5(p: Bytes, w: Bytes, x: Bytes, y: Bytes, z: Bytes, v: Bytes, s: Bytes)
    ensures p + (w + (x + (y + (z + v)))) + s == p + (w + (x + (y + (z + (v + s)))))
  {
    assert (z + v) + s == z + (v + s);
    assert (y + (z + v)) + s == y + (z + (v + s));
    assert (x + (y + (z + v))) + s == x + (y + (z + (v + s)));
  }

  lemma MarksRegroup(o: Observation, s: Bytes)
    ensures MarksBytes(MarksOf(o)) + s == [PresenceByte(o)] + FlaggedBytes(o, s)
  {
    hide BE, When;
    Regroup5([PresenceByte(o)], When(o.hasObsTs, BE(o.obsTs, 8)), When(o.hasRecvTs, BE(o.recvTs, 8)),
             When(o.hasHealth, [o.health]), When(o.hasConfidence, BE(o.confidence, 4)), [o.provenance], s);
  }

  lemma TakeMarks(b: Bytes, at: nat, o: Observation, s: Bytes)
    requires Rests(b, at, MarksBytes(MarksOf(o)) + s)
    ensures MarksAt(b, at, o) && Rests(b, at + MarksWidth(o), s)
  {
    hide BE, NumberAt, Rests, When, MarksBytes, ByteAt, PresenceByte, MarksOf;
    var s4 := [o.provenance] + s;
    var s3 := When(o.hasConfidence, BE(o.confidence, 4)) + s4;
    var s2 := When(o.hasHealth, [o.health]) + s3;
    var s1 := When(o.hasRecvTs, BE(o.recvTs, 8)) + s2;
    MarksRegroup(o, s);
    TakeByte(b, at, PresenceByte(o), FlaggedBytes(o, s));
    TakeFlagged(b, at + 1, o.hasObsTs, o.obsTs, 8, s1);
    var recv := at + 1 + if o.hasObsTs then 8 else 0;
    TakeFlagged(b, recv, o.hasRecvTs, o.recvTs, 8, s2);
    var health := recv + if o.hasRecvTs then 8 else 0;
    TakeFlaggedByte(b, health, o.hasHealth, o.health, s3);
    var confidence := health + if o.hasHealth then 1 else 0;
    TakeFlagged(b, confidence, o.hasConfidence, o.confidence, 4, s4);
    TakeByte(b, confidence + if o.hasConfidence then 4 else 0, o.provenance, s);
  }

  /** The whole payload of an observation. */
  ghost predicate ObservationAt(b: Bytes, o: Observation) {
    var marks := 102 + |o.clockDomain|;
    var fields := marks + MarksWidth(o);
    && IdAt(b, 0, o.id) && NumberAt(b, 16, 2, o.kind)
    && IdAt(b, 18, o.source) && IdAt(b, 34, o.worker) && IdAt(b, 50, o.boot)
    && NumberAt(b, 66, 8, o.srcGen) && NumberAt(b, 74, 8, o.obsGen)
    && NumberAt(b, 82, 8, o.epoch) && NumberAt(b, 90, 8, o.seqNum)
    && TextAt(b, 98, o.clockDomain)
    && MarksAt(b, marks, o)
    && NumberAt(b, fields, 4, |o.fields|)
    && exists keys :: KeysInRisingOrder(keys, o.fields) && EntriesAt(b, fields + 4, keys, o.fields)
  }

  /** Every key once, in byte order. */
  ghost predicate KeysInRisingOrder(keys: seq<Bytes>, m: map<Bytes, FieldValue>) {
    (forall k :: k in keys <==> k in m) && forall i, j :: 0 <= i < j < |keys| ==> BytesLess(keys[i], keys[j])
  }

  lemma TakeHead(b: Bytes, o: Observation, s: Bytes)
    requires Rests(b, 0, HeadBytes(o.id, o.kind) + (OriginBytes(o.source, o.worker, o.boot) + s))
    ensures IdAt(b, 0, o.id) && NumberAt(b, 16, 2, o.kind)
    ensures IdAt(b, 18, o.source) && IdAt(b, 34, o.worker) && IdAt(b, 50, o.boot) && Rests(b, 66, s)
  {
    hide BE, NumberAt, Rests, IdBytes, IdAt;
    var s3 := IdBytes(o.boot) + s;
    var s2 := IdBytes(o.worker) + s3;
    var s1 := IdBytes(o.source) + s2;
    assert OriginBytes(o.source, o.worker, o.boot) + s == s1;
    assert HeadBytes(o.id, o.kind) + s1 == IdBytes(o.id) + (BE(o.kind, 2) + s1);
    TakeId(b, 0, o.id, BE(o.kind, 2) + s1);
    TakeNumber(b, 16, o.kind, 2, s1);
    TakeId(b, 18, o.source, s2);
    TakeId(b, 34, o.worker, s3);
    TakeId(b, 50, o.boot, s);
  }

  lemma TakeStamps(b: Bytes, at: nat, v: u64, w: u64, x: u64, y: u64, s: Bytes)
    requires Rests(b, at, StampBytes(v, w, x, y) + s)
    ensures NumberAt(b, at, 8, v) && NumberAt(b, at + 8, 8, w) && NumberAt(b, at + 16, 8, x)
    ensures NumberAt(b, at + 24, 8, y) && Rests(b, at + 32, s)
  {
    hide BE, NumberAt, Rests;
    var s3 := BE(y, 8) + s;
    var s2 := BE(x, 8) + s3;
    var s1 := BE(w, 8) + s2;
    assert StampBytes(v, w, x, y) + s == BE(v, 8) + s1;
    TakeNumber(b, at, v, 8, s1);
    TakeNumber(b, at + 8, w, 8, s2);
    TakeNumber(b, at + 16, x, 8, s3);
    TakeNumber(b, at + 24, y, 8, s);
  }

  lemma KeysRise(m: map<Bytes, FieldValue>)
    ensures KeysInRisingOrder(SortedKeys(BytesLess, m.Keys), m)
  {
    hide BytesLess, SortedKeys;
    BytesLessTotal();
    SortedKeysSorted(BytesLess, m.Keys);
  }

  lemma TakeFields(b: Bytes, at: nat, m: map<Bytes, FieldValue>)
    requires FieldsFit(m) && Rests(b, at, EncodeFields(m))
    ensures NumberAt(b, at, 4, |m|)
    ensures exists keys :: KeysInRisingOrder(keys, m) && EntriesAt(b, at + 4, keys, m)
  {
    var keys := SortedKeys(BytesLess, m.Keys);
    KeysRise(m);
    TraversalCovers(m);
    hide BE, NumberAt, Rests, BytesLess, EncodeEntries, EntriesAt, KeysInRisingOrder, SortedKeys, FieldsFit;
    TakeNumber(b, at, |m|, 4, AllEntries(m));
    TakeEntries(b, at + 4, keys, m);
  }

  /** Every value of an observation stands at its position in the payload. */
  lemma ObservationLayout(o: Observation)
    requires Fits(o)
    ensures ObservationAt(Encode(o), o)
  {
    hide HeadBytes, OriginBytes, StampBytes, MarksBytes, EncodeFields, Blob, FieldsFit;
    hide NumberAt, IdAt, TextAt, MarksAt, EntriesAt, KeysInRisingOrder, MarksWidth;
    var b := Encode(o);
    var s3 := EncodeFields(o.fields);
    var s2 := MarksBytes(MarksOf(o)) + s3;
    var s1 := Blob(o.clockDomain) + s2;
    var s0 := StampBytes(o.srcGen, o.obsGen, o.epoch, o.seqNum) + s1;
    assert Rests(b, 0, HeadBytes(o.id, o.kind) + (OriginBytes(o.source, o.worker, o.boot) + s0));
    hide Rests, Encode;
    TakeHead(b, o, s0);
    TakeStamps(b, 66, o.srcGen, o.obsGen, o.epoch, o.seqNum, s1);
    TakeText(b, 98, o.clockDomain, s2);
    TakeMarks(b, 102 + |o.clockDomain|, o, s3);
    TakeFields(b, 102 + |o.clockDomain| + MarksWidth(o), o.fields);
  }

  // ------------------------------------------------------------ messages

  lemma TakeOrigin(b: Bytes, at: nat, x: Id128, y: Id128, z: Id128, s: Bytes)
    requires Rests(b, at, OriginBytes(x, y, z) + s)
    ensures IdAt(b, at, x) && IdAt(b, at + 16, y) && IdAt(b, at + 32, z) && Rests(b, at + 48, s)
  {
    hide Rests, IdBytes, IdAt;
    var s2 := IdBytes(z) + s;
    var s1 := IdBytes(y) + s2;
    assert OriginBytes(x, y, z) + s == IdBytes(x) + s1;
    TakeId(b, at, x, s1);
    TakeId(b, at + 16, y, s2);
    TakeId(b, at + 32, z, s);
  }

  lemma TakeGens(b: Bytes, at: nat, x: u64, y: u64, z: u64, s: Bytes)
    requires Rests(b, at, GensBytes(x, y, z) + s)
    ensures NumberAt(b, at, 8, x) && NumberAt(b, at + 8, 8, y) && NumberAt(b, at + 16, 8, z) && Rests(b, at + 24, s)
  {
    hide BE, NumberAt, Rests;
    var s2 := BE(z, 8) + s;
    var s1 := BE(y, 8) + s2;
    assert GensBytes(x, y, z) + s == BE(x, 8) + s1;
    TakeNumber(b, at, x, 8, s1);
    TakeNumber(b, at + 8, y, 8, s2);
    TakeNumber(b, at + 16, z, 8, s);
  }

  lemma TakeLastText(b: Bytes, at: nat, t: Bytes)
    requires Rests(b, at, Blob(t))
    ensures TextAt(b, at, t) && |b| == at + 4 + |t|
  {
    assert Blob(t) + [] == Blob(t);
    TakeText(b, at, t, []);
  }

  /** The announcement of a source. */
  lemma HelloLayout(h: HelloPayload)
    requires HelloFits(h)
    ensures var b := HelloBytes(h);
            var role := 76 + |h.clockDomain|;
            && IdAt(b, 0, h.source) && IdAt(b, 16, h.worker) && IdAt(b, 32, h.boot)
            && NumberAt(b, 48, 8, h.srcGen) && NumberAt(b, 56, 8, h.obsGen) && NumberAt(b, 64, 8, h.epoch)
            && TextAt(b, 72, h.clockDomain) && TextAt(b, role, h.role) && TextAt(b, role + 4 + |h.role|, h.extra)
            && |b| == role + 8 + |h.role| + |h.extra|
  {
    hide OriginBytes, GensBytes, Blob, IdAt, NumberAt, TextAt;
    var b := HelloBytes(h);
    var s2 := Blob(h.role) + Blob(h.extra);
    var s1 := TextsBytes(h.clockDomain, h.role, h.extra);
    assert s1 == Blob(h.clockDomain) + s2;
    assert Rests(b, 0, OriginBytes(h.source, h.worker, h.boot) + (GensBytes(h.srcGen, h.obsGen, h.epoch) + s1));
    hide Rests, HelloBytes, TextsBytes;
    TakeOrigin(b, 0, h.source, h.worker, h.boot, GensBytes(h.srcGen, h.obsGen, h.epoch) + s1);
    TakeGens(b, 48, h.srcGen, h.obsGen, h.epoch, s1);
    TakeText(b, 72, h.clockDomain, s2);
    TakeText(b, 76 + |h.clockDomain|, h.role, Blob(h.extra));
    TakeLastText(b, 80 + |h.clockDomain| + |h.role|, h.extra);
  }

  /** The acknowledgement of an observation or of an announcement. */
  lemma AckLayout(a: AckPayload)
    ensures var b := AckBytes(a);
            && ByteAt(b, 0, if a.accepted then 1 else 0) && ByteAt(b, 1, a.decision)
            && NumberAt(b, 2, 4, a.acceptedTotal) && TextAt(b, 6, a.reason) && |b| == 10 + |a.reason|
  {
    var b := AckBytes(a);
    var flag: u8 := if a.accepted then 1 else 0;
    var s2 := BE(a.acceptedTotal, 4) + Blob(a.reason);
    var s1 := [a.decision] + s2;
    hide BE, Blob;
    assert Rests(b, 0, [flag] + s1);
    hide Rests, AckBytes, ByteAt, NumberAt, TextAt;
    TakeByte(b, 0, flag, s1);
    TakeByte(b, 1, a.decision, s2);
    TakeNumber(b, 2, a.acceptedTotal, 4, Blob(a.reason));
    TakeLastText(b, 6, a.reason);
  }

  /** The status of a coordinator. */
  lemma StatusLayout(p: StatusPayload)
    ensures var b := StatusBytes(p);
            var at := 4 + |p.health|;
            && TextAt(b, 0, p.health)
            && NumberAt(b, at, 4, p.online) && NumberAt(b, at + 4, 4, p.total) && NumberAt(b, at + 8, 4, p.dropped)
            && NumberAt(b, at + 12, 8, p.epoch) && |b| == at + 20
  {
    var b := StatusBytes(p);
    var at := 4 + |p.health|;
    hide BE, Blob;
    var s4 := BE(p.epoch, 8) + [];
    var s3 := BE(p.dropped, 4) + s4;
    var s2 := BE(p.total, 4) + s3;
    var s1 := BE(p.online, 4) + s2;
    assert b == Blob(p.health) + s1;
    assert Rests(b, 0, Blob(p.health) + s1);
    hide StatusBytes, NumberAt, TextAt;
    TakeText(b, 0, p.health, s1);
    TakeNumber(b, at, p.online, 4, s2);
    TakeNumber(b, at + 4, p.total, 4, s3);
    TakeNumber(b, at + 8, p.dropped, 4, s4);
    TakeNumber(b, at + 12, p.epoch, 8, []);
  }

  /** A stored authority, `at` bytes in. */
  ghost predicate AuthorityAt(b: Bytes, at: nat, a: SourceAuthority) {
    var standing := at + 81 + if a.hasLastTs then 8 else 0;
    && IdAt(b, at, a.source) && IdAt(b, at + 16, a.worker)
    && NumberAt(b, at + 32, 8, a.epoch) && NumberAt(b, at + 40, 8, a.srcGen) && NumberAt(b, at + 48, 8, a.obsGen)
    && IdAt(b, at + 56, a.boot) && NumberAt(b, at + 72, 8, a.lastSeq)
    && ByteAt(b, at + 80, if a.hasLastTs then 1 else 0) && (a.hasLastTs ==> NumberAt(b, at + 81, 8, a.lastObsTs))
    && ByteAt(b, standing, a.health) && ByteAt(b, standing + 1, if a.registered then 1 else 0)
    && SignedAt(b, standing + 2, a.restartCount)
  }

  function AuthorityWidth(a: SourceAuthority): nat {
    91 + if a.hasLastTs then 8 else 0
  }

  lemma TakeNames(b: Bytes, at: nat, a: SourceAuthority, s: Bytes)
    requires Rests(b, at, NameBytes(a) + (GenerationBytes(a) + s))
    ensures IdAt(b, at, a.source) && IdAt(b, at + 16, a.worker) && Rests(b, at + 56, s)
    ensures NumberAt(b, at + 32, 8, a.epoch) && NumberAt(b, at + 40, 8, a.srcGen) && NumberAt(b, at + 48, 8, a.obsGen)
  {
    hide Rests, IdBytes, IdAt, NumberAt, BE;
    var s1 := GenerationBytes(a) + s;
    assert s1 == GensBytes(a.epoch, a.srcGen, a.obsGen) + s;
    assert NameBytes(a) + s1 == IdBytes(a.source) + (IdBytes(a.worker) + s1);
    TakeId(b, at, a.source, IdBytes(a.worker) + s1);
    TakeId(b, at + 16, a.worker, s1);
    TakeGens(b, at + 32, a.epoch, a.srcGen, a.obsGen, s);
  }

  lemma TakeProgress(b: Bytes, at: nat, a: SourceAuthority, s: Bytes)
    requires Rests(b, at, ProgressBytes(a) + s)
    ensures IdAt(b, at, a.boot) && NumberAt(b, at + 16, 8, a.lastSeq)
    ensures ByteAt(b, at + 24, if a.hasLastTs then 1 else 0) && (a.hasLastTs ==> NumberAt(b, at + 25, 8, a.lastObsTs))
    ensures Rests(b, at + 25 + (if a.hasLastTs then 8 else 0), s)
  {
    hide Rests, IdBytes, IdAt, NumberAt, BE, When, ByteAt;
    var s3 := When(a.hasLastTs, BE(a.lastObsTs, 8)) + s;
    var s2 := [Bit(a.hasLastTs)] + s3;
    var s1 := BE(a.lastSeq, 8) + s2;
    assert ProgressBytes(a) + s == IdBytes(a.boot) + s1;
    TakeId(b, at, a.boot, s1);
    TakeNumber(b, at + 16, a.lastSeq, 8, s2);
    TakeByte(b, at + 24, Bit(a.hasLastTs), s3);
    TakeFlagged(b, at + 25, a.hasLastTs, a.lastObsTs, 8, s);
  }

  lemma TakeStanding(b: Bytes, at: nat, a: SourceAuthority, s: Bytes)
    requires RestartFits(a) && Rests(b, at, StandingBytes(a) + s)
    ensures ByteAt(b, at, a.health) && ByteAt(b, at + 1, if a.registered then 1 else 0) && Rests(b, at + 10, s)
    ensures SignedAt(b, at + 2, a.restartCount)
  {
    hide Rests, NumberAt, BE, ByteAt;
    var s2 := BE(ToUnsigned(a.restartCount), 8) + s;
    var s1 := [Bit(a.registered)] + s2;
    assert StandingBytes(a) + s == [a.health] + s1;
    TakeByte(b, at, a.health, s1);
    TakeByte(b, at + 1, Bit(a.registered), s2);
    TakeNumber(b, at + 2, ToUnsigned(a.restartCount), 8, s);
  }

  lemma TakeAuthority(b: Bytes, at: nat, a: SourceAuthority, s: Bytes)
    requires RestartFits(a) && Rests(b, at, EncodeAuthority(a) + s)
    ensures AuthorityAt(b, at, a) && Rests(b, at + AuthorityWidth(a), s)
  {
    hide Rests, IdAt, NumberAt, SignedAt, ByteAt, NameBytes, GenerationBytes, ProgressBytes, StandingBytes;
    var s2 := StandingBytes(a) + s;
    var s1 := ProgressBytes(a) + s2;
    assert EncodeAuthority(a) + s == NameBytes(a) + (GenerationBytes(a) + s1);
    TakeNames(b, at, a, s1);
    TakeProgress(b, at + 56, a, s2);
    TakeStanding(b, at + 81 + if a.hasLastTs then 8 else 0, a, s);
  }

  // ------------------------------------------------------------ frames

  lemma DigitsAreNumber(b: Bytes, at: nat, n: nat, v: nat)
    requires NumberAt(b, at, n, v) && v < Pow256(n)
    ensures Value(b[at..at + n]) == v
  {
    var w := b[at..at + n];
    forall i | 0 <= i < n ensures w[i] == BE(v, n)[i] {
      DigitOfBE(v, n, i);
      assert b[at + i] == v / Pow256(at + n - 1 - (at + i)) % 256;
    }
    assert w == BE(v, n);
    ValueOfBE(v, n);
  }

  lemma ValueHasDigits(b: Bytes, at: nat, n: nat)
    requires at + n <= |b|
    ensures NumberAt(b, at, n, Value(b[at..at + n]))
  {
    var w := b[at..at + n];
    var v := Value(w);
    BEOfValue(w);
    hide Value;
    forall j | at <= j < at + n ensures b[j] == v / Pow256(at + n - 1 - j) % 256 {
      DigitOfBE(v, n, j - at);
      assert w[j - at] == b[j];
    }
  }

  /** A number in range is at a position exactly when the bytes there are its value. */
  lemma NumberIsValue(b: Bytes, at: nat, n: nat, v: nat)
    requires at + n <= |b| && v < Pow256(n)
    ensures NumberAt(b, at, n, v) <==> Value(b[at..at + n]) == v
  {
    ValueHasDigits(b, at, n);
    if NumberAt(b, at, n, v) { DigitsAreNumber(b, at, n, v); }
  }

  /** A frame: its length, the checksum of what follows it, version, type and payload. */
  lemma FrameLayout(t: Frames.MsgType, payload: Bytes, version: u16)
    ensures var b := Frames.Encode(t, payload, version);
            && NumberAt(b, 0, 4, (8 + |payload|) % 0x1_0000_0000)
            && NumberAt(b, 4, 4, Crc32.Crc(b[8..]))
            && NumberAt(b, 8, 2, version) && NumberAt(b, 10, 2, t) && b[12..] == payload
  {
    hide BE, NumberAt, Crc32.Crc;
    var b := Frames.Encode(t, payload, version);
    var body := Frames.Body(t, payload, version);
    var crc := Crc32.Crc(body);
    assert b[8..] == body by { hide Frames.Body; }
    assert Rests(b, 0, BE((8 + |payload|) % 0x1_0000_0000, 4) + (BE(crc, 4) + body));
    assert body == BE(version, 2) + (BE(t, 2) + payload);
    hide Frames.Encode, Frames.Body;
    TakeNumber(b, 0, (8 + |payload|) % 0x1_0000_0000, 4, BE(crc, 4) + body);
    TakeNumber(b, 4, crc, 4, body);
    TakeNumber(b, 8, version, 2, BE(t, 2) + payload);
    TakeNumber(b, 10, t, 2, payload);
  }

  /** The length field holds the number of bytes behind it. */
  ghost predicate LengthHolds(b: Bytes) {
    4 <= |b| < 0x1_0000_0004 && NumberAt(b, 0, 4, |b| - 4)
  }

  ghost predicate LengthAllowed(b: Bytes) {
    LengthHolds(b) && 12 <= |b| <= 4 + 64 * 1024 * 1024
  }

  ghost predicate ChecksumHolds(b: Bytes) {
    LengthAllowed(b) && NumberAt(b, 4, 4, Crc32.Crc(b[8..]))
  }

  ghost predicate VersionHolds(b: Bytes) {
    ChecksumHolds(b) && NumberAt(b, 8, 2, 1)
  }

  lemma FrameNumbers(b: Bytes)
    ensures |b| >= 4 ==> (LengthHolds(b) <==> Value(b[..4]) == |b| - 4)
    ensures |b| >= 12 ==> (NumberAt(b, 4, 4, Crc32.Crc(b[8..])) <==> Value(b[4..8]) == Crc32.Crc(b[8..]))
    ensures |b| >= 12 ==> (NumberAt(b, 8, 2, 1) <==> Value(b[8..][..2]) == 1)
    ensures |b| >= 12 ==> forall t: u16 :: NumberAt(b, 10, 2, t) <==> Value(b[8..][2..4]) == t
  {
    hide Crc32.Crc, Value, NumberAt;
    Pow256Values();
    if 4 <= |b| {
      assert b[0..0 + 4] == b[..4];
      assert Value(b[..4]) < Pow256(4);
      if |b| < 0x1_0000_0004 { NumberIsValue(b, 0, 4, |b| - 4); }
    }
    if 12 <= |b| {
      NumberIsValue(b, 4, 4, Crc32.Crc(b[8..]));
      NumberIsValue(b, 8, 2, 1);
      assert b[8..][..2] == b[8..8 + 2] && b[8..][2..4] == b[10..10 + 2];
      forall t: u16 ensures NumberAt(b, 10, 2, t) <==> Value(b[8..][2..4]) == t { NumberIsValue(b, 10, 2, t); }
    }
  }

  /** What becomes of any bytes taken for a frame: the first check that fails names the error, and what
      is accepted is the type and the bytes behind it. */
  lemma FrameJudged(b: Bytes)
    ensures var r := Frames.Decode(b);
            && (r == Err(CorruptInput) <==> |b| < 4)
            && (r == Err(LengthMismatch) <==> |b| >= 4 && !LengthHolds(b))
            && (r == Err(LengthOutOfRange) <==> LengthHolds(b) && !LengthAllowed(b))
            && (r == Err(ChecksumMismatch) <==> LengthAllowed(b) && !ChecksumHolds(b))
            && (r == Err(UnsupportedVersion) <==> ChecksumHolds(b) && !VersionHolds(b))
            && (r == Err(UnknownMessage) <==>
                VersionHolds(b) && forall t: u16 :: NumberAt(b, 10, 2, t) ==> t < 1 || t > 8)
            && (r.Ok? <==> VersionHolds(b) && exists t: u16 :: 1 <= t <= 8 && NumberAt(b, 10, 2, t))
            && (r.Ok? ==> r.value.version == 1 && NumberAt(b, 10, 2, r.value.msgType) && r.value.payload == b[12..])
  {
    FrameNumbers(b);
    Pow256Values();
    hide Crc32.Crc, NumberAt;
    if |b| >= 12 {
      assert b[8..][4..] == b[12..];
      var t: u16 := Value(b[8..][2..4]);
      hide Value;
      assert NumberAt(b, 10, 2, t);
    }
  }
}
