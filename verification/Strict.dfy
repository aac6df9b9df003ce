/** How far the observation decoder's leniency reaches: the accepted payloads that are not the
    encoding of what they decode to are exactly those with an undeclared code or bit, a flag byte
    above 1, or fields that are not in strictly increasing key order (src/observation.cpp:69-157). */
module Strictness {
  import opened Types
  import opened BigEndian
  import opened Identity
  import opened Ordering
  import opened Wire
  import opened Observations
  import opened ObservationCodec
  import opened Authority
  import opened AuthorityCodec
  import opened Payloads
  import opened Decoded

  // ------------------------------------------------------------ what strict bytes look like

  /** A flag is written as 0 or 1. */
  predicate StrictValue(c: Cursor) {
    |c.rest| >= 2 && c.rest[0] == 1 ==> c.rest[1] <= 1
  }

  /** Keys come in strictly increasing order, above `last`. */
  predicate StrictEntries(c: Cursor, n: nat, last: Option<Bytes>)
    decreases n
  {
    n == 0 ||
    (var key := ReadBlob(c);
     && StrictValue(key.next)
     && (last.Some? ==> BytesLess(last.value, key.value))
     && StrictEntries(ReadEntry(c).next, n - 1, Some(key.value)))
  }

  predicate StrictFields(c: Cursor) {
    var n := ReadU32(c);
    StrictEntries(n.next, n.value, None)
  }

  /** Only the four declared presence bits, and declared health and provenance codes. */
  predicate StrictMarks(c: Cursor) {
    var pres := ReadByte(c);
    var recvTs := ReadU64When(Flagged(pres.value, 2), ReadU64When(Flagged(pres.value, 1), pres.next).next);
    var health := ReadHealthWhen(Flagged(pres.value, 4), recvTs.next);
    var confidence := ReadU32When(Flagged(pres.value, 8), health.next);
    && pres.value < 16
    && (Flagged(pres.value, 4) ==> ReadByte(recvTs.next).value <= 6)
    && ReadByte(confidence.next).value <= 6
  }

  /** Where the optional parts of a payload start. */
  function MarksAt(b: Bytes): Cursor {
    ReadBlob(ReadStamp(ReadOrigin(ReadHead(Cursor(b, false)).next).next).next).next
  }

  predicate StrictPayload(b: Bytes) {
    StrictMarks(MarksAt(b)) && StrictFields(ReadMarks(MarksAt(b)).next)
  }

  // ------------------------------------------------------------ encodings are strict

  lemma EncodedValueStrict(v: FieldValue, s: Bytes)
    requires ValueFits(v)
    ensures StrictValue(Cursor(EncodeValue(v) + s, false))
  {
  }

  lemma {:induction false} EncodedEntriesStrict(keys: seq<Bytes>, m: map<Bytes, FieldValue>, last: Option<Bytes>,
          s: Bytes)
    requires FieldsFit(m) && FieldsFinite(m) && (forall k :: k in keys ==> k in m)
    requires StrictlySorted(BytesLess, keys)
    requires last.Some? && keys != [] ==> BytesLess(last.value, keys[0])
    ensures StrictEntries(Cursor(EncodeEntries(keys, m) + s, false), |keys|, last)
    decreases |keys|
  {
    hide ReadBlob, ReadEntry, EncodeValue, Blob, BytesLess, StrictValue, Advances;
    if keys != [] {
      var k, rest := keys[0], keys[1..];
      var tail := EncodeEntries(rest, m) + s;
      var c := Cursor(EncodeEntries(keys, m) + s, false);
      assert k in m && forall x :: x in rest ==> x in keys;
      EncodedEntryStrict(k, m[k], tail);
      assert c.rest == Blob(k) + (EncodeValue(m[k]) + tail);
      hide EncodeEntries, FieldsFit, FieldsFinite;
      EncodedEntriesStrict(rest, m, Some(k), s);
    }
  }

  lemma EncodedEntryStrict(k: Bytes, v: FieldValue, tail: Bytes)
    requires |k| < TWO_32 && ValueFits(v) && ValueFinite(v)
    ensures var c := Cursor(Blob(k) + (EncodeValue(v) + tail), false);
            ReadBlob(c).value == k && StrictValue(ReadBlob(c).next) && ReadEntry(c).next == Cursor(tail, false)
  {
    hide ReadBlob, ReadEntry, EncodeValue, Blob, StrictValue, ValueFits, ValueFinite;
    BlobBack(k, EncodeValue(v) + tail);
    EntryBack(k, v, tail);
    EncodedValueStrict(v, tail);
  }

  lemma EncodedFieldsStrict(m: map<Bytes, FieldValue>, s: Bytes)
    requires FieldsFit(m) && FieldsFinite(m)
    ensures StrictFields(Cursor(EncodeFields(m) + s, false))
  {
    hide ReadU32, EncodeEntries, StrictEntries, SortedKeys, BytesLess, FieldsFinite;
    var entries := AllEntries(m);
    assert EncodeFields(m) + s == BE(|m|, 4) + (entries + s);
    U32Back(|m|, entries + s);
    BytesLessTotal();
    SortedKeysSorted(BytesLess, m.Keys);
    assert |m.Keys| == |m|;
    EncodedEntriesStrict(SortedKeys(BytesLess, m.Keys), m, None, s);
  }

  lemma EncodedMarksStrict(m: Marks, s: Bytes)
    ensures StrictMarks(Cursor(MarksBytes(m) + s, false))
  {
    hide ReadU64When, ReadU32When, ReadHealthWhen, When, BE, Presence, Flagged, ReadByte;
    var t4 := [m.provenance] + s;
    var t3 := When(m.hasConfidence, BE(m.confidence, 4)) + t4;
    var t2 := When(m.hasHealth, [m.health]) + t3;
    var t1 := When(m.hasRecvTs, BE(m.recvTs, 8)) + t2;
    var t0 := When(m.hasObsTs, BE(m.obsTs, 8)) + t1;
    assert MarksBytes(m) + s == [Presence(m)] + t0;
    ByteBack(Presence(m), t0);
    PresenceBits(m);
    PresenceSmall(m);
    U64WhenBack(m.hasObsTs, m.obsTs, t1);
    U64WhenBack(m.hasRecvTs, m.recvTs, t2);
    HealthCode(m, t3);
    HealthWhenBack(m.hasHealth, m.health, t3);
    U32WhenBack(m.hasConfidence, m.confidence, t4);
    ByteBack(m.provenance, s);
  }

  lemma PresenceSmall(m: Marks)
    ensures Presence(m) < 16
  {
  }

  lemma HealthCode(m: Marks, t: Bytes)
    ensures m.hasHealth ==> ReadByte(Cursor(When(m.hasHealth, [m.health]) + t, false)).value == m.health
  {
    if m.hasHealth { ByteBack(m.health, t); }
  }

  /** What the encoder writes is strict. */
  lemma EncodedIsStrict(o: Observation)
    requires Fits(o) && Readable(o)
    ensures StrictPayload(Encode(o))
  {
    hide ReadHead, ReadOrigin, ReadStamp, ReadBlob, ReadMarks, StrictMarks, StrictFields, FieldsFit, FieldsFinite;
    hide HeadBytes, OriginBytes, StampBytes, Blob, MarksBytes, EncodeFields;
    var fields := EncodeFields(o.fields);
    var t2 := MarksBytes(MarksOf(o)) + fields;
    var t1 := Blob(o.clockDomain) + t2;
    var t0 := StampBytes(o.srcGen, o.obsGen, o.epoch, o.seqNum) + t1;
    HeadBack(o.id, o.kind, OriginBytes(o.source, o.worker, o.boot) + t0);
    OriginBack(o.source, o.worker, o.boot, t0);
    StampBack(o.srcGen, o.obsGen, o.epoch, o.seqNum, t1);
    BlobBack(o.clockDomain, t2);
    MarksBack(MarksOf(o), fields);
    EncodedMarksStrict(MarksOf(o), fields);
    EncodedFieldsStrict(o.fields, []);
    EmptyTail(fields);
  }

  // ------------------------------------------------------------ strict bytes are encodings

  /** A value was written by the encoder exactly when its flag byte, if it is a flag, is 0 or 1. */
  lemma ValueExact(c: Cursor)
    requires !ReadValue(c).next.failed
    ensures var r := ReadValue(c);
            ValueFits(r.value) && (c.rest == EncodeValue(r.value) + r.next.rest <==> StrictValue(c))
  {
    hide ReadValueBody, ReadByte, EncodeValue, ValueFits, IsSuffix;
    var tag := ReadByte(c);
    ByteConsumed(c);
    ValueBodyExact(tag.value, tag.next);
    var v := ReadValue(c).value;
    TaggedValue(v, ReadValue(c).next.rest);
    assert c.rest[1..] == tag.next.rest;
  }

  lemma TaggedValue(v: FieldValue, s: Bytes)
    requires ValueFits(v)
    ensures EncodeValue(v) + s == [ValueTag(v)] + (ValueBody(v) + s)
  {
  }

  lemma ValueBodyExact(tag: u8, c: Cursor)
    requires !ReadValueBody(tag, c).next.failed
    ensures var r := ReadValueBody(tag, c);
            && !c.failed && ValueFits(r.value) && ValueTag(r.value) == tag
            && (tag == 1 ==> c.rest != [])
            && (c.rest == ValueBody(r.value) + r.next.rest <==> (tag == 1 ==> c.rest[0] <= 1))
  {
    hide ReadUint, ReadBlob, ReadId, Finite, BE, IdBytes, Blob, IsSuffix;
    match tag
    case 0 => assert [] + c.rest == c.rest;
    case 1 => ByteConsumed(c);
    case 2 => U64Consumed(c);
    case 3 => U64Consumed(c);
    case 4 => U64Consumed(c);
    case 5 => BlobConsumed(c);
    case 6 => IdConsumed(c);
    case 7 => BlobConsumed(c);
    case _ =>
  }

  /** The keys in the order they were read. */
  function KeysRead(c: Cursor, n: nat): (ks: seq<Bytes>)
    ensures |ks| == n
    decreases n
  {
    if n == 0 then [] else [ReadBlob(c).value] + KeysRead(ReadEntry(c).next, n - 1)
  }

  ghost predicate AllAbove(last: Option<Bytes>, ks: seq<Bytes>) {
    last.Some? ==> forall k :: k in ks ==> BytesLess(last.value, k)
  }

  ghost predicate AllBelow(acc: map<Bytes, FieldValue>, last: Option<Bytes>) {
    forall k :: k in acc ==> last.Some? && (k == last.value || BytesLess(k, last.value))
  }

  lemma NextKey(acc: map<Bytes, FieldValue>, last: Option<Bytes>, k: Bytes, v: FieldValue)
    requires AllBelow(acc, last) && (last.Some? ==> BytesLess(last.value, k))
    ensures k !in acc && Emplace(acc, k, v) == acc[k := v] && AllBelow(acc[k := v], Some(k))
  {
    hide BytesLess;
    BytesLessTotal();
  }

  lemma StepDown(last: Option<Bytes>, k: Bytes, ks: seq<Bytes>)
    requires AllAbove(Some(k), ks) && (last.Some? ==> BytesLess(last.value, k)) && StrictlySorted(BytesLess, ks)
    ensures AllAbove(last, [k] + ks) && StrictlySorted(BytesLess, [k] + ks)
  {
    hide BytesLess;
    BytesLessTotal();
    assert forall x :: x in ks ==> BytesLess(k, x);
    forall i, j | 0 <= i < j < |[k] + ks| ensures BytesLess(([k] + ks)[i], ([k] + ks)[j]) {
      assert ([k] + ks)[j] == ks[j - 1];
    }
  }

  lemma {:induction false} StrictKeysSorted(c: Cursor, n: nat, last: Option<Bytes>)
    requires StrictEntries(c, n, last)
    ensures AllAbove(last, KeysRead(c, n)) && StrictlySorted(BytesLess, KeysRead(c, n))
    decreases n
  {
    hide ReadBlob, ReadEntry, StrictValue, BytesLess;
    if n > 0 {
      var k := ReadBlob(c).value;
      StrictKeysSorted(ReadEntry(c).next, n - 1, Some(k));
      StepDown(last, k, KeysRead(ReadEntry(c).next, n - 1));
    }
  }

  /** One strict entry is a new key above all earlier ones. */
  lemma StrictStep(c: Cursor, n: nat, acc: map<Bytes, FieldValue>, last: Option<Bytes>)
    requires n > 0 && ReadEntries(c, n, acc).value.Ok? && StrictEntries(c, n, last) && AllBelow(acc, last)
    ensures ReadEntry(c).value.Ok? && StrictValue(ReadBlob(c).next)
    ensures var (k, v) := ReadEntry(c).value.value;
            var d := ReadEntry(c).next;
            && k == ReadBlob(c).value && k !in acc
            && ReadEntries(c, n, acc) == ReadEntries(d, n - 1, acc[k := v])
            && StrictEntries(d, n - 1, Some(k)) && AllBelow(acc[k := v], Some(k))
  {
    hide ReadBlob, StrictValue, BytesLess, ReadValue, Emplace, AllBelow, IsSuffix;
    var (k, v) := ReadEntry(c).value.value;
    NextKey(acc, last, k, v);
  }

  /** Reading strict entries adds exactly the keys read and keeps everything read before. */
  lemma {:induction false} StrictEntriesAdd(c: Cursor, n: nat, acc: map<Bytes, FieldValue>, last: Option<Bytes>)
    requires ReadEntries(c, n, acc).value.Ok? && StrictEntries(c, n, last) && AllBelow(acc, last)
    ensures var m := ReadEntries(c, n, acc).value.value;
            && (forall k :: k in acc ==> k in m && m[k] == acc[k])
            && (forall k :: k in m <==> k in acc || k in KeysRead(c, n))
    decreases n
  {
    hide ReadBlob, ReadEntry, StrictValue, BytesLess, AllBelow, StrictEntries;
    if n > 0 {
      StrictStep(c, n, acc, last);
      hide ReadEntries;
      var (k, v) := ReadEntry(c).value.value;
      StrictEntriesAdd(ReadEntry(c).next, n - 1, acc[k := v], Some(k));
      assert KeysRead(c, n) == [k] + KeysRead(ReadEntry(c).next, n - 1);
    }
  }

  lemma EntryStrict(c: Cursor)
    requires ReadEntry(c).value.Ok? && StrictValue(ReadBlob(c).next)
    ensures var (k, v) := ReadEntry(c).value.value;
            ValueFits(v) && c.rest == Blob(k) + (EncodeValue(v) + ReadEntry(c).next.rest)
  {
    hide ReadBlob, ReadValue, StrictValue, EncodeValue, Blob, ValueFits;
    BlobConsumed(c);
    ValueExact(ReadBlob(c).next);
  }

  /** Strict entries are the encoding of the fields they give, in the order read. */
  lemma {:induction false} StrictEntriesEncoded(c: Cursor, n: nat, acc: map<Bytes, FieldValue>, last: Option<Bytes>)
    requires ReadEntries(c, n, acc).value.Ok? && StrictEntries(c, n, last) && AllBelow(acc, last)
    requires FieldsFit(ReadEntries(c, n, acc).value.value)
    ensures var r := ReadEntries(c, n, acc);
            && (forall k :: k in KeysRead(c, n) ==> k in r.value.value)
            && c.rest == EncodeEntries(KeysRead(c, n), r.value.value) + r.next.rest
    decreases n
  {
    hide ReadBlob, ReadEntry, StrictValue, BytesLess, AllBelow, StrictEntries, EncodeValue, Blob, FieldsFit, IsSuffix;
    StrictEntriesAdd(c, n, acc, last);
    if n == 0 {
      assert [] + c.rest == c.rest;
    } else {
      StrictStep(c, n, acc, last);
      hide ReadEntries;
      var (k, v) := ReadEntry(c).value.value;
      var d := ReadEntry(c).next;
      StrictEntriesAdd(d, n - 1, acc[k := v], Some(k));
      StrictEntriesEncoded(d, n - 1, acc[k := v], Some(k));
      EntryStrict(c);
      var r := ReadEntries(c, n, acc);
      var ks := KeysRead(d, n - 1);
      assert KeysRead(c, n)[1..] == ks;
      EntryJoin(Blob(k), EncodeValue(v), EncodeEntries(ks, r.value.value), r.next.rest);
    }
  }

  lemma EntryJoin(a: Bytes, b: Bytes, d: Bytes, t: Bytes)
    ensures a + (b + (d + t)) == (a + (b + d)) + t
  {
  }

  lemma SortedByReading(m: map<Bytes, FieldValue>, ks: seq<Bytes>)
    requires StrictlySorted(BytesLess, ks) && (forall k :: k in m <==> k in ks)
    ensures |ks| == |m| && SortedKeys(BytesLess, m.Keys) == ks
  {
    hide BytesLess, SortedKeys;
    BytesLessTotal();
    SortedKeysUnique(BytesLess, m.Keys, ks);
    assert |m.Keys| == |m|;
  }

  lemma StrictEntriesWhole(c: Cursor, n: nat)
    requires ReadEntries(c, n, map[]).value.Ok? && StrictEntries(c, n, None)
    requires FieldsFit(ReadEntries(c, n, map[]).value.value)
    ensures var r := ReadEntries(c, n, map[]);
            |r.value.value| == n && c.rest == AllEntries(r.value.value) + r.next.rest
  {
    hide ReadEntries, StrictEntries, KeysRead, EncodeEntries, BytesLess, FieldsFit, SortedKeys, StrictlySorted;
    StrictEntriesEncoded(c, n, map[], None);
    StrictEntriesAdd(c, n, map[], None);
    StrictKeysSorted(c, n, None);
    SortedByReading(ReadEntries(c, n, map[]).value.value, KeysRead(c, n));
  }

  lemma StrictFieldsEncoded(c: Cursor)
    requires ReadFields(c).value.Ok? && StrictFields(c)
    ensures var r := ReadFields(c); FieldsFit(r.value.value) && c.rest == EncodeFields(r.value.value) + r.next.rest
  {
    hide ReadU32, BE, ReadEntries, StrictEntries, AllEntries, FieldsFit, FieldsFinite, Advances;
    var n := ReadU32(c);
    var r := ReadFields(c);
    FieldsDecoded(c);
    U32Consumed(c);
    StrictEntriesWhole(n.next, n.value);
    var entries := AllEntries(r.value.value);
    assert BE(n.value, 4) + (entries + r.next.rest) == (BE(n.value, 4) + entries) + r.next.rest;
  }

  lemma U64WhenConsumed(p: bool, c: Cursor)
    requires !ReadU64When(p, c).next.failed
    ensures var r := ReadU64When(p, c); !c.failed && c.rest == When(p, BE(r.value, 8)) + r.next.rest
  {
    hide BE;
    if p { U64Consumed(c); } else { assert [] + c.rest == c.rest; }
  }

  lemma U32WhenConsumed(p: bool, c: Cursor)
    requires !ReadU32When(p, c).next.failed
    ensures var r := ReadU32When(p, c); !c.failed && c.rest == When(p, BE(r.value, 4)) + r.next.rest
  {
    hide BE;
    if p { U32Consumed(c); } else { assert [] + c.rest == c.rest; }
  }

  lemma HealthWhenConsumed(p: bool, c: Cursor)
    requires !ReadHealthWhen(p, c).next.failed && (p ==> ReadByte(c).value <= 6)
    ensures var r := ReadHealthWhen(p, c); !c.failed && c.rest == When(p, [r.value]) + r.next.rest
  {
    if p { ByteConsumed(c); } else { assert [] + c.rest == c.rest; }
  }

  lemma PresenceOfBits(pres: u8)
    requires pres < 16
    ensures pres == Bit(Flagged(pres, 1)) + 2 * Bit(Flagged(pres, 2)) + 4 * Bit(Flagged(pres, 4))
            + 8 * Bit(Flagged(pres, 8))
  {
  }

  lemma StrictMarksEncoded(c: Cursor)
    requires !ReadMarks(c).next.failed && StrictMarks(c)
    ensures var r := ReadMarks(c); c.rest == MarksBytes(r.value) + r.next.rest
  {
    hide ReadU64When, ReadU32When, ReadHealthWhen, ReadByte, Flagged, When, BE, IsSuffix;
    var pres := ReadByte(c);
    var p := pres.value;
    var obsTs := ReadU64When(Flagged(p, 1), pres.next);
    var recvTs := ReadU64When(Flagged(p, 2), obsTs.next);
    var health := ReadHealthWhen(Flagged(p, 4), recvTs.next);
    var confidence := ReadU32When(Flagged(p, 8), health.next);
    var provenance := ReadByte(confidence.next);
    PresenceOfBits(p);
    ByteConsumed(confidence.next);
    U32WhenConsumed(Flagged(p, 8), health.next);
    HealthWhenConsumed(Flagged(p, 4), recvTs.next);
    U64WhenConsumed(Flagged(p, 2), obsTs.next);
    U64WhenConsumed(Flagged(p, 1), pres.next);
    ByteConsumed(c);
    Reassociate([p], When(Flagged(p, 1), BE(obsTs.value, 8)), When(Flagged(p, 2), BE(recvTs.value, 8)),
                When(Flagged(p, 4), [health.value]), When(Flagged(p, 8), BE(confidence.value, 4)),
                [provenance.value], provenance.next.rest);
  }

  lemma HeadIs(c: Cursor)
    requires !ReadHead(c).next.failed
    ensures var r := ReadHead(c); !c.failed && c.rest == HeadBytes(r.value.0, r.value.1) + r.next.rest
  {
    hide ReadId, IdBytes, BE, IsSuffix;
    var id := ReadId(c);
    UintConsumed(id.next, 2);
    IdConsumed(c);
    var kind := ReadU16(id.next);
    assert IdBytes(id.value) + (BE(kind.value, 2) + kind.next.rest)
        == (IdBytes(id.value) + BE(kind.value, 2)) + kind.next.rest;
  }

  lemma StampIs(c: Cursor)
    requires !ReadStamp(c).next.failed
    ensures var r := ReadStamp(c);
            !c.failed && c.rest == StampBytes(r.value.0, r.value.1, r.value.2, r.value.3) + r.next.rest
  {
    hide ReadU64, BE, IsSuffix;
    var a := ReadU64(c);
    var b := ReadU64(a.next);
    var d := ReadU64(b.next);
    U64Consumed(d.next);
    U64Consumed(b.next);
    U64Consumed(a.next);
    U64Consumed(c);
    var e := ReadU64(d.next);
    Join3(BE(b.value, 8), BE(d.value, 8), BE(e.value, 8), e.next.rest);
    var tail := BE(b.value, 8) + (BE(d.value, 8) + BE(e.value, 8));
    assert BE(a.value, 8) + (tail + e.next.rest) == (BE(a.value, 8) + tail) + e.next.rest;
  }

  lemma StrictIsEncoded(b: Bytes)
    requires DecodePayload(b).Ok? && StrictPayload(b)
    ensures Fits(DecodePayload(b).value) && Encode(DecodePayload(b).value) == b
  {
    hide ReadHead, ReadOrigin, ReadStamp, ReadBlob, ReadMarks, ReadFields, StrictMarks, StrictFields;
    hide HeadBytes, OriginBytes, StampBytes, Blob, MarksBytes, EncodeFields, FieldsFit, IsSuffix;
    var c := Cursor(b, false);
    var head := ReadHead(c);
    var origin := ReadOrigin(head.next);
    var stamp := ReadStamp(origin.next);
    var clock := ReadBlob(stamp.next);
    var marks := ReadMarks(clock.next);
    var o := DecodePayload(b).value;
    StrictFieldsEncoded(marks.next);
    FieldsDecoded(marks.next);
    MarksDecoded(clock.next);
    StrictMarksEncoded(clock.next);
    BlobConsumed(stamp.next);
    StampIs(origin.next);
    OriginConsumed(head.next);
    HeadIs(c);
    EmptyTail(EncodeFields(o.fields));
    assert MarksOf(o) == marks.value;
  }

  /** An accepted payload is byte for byte the encoding of what it decodes to exactly when it is strict. */
  lemma AcceptedIsEncodedExactly(b: Bytes)
    requires DecodePayload(b).Ok?
    ensures var o := DecodePayload(b).value; Fits(o) && (Encode(o) == b <==> StrictPayload(b))
  {
    hide DecodePayload, Encode, StrictPayload, Fits, Readable;
    DecodedIsGood(b);
    var o := DecodePayload(b).value;
    PayloadRoundTrip(o);
    if Encode(o) == b { EncodedIsStrict(o); }
    if StrictPayload(b) { StrictIsEncoded(b); }
  }

  // ------------------------------------------------------------ accepted and not an encoding

  /** Any non-zero flag byte means true. */
  lemma LenientFlag(flag: u8, s: Bytes)
    requires flag != 0
    ensures ReadValue(Cursor([1, flag] + s, false)) == Read(Flag(true), Cursor(s, false))
  {
    assert [1, flag] + s == [1] + ([flag] + s);
    ByteBack(1, [flag] + s);
    ByteBack(flag, s);
  }

  /** The presence byte with undeclared bits added. */
  function Marked(m: Marks, extra: nat): u8
    requires extra < 16
  {
    PresenceSmall(m);
    hide Presence;
    Presence(m) + 16 * extra
  }

  /** The optional parts behind their presence byte. */
  function OptionalBytes(m: Marks): Bytes {
    When(m.hasObsTs, BE(m.obsTs, 8))
    + (When(m.hasRecvTs, BE(m.recvTs, 8))
       + (When(m.hasHealth, [m.health]) + (When(m.hasConfidence, BE(m.confidence, 4)) + [m.provenance])))
  }

  /** An encoding with undeclared presence bits added. */
  ghost function WithBits(o: Observation, extra: nat): Bytes
    requires Fits(o) && extra < 16
  {
    HeadBytes(o.id, o.kind)
    + (OriginBytes(o.source, o.worker, o.boot)
       + (StampBytes(o.srcGen, o.obsGen, o.epoch, o.seqNum)
          + (Blob(o.clockDomain)
             + ([Marked(MarksOf(o), extra)] + (OptionalBytes(MarksOf(o)) + EncodeFields(o.fields))))))
  }

  lemma EvenShift(x: nat, y: nat)
    ensures (x + 2 * y) % 2 == x % 2
  {
  }

  lemma SameBits(p: u8, extra: nat)
    requires p < 16 && extra < 16
    ensures Flagged(p + 16 * extra, 1) == Flagged(p, 1) && Flagged(p + 16 * extra, 2) == Flagged(p, 2)
    ensures Flagged(p + 16 * extra, 4) == Flagged(p, 4) && Flagged(p + 16 * extra, 8) == Flagged(p, 8)
  {
    assert (p + 16 * extra) / 2 == p / 2 + 2 * (4 * extra);
    assert (p + 16 * extra) / 4 == p / 4 + 2 * (2 * extra);
    assert (p + 16 * extra) / 8 == p / 8 + 2 * extra;
    EvenShift(p, 8 * extra);
    EvenShift(p / 2, 4 * extra);
    EvenShift(p / 4, 2 * extra);
    EvenShift(p / 8, extra);
  }

  lemma MarkedBits(m: Marks, extra: nat)
    requires extra < 16
    ensures var q := Marked(m, extra);
            && Flagged(q, 1) == Flagged(Presence(m), 1) && Flagged(q, 2) == Flagged(Presence(m), 2)
            && Flagged(q, 4) == Flagged(Presence(m), 4) && Flagged(q, 8) == Flagged(Presence(m), 8)
  {
    hide Presence, Flagged;
    PresenceSmall(m);
    SameBits(Presence(m), extra);
  }

  lemma MarksWithBits(m: Marks, extra: nat, s: Bytes)
    requires extra < 16
    ensures ReadMarks(Cursor([Marked(m, extra)] + (OptionalBytes(m) + s), false))
            == Read(CanonicalMarks(m), Cursor(s, false))
  {
    hide Flagged, Presence, CanonicalMarks, ReadByte, Marked, When, BE, ReadMarksBody;
    var t := OptionalBytes(m) + s;
    MarksBack(m, s);
    assert MarksBytes(m) + s == [Presence(m)] + t;
    ByteBack(Presence(m), t);
    ByteBack(Marked(m, extra), t);
    MarkedBits(m, extra);
    SameBody(Presence(m), Marked(m, extra), Cursor(t, false));
  }

  lemma SameBody(p: u8, q: u8, c: Cursor)
    requires Flagged(p, 1) == Flagged(q, 1) && Flagged(p, 2) == Flagged(q, 2)
    requires Flagged(p, 4) == Flagged(q, 4) && Flagged(p, 8) == Flagged(q, 8)
    ensures ReadMarksBody(p, c) == ReadMarksBody(q, c)
  {
    hide Flagged, ReadU64When, ReadU32When, ReadHealthWhen, ReadByte;
  }

  /** The payload up to its optional parts reads as in the encoding. */
  lemma WithBitsAt(o: Observation, extra: nat)
    requires Fits(o) && extra < 16
    ensures var c := Cursor(WithBits(o, extra), false);
            var head := ReadHead(c);
            var origin := ReadOrigin(head.next);
            var stamp := ReadStamp(origin.next);
            var clock := ReadBlob(stamp.next);
            && head.value == (o.id, o.kind) && origin.value == (o.source, o.worker, o.boot)
            && stamp.value == (o.srcGen, o.obsGen, o.epoch, o.seqNum) && clock.value == o.clockDomain
            && clock.next == Cursor([Marked(MarksOf(o), extra)]
                + (OptionalBytes(MarksOf(o)) + EncodeFields(o.fields)), false)
  {
    hide ReadHead, ReadOrigin, ReadStamp, ReadBlob, FieldsFit;
    hide HeadBytes, OriginBytes, StampBytes, Blob, EncodeFields, OptionalBytes, Marked;
    var t2 := [Marked(MarksOf(o), extra)] + (OptionalBytes(MarksOf(o)) + EncodeFields(o.fields));
    var t1 := Blob(o.clockDomain) + t2;
    var t0 := StampBytes(o.srcGen, o.obsGen, o.epoch, o.seqNum) + t1;
    HeadBack(o.id, o.kind, OriginBytes(o.source, o.worker, o.boot) + t0);
    OriginBack(o.source, o.worker, o.boot, t0);
    StampBack(o.srcGen, o.obsGen, o.epoch, o.seqNum, t1);
    BlobBack(o.clockDomain, t2);
  }

  lemma WithBitsDecodes(o: Observation, extra: nat)
    requires Fits(o) && Readable(o) && extra < 16
    ensures DecodePayload(WithBits(o, extra)) == Ok(Canonicalize(o))
  {
    hide ReadHead, ReadOrigin, ReadStamp, ReadBlob, ReadMarks, ReadFields, FieldsFit, FieldsFinite;
    hide EncodeFields, OptionalBytes, Marked, WithBits, Advances;
    var fields := EncodeFields(o.fields);
    WithBitsAt(o, extra);
    MarksWithBits(MarksOf(o), extra, fields);
    FieldsBack(o.fields, []);
    EmptyTail(fields);
  }

  /** For every readable observation, setting undeclared presence bits in its encoding gives other
      payloads that decode to the same observation and are not encodings. */
  lemma UndeclaredBitsIgnored(o: Observation, extra: nat)
    requires Fits(o) && Readable(o) && 0 < extra < 16
    ensures DecodePayload(WithBits(o, extra)) == Ok(Canonicalize(o))
    ensures Fits(Canonicalize(o)) && Encode(Canonicalize(o)) != WithBits(o, extra)
  {
    hide FieldsFit, Readable, DecodePayload, WithBits, Encode, StrictMarks, StrictFields, ReadHead, ReadOrigin;
    hide ReadStamp;
    hide ReadBlob, ReadMarks, OptionalBytes, EncodeFields, Marked, Canonicalize;
    WithBitsDecodes(o, extra);
    WithBitsAt(o, extra);
    NotStrict(MarksOf(o), extra, OptionalBytes(MarksOf(o)) + EncodeFields(o.fields));
    AcceptedIsEncodedExactly(WithBits(o, extra));
  }

  lemma NotStrict(m: Marks, extra: nat, t: Bytes)
    requires 0 < extra < 16
    ensures !StrictMarks(Cursor([Marked(m, extra)] + t, false))
  {
    hide ReadByte;
    ByteBack(Marked(m, extra), t);
  }

  // ------------------------------------------------------------ authorities

  /** Flag bytes of 0 or 1, a declared health code, and a restart count in the range of a C++ int. */
  predicate StrictAuthority(c: Cursor) {
    var boot := ReadId(ReadGenerations(ReadName(c).next).next);
    var has := ReadByte(ReadU64(boot.next).next);
    var ts := ReadU64When(has.value != 0, has.next);
    var health := ReadByte(ts.next);
    var registered := ReadByte(health.next);
    var restarts := ReadI64(registered.next);
    has.value <= 1 && health.value <= 6 && registered.value <= 1 && -TWO_31 <= restarts.value < TWO_31
  }

  /** What the authority encoder writes is strict. */
  lemma EncodedAuthorityStrict(a: SourceAuthority, s: Bytes)
    requires RestartFits(a)
    ensures StrictAuthority(Cursor(EncodeAuthority(a) + s, false))
  {
    hide ReadName, ReadGenerations, ReadId, ReadU64, ReadByte, ReadU64When, ReadI64, NameBytes, GenerationBytes;
    hide IdBytes;
    hide BE, When, ToUnsigned, EncodeAuthority, Advances;
    var t6 := BE(ToUnsigned(a.restartCount), 8) + s;
    var t5 := [Bit(a.registered)] + t6;
    var t4 := [a.health] + t5;
    var t3 := When(a.hasLastTs, BE(a.lastObsTs, 8)) + t4;
    var t2 := [Bit(a.hasLastTs)] + t3;
    var t1 := BE(a.lastSeq, 8) + t2;
    var t0 := IdBytes(a.boot) + t1;
    AuthorityNests(a, s);
    NameBack(a, GenerationBytes(a) + t0);
    GenerationsBack(a, t0);
    IdBack(a.boot, t1);
    U64Back(a.lastSeq, t2);
    ByteBack(Bit(a.hasLastTs), t3);
    U64WhenBack(a.hasLastTs, a.lastObsTs, t4);
    ByteBack(a.health, t5);
    ByteBack(Bit(a.registered), t6);
    I64Back(a.restartCount, s);
  }

  lemma AuthorityNests(a: SourceAuthority, s: Bytes)
    requires RestartFits(a)
    ensures EncodeAuthority(a) + s ==
            NameBytes(a) + (GenerationBytes(a) + (IdBytes(a.boot) + (BE(a.lastSeq, 8) + ([Bit(a.hasLastTs)]
              + (When(a.hasLastTs, BE(a.lastObsTs, 8)) + ([a.health] + ([Bit(a.registered)]
                + (BE(ToUnsigned(a.restartCount), 8) + s))))))))
  {
    hide NameBytes, GenerationBytes, IdBytes, BE, When, ToUnsigned, Bit;
    var standing := [a.health] + ([Bit(a.registered)] + (BE(ToUnsigned(a.restartCount), 8) + s));
    assert StandingBytes(a) + s == standing;
    var stamp := When(a.hasLastTs, BE(a.lastObsTs, 8));
    assert ProgressBytes(a) + standing
        == IdBytes(a.boot) + (BE(a.lastSeq, 8) + ([Bit(a.hasLastTs)] + (stamp + standing)));
    EntryJoin(NameBytes(a), GenerationBytes(a), ProgressBytes(a) + StandingBytes(a), s);
    assert ProgressBytes(a) + StandingBytes(a) + s == ProgressBytes(a) + (StandingBytes(a) + s);
  }

  lemma NameIs(c: Cursor)
    requires !ReadName(c).next.failed
    ensures var r := ReadName(c); !c.failed && c.rest == (IdBytes(r.value.0) + IdBytes(r.value.1)) + r.next.rest
  {
    hide ReadId, IdBytes, IsSuffix;
    var source := ReadId(c);
    IdConsumed(source.next);
    IdConsumed(c);
    var worker := ReadId(source.next);
    assert IdBytes(source.value) + (IdBytes(worker.value) + worker.next.rest)
        == (IdBytes(source.value) + IdBytes(worker.value)) + worker.next.rest;
  }

  lemma GenerationsAre(c: Cursor)
    requires !ReadGenerations(c).next.failed
    ensures var r := ReadGenerations(c);
            !c.failed && c.rest == (BE(r.value.0, 8) + (BE(r.value.1, 8) + BE(r.value.2, 8))) + r.next.rest
  {
    hide ReadU64, BE, IsSuffix;
    var a := ReadU64(c);
    var b := ReadU64(a.next);
    U64Consumed(b.next);
    U64Consumed(a.next);
    U64Consumed(c);
    var d := ReadU64(b.next);
    Join3(BE(a.value, 8), BE(b.value, 8), BE(d.value, 8), d.next.rest);
  }

  lemma FlagIs(c: Cursor)
    requires !ReadBool(c).next.failed && ReadByte(c).value <= 1
    ensures var r := ReadBool(c); !c.failed && c.rest == [Bit(r.value)] + r.next.rest
  {
    ByteConsumed(c);
  }

  lemma RestartsAre(c: Cursor)
    requires !ReadI64(c).next.failed && -TWO_31 <= ReadI64(c).value < TWO_31
    ensures var r := ReadI64(c);
            !c.failed && ToInt32(r.value) == r.value && c.rest == BE(ToUnsigned(ToInt32(r.value)), 8) + r.next.rest
  {
    hide BE, ReadUint;
    U64Consumed(c);
  }

  lemma Int32Fits(i: i64)
    ensures -TWO_31 <= ToInt32(i) < TWO_31
  {
  }

  /** An authority that is read was written exactly so when its bytes are strict. */
  lemma AuthorityIsEncodedExactly(c: Cursor)
    requires ReadAuthority(c).value.Ok?
    ensures var r := ReadAuthority(c);
            RestartFits(r.value.value)
            && (c.rest == EncodeAuthority(r.value.value) + r.next.rest <==> StrictAuthority(c))
  {
    var a := ReadAuthority(c).value.value;
    var s := ReadAuthority(c).next.rest;
    AuthorityParts(c);
    hide ReadAuthority, StrictAuthority, EncodeAuthority;
    if c.rest == EncodeAuthority(a) + s {
      EncodedAuthorityStrict(a, s);
      assert c == Cursor(EncodeAuthority(a) + s, false);
    }
  }

  lemma AuthorityParts(c: Cursor)
    requires ReadAuthority(c).value.Ok?
    ensures var r := ReadAuthority(c);
            !c.failed && RestartFits(r.value.value)
            && (StrictAuthority(c) ==> c.rest == EncodeAuthority(r.value.value) + r.next.rest)
  {
    hide ReadName, ReadGenerations, ReadId, ReadU64, ReadByte, ReadU64When, ReadI64, IdBytes, BE, When, ToUnsigned;
    hide ToInt32;
    hide IsSuffix;
    var name := ReadName(c);
    var gens := ReadGenerations(name.next);
    var boot := ReadId(gens.next);
    var last := ReadU64(boot.next);
    var has := ReadBool(last.next);
    var ts := ReadU64When(has.value, has.next);
    var health := ReadByte(ts.next);
    var registered := ReadBool(health.next);
    var restarts := ReadI64(registered.next);
    var a := ReadAuthority(c).value.value;
    Int32Fits(restarts.value);
    NameIs(c);
    if StrictAuthority(c) {
      RestartsAre(registered.next);
      FlagIs(health.next);
      ByteConsumed(ts.next);
      U64WhenConsumed(has.value, has.next);
      FlagIs(last.next);
      U64Consumed(boot.next);
      IdConsumed(gens.next);
      GenerationsAre(name.next);
      AuthorityNests(a, restarts.next.rest);
    }
  }
}
