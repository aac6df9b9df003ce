/** What decoding guarantees over arbitrary bytes: a decoded observation could have been written,
    is read back unchanged, and its encoding is no longer than the bytes it came from. */
module Decoded {
  import opened Types
  import opened BigEndian
  import opened Identity
  import opened Ordering
  import opened Wire
  import opened Observations
  import opened ObservationCodec
  import opened Payloads

  /** Bytes a read has consumed. */
  function Used(c: Cursor, d: Cursor): int {
    |c.rest| - |d.rest|
  }

  // ------------------------------------------------------------ one value, one entry

  function ValueWeight(v: FieldValue): nat {
    match v
    case Null => 1
    case Flag(_) => 2
    case Text(t) => 5 + |t|
    case Ident(_) => 17
    case Raw(b) => 5 + |b|
    case _ => 9
  }

  lemma ValueLength(v: FieldValue)
    requires ValueFits(v)
    ensures |EncodeValue(v)| == ValueWeight(v)
  {
  }

  lemma F64Decoded(c: Cursor)
    requires !ReadF64(c).next.failed
    ensures Used(c, ReadF64(c).next) == 8 && Finite(ReadF64(c).value)
  {
    hide BE, Finite;
    U64Consumed(c);
  }

  lemma ValueBodyDecoded(tag: u8, c: Cursor)
    requires !ReadValueBody(tag, c).next.failed
    ensures var r := ReadValueBody(tag, c);
            && ValueFits(r.value) && ValueFinite(r.value) && 1 + Used(c, r.next) == ValueWeight(r.value)
  {
    hide ReadUint, ReadBlob, ReadId, ReadF64, Finite, BE, IdBytes, IsSuffix;
    match tag
    case 1 => ByteConsumed(c);
    case 2 => U64Consumed(c);
    case 3 => U64Consumed(c);
    case 4 => F64Decoded(c);
    case 5 => BlobConsumed(c);
    case 6 => IdConsumed(c);
    case 7 => BlobConsumed(c);
    case _ =>
  }

  lemma EntryDecoded(c: Cursor)
    requires ReadEntry(c).value.Ok?
    ensures var (k, v) := ReadEntry(c).value.value;
            && |k| < TWO_32 && ValueFits(v) && ValueFinite(v)
            && Used(c, ReadEntry(c).next) == 4 + |k| + ValueWeight(v)
  {
    hide ReadBlob, ReadValueBody, ReadByte, ValueFits, ValueFinite, ValueWeight, IsSuffix;
    var key := ReadBlob(c);
    BlobConsumed(c);
    ByteConsumed(key.next);
    var tag := ReadByte(key.next);
    ValueBodyDecoded(tag.value, tag.next);
  }

  // ------------------------------------------------------------ the field list

  /** Encoded size of some entries. */
  function Weight(keys: seq<Bytes>, m: map<Bytes, FieldValue>): nat
    requires forall k :: k in keys ==> k in m
  {
    if keys == [] then 0 else 4 + |keys[0]| + ValueWeight(m[keys[0]]) + Weight(keys[1..], m)
  }

  lemma {:induction false} EntriesLength(keys: seq<Bytes>, m: map<Bytes, FieldValue>)
    requires FieldsFit(m) && forall k :: k in keys ==> k in m
    ensures |EncodeEntries(keys, m)| == Weight(keys, m)
  {
    hide ValueFits, ValueWeight, EncodeValue;
    if keys != [] {
      EntriesLength(keys[1..], m);
      ValueLength(m[keys[0]]);
    }
  }

  lemma {:induction false} WeightWithout(keys: seq<Bytes>, i: nat, m: map<Bytes, FieldValue>)
    requires i < |keys| && forall k :: k in keys ==> k in m
    ensures forall k :: k in keys[..i] + keys[i + 1..] ==> k in m
    ensures Weight(keys, m) == 4 + |keys[i]| + ValueWeight(m[keys[i]]) + Weight(keys[..i] + keys[i + 1..], m)
  {
    hide ValueWeight;
    var rest := keys[..i] + keys[i + 1..];
    if i == 0 {
      assert rest == keys[1..];
    } else {
      WeightWithout(keys[1..], i - 1, m);
      assert rest[1..] == keys[1..][..i - 1] + keys[1..][i..];
      assert rest[0] == keys[0];
    }
  }

  lemma TakeOut(a: seq<Bytes>, b: seq<Bytes>) returns (i: nat)
    requires a != [] && multiset(a) == multiset(b)
    ensures i < |b| && b[i] == a[0] && multiset(b[..i] + b[i + 1..]) == multiset(a[1..])
  {
    assert a[0] in multiset(b);
    i :| 0 <= i < |b| && b[i] == a[0];
    assert b == b[..i] + [b[i]] + b[i + 1..];
    assert a == [a[0]] + a[1..];
    assert multiset(b[..i] + b[i + 1..]) == multiset(b) - multiset([a[0]]);
    assert multiset(a[1..]) == multiset(a) - multiset([a[0]]);
  }

  /** Order does not matter for the size. */
  lemma {:induction false} WeightIgnoresOrder(a: seq<Bytes>, b: seq<Bytes>, m: map<Bytes, FieldValue>)
    requires multiset(a) == multiset(b) && (forall k :: k in a ==> k in m) && forall k :: k in b ==> k in m
    ensures Weight(a, m) == Weight(b, m)
  {
    if a == [] {
      assert |multiset(b)| == 0;
    } else {
      var i := TakeOut(a, b);
      WeightWithout(b, i, m);
      WeightIgnoresOrder(a[1..], b[..i] + b[i + 1..], m);
      hide ValueWeight;
    }
  }

  lemma {:induction false} WeightSame(keys: seq<Bytes>, m: map<Bytes, FieldValue>, m': map<Bytes, FieldValue>)
    requires forall k :: k in keys ==> k in m && k in m' && m[k] == m'[k]
    ensures Weight(keys, m) == Weight(keys, m')
  {
    hide ValueWeight;
    if keys != [] { WeightSame(keys[1..], m, m'); }
  }

  ghost function FieldsWeight(m: map<Bytes, FieldValue>): nat {
    Weight(SortedKeys(BytesLess, m.Keys), m)
  }

  lemma OneMoreField(m: map<Bytes, FieldValue>, k: Bytes, v: FieldValue)
    ensures FieldsWeight(Emplace(m, k, v)) <= FieldsWeight(m) + 4 + |k| + ValueWeight(v)
    ensures |Emplace(m, k, v)| <= |m| + 1
  {
    hide SortedKeys, ValueWeight, Weight;
    if k !in m {
      var m' := m[k := v];
      var before, after := SortedKeys(BytesLess, m.Keys), SortedKeys(BytesLess, m'.Keys);
      var other := [k] + before;
      assert m'.Keys == m.Keys + {k};
      assert multiset(m'.Keys) == multiset([k]) + multiset(m.Keys);
      WeightIgnoresOrder(after, other, m');
      HeadWeight(other, m');
      assert other[1..] == before;
      WeightSame(before, m, m');
    }
  }

  lemma HeadWeight(keys: seq<Bytes>, m: map<Bytes, FieldValue>)
    requires keys != [] && forall k :: k in keys ==> k in m
    ensures Weight(keys, m) == 4 + |keys[0]| + ValueWeight(m[keys[0]]) + Weight(keys[1..], m)
  {
  }

  /** Writable and readable field values. */
  ghost predicate GoodFields(m: map<Bytes, FieldValue>) {
    forall k :: k in m ==> |k| < TWO_32 && ValueFits(m[k]) && ValueFinite(m[k])
  }

  lemma EmplaceKeepsGood(m: map<Bytes, FieldValue>, k: Bytes, v: FieldValue)
    requires GoodFields(m) && |k| < TWO_32 && ValueFits(v) && ValueFinite(v)
    ensures GoodFields(Emplace(m, k, v))
  {
    hide ValueFits, ValueFinite;
  }

  lemma {:induction false} EntriesDecoded(c: Cursor, n: nat, acc: map<Bytes, FieldValue>)
    requires GoodFields(acc) && ReadEntries(c, n, acc).value.Ok?
    ensures var r := ReadEntries(c, n, acc);
            && GoodFields(r.value.value) && |r.value.value| <= |acc| + n
            && FieldsWeight(r.value.value) <= FieldsWeight(acc) + Used(c, r.next)
    decreases n
  {
    hide ReadEntry, Emplace, FieldsWeight, ValueFits, ValueFinite, ValueWeight, GoodFields, IsSuffix;
    if n > 0 {
      var entry := ReadEntry(c);
      var (k, v) := entry.value.value;
      EntryDecoded(c);
      EmplaceKeepsGood(acc, k, v);
      OneMoreField(acc, k, v);
      EntriesDecoded(entry.next, n - 1, Emplace(acc, k, v));
    }
  }

  lemma NoFields()
    ensures FieldsWeight(map[]) == 0 && GoodFields(map[])
  {
  }

  lemma FieldsDecoded(c: Cursor)
    requires ReadFields(c).value.Ok?
    ensures var r := ReadFields(c);
            && FieldsFit(r.value.value) && FieldsFinite(r.value.value) && |r.value.value| <= MAX_FIELDS
            && |EncodeFields(r.value.value)| <= Used(c, r.next)
  {
    hide ReadEntries, ReadU32, BE, FieldsWeight, ValueFits, ValueFinite, IsSuffix;
    var n := ReadU32(c);
    U32Consumed(c);
    NoFields();
    EntriesDecoded(n.next, n.value, map[]);
    var m := ReadFields(c).value.value;
    FieldsSize(m);
  }

  lemma FieldsSize(m: map<Bytes, FieldValue>)
    requires FieldsFit(m)
    ensures |EncodeFields(m)| == 4 + FieldsWeight(m)
  {
    hide EncodeEntries, Weight, SortedKeys, FieldsFit;
    EntriesLength(SortedKeys(BytesLess, m.Keys), m);
  }

  // ------------------------------------------------------------ the other sections

  lemma U64WhenDecoded(present: bool, c: Cursor)
    requires !ReadU64When(present, c).next.failed
    ensures var r := ReadU64When(present, c);
            !c.failed && |When(present, BE(r.value, 8))| == Used(c, r.next) && (!present ==> r.value == 0)
  {
    hide BE;
    if present { U64Consumed(c); }
  }

  lemma U32WhenDecoded(present: bool, c: Cursor)
    requires !ReadU32When(present, c).next.failed
    ensures var r := ReadU32When(present, c);
            !c.failed && |When(present, BE(r.value, 4))| == Used(c, r.next) && (!present ==> r.value == 0)
  {
    hide BE;
    if present { U32Consumed(c); }
  }

  lemma HealthWhenDecoded(present: bool, c: Cursor)
    requires !ReadHealthWhen(present, c).next.failed
    ensures var r := ReadHealthWhen(present, c);
            !c.failed && |When(present, [r.value])| == Used(c, r.next) && (!present ==> r.value == HEALTH_UNKNOWN)
  {
    if present { ByteConsumed(c); }
  }

  lemma MarksBodyDecoded(pres: u8, c: Cursor)
    requires !ReadMarksBody(pres, c).next.failed
    ensures var r := ReadMarksBody(pres, c);
            !c.failed && |MarksBytes(r.value)| == 1 + Used(c, r.next) && CanonicalMarks(r.value) == r.value
  {
    hide ReadU64When, ReadU32When, ReadHealthWhen, ReadByte, Flagged, When, BE, Presence, IsSuffix, Lenient;
    var obsTs := ReadU64When(Flagged(pres, 1), c);
    var recvTs := ReadU64When(Flagged(pres, 2), obsTs.next);
    var health := ReadHealthWhen(Flagged(pres, 4), recvTs.next);
    var confidence := ReadU32When(Flagged(pres, 8), health.next);
    ByteConsumed(confidence.next);
    U32WhenDecoded(Flagged(pres, 8), health.next);
    HealthWhenDecoded(Flagged(pres, 4), recvTs.next);
    U64WhenDecoded(Flagged(pres, 2), obsTs.next);
    U64WhenDecoded(Flagged(pres, 1), c);
  }

  lemma MarksDecoded(c: Cursor)
    requires !ReadMarks(c).next.failed
    ensures var r := ReadMarks(c);
            !c.failed && |MarksBytes(r.value)| == Used(c, r.next) && CanonicalMarks(r.value) == r.value
  {
    hide ReadMarksBody, ReadByte, MarksBytes, CanonicalMarks, IsSuffix;
    var pres := ReadByte(c);
    MarksBodyDecoded(pres.value, pres.next);
    ByteConsumed(c);
  }

  lemma StampConsumed(c: Cursor)
    requires !ReadStamp(c).next.failed
    ensures !c.failed && Used(c, ReadStamp(c).next) == 32
  {
    hide ReadU64, BE, IsSuffix;
    var a := ReadU64(c);
    var b := ReadU64(a.next);
    var d := ReadU64(b.next);
    U64Consumed(d.next);
    U64Consumed(b.next);
    U64Consumed(a.next);
    U64Consumed(c);
  }

  lemma HeadConsumed(c: Cursor)
    requires !ReadHead(c).next.failed
    ensures !c.failed && Used(c, ReadHead(c).next) == 18
  {
    hide ReadId, BE, IsSuffix;
    UintConsumed(ReadId(c).next, 2);
    IdConsumed(c);
  }

  lemma AssembledSize(o: Observation)
    requires Fits(o)
    ensures |Encode(o)| == 18 + 48 + 32 + (4 + |o.clockDomain|) + |MarksBytes(MarksOf(o))| + |EncodeFields(o.fields)|
  {
    hide MarksBytes, EncodeFields, FieldsFit, BE;
  }

  lemma RestDecoded(head: (Id128, u16), c: Cursor)
    requires head.1 <= 41 && ReadRest(head, c).value.Ok?
    ensures var r := ReadRest(head, c);
            var o := r.value.value;
            && !c.failed && Fits(o) && Readable(o) && Canonical(o) && |Encode(o)| <= 18 + Used(c, r.next)
  {
    hide ReadOrigin, ReadStamp, ReadBlob, ReadMarks, ReadFields, IsSuffix, Blob, FieldsFit, FieldsFinite;
    hide MarksBytes, EncodeFields, Encode, OriginBytes;
    var origin := ReadOrigin(c);
    var stamp := ReadStamp(origin.next);
    var clock := ReadBlob(stamp.next);
    var marks := ReadMarks(clock.next);
    FieldsDecoded(marks.next);
    MarksDecoded(clock.next);
    BlobConsumed(stamp.next);
    StampConsumed(origin.next);
    OriginConsumed(c);
    OriginSize(origin.value.0, origin.value.1, origin.value.2);
    var o := ReadRest(head, c).value.value;
    AssembledSize(o);
    assert MarksOf(o) == marks.value;
  }

  lemma OriginSize(a: Id128, b: Id128, d: Id128)
    ensures |OriginBytes(a, b, d)| == 48
  {
  }

  /** Every payload that decodes gives an observation that can be encoded again in no more bytes and
      then decodes to itself. */
  lemma DecodedIsGood(b: Bytes)
    requires DecodePayload(b).Ok?
    ensures var o := DecodePayload(b).value;
            Fits(o) && |Encode(o)| <= |b| && DecodePayload(Encode(o)) == Ok(o)
  {
    hide ReadHead, ReadRest, Fits, Readable, Canonical, Encode, IsSuffix;
    var c := Cursor(b, false);
    var head := ReadHead(c);
    RestDecoded(head.value, head.next);
    HeadConsumed(c);
    PayloadRoundTrip(DecodePayload(b).value);
  }
}
