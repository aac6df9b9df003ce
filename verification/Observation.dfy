/** Observations and their canonical codec (include/servingobs/model/observation.hpp,
    src/observation.cpp). */
module Observations {
  import opened Types
  import opened BigEndian
  import opened Identity
  import opened Ordering
  import opened Wire

  /** Enumerations travel as their declared codes. */
  type ObsType = x: int | 0 <= x <= 41
  type Provenance = x: int | 0 <= x <= 6
  type Health = x: int | 0 <= x <= 6

  const HEALTH_UNKNOWN: Health := 0
  const PROVENANCE_UNKNOWN: Provenance := 0
  const MEASURED: Provenance := 1
  const MAX_FIELDS: nat := 16777216

  datatype FieldValue =
    | Null
    | Flag(b: bool)
    | Signed(i: i64)
    | Unsigned(u: u64)
    | Float(bits: u64)
    | Text(t: Bytes)
    | Ident(id: Id128)
    | Raw(raw: Bytes)

  datatype Observation = Observation(
    id: Id128, kind: ObsType,
    source: Id128, worker: Id128, boot: Id128,
    srcGen: u64, obsGen: u64, epoch: u64, seqNum: u64,
    clockDomain: Bytes,
    hasObsTs: bool, obsTs: u64,
    hasRecvTs: bool, recvTs: u64,
    provenance: Provenance,
    hasHealth: bool, health: Health,
    hasConfidence: bool, confidence: u32,
    fields: map<Bytes, FieldValue>)

  const REQUEST_ID_KEY: Bytes := Ascii("request_id")

  /** The identity stored under a key, or the null identity. */
  function IdField(o: Observation, key: Bytes): Id128 {
    if key in o.fields && o.fields[key].Ident? then o.fields[key].id else NULL_ID
  }

  function RequestIdOf(o: Observation): Id128 {
    IdField(o, REQUEST_ID_KEY)
  }

  // ------------------------------------------------------------ field values

  predicate ValueFits(v: FieldValue) {
    match v
    case Text(t) => |t| < TWO_32
    case Raw(b) => |b| < TWO_32
    case _ => true
  }

  predicate ValueFinite(v: FieldValue) {
    v.Float? ==> Finite(v.bits)
  }

  function ValueTag(v: FieldValue): u8 {
    match v
    case Null => 0
    case Flag(_) => 1
    case Signed(_) => 2
    case Unsigned(_) => 3
    case Float(_) => 4
    case Text(_) => 5
    case Ident(_) => 6
    case Raw(_) => 7
  }

  function ValueBody(v: FieldValue): Bytes
    requires ValueFits(v)
  {
    match v
    case Null => []
    case Flag(b) => [if b then 1 else 0]
    case Signed(i) => BE(ToUnsigned(i), 8)
    case Unsigned(u) => BE(u, 8)
    case Float(bits) => BE(bits, 8)
    case Text(t) => Blob(t)
    case Ident(id) => IdBytes(id)
    case Raw(b) => Blob(b)
  }

  function EncodeValue(v: FieldValue): Bytes
    requires ValueFits(v)
  {
    [ValueTag(v)] + ValueBody(v)
  }

  function ReadValueBody(tag: u8, c: Cursor): (r: Read<FieldValue>)
    ensures Advances(c, r.next)
  {
    match tag
    case 0 => Read(Null, c)
    case 1 => var r := ReadBool(c); Read(Flag(r.value), r.next)
    case 2 => var r := ReadI64(c); Read(Signed(r.value), r.next)
    case 3 => var r := ReadU64(c); Read(Unsigned(r.value), r.next)
    case 4 => var r := ReadF64(c); Read(Float(r.value), r.next)
    case 5 => var r := ReadBlob(c); Read(Text(r.value), r.next)
    case 6 => var r := ReadId(c); Read(Ident(r.value), r.next)
    case 7 => var r := ReadBlob(c); Read(Raw(r.value), r.next)
    case _ => Read(Null, if c.failed then c else Fail(c))
  }

  function ReadValue(c: Cursor): (r: Read<FieldValue>)
    ensures Advances(c, r.next)
  {
    var tag := ReadByte(c);
    if tag.next.failed then Read(Null, tag.next) else ReadValueBody(tag.value, tag.next)
  }

  lemma ValueBodyBack(v: FieldValue, s: Bytes)
    requires ValueFits(v)
    ensures var r := ReadValueBody(ValueTag(v), Cursor(ValueBody(v) + s, false));
            if ValueFinite(v) then r == Read(v, Cursor(s, false)) else r.next.failed
  {
    hide ReadBlob, ReadId, ReadU64, ReadI64, ReadF64, Finite, ToUnsigned, Blob, IdBytes;
    match v
    case Null => assert [] + s == s;
    case Flag(b) => ByteBack(if b then 1 else 0, s);
    case Signed(i) => I64Back(i, s);
    case Unsigned(u) => U64Back(u, s);
    case Float(bits) => F64Back(bits, s);
    case Text(t) => BlobBack(t, s);
    case Ident(id) => IdBack(id, s);
    case Raw(b) => BlobBack(b, s);
  }

  /** A value is read back exactly when it is not a NaN or an infinity. */
  lemma ValueBack(v: FieldValue, s: Bytes)
    requires ValueFits(v)
    ensures var r := ReadValue(Cursor(EncodeValue(v) + s, false));
            if ValueFinite(v) then r == Read(v, Cursor(s, false)) else r.next.failed
  {
    hide ReadValueBody, ValueTag, ValueBody, ValueFinite, ReadByte;
    assert EncodeValue(v) + s == [ValueTag(v)] + (ValueBody(v) + s);
    ByteBack(ValueTag(v), ValueBody(v) + s);
    ValueBodyBack(v, s);
  }

  lemma ValueExtends(c: Cursor, s: Bytes)
    requires !ReadValue(c).next.failed
    ensures ReadValue(Extend(c, s)) == Read(ReadValue(c).value, Extend(ReadValue(c).next, s))
  {
    var tag := ReadByte(c);
    ByteExtends(c, s);
    var d := tag.next;
    match tag.value
    case 1 => ByteExtends(d, s);
    case 2 => UintExtends(d, 8, s);
    case 3 => UintExtends(d, 8, s);
    case 4 => F64Extends(d, s);
    case 5 => BlobExtends(d, s);
    case 6 => IdExtends(d, s);
    case 7 => BlobExtends(d, s);
    case _ =>
  }

  // ------------------------------------------------------------ the field list

  predicate FieldsFit(m: map<Bytes, FieldValue>) {
    |m| < TWO_32 && forall k :: k in m ==> |k| < TWO_32 && ValueFits(m[k])
  }

  predicate FieldsFinite(m: map<Bytes, FieldValue>) {
    forall k :: k in m ==> ValueFinite(m[k])
  }

  function EncodeEntries(keys: seq<Bytes>, m: map<Bytes, FieldValue>): Bytes
    requires FieldsFit(m) && forall k :: k in keys ==> k in m
  {
    if keys == [] then []
    else Blob(keys[0]) + (EncodeValue(m[keys[0]]) + EncodeEntries(keys[1..], m))
  }

  ghost function EncodeFields(m: map<Bytes, FieldValue>): Bytes
    requires FieldsFit(m)
  {
    BE(|m|, 4) + AllEntries(m)
  }

  /** `map::emplace`: the first value read for a key wins. */
  function Emplace(m: map<Bytes, FieldValue>, k: Bytes, v: FieldValue): map<Bytes, FieldValue> {
    if k in m then m else m[k := v]
  }

  /** One key and its value; an unreadable key or value fails the observation. */
  function ReadEntry(c: Cursor): (r: Read<Result<(Bytes, FieldValue)>>)
    ensures Advances(c, r.next) && (r.value.Ok? <==> !r.next.failed)
  {
    var key := ReadBlob(c);
    if key.next.failed then Read(Err(CorruptInput), key.next)
    else
      var v := ReadValue(key.next);
      if v.next.failed then Read(Err(CorruptInput), v.next)
      else Read(Ok((key.value, v.value)), v.next)
  }

  function ReadEntries(c: Cursor, n: nat, acc: map<Bytes, FieldValue>): (r: Read<Result<map<Bytes, FieldValue>>>)
    ensures Advances(c, r.next) && (r.value.Ok? && !c.failed ==> !r.next.failed)
    decreases n
  {
    if n == 0 then Read(Ok(acc), c)
    else
      var entry := ReadEntry(c);
      if entry.value.Err? then Read(Err(entry.value.error), entry.next)
      else ReadEntries(entry.next, n - 1, Emplace(acc, entry.value.value.0, entry.value.value.1))
  }

  function Restrict(keys: seq<Bytes>, m: map<Bytes, FieldValue>): map<Bytes, FieldValue>
    requires forall k :: k in keys ==> k in m
  {
    map k | k in keys :: m[k]
  }

  lemma EntryBack(k: Bytes, v: FieldValue, s: Bytes)
    requires |k| < TWO_32 && ValueFits(v)
    ensures var r := ReadEntry(Cursor(Blob(k) + (EncodeValue(v) + s), false));
            if ValueFinite(v) then r == Read(Ok((k, v)), Cursor(s, false)) else r.value == Err(CorruptInput)
  {
    BlobBack(k, EncodeValue(v) + s);
    ValueBack(v, s);
  }

  lemma EntryExtends(c: Cursor, s: Bytes)
    requires ReadEntry(c).value.Ok?
    ensures ReadEntry(Extend(c, s)) == Read(ReadEntry(c).value, Extend(ReadEntry(c).next, s))
  {
    BlobExtends(c, s);
    ValueExtends(ReadBlob(c).next, s);
  }

  ghost predicate AllFinite(keys: seq<Bytes>, m: map<Bytes, FieldValue>)
    requires forall k :: k in keys ==> k in m
  {
    forall k :: k in keys ==> ValueFinite(m[k])
  }

  lemma RestrictStep(keys: seq<Bytes>, m: map<Bytes, FieldValue>, acc: map<Bytes, FieldValue>)
    requires keys != [] && forall k :: k in keys ==> k in m && k !in acc
    requires forall i, j :: 0 <= i < j < |keys| ==> keys[i] != keys[j]
    ensures var k, rest := keys[0], keys[1..];
            && (forall x :: x in rest ==> x in m && x !in acc[k := m[k]])
            && Emplace(acc, k, m[k]) == acc[k := m[k]]
            && acc[k := m[k]] + Restrict(rest, m) == acc + Restrict(keys, m)
            && (AllFinite(keys, m) <==> ValueFinite(m[k]) && AllFinite(rest, m))
  {
    var k, rest := keys[0], keys[1..];
    assert forall x :: x in keys <==> x == k || x in rest;
    assert acc[k := m[k]] + Restrict(rest, m) == acc + Restrict(keys, m);
  }

  lemma {:induction false} EntriesBack(keys: seq<Bytes>, m: map<Bytes, FieldValue>,
                                       acc: map<Bytes, FieldValue>, s: Bytes)
    requires FieldsFit(m) && forall k :: k in keys ==> k in m && k !in acc
    requires forall i, j :: 0 <= i < j < |keys| ==> keys[i] != keys[j]
    ensures var r := ReadEntries(Cursor(EncodeEntries(keys, m) + s, false), |keys|, acc);
            if AllFinite(keys, m)
            then r == Read(Ok(acc + Restrict(keys, m)), Cursor(s, false))
            else r.value == Err(CorruptInput)
    decreases |keys|
  {
    hide ReadEntry, EncodeValue, Blob, Emplace, Restrict, AllFinite, ValueFits, ValueFinite;
    if keys == [] {
      EntriesBackNil(m, acc, s);
    } else {
      var k, rest := keys[0], keys[1..];
      var tail := EncodeEntries(rest, m) + s;
      assert EncodeEntries(keys, m) + s == Blob(k) + (EncodeValue(m[k]) + tail);
      EntryBack(k, m[k], tail);
      RestrictStep(keys, m, acc);
      EntriesBack(rest, m, acc[k := m[k]], s);
    }
  }

  lemma EntriesBackNil(m: map<Bytes, FieldValue>, acc: map<Bytes, FieldValue>, s: Bytes)
    requires FieldsFit(m)
    ensures acc + Restrict([], m) == acc && AllFinite([], m)
    ensures EncodeEntries([], m) + s == s
  {
  }

  function ReadFields(c: Cursor): (r: Read<Result<map<Bytes, FieldValue>>>)
    ensures Advances(c, r.next) && (r.value.Ok? ==> !r.next.failed)
  {
    var n := ReadU32(c);
    if n.next.failed then Read(Err(CorruptInput), n.next)
    else if n.value > MAX_FIELDS then Read(Err(FieldCountOverflow), n.next)
    else ReadEntries(n.next, n.value, map[])
  }

  ghost function AllEntries(m: map<Bytes, FieldValue>): Bytes
    requires FieldsFit(m)
  {
    EncodeEntries(SortedKeys(BytesLess, m.Keys), m)
  }

  lemma TraversalCovers(m: map<Bytes, FieldValue>)
    ensures var keys := SortedKeys(BytesLess, m.Keys);
            && |keys| == |m|
            && (forall k :: k in keys ==> k in m)
            && (forall i, j :: 0 <= i < j < |keys| ==> keys[i] != keys[j])
            && map[] + Restrict(keys, m) == m
            && (AllFinite(keys, m) <==> FieldsFinite(m))
  {
    hide ValueFinite;
    var keys := SortedKeys(BytesLess, m.Keys);
    DistinctFromSet(m.Keys, keys);
    assert |m.Keys| == |m|;
  }

  lemma AllEntriesBack(m: map<Bytes, FieldValue>, s: Bytes)
    requires FieldsFit(m)
    ensures var r := ReadEntries(Cursor(AllEntries(m) + s, false), |m|, map[]);
            if FieldsFinite(m) then r == Read(Ok(m), Cursor(s, false)) else r.value.Err?
  {
    hide ReadEntries, EncodeEntries, ValueFinite, Restrict, AllFinite, FieldsFinite;
    TraversalCovers(m);
    EntriesBack(SortedKeys(BytesLess, m.Keys), m, map[], s);
  }

  lemma FieldsBack(m: map<Bytes, FieldValue>, s: Bytes)
    requires FieldsFit(m)
    ensures var r := ReadFields(Cursor(EncodeFields(m) + s, false));
            if |m| <= MAX_FIELDS && FieldsFinite(m)
            then r == Read(Ok(m), Cursor(s, false))
            else r.value.Err?
  {
    hide ReadEntries, AllEntries, ReadU32, FieldsFinite;
    var entries := AllEntries(m);
    assert EncodeFields(m) + s == BE(|m|, 4) + (entries + s);
    U32Back(|m|, entries + s);
    AllEntriesBack(m, s);
  }

  lemma {:induction false} EntriesExtend(c: Cursor, n: nat, acc: map<Bytes, FieldValue>, s: Bytes)
    requires ReadEntries(c, n, acc).value.Ok?
    ensures ReadEntries(Extend(c, s), n, acc) ==
            Read(ReadEntries(c, n, acc).value, Extend(ReadEntries(c, n, acc).next, s))
    decreases n
  {
    hide ReadEntry, Emplace;
    if n > 0 {
      var entry := ReadEntry(c);
      EntryExtends(c, s);
      EntriesExtend(entry.next, n - 1, Emplace(acc, entry.value.value.0, entry.value.value.1), s);
    }
  }

  lemma FieldsExtend(c: Cursor, s: Bytes)
    requires ReadFields(c).value.Ok?
    ensures ReadFields(Extend(c, s)) == Read(ReadFields(c).value, Extend(ReadFields(c).next, s))
  {
    var n := ReadU32(c);
    UintExtends(c, 4, s);
    EntriesExtend(n.next, n.value, map[], s);
  }
}
