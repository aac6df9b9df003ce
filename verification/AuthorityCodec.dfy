/** Binary form of a source authority (src/authority.cpp:148-180). */
module AuthorityCodec {
  import opened Types
  import opened BigEndian
  import opened Identity
  import opened Wire
  import opened Authority
  import opened ObservationCodec

  const TWO_31: int := 0x8000_0000

  /** The restart counter is a C++ int. */
  predicate RestartFits(a: SourceAuthority) {
    -TWO_31 <= a.restartCount < TWO_31
  }

  /** No timestamp without its flag. */
  predicate AuthorityCanonical(a: SourceAuthority) {
    !a.hasLastTs ==> a.lastObsTs == 0
  }

  function NameBytes(a: SourceAuthority): Bytes {
    IdBytes(a.source) + IdBytes(a.worker)
  }

  function GenerationBytes(a: SourceAuthority): Bytes {
    BE(a.epoch, 8) + (BE(a.srcGen, 8) + BE(a.obsGen, 8))
  }

  function ProgressBytes(a: SourceAuthority): Bytes {
    IdBytes(a.boot) + (BE(a.lastSeq, 8) + ([Bit(a.hasLastTs)] + When(a.hasLastTs, BE(a.lastObsTs, 8))))
  }

  function StandingBytes(a: SourceAuthority): Bytes
    requires RestartFits(a)
  {
    [a.health] + ([Bit(a.registered)] + BE(ToUnsigned(a.restartCount), 8))
  }

  function EncodeAuthority(a: SourceAuthority): Bytes
    requires RestartFits(a)
  {
    NameBytes(a) + (GenerationBytes(a) + (ProgressBytes(a) + StandingBytes(a)))
  }

  /** `static_cast<int>` of a 64-bit value. */
  function ToInt32(i: i64): int {
    var m := i % TWO_32;
    if m >= TWO_31 then m - TWO_32 else m
  }

  function ReadName(c: Cursor): (r: Read<(Id128, Id128)>)
    ensures Advances(c, r.next)
  {
    var source := ReadId(c);
    var worker := ReadId(source.next);
    Read((source.value, worker.value), worker.next)
  }

  function ReadGenerations(c: Cursor): (r: Read<(u64, u64, u64)>)
    ensures Advances(c, r.next)
  {
    var epoch := ReadU64(c);
    var srcGen := ReadU64(epoch.next);
    var obsGen := ReadU64(srcGen.next);
    hide *;
    AdvancesTransitive(c, epoch.next, srcGen.next);
    AdvancesTransitive(c, srcGen.next, obsGen.next);
    Read((epoch.value, srcGen.value, obsGen.value), obsGen.next)
  }

  function ReadProgress(c: Cursor): (r: Read<(Id128, u64, bool, u64)>)
    ensures Advances(c, r.next)
  {
    var boot := ReadId(c);
    var last := ReadU64(boot.next);
    var has := ReadBool(last.next);
    var ts := ReadU64When(has.value, has.next);
    hide *;
    AdvancesTransitive(c, boot.next, last.next);
    AdvancesTransitive(c, last.next, has.next);
    AdvancesTransitive(c, has.next, ts.next);
    Read((boot.value, last.value, has.value, ts.value), ts.next)
  }

  function ReadStanding(c: Cursor): (r: Read<(int, bool, int)>)
    ensures Advances(c, r.next) && 0 <= r.value.0 <= 6
  {
    var health := ReadByte(c);
    var registered := ReadBool(health.next);
    var restarts := ReadI64(registered.next);
    Read((Lenient(health.value), registered.value, ToInt32(restarts.value)), restarts.next)
  }

  function ReadAuthority(c: Cursor): (r: Read<Result<SourceAuthority>>)
    ensures Advances(c, r.next) && (r.value.Ok? <==> !r.next.failed)
  {
    var name := ReadName(c);
    var gens := ReadGenerations(name.next);
    var progress := ReadProgress(gens.next);
    var standing := ReadStanding(progress.next);
    hide *;
    AdvancesTransitive(c, name.next, gens.next);
    AdvancesTransitive(c, gens.next, progress.next);
    AdvancesTransitive(c, progress.next, standing.next);
    if standing.next.failed then Read(Err(CorruptInput), standing.next)
    else Read(Ok(SourceAuthority(name.value.0, name.value.1, gens.value.0, gens.value.1, gens.value.2,
                                 progress.value.0, progress.value.1, progress.value.3, progress.value.2,
                                 standing.value.0, standing.value.1, standing.value.2)),
              standing.next)
  }

  lemma NameBack(a: SourceAuthority, s: Bytes)
    ensures ReadName(Cursor(NameBytes(a) + s, false)) == Read((a.source, a.worker), Cursor(s, false))
  {
    hide ReadId, IdBytes;
    assert NameBytes(a) + s == IdBytes(a.source) + (IdBytes(a.worker) + s);
    IdBack(a.source, IdBytes(a.worker) + s);
    IdBack(a.worker, s);
  }

  lemma GenerationsBack(a: SourceAuthority, s: Bytes)
    ensures ReadGenerations(Cursor(GenerationBytes(a) + s, false))
            == Read((a.epoch, a.srcGen, a.obsGen), Cursor(s, false))
  {
    hide ReadU64, BE;
    assert GenerationBytes(a) + s == BE(a.epoch, 8) + (BE(a.srcGen, 8) + (BE(a.obsGen, 8) + s));
    U64Back(a.epoch, BE(a.srcGen, 8) + (BE(a.obsGen, 8) + s));
    U64Back(a.srcGen, BE(a.obsGen, 8) + s);
    U64Back(a.obsGen, s);
  }

  lemma BoolBack(b: bool, s: Bytes)
    ensures ReadBool(Cursor([Bit(b)] + s, false)) == Read(b, Cursor(s, false))
  {
    ByteBack(Bit(b), s);
  }

  lemma ProgressBack(a: SourceAuthority, s: Bytes)
    ensures ReadProgress(Cursor(ProgressBytes(a) + s, false)) ==
            Read((a.boot, a.lastSeq, a.hasLastTs, if a.hasLastTs then a.lastObsTs else 0), Cursor(s, false))
  {
    hide ReadId, ReadU64, ReadBool, ReadU64When, IdBytes, BE, When, Bit;
    var t2 := When(a.hasLastTs, BE(a.lastObsTs, 8)) + s;
    var t1 := [Bit(a.hasLastTs)] + t2;
    var t0 := BE(a.lastSeq, 8) + t1;
    assert ProgressBytes(a) + s == IdBytes(a.boot) + t0;
    IdBack(a.boot, t0);
    U64Back(a.lastSeq, t1);
    BoolBack(a.hasLastTs, t2);
    U64WhenBack(a.hasLastTs, a.lastObsTs, s);
  }

  lemma StandingBack(a: SourceAuthority, s: Bytes)
    requires RestartFits(a)
    ensures ReadStanding(Cursor(StandingBytes(a) + s, false)) ==
            Read((a.health, a.registered, a.restartCount), Cursor(s, false))
  {
    hide ReadByte, ReadBool, ReadI64, BE, Bit, ToUnsigned;
    var t1 := BE(ToUnsigned(a.restartCount), 8) + s;
    var t0 := [Bit(a.registered)] + t1;
    assert StandingBytes(a) + s == [a.health] + t0;
    ByteBack(a.health, t0);
    BoolBack(a.registered, t1);
    I64Back(a.restartCount, s);
  }

  /** An authority is read back exactly, and the reader stops behind it. */
  lemma AuthorityBack(a: SourceAuthority, s: Bytes)
    requires RestartFits(a)
    ensures ReadAuthority(Cursor(EncodeAuthority(a) + s, false)) ==
            Read(Ok(a.(lastObsTs := if a.hasLastTs then a.lastObsTs else 0)), Cursor(s, false))
    ensures AuthorityCanonical(a) <==> ReadAuthority(Cursor(EncodeAuthority(a) + s, false)).value == Ok(a)
  {
    hide ReadName, ReadGenerations, ReadProgress, ReadStanding;
    hide NameBytes, GenerationBytes, ProgressBytes, StandingBytes;
    var t2 := StandingBytes(a) + s;
    var t1 := ProgressBytes(a) + t2;
    var t0 := GenerationBytes(a) + t1;
    assert EncodeAuthority(a) + s == NameBytes(a) + t0;
    NameBack(a, t0);
    GenerationsBack(a, t1);
    ProgressBack(a, t2);
    StandingBack(a, s);
  }

  method WriteAuthority(w: BinaryWriter, a: SourceAuthority)
    requires RestartFits(a)
    modifies w
    ensures w.buf == old(w.buf) + EncodeAuthority(a)
  {
    hide IdBytes, BE;
    w.WriteId(a.source);
    w.WriteId(a.worker);
    ghost var b0 := w.buf;
    assert b0 == old(w.buf) + NameBytes(a);
    w.WriteU64(a.epoch);
    w.WriteU64(a.srcGen);
    w.WriteU64(a.obsGen);
    ghost var b1 := w.buf;
    assert b1 == b0 + GenerationBytes(a);
    w.WriteId(a.boot);
    w.WriteU64(a.lastSeq);
    w.WriteU8(if a.hasLastTs then 1 else 0);
    ghost var b := w.buf;
    assert b == b1 + (IdBytes(a.boot) + (BE(a.lastSeq, 8) + [Bit(a.hasLastTs)]));
    if a.hasLastTs { w.WriteU64(a.lastObsTs); }
    ghost var b2 := w.buf;
    assert b2 == b + When(a.hasLastTs, BE(a.lastObsTs, 8));
    assert b2 == b1 + ProgressBytes(a);
    w.WriteU8(a.health);
    w.WriteU8(if a.registered then 1 else 0);
    w.WriteI64(a.restartCount);
    assert w.buf == b2 + StandingBytes(a);
    hide NameBytes, GenerationBytes, ProgressBytes, StandingBytes;
    Regroup4(old(w.buf), NameBytes(a), GenerationBytes(a), ProgressBytes(a), StandingBytes(a));
  }

  lemma Regroup4(base: Bytes, a: Bytes, b: Bytes, c: Bytes, d: Bytes)
    ensures base + a + b + c + d == base + (a + (b + (c + d)))
  {
    assert base + a + b == base + (a + b);
    assert base + (a + b) + c == base + (a + (b + c));
  }

  method GetAuthority(r: BinaryReader) returns (res: Result<SourceAuthority>)
    requires r.Valid()
    modifies r
    ensures r.Valid() && Read(res, r.View()) == ReadAuthority(old(r.View()))
  {
    hide ReadName, ReadGenerations, ReadProgress, ReadStanding;
    var source, worker := GetName(r);
    var epoch, srcGen, obsGen := GetGenerations(r);
    var boot, lastSeq, has, ts := GetProgress(r);
    var health, registered, restarts := GetStanding(r);
    if !r.Good() { return Err(CorruptInput); }
    return Ok(SourceAuthority(source, worker, epoch, srcGen, obsGen, boot, lastSeq, ts, has, health, registered,
        restarts));
  }

  method GetName(r: BinaryReader) returns (source: Id128, worker: Id128)
    requires r.Valid()
    modifies r
    ensures r.Valid() && Read((source, worker), r.View()) == ReadName(old(r.View()))
  {
    hide ReadId;
    source := r.GetId();
    worker := r.GetId();
  }

  method GetGenerations(r: BinaryReader) returns (epoch: u64, srcGen: u64, obsGen: u64)
    requires r.Valid()
    modifies r
    ensures r.Valid() && Read((epoch, srcGen, obsGen), r.View()) == ReadGenerations(old(r.View()))
  {
    hide ReadU64;
    epoch := r.GetU64();
    srcGen := r.GetU64();
    obsGen := r.GetU64();
  }

  method GetProgress(r: BinaryReader) returns (boot: Id128, lastSeq: u64, has: bool, ts: u64)
    requires r.Valid()
    modifies r
    ensures r.Valid() && Read((boot, lastSeq, has, ts), r.View()) == ReadProgress(old(r.View()))
  {
    hide ReadId, ReadU64, ReadBool;
    boot := r.GetId();
    lastSeq := r.GetU64();
    has := r.GetBool();
    ts := 0;
    if has { ts := r.GetU64(); }
  }

  method GetStanding(r: BinaryReader) returns (health: int, registered: bool, restarts: int)
    requires r.Valid()
    modifies r
    ensures r.Valid() && Read((health, registered, restarts), r.View()) == ReadStanding(old(r.View()))
  {
    hide ReadByte, ReadBool, ReadI64;
    var h := r.GetByte();
    registered := r.GetBool();
    var n := r.GetI64();
    health, restarts := Lenient(h), ToInt32(n);
  }
}
