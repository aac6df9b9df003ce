/** Archives (include/servingobs/store/persistence.hpp, src/persistence.cpp), as byte strings:
    what saving writes, what loading accepts, and the round trip for every reachable coordinator. */
module Archives {
  import opened Types
  import opened BigEndian
  import opened Identity
  import opened Ordering
  import opened Wire
  import opened Observations
  import opened ObservationCodec
  import opened Authority
  import opened AuthorityCodec
  import opened Coordinators
  import opened Traces
  import opened Replays
  import Sha256

  const ARCHIVE_MAGIC: u32 := 0x534F4253
  const ARCHIVE_VERSION: u16 := 1
  const MAX_AUTHORITIES: u32 := 1_000_000
  const MAX_ACCEPTED: u32 := 1_000_000_000
  const MAX_STALE: u32 := 100_000_000

  type Retained = (Observation, Bytes)

  datatype Digests = Digests(evidence: Bytes, traces: Bytes, explanations: Bytes, aggregate: Bytes) {
    ghost predicate Valid() {
      |evidence| == 32 && |traces| == 32 && |explanations| == 32 && |aggregate| == 32
    }
  }

  datatype Archive = Archive(
    epoch: u64, createdNs: u64,
    registry: seq<SourceAuthority>, accepted: seq<Observation>, stale: seq<Retained>,
    digests: Digests, verified: Option<ReplayResult>, replayMatch: bool)

  // ------------------------------------------------------------ what is written

  ghost predicate AllRestartsFit(s: seq<SourceAuthority>) {
    forall i :: 0 <= i < |s| ==> RestartFits(s[i])
  }

  ghost function AuthorityBytes(s: seq<SourceAuthority>): Bytes
    requires AllRestartsFit(s)
  {
    if s == [] then [] else AuthorityBytes(s[..|s| - 1]) + EncodeAuthority(s[|s| - 1])
  }

  ghost predicate RetainedFits(e: Retained) {
    Storable(e.0) && |e.1| < TWO_32
  }

  ghost predicate AllRetainedFit(s: seq<Retained>) {
    forall i :: 0 <= i < |s| ==> RetainedFits(s[i])
  }

  ghost function RetainedBytes(e: Retained): Bytes
    requires RetainedFits(e)
  {
    Blob(Encode(e.0)) + Blob(e.1)
  }

  ghost function StaleBytes(s: seq<Retained>): Bytes
    requires AllRetainedFit(s)
  {
    if s == [] then [] else StaleBytes(s[..|s| - 1]) + RetainedBytes(s[|s| - 1])
  }

  function HeaderBytes(epoch: u64, createdNs: u64): Bytes {
    BE(ARCHIVE_MAGIC, 4) + (BE(ARCHIVE_VERSION, 2) + ([0] + (BE(epoch, 8) + BE(createdNs, 8))))
  }

  function DigestBlock(d: Digests): Bytes {
    d.evidence + d.traces + d.explanations + d.aggregate
  }

  /** Nothing the writer would refuse. */
  ghost predicate Writable(a: Archive) {
    && |a.registry| < TWO_32 && AllRestartsFit(a.registry)
    && |a.accepted| < TWO_32 && AllStorable(a.accepted)
    && |a.stale| < TWO_32 && AllRetainedFit(a.stale)
    && a.digests.Valid()
  }

  ghost function SectionBytes(a: Archive): Bytes
    requires Writable(a)
  {
    BE(|a.registry|, 4) + (AuthorityBytes(a.registry)
      + (BE(|a.accepted|, 4) + (EncodedBlobs(a.accepted)
        + (BE(|a.stale|, 4) + (StaleBytes(a.stale) + Blob(DigestBlock(a.digests)))))))
  }

  ghost function Body(a: Archive): Bytes
    requires Writable(a)
  {
    HeaderBytes(a.epoch, a.createdNs) + SectionBytes(a)
  }

  /** The length field keeps the low 32 bits of the body length. */
  function Sealed(body: Bytes): Bytes {
    BE(|body| % TWO_32, 4) + body + Sha256.Hash(body)
  }

  // ------------------------------------------------------------ what is accepted

  /** Length, exact size, checksum. */
  function Unseal(all: Bytes): Result<Bytes> {
    var len := ReadU32(Cursor(all, false));
    if len.next.failed then Err(CorruptInput)
    else if |all| != 4 + len.value + 32 then Err(LengthMismatch)
    else
      var body := ReadRaw(len.next, len.value);
      if |body.value| != len.value then Err(CorruptInput)
      else
        var digest := ReadRaw(body.next, 32);
        if |digest.value| != 32 then Err(CorruptInput)
        else if digest.next != Cursor([], false) then Err(TrailingGarbage)
        else if Sha256.Hash(body.value) != digest.value then Err(ChecksumMismatch)
        else Ok(body.value)
  }

  function ReadHeader(c: Cursor): (r: Read<Result<(u64, u64)>>) {
    var magic := ReadU32(c);
    if magic.value != ARCHIVE_MAGIC then Read(Err(BadMagic), magic.next)
    else
      var version := ReadU16(magic.next);
      if version.value != ARCHIVE_VERSION then Read(Err(UnsupportedVersion), version.next)
      else
        var reserved := ReadByte(version.next);
        var epoch := ReadU64(reserved.next);
        var created := ReadU64(epoch.next);
        Read(Ok((epoch.value, created.value)), created.next)
  }

  function ReadAuthorities(c: Cursor, n: nat): (r: Read<Result<seq<SourceAuthority>>>) {
    if n == 0 then Read(Ok([]), c)
    else
      var before := ReadAuthorities(c, n - 1);
      if before.value.Err? then before
      else
        var a := ReadAuthority(before.next);
        if a.value.Err? then Read(Err(a.value.error), a.next)
        else Read(Ok(before.value.value + [a.value.value]), a.next)
  }

  function ReadStored(c: Cursor): Read<Result<Observation>> {
    var b := ReadBlob(c);
    if b.next.failed then Read(Err(CorruptInput), b.next)
    else Read(DecodePayload(b.value), b.next)
  }

  predicate Holds(s: seq<Observation>, id: Id128) {
    exists i :: 0 <= i < |s| && s[i].id == id
  }

  function ReadAccepted(c: Cursor, n: nat): (r: Read<Result<seq<Observation>>>)
    ensures r.value.Ok? ==> |r.value.value| == n && DistinctIds(r.value.value)
  {
    if n == 0 then Read(Ok([]), c)
    else
      var before := ReadAccepted(c, n - 1);
      if before.value.Err? then before
      else
        hide ReadStored;
        var o := ReadStored(before.next);
        if o.value.Err? then Read(Err(o.value.error), o.next)
        else if Holds(before.value.value, o.value.value.id) then Read(Err(DuplicateId), o.next)
        else Read(Ok(before.value.value + [o.value.value]), o.next)
  }

  function ReadRetained(c: Cursor): Read<Result<Retained>> {
    var o := ReadStored(c);
    if o.value.Err? then Read(Err(o.value.error), o.next)
    else
      var reason := ReadBlob(o.next);
      if reason.next.failed then Read(Err(CorruptInput), reason.next)
      else Read(Ok((o.value.value, reason.value)), reason.next)
  }

  function ReadStale(c: Cursor, n: nat): (r: Read<Result<seq<Retained>>>) {
    if n == 0 then Read(Ok([]), c)
    else
      var before := ReadStale(c, n - 1);
      if before.value.Err? then before
      else
        var e := ReadRetained(before.next);
        if e.value.Err? then Read(Err(e.value.error), e.next)
        else Read(Ok(before.value.value + [e.value.value]), e.next)
  }

  function ReadDigests(c: Cursor): Result<Digests> {
    var block := ReadBlob(c);
    if block.next != Cursor([], false) then Err(TrailingGarbage)
    else if |block.value| != 128 then Err(BadDigestBlock)
    else
      var d := block.value;
      Ok(Digests(d[..32], d[32..64], d[64..96], d[96..]))
  }

  function ReadEvidence(c: Cursor, registry: seq<SourceAuthority>, epoch: u64, createdNs: u64): Result<Archive> {
    var n := ReadU32(c);
    if n.value > MAX_ACCEPTED then Err(CountOverflow)
    else
      var accepted := ReadAccepted(n.next, n.value);
      if accepted.value.Err? then Err(accepted.value.error)
      else
        var m := ReadU32(accepted.next);
        if m.value > MAX_STALE then Err(CountOverflow)
        else
          var stale := ReadStale(m.next, m.value);
          if stale.value.Err? then Err(stale.value.error)
          else
            var d := ReadDigests(stale.next);
            if d.Err? then Err(d.error)
            else Ok(Archive(epoch, createdNs, registry, accepted.value.value, stale.value.value, d.value, None, false))
  }

  function DecodeBody(b: Bytes): Result<Archive> {
    var header := ReadHeader(Cursor(b, false));
    if header.value.Err? then Err(header.value.error)
    else
      var n := ReadU32(header.next);
      if n.value > MAX_AUTHORITIES then Err(CountOverflow)
      else
        var registry := ReadAuthorities(n.next, n.value);
        if registry.value.Err? then Err(registry.value.error)
        else ReadEvidence(registry.next, registry.value.value, header.value.value.0, header.value.value.1)
  }

  function DigestsOf(r: ReplayResult): Digests {
    Digests(r.evidenceDigest, r.traceDigest, r.explanationDigest, r.aggregateDigest)
  }

  /** Recomputed digests must equal the stored ones; a replay that throws ends the load too. */
  ghost function Verify(views: Views, a: Archive): Result<Archive> {
    if !Replayable(views, a.accepted) then Err(LengthOverflow)
    else
      var r := Replay(views, a.accepted);
      if DigestsOf(r) != a.digests then Err(ReplayMismatch)
      else Ok(a.(verified := Some(r), replayMatch := true))
  }

  ghost function Load(views: Views, all: Bytes, verify: bool): Result<Archive> {
    var body := Unseal(all);
    if body.Err? then Err(body.error)
    else
      var a := DecodeBody(body.value);
      if a.Err? || !verify then a else Verify(views, a.value)
  }

  // ------------------------------------------------------------ reading back what was written

  function CanonicalAll(s: seq<Observation>): (r: seq<Observation>)
    ensures |r| == |s|
  {
    if s == [] then [] else CanonicalAll(s[..|s| - 1]) + [Canonicalize(s[|s| - 1])]
  }

  function CanonicalStale(s: seq<Retained>): (r: seq<Retained>)
    ensures |r| == |s|
  {
    if s == [] then [] else CanonicalStale(s[..|s| - 1]) + [(Canonicalize(s[|s| - 1].0), s[|s| - 1].1)]
  }

  /** What the body of an archive decodes to: absent parts at their defaults, nothing verified yet. */
  function Reread(a: Archive): Archive {
    a.(accepted := CanonicalAll(a.accepted), stale := CanonicalStale(a.stale), verified := None, replayMatch := false)
  }

  ghost predicate AllReadable(s: seq<Observation>) {
    forall i :: 0 <= i < |s| ==> Readable(s[i])
  }

  ghost predicate StaleReadable(s: seq<Retained>) {
    forall i :: 0 <= i < |s| ==> Readable(s[i].0)
  }

  ghost predicate AuthoritiesCanonical(s: seq<SourceAuthority>) {
    forall i :: 0 <= i < |s| ==> AuthorityCanonical(s[i])
  }

  lemma {:induction false} AuthoritiesBack(s: seq<SourceAuthority>, t: Bytes)
    requires AllRestartsFit(s) && AuthoritiesCanonical(s)
    ensures ReadAuthorities(Cursor(AuthorityBytes(s) + t, false), |s|) == Read(Ok(s), Cursor(t, false))
  {
    hide ReadAuthority, EncodeAuthority;
    if s == [] {
      assert [] + t == t;
    } else {
      var n := |s| - 1;
      var e := EncodeAuthority(s[n]);
      assert AuthorityBytes(s) + t == AuthorityBytes(s[..n]) + (e + t);
      AuthoritiesBack(s[..n], e + t);
      AuthorityBack(s[n], t);
      assert s[..n] + [s[n]] == s;
    }
  }

  lemma StoredBack(o: Observation, t: Bytes)
    requires Storable(o)
    ensures var r := ReadStored(Cursor(Blob(Encode(o)) + t, false));
            if Readable(o) then r == Read(Ok(Canonicalize(o)), Cursor(t, false)) else r.value.Err?
  {
    hide Encode, ReadObservation, ReadBlob, Readable, Fits, Canonicalize;
    BlobBack(Encode(o), t);
    ObservationBack(o, []);
    assert Encode(o) + [] == Encode(o);
  }

  lemma {:induction false} CanonicalAllAt(s: seq<Observation>)
    ensures forall i :: 0 <= i < |s| ==> CanonicalAll(s)[i] == Canonicalize(s[i])
  {
    if s != [] { CanonicalAllAt(s[..|s| - 1]); }
  }

  lemma {:induction false} CanonicalStaleAt(s: seq<Retained>)
    ensures forall i :: 0 <= i < |s| ==> CanonicalStale(s)[i] == (Canonicalize(s[i].0), s[i].1)
  {
    if s != [] { CanonicalStaleAt(s[..|s| - 1]); }
  }

  lemma LastIsNew(s: seq<Observation>)
    requires s != [] && DistinctIds(s)
    ensures DistinctIds(s[..|s| - 1]) && !Holds(CanonicalAll(s[..|s| - 1]), Canonicalize(s[|s| - 1]).id)
  {
    CanonicalAllAt(s[..|s| - 1]);
  }

  lemma OneMoreBlob(s: seq<Observation>, t: Bytes)
    requires s != [] && AllStorable(s)
    ensures AllStorable(s[..|s| - 1]) && Storable(s[|s| - 1])
    ensures EncodedBlobs(s) + t == EncodedBlobs(s[..|s| - 1]) + (Blob(Encode(s[|s| - 1])) + t)
  {
    hide Storable, Encode, Blob;
    assert s[|s| - 1] in s && forall o :: o in s[..|s| - 1] ==> o in s;
  }

  lemma {:induction false} AcceptedBack(s: seq<Observation>, t: Bytes)
    requires AllStorable(s) && DistinctIds(s)
    ensures var r := ReadAccepted(Cursor(EncodedBlobs(s) + t, false), |s|);
            if AllReadable(s) then r == Read(Ok(CanonicalAll(s)), Cursor(t, false)) else r.value.Err?
  {
    hide ReadStored, Encode, Blob, Readable, Canonicalize, DistinctIds, Holds, AllStorable, Fits;
    if s == [] {
      assert EncodedBlobs(s) + t == t;
    } else {
      var n := |s| - 1;
      LastIsNew(s);
      OneMoreBlob(s, t);
      AcceptedBack(s[..n], Blob(Encode(s[n])) + t);
      StoredBack(s[n], t);
      assert AllReadable(s) <==> AllReadable(s[..n]) && Readable(s[n]);
    }
  }

  lemma RetainedBack(e: Retained, t: Bytes)
    requires RetainedFits(e)
    ensures var r := ReadRetained(Cursor(RetainedBytes(e) + t, false));
            if Readable(e.0) then r == Read(Ok((Canonicalize(e.0), e.1)), Cursor(t, false)) else r.value.Err?
  {
    hide ReadStored, Encode, Blob, Readable, Canonicalize, ReadBlob, Fits;
    assert RetainedBytes(e) + t == Blob(Encode(e.0)) + (Blob(e.1) + t);
    StoredBack(e.0, Blob(e.1) + t);
    BlobBack(e.1, t);
  }

  lemma {:induction false} StaleBack(s: seq<Retained>, t: Bytes)
    requires AllRetainedFit(s)
    ensures var r := ReadStale(Cursor(StaleBytes(s) + t, false), |s|);
            if StaleReadable(s) then r == Read(Ok(CanonicalStale(s)), Cursor(t, false)) else r.value.Err?
  {
    hide ReadRetained, RetainedBytes, Readable, Canonicalize, RetainedFits;
    if s == [] {
      assert StaleBytes(s) + t == t;
    } else {
      var n := |s| - 1;
      var e := RetainedBytes(s[n]);
      assert StaleBytes(s) + t == StaleBytes(s[..n]) + (e + t);
      StaleBack(s[..n], e + t);
      RetainedBack(s[n], t);
      assert StaleReadable(s) <==> StaleReadable(s[..n]) && Readable(s[n].0);
    }
  }

  lemma DigestSlices(d: Digests)
    requires d.Valid()
    ensures var b := DigestBlock(d);
            && |b| == 128 && b[..32] == d.evidence && b[32..64] == d.traces
            && b[64..96] == d.explanations && b[96..] == d.aggregate
  {
  }

  lemma DigestsBack(d: Digests)
    requires d.Valid()
    ensures ReadDigests(Cursor(Blob(DigestBlock(d)), false)) == Ok(d)
  {
    hide ReadBlob, Blob;
    BlobBack(DigestBlock(d), []);
    assert Blob(DigestBlock(d)) + [] == Blob(DigestBlock(d));
    DigestSlices(d);
  }

  lemma HeaderBack(epoch: u64, createdNs: u64, t: Bytes)
    ensures ReadHeader(Cursor(HeaderBytes(epoch, createdNs) + t, false))
            == Read(Ok((epoch, createdNs)), Cursor(t, false))
  {
    hide ReadU32, ReadU16, ReadU64, ReadByte, BE;
    var t3 := BE(createdNs, 8) + t;
    var t2 := BE(epoch, 8) + t3;
    var t1 := [0] + t2;
    var t0 := BE(ARCHIVE_VERSION, 2) + t1;
    assert HeaderBytes(epoch, createdNs) + t == BE(ARCHIVE_MAGIC, 4) + t0;
    U32Back(ARCHIVE_MAGIC, t0);
    U16Back(ARCHIVE_VERSION, t1);
    ByteBack(0, t2);
    U64Back(epoch, t3);
    U64Back(createdNs, t);
  }

  /** The loader's limits on the three counts. */
  predicate WithinLimits(a: Archive) {
    |a.registry| <= MAX_AUTHORITIES && |a.accepted| <= MAX_ACCEPTED && |a.stale| <= MAX_STALE
  }

  ghost function StaleSection(a: Archive): Bytes
    requires Writable(a)
  {
    BE(|a.stale|, 4) + (StaleBytes(a.stale) + Blob(DigestBlock(a.digests)))
  }

  ghost function EvidenceSection(a: Archive): Bytes
    requires Writable(a)
  {
    BE(|a.accepted|, 4) + (EncodedBlobs(a.accepted) + StaleSection(a))
  }

  lemma EvidenceSectionBack(a: Archive)
    requires Writable(a) && DistinctIds(a.accepted)
    ensures var r := ReadEvidence(Cursor(EvidenceSection(a), false), a.registry, a.epoch, a.createdNs);
            if |a.accepted| <= MAX_ACCEPTED && |a.stale| <= MAX_STALE && AllReadable(a.accepted)
                && StaleReadable(a.stale)
            then r == Ok(Reread(a))
            else r.Err?
  {
    hide ReadU32, ReadAccepted, ReadStale, ReadDigests, BE, EncodedBlobs, StaleBytes, Blob, DigestBlock;
    hide AllReadable, StaleReadable, CanonicalAll, CanonicalStale, DistinctIds, AllStorable, AllRetainedFit;
    hide AllRestartsFit;
    U32Back(|a.accepted|, EncodedBlobs(a.accepted) + StaleSection(a));
    AcceptedBack(a.accepted, StaleSection(a));
    var tail := Blob(DigestBlock(a.digests));
    U32Back(|a.stale|, StaleBytes(a.stale) + tail);
    StaleBack(a.stale, tail);
    DigestsBack(a.digests);
  }

  /** What a written body decodes to, or that it does not. */
  lemma BodyBack(a: Archive)
    requires Writable(a) && DistinctIds(a.accepted) && AuthoritiesCanonical(a.registry)
    ensures var r := DecodeBody(Body(a));
            if WithinLimits(a) && AllReadable(a.accepted) && StaleReadable(a.stale)
            then r == Ok(Reread(a))
            else r.Err?
  {
    hide ReadHeader, ReadU32, ReadAuthorities, ReadEvidence, HeaderBytes, BE, AuthorityBytes, EncodedBlobs;
    hide StaleBytes, Blob, DigestBlock;
    hide AllReadable, StaleReadable, CanonicalAll, CanonicalStale, DistinctIds, AllStorable, AllRetainedFit;
    hide AllRestartsFit, AuthoritiesCanonical;
    HeaderBack(a.epoch, a.createdNs, SectionBytes(a));
    U32Back(|a.registry|, AuthorityBytes(a.registry) + EvidenceSection(a));
    AuthoritiesBack(a.registry, EvidenceSection(a));
    EvidenceSectionBack(a);
  }

  /** A sealed body is accepted exactly when its length fits the length field. */
  lemma UnsealBack(body: Bytes)
    ensures if |body| < TWO_32 then Unseal(Sealed(body)) == Ok(body) else Unseal(Sealed(body)) == Err(LengthMismatch)
  {
    hide ReadU32, BE, Sha256.Hash;
    var digest := Sha256.Hash(body);
    var len := |body| % TWO_32;
    assert Sealed(body) == BE(len, 4) + (body + digest);
    U32Back(len, body + digest);
    assert (body + digest)[..|body|] == body && (body + digest)[|body|..] == digest;
    assert digest[..32] == digest && digest[32..] == [];
  }

  // ------------------------------------------------------------ the round trip

  /** An archive as building leaves it: replay was run and its digests stored. */
  ghost predicate Built(views: Views, a: Archive) {
    && DistinctIds(a.accepted) && AuthoritiesCanonical(a.registry)
    && Replayable(views, a.accepted)
    && a.digests == DigestsOf(Replay(views, a.accepted))
    && a.verified == Some(Replay(views, a.accepted)) && a.replayMatch
  }

  ghost predicate EverythingCanonical(a: Archive) {
    && (forall i :: 0 <= i < |a.accepted| ==> Canonical(a.accepted[i]))
    && (forall i :: 0 <= i < |a.stale| ==> Canonical(a.stale[i].0))
  }

  lemma CanonicalIsUnchanged(a: Archive)
    ensures EverythingCanonical(a) <==> CanonicalAll(a.accepted) == a.accepted && CanonicalStale(a.stale) == a.stale
  {
    hide Canonical, Canonicalize;
    CanonicalAllAt(a.accepted);
    CanonicalStaleAt(a.stale);
    forall i | 0 <= i < |a.accepted| ensures Canonical(a.accepted[i])
        <==> CanonicalAll(a.accepted)[i] == a.accepted[i] {
      assert Canonical(a.accepted[i]) <==> Canonicalize(a.accepted[i]) == a.accepted[i];
    }
    forall i | 0 <= i < |a.stale| ensures Canonical(a.stale[i].0) <==> CanonicalStale(a.stale)[i] == a.stale[i] {
      assert Canonical(a.stale[i].0) <==> Canonicalize(a.stale[i].0) == a.stale[i].0;
    }
  }

  /** What the loader demands beyond the writer: the body length, the counts and the values fit. */
  ghost predicate Loadable(a: Archive)
    requires Writable(a)
  {
    |Body(a)| < TWO_32 && WithinLimits(a) && AllReadable(a.accepted) && StaleReadable(a.stale)
  }

  function Unverified(a: Archive): Archive {
    a.(verified := None, replayMatch := false)
  }

  /** What a load should return for a saved archive. */
  function Expected(a: Archive, verify: bool): Archive {
    if verify then a else Unverified(a)
  }

  /** Loading what was saved returns it, replay verified, exactly when it is loadable and every
      absent optional part holds its default. */
  lemma ArchiveRoundTrip(views: Views, a: Archive, verify: bool)
    requires Writable(a) && Built(views, a)
    ensures Load(views, Sealed(Body(a)), verify) == Ok(Expected(a, verify)) <==> Loadable(a) && EverythingCanonical(a)
    ensures !Loadable(a) ==> Load(views, Sealed(Body(a)), verify).Err?
  {
    hide Unseal, Sealed, Body, DecodeBody, Replay, Replayable, CanonicalAll, CanonicalStale, WithinLimits;
    hide AllReadable, StaleReadable, DistinctIds, AuthoritiesCanonical, EverythingCanonical;
    UnsealBack(Body(a));
    BodyBack(a);
    CanonicalIsUnchanged(a);
  }

  // ------------------------------------------------------------ archives of reachable coordinators

  function Worded(say: Wording, s: seq<(Observation, Reason)>): (r: seq<Retained>)
    ensures |r| == |s|
  {
    seq(|s|, i requires 0 <= i < |s| => (s[i].0, say(s[i].1)))
  }

  ghost function BuildFrom(views: Views, say: Wording, s: State): Archive
    requires Replayable(views, AcceptedInOrder(s.accepted))
  {
    var accepted := AcceptedInOrder(s.accepted);
    var r := Replay(views, accepted);
    Archive(s.epoch, 0, AuthoritiesInOrder(s.registry), accepted, Worded(say, s.stale), DigestsOf(r), Some(r), true)
  }

  ghost predicate RestartsUpTo(reg: Registry, n: nat) {
    |reg| <= n && forall k :: k in reg ==> 0 <= reg[k].restartCount <= n
  }

  /** How large a run can have made the coordinator. */
  ghost predicate Bounded(w: World, n: nat) {
    w.calls <= n && RestartsUpTo(w.s.registry, n)
  }

  lemma ReplacedBounded(reg: Registry, k: u64, a: SourceAuthority, n: nat)
    requires RestartsUpTo(reg, n)
    requires a.restartCount == 0 || (k in reg && reg[k].restartCount <= a.restartCount <= reg[k].restartCount + 1)
    ensures RestartsUpTo(reg[k := a], n + 1)
  {
    assert reg[k := a].Keys == reg.Keys + {k};
  }

  lemma StillBounded(reg: Registry, n: nat)
    requires RestartsUpTo(reg, n)
    ensures RestartsUpTo(reg, n + 1) && RestartsUpTo(map[], n + 1)
  {
  }

  lemma StepBounded(keyOf: KeyFunction, w: World, step: Step, n: nat)
    requires Bounded(w, n)
    ensures Bounded(Next(keyOf, w, step), n + 1)
  {
    hide Judge, Indexed, RestartsUpTo;
    var reg := w.s.registry;
    assert RestartsUpTo(reg, n + 1) && RestartsUpTo(map[], n + 1) by { StillBounded(reg, n); }
    match step
    case RegisterStep(o, e, force) =>
      ReplacedBounded(reg, KeyOf(keyOf, o), Register(reg, KeyOf(keyOf, o), o, e, force), n);
    case RestartStep(source, worker, boot, e) =>
      ReplacedBounded(reg, keyOf(source, worker), Restarted(reg, keyOf(source, worker), source, worker, boot, e), n);
    case IngestStep(o) =>
      var k := KeyOf(keyOf, o);
      if k in reg { ReplacedBounded(reg, k, Advance(reg[k], o), n); }
    case _ =>
  }

  lemma {:induction false} RunBounded(keyOf: KeyFunction, steps: seq<Step>)
    ensures Bounded(Run(keyOf, steps), |steps|)
  {
    hide Next;
    if steps != [] {
      var n := |steps| - 1;
      RunBounded(keyOf, steps[..n]);
      StepBounded(keyOf, Run(keyOf, steps[..n]), steps[n], n);
    }
  }

  lemma RegistryInOrder(reg: Registry)
    ensures |AuthoritiesInOrder(reg)| == |reg|
    ensures forall a :: a in AuthoritiesInOrder(reg) <==> exists k :: k in reg && reg[k] == a
  {
    hide SortedKeys;
    var ks := SortedKeys(U64Less, reg.Keys);
    LookupValues(reg, ks);
    assert |ks| == |reg.Keys|;
  }

  lemma RegistryIsCanonical(reg: Registry)
    requires TimestampsCanonical(reg)
    ensures AuthoritiesCanonical(AuthoritiesInOrder(reg))
  {
    hide AuthoritiesInOrder;
    RegistryInOrder(reg);
    forall i | 0 <= i < |AuthoritiesInOrder(reg)| ensures AuthorityCanonical(AuthoritiesInOrder(reg)[i]) {
      assert AuthoritiesInOrder(reg)[i] in AuthoritiesInOrder(reg);
    }
  }

  /** Counts fit their 32-bit fields, and restart counters the C++ int that they are. */
  ghost predicate CountersFit(s: State) {
    && |s.registry| < TWO_32 && |s.accepted| < TWO_32 && |s.stale| < TWO_32
    && forall k :: k in s.registry ==> RestartFits(s.registry[k])
  }

  lemma FittingCounts(s: State)
    requires CountersFit(s)
    ensures AllRestartsFit(AuthoritiesInOrder(s.registry)) && |AuthoritiesInOrder(s.registry)| < TWO_32
    ensures |AcceptedInOrder(s.accepted)| < TWO_32 && |s.stale| < TWO_32
  {
    hide AuthoritiesInOrder, AcceptedInOrder;
    var reg := s.registry;
    RegistryInOrder(reg);
    AcceptedLength(s.accepted);
    forall i | 0 <= i < |AuthoritiesInOrder(reg)| ensures RestartFits(AuthoritiesInOrder(reg)[i]) {
      assert AuthoritiesInOrder(reg)[i] in AuthoritiesInOrder(reg);
    }
  }

  lemma AcceptedLength(m: map<Id128, Observation>)
    ensures |AcceptedInOrder(m)| == |m|
  {
    assert |m.Keys| == |m|;
  }

  /** What saving reads while others keep working: epoch, registry, stale history and accepted map
      are taken one after another, each from the state of that moment. */
  function Mixed(atEpoch: State, atRegistry: State, atStale: State, atAccepted: State): State {
    atAccepted.(epoch := atEpoch.epoch, registry := atRegistry.registry, stale := atStale.stale)
  }

  ghost function Snapshot(keyOf: KeyFunction, steps: seq<Step>, e: nat, r: nat, q: nat, p: nat): State
    requires e <= r <= q <= p <= |steps|
  {
    Mixed(Run(keyOf, steps[..e]).s, Run(keyOf, steps[..r]).s, Run(keyOf, steps[..q]).s, Run(keyOf, steps[..p]).s)
  }

  lemma MixedUpTo(keyOf: KeyFunction, steps: seq<Step>, e: nat, r: nat, q: nat, p: nat)
    requires e <= r <= q <= p <= |steps|
    ensures var s := Snapshot(keyOf, steps, e, r, q, p);
            && TimestampsCanonical(s.registry) && DistinctIds(AcceptedInOrder(s.accepted))
            && RestartsUpTo(s.registry, |steps|) && |s.accepted| <= |steps| && |s.stale| <= |steps|
  {
    hide AcceptedInOrder, Run, DistinctIds, MapIsLog, IndexIsLog, TimestampsCanonical;
    ReachableConsistent(keyOf, steps[..r]);
    ReachableConsistent(keyOf, steps[..q]);
    ReachableConsistent(keyOf, steps[..p]);
    RunBounded(keyOf, steps[..r]);
    RunBounded(keyOf, steps[..q]);
    RunBounded(keyOf, steps[..p]);
    AcceptedPermutesLog(Run(keyOf, steps[..p]).s, Run(keyOf, steps[..p]).log);
  }

  /** Runs of fewer than 2^31 steps cannot overflow a counter. */
  lemma ShortRunsFit(keyOf: KeyFunction, steps: seq<Step>, e: nat, r: nat, q: nat, p: nat)
    requires e <= r <= q <= p <= |steps| < TWO_31
    ensures CountersFit(Snapshot(keyOf, steps, e, r, q, p))
  {
    hide Snapshot, AcceptedInOrder, DistinctIds, TimestampsCanonical;
    MixedUpTo(keyOf, steps, e, r, q, p);
  }

  /** Every observation and every reason fits its length prefix, and replay does not throw. */
  ghost predicate Savable(views: Views, say: Wording, s: State) {
    && Replayable(views, AcceptedInOrder(s.accepted))
    && AllRetainedFit(Worded(say, s.stale))
  }

  lemma DigestsHave32Bytes(views: Views, s: seq<Observation>)
    requires Replayable(views, s)
    ensures DigestsOf(Replay(views, s)).Valid()
  {
    hide EvidenceBytes, TracesOf, Rendered, Replayable;
  }

  lemma SavableIsWritable(views: Views, say: Wording, s: State, a: Archive)
    requires Savable(views, say, s) && CountersFit(s) && a == BuildFrom(views, say, s)
    ensures Writable(a)
  {
    hide AcceptedInOrder, AuthoritiesInOrder, Replay, AllRestartsFit, AllStorable, Renderable, TracesOf;
    hide AllRetainedFit, Worded, DigestsOf, CountersFit, RestartFits;
    FittingCounts(s);
    DigestsHave32Bytes(views, AcceptedInOrder(s.accepted));
  }

  lemma ConsistentIsBuilt(views: Views, say: Wording, s: State, a: Archive)
    requires TimestampsCanonical(s.registry) && DistinctIds(AcceptedInOrder(s.accepted))
    requires Replayable(views, AcceptedInOrder(s.accepted)) && a == BuildFrom(views, say, s)
    ensures Built(views, a)
  {
    RegistryIsCanonical(s.registry);
    hide AcceptedInOrder, AuthoritiesInOrder, Replay, Replayable, AuthoritiesCanonical, DistinctIds, Worded, DigestsOf;
    hide TimestampsCanonical;
  }

  /** Saving a coordinator while it keeps running, and loading the bytes, returns the epoch, registry,
      accepted observations and stale history that were read, each in its place and in order, with
      replay verified. The condition is exact: body length, counts and field values are what the
      loader admits. */
  lemma SavedRunLoads(views: Views, say: Wording, keyOf: KeyFunction, steps: seq<Step>, e: nat, r: nat, q: nat, p: nat,
                      a: Archive, verify: bool)
    requires e <= r <= q <= p <= |steps|
    requires var s := Snapshot(keyOf, steps, e, r, q, p);
             Replayable(views, AcceptedInOrder(s.accepted)) && a == BuildFrom(views, say, s) && Writable(a)
    ensures Load(views, Sealed(Body(a)), verify) == Ok(Expected(a, verify)) <==> Loadable(a) && EverythingCanonical(a)
    ensures !Loadable(a) ==> Load(views, Sealed(Body(a)), verify).Err?
  {
    hide *;
    MixedUpTo(keyOf, steps, e, r, q, p);
    ConsistentIsBuilt(views, say, Snapshot(keyOf, steps, e, r, q, p), a);
    ArchiveRoundTrip(views, a, verify);
  }

  /** Whatever the bytes were, an archive that loads has pairwise different accepted identities and,
      when replay was asked for, stores the digests that replay recomputes. */
  lemma LoadedIsSound(views: Views, all: Bytes, verify: bool)
    requires Load(views, all, verify).Ok?
    ensures var a := Load(views, all, verify).value;
            && DistinctIds(a.accepted) && a.replayMatch == verify
            && (verify ==> Replayable(views, a.accepted) && a.digests == DigestsOf(Replay(views, a.accepted))
                           && a.verified == Some(Replay(views, a.accepted)))
  {
    hide Unseal, DistinctIds, Replay, Replayable, ReadHeader, ReadU32, ReadAuthorities, ReadStale, ReadDigests;
    hide ReadAccepted;
  }

  // ------------------------------------------------------------ saving

  method BuildArchive(views: Views, say: Wording, c: Coordinator) returns (r: Result<Archive>)
    ensures r.Ok? <==> Replayable(views, AcceptedInOrder(c.accepted))
    ensures r.Ok? ==> r.value == BuildFrom(views, say, c.Now())
  {
    hide Replay, Replayable, AcceptedInOrder, AuthoritiesInOrder;
    var registry := c.RegistrySnapshot();
    var stale := Worded(say, c.stale);
    var accepted := c.AllAccepted();
    var replayed :- ReplayAll(views, accepted);
    return Ok(Archive(c.epoch, 0, registry, accepted, stale, DigestsOf(replayed), Some(replayed), true));
  }

  lemma OneMoreAuthority(base: Bytes, s: seq<SourceAuthority>, i: nat)
    requires AllRestartsFit(s) && i < |s|
    ensures AllRestartsFit(s[..i]) && AllRestartsFit(s[..i + 1])
    ensures base + AuthorityBytes(s[..i]) + EncodeAuthority(s[i]) == base + AuthorityBytes(s[..i + 1])
  {
    hide EncodeAuthority, RestartFits;
    assert s[..i + 1][..i] == s[..i];
    var a, b := AuthorityBytes(s[..i]), EncodeAuthority(s[i]);
    assert base + a + b == base + (a + b);
  }

  method WriteAuthorities(w: BinaryWriter, s: seq<SourceAuthority>)
    requires AllRestartsFit(s)
    modifies w
    ensures w.buf == old(w.buf) + AuthorityBytes(s)
  {
    hide EncodeAuthority, RestartFits;
    assert w.buf == old(w.buf) + AuthorityBytes(s[..0]);
    for i := 0 to |s|
      invariant w.buf == old(w.buf) + AuthorityBytes(s[..i])
    {
      OneMoreAuthority(old(w.buf), s, i);
      WriteAuthority(w, s[i]);
    }
    assert s[..|s|] == s;
  }

  lemma OneMoreRetained(base: Bytes, s: seq<Retained>, i: nat)
    requires i < |s| && AllRetainedFit(s[..i])
    ensures AllRetainedFit(s[..i + 1]) <==> RetainedFits(s[i])
    ensures RetainedFits(s[i]) ==>
              base + StaleBytes(s[..i]) + RetainedBytes(s[i]) == base + StaleBytes(s[..i + 1])
    ensures AllRetainedFit(s) ==> RetainedFits(s[i])
  {
    hide RetainedBytes, RetainedFits;
    assert s[..i + 1][..i] == s[..i];
    if RetainedFits(s[i]) {
      var a, b := StaleBytes(s[..i]), RetainedBytes(s[i]);
      assert base + a + b == base + (a + b);
    }
  }

  method WriteRetained(w: BinaryWriter, e: Retained) returns (r: Result<()>)
    modifies w
    ensures r.Ok? <==> RetainedFits(e)
    ensures r.Ok? ==> w.buf == old(w.buf) + RetainedBytes(e)
  {
    hide Fits, Encode, Blob;
    var _ :- WriteStored(w, e.0);
    var _ :- w.WriteBlob(e.1);
    assert old(w.buf) + Blob(Encode(e.0)) + Blob(e.1) == old(w.buf) + (Blob(Encode(e.0)) + Blob(e.1));
    return Ok(());
  }

  method WriteStale(w: BinaryWriter, s: seq<Retained>) returns (r: Result<()>)
    modifies w
    ensures r.Ok? <==> AllRetainedFit(s)
    ensures r.Ok? ==> w.buf == old(w.buf) + StaleBytes(s)
  {
    hide RetainedFits, RetainedBytes;
    assert w.buf == old(w.buf) + StaleBytes(s[..0]);
    for i := 0 to |s|
      invariant AllRetainedFit(s[..i]) && w.buf == old(w.buf) + StaleBytes(s[..i])
    {
      OneMoreRetained(old(w.buf), s, i);
      var _ :- WriteRetained(w, s[i]);
    }
    assert s[..|s|] == s;
    return Ok(());
  }

  method WriteHeader(w: BinaryWriter, epoch: u64, createdNs: u64)
    modifies w
    ensures w.buf == old(w.buf) + HeaderBytes(epoch, createdNs)
  {
    hide BE;
    w.WriteU32(ARCHIVE_MAGIC);
    w.WriteU16(ARCHIVE_VERSION);
    w.WriteU8(0);
    w.WriteU64(epoch);
    w.WriteU64(createdNs);
  }

  method JoinDigests(d: Digests) returns (b: Bytes)
    ensures b == DigestBlock(d)
  {
    var w := new BinaryWriter();
    w.Append(d.evidence);
    w.Append(d.traces);
    w.Append(d.explanations);
    w.Append(d.aggregate);
    b := w.buf;
  }

  lemma Join4(base: Bytes, a: Bytes, b: Bytes, c: Bytes)
    ensures base + a + b + c == base + (a + (b + c))
  {
  }

  method WriteStaleSection(w: BinaryWriter, stale: seq<Retained>, digests: Digests) returns (r: Result<()>)
    requires digests.Valid()
    modifies w
    ensures r.Ok? <==> |stale| < TWO_32 && AllRetainedFit(stale)
    ensures r.Ok? ==> w.buf == old(w.buf) + (BE(|stale|, 4) + (StaleBytes(stale) + Blob(DigestBlock(digests))))
  {
    hide AllRetainedFit, StaleBytes, BE, Blob, DigestBlock;
    ghost var base := w.buf;
    var _ :- w.WriteCount(|stale|);
    var _ :- WriteStale(w, stale);
    var block := JoinDigests(digests);
    DigestSlices(digests);
    var wrote := w.WriteBlob(block);
    assert wrote.Ok?;
    Join4(base, BE(|stale|, 4), StaleBytes(stale), Blob(block));
    return Ok(());
  }

  method WriteAcceptedSection(w: BinaryWriter, accepted: seq<Observation>) returns (r: Result<()>)
    modifies w
    ensures r.Ok? <==> |accepted| < TWO_32 && AllStorable(accepted)
    ensures r.Ok? ==> w.buf == old(w.buf) + BE(|accepted|, 4) + EncodedBlobs(accepted)
  {
    hide AllStorable, EncodedBlobs, BE;
    var _ :- w.WriteCount(|accepted|);
    var _ :- WriteAllStored(w, accepted);
    return Ok(());
  }

  lemma SectionsJoin(a: Archive, base: Bytes)
    requires Writable(a)
    ensures base + BE(|a.registry|, 4) + AuthorityBytes(a.registry) + BE(|a.accepted|, 4)
            + EncodedBlobs(a.accepted) + StaleSection(a)
            == base + SectionBytes(a)
  {
    hide AuthorityBytes, EncodedBlobs, StaleSection, BE, AllStorable, AllRetainedFit, AllRestartsFit;
    var n, r, m, e, t := BE(|a.registry|, 4), AuthorityBytes(a.registry), BE(|a.accepted|, 4),
        EncodedBlobs(a.accepted), StaleSection(a);
    assert SectionBytes(a) == n + (r + (m + (e + t))) by { SectionsNest(a); }
    Join4(base + n + r, m, e, t);
    Join4(base, n, r, m + (e + t));
  }

  lemma SectionsNest(a: Archive)
    requires Writable(a)
    ensures SectionBytes(a) == BE(|a.registry|, 4) + (AuthorityBytes(a.registry) + EvidenceSection(a))
    ensures EvidenceSection(a) == BE(|a.accepted|, 4) + (EncodedBlobs(a.accepted) + StaleSection(a))
  {
    hide AuthorityBytes, EncodedBlobs, StaleBytes, BE, AllStorable, AllRetainedFit, AllRestartsFit, Blob, DigestBlock;
  }

  method WriteBody(a: Archive) returns (r: Result<Bytes>)
    requires AllRestartsFit(a.registry) && a.digests.Valid()
    ensures r.Ok? <==> Writable(a)
    ensures r.Ok? ==> r.value == Body(a)
  {
    hide AllRestartsFit, AllStorable, AllRetainedFit, AuthorityBytes, EncodedBlobs, StaleBytes, HeaderBytes, BE;
    hide Blob, DigestBlock, SectionBytes;
    var w := new BinaryWriter();
    WriteHeader(w, a.epoch, a.createdNs);
    ghost var header := w.buf;
    var _ :- w.WriteCount(|a.registry|);
    WriteAuthorities(w, a.registry);
    var _ :- WriteAcceptedSection(w, a.accepted);
    var _ :- WriteStaleSection(w, a.stale, a.digests);
    SectionsJoin(a, header);
    return Ok(w.buf);
  }

  /** The bytes of the saved file. Saving fails, by exception, exactly when replay throws or a
      length does not fit its prefix; an oversized body is not noticed. */
  method SaveArchive(views: Views, say: Wording, c: Coordinator) returns (r: Result<(Archive, Bytes)>)
    requires AllRestartsFit(AuthoritiesInOrder(c.registry.byKey))
    ensures r.Ok? <==> Replayable(views, AcceptedInOrder(c.accepted)) && Writable(BuildFrom(views, say, c.Now()))
    ensures r.Ok? ==> var a := BuildFrom(views, say, c.Now()); r.value == (a, Sealed(Body(a)))
  {
    hide Replayable, Replay, AcceptedInOrder, AuthoritiesInOrder, Writable, Body, Sha256.Hash, AllRestartsFit;
    var a :- BuildArchive(views, say, c);
    DigestsHave32Bytes(views, AcceptedInOrder(c.accepted));
    var body :- WriteBody(a);
    var digest := Sha256.HashBytes(body);
    var w := new BinaryWriter();
    w.WriteU32(|body| % TWO_32);
    w.Append(body);
    w.Append(digest);
    assert w.buf == BE(|body| % TWO_32, 4) + body + digest;
    return Ok((a, w.buf));
  }

  // ------------------------------------------------------------ loading

  lemma {:induction false} AuthorityErrorStays(c: Cursor, i: nat, n: nat)
    requires i <= n && ReadAuthorities(c, i).value.Err?
    ensures ReadAuthorities(c, n).value == ReadAuthorities(c, i).value
  {
    hide ReadAuthority;
    if i < n { AuthorityErrorStays(c, i, n - 1); }
  }

  method GetAuthorities(r: BinaryReader, n: u32) returns (res: Result<seq<SourceAuthority>>)
    requires r.Valid()
    modifies r
    ensures r.Valid() && res == ReadAuthorities(old(r.View()), n).value
    ensures res.Ok? ==> r.View() == ReadAuthorities(old(r.View()), n).next
  {
    hide ReadAuthority;
    var out := [];
    for i := 0 to n
      invariant r.Valid() && Read(Ok(out), r.View()) == ReadAuthorities(old(r.View()), i)
    {
      var a := GetAuthority(r);
      if a.Err? {
        AuthorityErrorStays(old(r.View()), i + 1, n);
        return Err(a.error);
      }
      out := out + [a.value];
    }
    return Ok(out);
  }

  method GetStored(r: BinaryReader) returns (res: Result<Observation>)
    requires r.Valid()
    modifies r
    ensures r.Valid() && Read(res, r.View()) == ReadStored(old(r.View()))
  {
    hide ReadBlob, DecodePayload;
    var b := r.GetBlob();
    if !r.Good() { return Err(CorruptInput); }
    res := ReadPayload(b);
  }

  lemma {:induction false} AcceptedErrorStays(c: Cursor, i: nat, n: nat)
    requires i <= n && ReadAccepted(c, i).value.Err?
    ensures ReadAccepted(c, n).value == ReadAccepted(c, i).value
  {
    hide ReadStored, Holds;
    if i < n { AcceptedErrorStays(c, i, n - 1); }
  }

  method GetAccepted(r: BinaryReader, n: u32) returns (res: Result<seq<Observation>>)
    requires r.Valid()
    modifies r
    ensures r.Valid() && res == ReadAccepted(old(r.View()), n).value
    ensures res.Ok? ==> r.View() == ReadAccepted(old(r.View()), n).next
  {
    hide ReadStored, DistinctIds;
    var out := [];
    var seen: set<Id128> := {};
    for i := 0 to n
      invariant r.Valid() && Read(Ok(out), r.View()) == ReadAccepted(old(r.View()), i)
      invariant forall id :: id in seen <==> Holds(out, id)
    {
      var o := GetStored(r);
      if o.Err? {
        AcceptedErrorStays(old(r.View()), i + 1, n);
        return Err(o.error);
      }
      if o.value.id in seen {
        AcceptedErrorStays(old(r.View()), i + 1, n);
        return Err(DuplicateId);
      }
      HoldsAppend(out, o.value);
      seen := seen + {o.value.id};
      out := out + [o.value];
    }
    return Ok(out);
  }

  lemma HoldsAppend(s: seq<Observation>, o: Observation)
    ensures forall id :: Holds(s + [o], id) <==> Holds(s, id) || id == o.id
  {
    forall id ensures Holds(s + [o], id) <==> Holds(s, id) || id == o.id {
      if Holds(s, id) {
        var i :| 0 <= i < |s| && s[i].id == id;
        assert (s + [o])[i].id == id;
      }
      assert (s + [o])[|s|] == o;
    }
  }

  method GetRetained(r: BinaryReader) returns (res: Result<Retained>)
    requires r.Valid()
    modifies r
    ensures r.Valid() && Read(res, r.View()) == ReadRetained(old(r.View()))
  {
    hide ReadStored, ReadBlob;
    var o :- GetStored(r);
    var reason := r.GetBlob();
    if !r.Good() { return Err(CorruptInput); }
    return Ok((o, reason));
  }

  lemma {:induction false} StaleErrorStays(c: Cursor, i: nat, n: nat)
    requires i <= n && ReadStale(c, i).value.Err?
    ensures ReadStale(c, n).value == ReadStale(c, i).value
  {
    hide ReadRetained;
    if i < n { StaleErrorStays(c, i, n - 1); }
  }

  method GetStale(r: BinaryReader, n: u32) returns (res: Result<seq<Retained>>)
    requires r.Valid()
    modifies r
    ensures r.Valid() && res == ReadStale(old(r.View()), n).value
    ensures res.Ok? ==> r.View() == ReadStale(old(r.View()), n).next
  {
    hide ReadRetained;
    var out := [];
    for i := 0 to n
      invariant r.Valid() && Read(Ok(out), r.View()) == ReadStale(old(r.View()), i)
    {
      var e := GetRetained(r);
      if e.Err? {
        StaleErrorStays(old(r.View()), i + 1, n);
        return Err(e.error);
      }
      out := out + [e.value];
    }
    return Ok(out);
  }

  method GetHeader(r: BinaryReader) returns (res: Result<(u64, u64)>)
    requires r.Valid()
    modifies r
    ensures r.Valid() && Read(res, r.View()) == ReadHeader(old(r.View()))
  {
    hide ReadU32, ReadU16, ReadU64, ReadByte;
    var magic := r.GetU32();
    if magic != ARCHIVE_MAGIC { return Err(BadMagic); }
    var version := r.GetU16();
    if version != ARCHIVE_VERSION { return Err(UnsupportedVersion); }
    var _ := r.GetByte();
    var epoch := r.GetU64();
    var created := r.GetU64();
    return Ok((epoch, created));
  }

  method GetDigests(r: BinaryReader) returns (res: Result<Digests>)
    requires r.Valid()
    modifies r
    ensures r.Valid() && res == ReadDigests(old(r.View()))
  {
    hide ReadBlob;
    var d := r.GetBlob();
    var done := r.RequireEnd();
    if !done { return Err(TrailingGarbage); }
    if |d| != 128 { return Err(BadDigestBlock); }
    return Ok(Digests(d[..32], d[32..64], d[64..96], d[96..]));
  }

  method GetEvidence(r: BinaryReader, registry: seq<SourceAuthority>, epoch: u64, createdNs: u64)
          returns (res: Result<Archive>)
    requires r.Valid()
    modifies r
    ensures r.Valid() && res == ReadEvidence(old(r.View()), registry, epoch, createdNs)
  {
    hide ReadU32, ReadAccepted, ReadStale, ReadDigests;
    var n := r.GetU32();
    if n > MAX_ACCEPTED { return Err(CountOverflow); }
    var accepted :- GetAccepted(r, n);
    var m := r.GetU32();
    if m > MAX_STALE { return Err(CountOverflow); }
    var stale :- GetStale(r, m);
    var digests :- GetDigests(r);
    return Ok(Archive(epoch, createdNs, registry, accepted, stale, digests, None, false));
  }

  method GetBody(b: Bytes) returns (res: Result<Archive>)
    ensures res == DecodeBody(b)
  {
    hide ReadHeader, ReadU32, ReadAuthorities, ReadEvidence;
    var r := new BinaryReader(b);
    var header :- GetHeader(r);
    var n := r.GetU32();
    if n > MAX_AUTHORITIES { return Err(CountOverflow); }
    var registry :- GetAuthorities(r, n);
    res := GetEvidence(r, registry, header.0, header.1);
  }

  method OpenFile(all: Bytes) returns (res: Result<Bytes>)
    ensures res == Unseal(all)
  {
    hide ReadU32, ReadRaw, Sha256.Hash, Advances;
    var r := new BinaryReader(all);
    var len: int := r.GetU32();
    if !r.Good() { return Err(CorruptInput); }
    if |all| != 4 + len + 32 { return Err(LengthMismatch); }
    var body := r.GetRaw(len);
    if |body| != len { return Err(CorruptInput); }
    var stored := r.GetRaw(32);
    if |stored| != 32 { return Err(CorruptInput); }
    var done := r.RequireEnd();
    if !done { return Err(TrailingGarbage); }
    var computed := Sha256.HashBytes(body);
    if computed != stored { return Err(ChecksumMismatch); }
    return Ok(body);
  }

  method LoadArchive(views: Views, all: Bytes, verify: bool) returns (r: Result<Archive>)
    ensures r == Load(views, all, verify)
  {
    hide Unseal, DecodeBody, Replay, Replayable;
    var body :- OpenFile(all);
    var a :- GetBody(body);
    if !verify { return Ok(a); }
    var replayed := ReplayAll(views, a.accepted);
    if replayed.Err? { return Err(LengthOverflow); }
    if DigestsOf(replayed.value) != a.digests { return Err(ReplayMismatch); }
    return Ok(a.(verified := Some(replayed.value), replayMatch := true));
  }
}
