/** Where everything stands in a stored archive, and what becomes of arbitrary stored bytes
    (src/persistence.cpp). */
module ArchiveLayout {
  import opened Types
  import opened BigEndian
  import opened Wire
  import opened Observations
  import opened ObservationCodec
  import opened Authority
  import opened AuthorityCodec
  import opened Archives
  import opened Replays
  import opened Layouts
  import Sha256

  // ------------------------------------------------------------ lists

  /** Bytes taken by the authorities of a list. */
  function AuthoritiesWidth(s: seq<SourceAuthority>): nat {
    if s == [] then 0 else AuthoritiesWidth(s[..|s| - 1]) + AuthorityWidth(s[|s| - 1])
  }

  ghost function PayloadWidth(o: Observation): nat {
    if Fits(o) then |Encode(o)| else 0
  }

  /** Bytes taken by the length-prefixed payloads of a list. */
  ghost function PayloadsWidth(s: seq<Observation>): nat {
    if s == [] then 0 else PayloadsWidth(s[..|s| - 1]) + 4 + PayloadWidth(s[|s| - 1])
  }

  /** Bytes taken by refused observations and their reasons. */
  ghost function RetainedWidth(s: seq<Retained>): nat {
    if s == [] then 0
    else RetainedWidth(s[..|s| - 1]) + 8 + PayloadWidth(s[|s| - 1].0) + |s[|s| - 1].1|
  }

  ghost predicate AuthoritiesAt(b: Bytes, at: nat, s: seq<SourceAuthority>) {
    forall i :: 0 <= i < |s| ==> AuthorityAt(b, at + AuthoritiesWidth(s[..i]), s[i])
  }

  /** A length-prefixed payload. */
  ghost predicate PayloadAt(b: Bytes, at: nat, o: Observation) {
    Fits(o) && TextAt(b, at, Encode(o))
  }

  ghost predicate PayloadsAt(b: Bytes, at: nat, s: seq<Observation>) {
    forall i :: 0 <= i < |s| ==> PayloadAt(b, at + PayloadsWidth(s[..i]), s[i])
  }

  /** A refused observation: its payload, then the reason it was refused. */
  ghost predicate RetainedAt(b: Bytes, at: nat, e: Retained) {
    PayloadAt(b, at, e.0) && TextAt(b, at + 4 + PayloadWidth(e.0), e.1)
  }

  ghost predicate StaleAt(b: Bytes, at: nat, s: seq<Retained>) {
    forall i :: 0 <= i < |s| ==> RetainedAt(b, at + RetainedWidth(s[..i]), s[i])
  }

  lemma LastAuthority(b: Bytes, at: nat, s: seq<SourceAuthority>)
    requires s != [] && AuthoritiesAt(b, at, s[..|s| - 1])
    requires AuthorityAt(b, at + AuthoritiesWidth(s[..|s| - 1]), s[|s| - 1])
    ensures AuthoritiesAt(b, at, s)
  {
    hide AuthorityAt, AuthoritiesWidth;
    var n := |s| - 1;
    forall i | 0 <= i < |s| ensures AuthorityAt(b, at + AuthoritiesWidth(s[..i]), s[i]) {
      if i < n { assert s[..n][i] == s[i] && s[..n][..i] == s[..i]; }
    }
  }

  lemma LastPayload(b: Bytes, at: nat, s: seq<Observation>)
    requires s != [] && PayloadsAt(b, at, s[..|s| - 1])
    requires PayloadAt(b, at + PayloadsWidth(s[..|s| - 1]), s[|s| - 1])
    ensures PayloadsAt(b, at, s)
  {
    hide PayloadAt, PayloadsWidth;
    var n := |s| - 1;
    forall i | 0 <= i < |s| ensures PayloadAt(b, at + PayloadsWidth(s[..i]), s[i]) {
      if i < n { assert s[..n][i] == s[i] && s[..n][..i] == s[..i]; }
    }
  }

  lemma LastRetained(b: Bytes, at: nat, s: seq<Retained>)
    requires s != [] && StaleAt(b, at, s[..|s| - 1])
    requires RetainedAt(b, at + RetainedWidth(s[..|s| - 1]), s[|s| - 1])
    ensures StaleAt(b, at, s)
  {
    hide RetainedAt, RetainedWidth;
    var n := |s| - 1;
    forall i | 0 <= i < |s| ensures RetainedAt(b, at + RetainedWidth(s[..i]), s[i]) {
      if i < n { assert s[..n][i] == s[i] && s[..n][..i] == s[..i]; }
    }
  }

  lemma NoneAt(b: Bytes, at: nat)
    ensures AuthoritiesAt(b, at, []) && PayloadsAt(b, at, []) && StaleAt(b, at, [])
  {
  }

  lemma PrefixStorable(s: seq<Observation>)
    requires s != [] && AllStorable(s)
    ensures AllStorable(s[..|s| - 1]) && Storable(s[|s| - 1])
  {
    hide Storable;
    assert s[|s| - 1] in s;
  }

  lemma Associate(x: Bytes, y: Bytes, z: Bytes)
    ensures (x + y) + z == x + (y + z) && [] + z == z
  {
  }

  lemma {:induction false} TakeAuthorities(b: Bytes, at: nat, s: seq<SourceAuthority>, t: Bytes)
    requires AllRestartsFit(s) && Rests(b, at, AuthorityBytes(s) + t)
    ensures AuthoritiesAt(b, at, s) && Rests(b, at + AuthoritiesWidth(s), t)
    decreases |s|
  {
    hide Rests, AuthorityAt, AuthorityWidth, EncodeAuthority, AuthoritiesAt, RestartFits;
    if s == [] {
      Associate([], [], t);
      NoneAt(b, at);
    } else {
      var n := |s| - 1;
      var e := EncodeAuthority(s[n]);
      Associate(AuthorityBytes(s[..n]), e, t);
      TakeAuthorities(b, at, s[..n], e + t);
      TakeAuthority(b, at + AuthoritiesWidth(s[..n]), s[n], t);
      LastAuthority(b, at, s);
    }
  }

  lemma {:induction false} TakePayloads(b: Bytes, at: nat, s: seq<Observation>, t: Bytes)
    requires AllStorable(s) && Rests(b, at, EncodedBlobs(s) + t)
    ensures PayloadsAt(b, at, s) && Rests(b, at + PayloadsWidth(s), t)
    decreases |s|
  {
    hide Rests, TextAt, Encode, Blob, Fits, PayloadsAt;
    if s == [] {
      Associate([], [], t);
      NoneAt(b, at);
    } else {
      var n := |s| - 1;
      PrefixStorable(s);
      var e := Blob(Encode(s[n]));
      Associate(EncodedBlobs(s[..n]), e, t);
      TakePayloads(b, at, s[..n], e + t);
      TakeText(b, at + PayloadsWidth(s[..n]), Encode(s[n]), t);
      LastPayload(b, at, s);
    }
  }

  lemma {:induction false} TakeStale(b: Bytes, at: nat, s: seq<Retained>, t: Bytes)
    requires AllRetainedFit(s) && Rests(b, at, StaleBytes(s) + t)
    ensures StaleAt(b, at, s) && Rests(b, at + RetainedWidth(s), t)
    decreases |s|
  {
    hide Rests, TextAt, Encode, Blob, Fits, StaleAt;
    if s == [] {
      Associate([], [], t);
      NoneAt(b, at);
    } else {
      var n := |s| - 1;
      Associate(StaleBytes(s[..n]), RetainedBytes(s[n]), t);
      TakeStale(b, at, s[..n], RetainedBytes(s[n]) + t);
      TakeRetained(b, at + RetainedWidth(s[..n]), s[n], t);
      LastRetained(b, at, s);
    }
  }

  lemma TakeRetained(b: Bytes, at: nat, e: Retained, t: Bytes)
    requires RetainedFits(e) && Rests(b, at, RetainedBytes(e) + t)
    ensures RetainedAt(b, at, e) && Rests(b, at + 8 + PayloadWidth(e.0) + |e.1|, t)
  {
    hide Rests, TextAt, Encode, Blob, Fits;
    Associate(Blob(Encode(e.0)), Blob(e.1), t);
    TakeText(b, at, Encode(e.0), Blob(e.1) + t);
    TakeText(b, at + 4 + |Encode(e.0)|, e.1, t);
  }

  // ------------------------------------------------------------ the file

  /** The body: magic, version, a reserved byte, epoch, time of creation, then the registry, the accepted
      and the refused evidence behind their counts, then the four digests in 128 bytes. */
  ghost predicate BodyAt(b: Bytes, a: Archive) {
    var accepted := 27 + AuthoritiesWidth(a.registry);
    var stale := accepted + 4 + PayloadsWidth(a.accepted);
    var digests := stale + 4 + RetainedWidth(a.stale);
    && NumberAt(b, 0, 4, 0x534F4253) && NumberAt(b, 4, 2, 1) && ByteAt(b, 6, 0)
    && NumberAt(b, 7, 8, a.epoch) && NumberAt(b, 15, 8, a.createdNs)
    && NumberAt(b, 23, 4, |a.registry|) && AuthoritiesAt(b, 27, a.registry)
    && NumberAt(b, accepted, 4, |a.accepted|) && PayloadsAt(b, accepted + 4, a.accepted)
    && NumberAt(b, stale, 4, |a.stale|) && StaleAt(b, stale + 4, a.stale)
    && NumberAt(b, digests, 4, 128) && |b| == digests + 132
    && b[digests + 4..digests + 36] == a.digests.evidence && b[digests + 36..digests + 68] == a.digests.traces
    && b[digests + 68..digests + 100] == a.digests.explanations && b[digests + 100..] == a.digests.aggregate
  }

  lemma TakeHeader(b: Bytes, epoch: u64, createdNs: u64, s: Bytes)
    requires Rests(b, 0, HeaderBytes(epoch, createdNs) + s)
    ensures NumberAt(b, 0, 4, 0x534F4253) && NumberAt(b, 4, 2, 1) && ByteAt(b, 6, 0)
    ensures NumberAt(b, 7, 8, epoch) && NumberAt(b, 15, 8, createdNs) && Rests(b, 23, s)
  {
    hide Rests, NumberAt, ByteAt, BE;
    var s4 := BE(createdNs, 8) + s;
    var s3 := BE(epoch, 8) + s4;
    var s2 := [0] + s3;
    var s1 := BE(1, 2) + s2;
    assert HeaderBytes(epoch, createdNs) + s == BE(0x534F4253, 4) + s1;
    TakeNumber(b, 0, 0x534F4253, 4, s1);
    TakeNumber(b, 4, 1, 2, s2);
    TakeByte(b, 6, 0, s3);
    TakeNumber(b, 7, epoch, 8, s4);
    TakeNumber(b, 15, createdNs, 8, s);
  }

  lemma TakeDigests(b: Bytes, at: nat, d: Digests)
    requires d.Valid() && Rests(b, at, Blob(DigestBlock(d)))
    ensures NumberAt(b, at, 4, 128) && |b| == at + 132
    ensures b[at + 4..at + 36] == d.evidence && b[at + 36..at + 68] == d.traces
    ensures b[at + 68..at + 100] == d.explanations && b[at + 100..] == d.aggregate
  {
    hide NumberAt, Rests;
    var w := DigestBlock(d);
    TakeLastText(b, at, w);
    hide Blob;
    assert b[at + 4..at + 132] == w;
    DigestSlices(b[at + 4..], d);
  }

  lemma DigestSlices(w: Bytes, d: Digests)
    requires d.Valid() && w == DigestBlock(d)
    ensures w[..32] == d.evidence && w[32..64] == d.traces && w[64..96] == d.explanations && w[96..] == d.aggregate
  {
  }

  lemma TakeSections(b: Bytes, a: Archive)
    requires Writable(a) && Rests(b, 23, SectionBytes(a))
    ensures var accepted := 27 + AuthoritiesWidth(a.registry);
            var stale := accepted + 4 + PayloadsWidth(a.accepted);
            && NumberAt(b, 23, 4, |a.registry|) && AuthoritiesAt(b, 27, a.registry)
            && NumberAt(b, accepted, 4, |a.accepted|) && PayloadsAt(b, accepted + 4, a.accepted)
            && NumberAt(b, stale, 4, |a.stale|) && StaleAt(b, stale + 4, a.stale)
            && Rests(b, stale + 4 + RetainedWidth(a.stale), Blob(DigestBlock(a.digests)))
  {
    hide Rests, BE, Blob, DigestBlock, NumberAt, AuthoritiesAt, PayloadsAt, StaleAt;
    hide AuthorityBytes, EncodedBlobs, StaleBytes, AllRestartsFit, AllStorable, AllRetainedFit;
    hide AuthoritiesWidth, PayloadsWidth, RetainedWidth;
    var s5 := Blob(DigestBlock(a.digests));
    var s4 := StaleBytes(a.stale) + s5;
    var s3 := BE(|a.stale|, 4) + s4;
    var s2 := EncodedBlobs(a.accepted) + s3;
    var s1 := BE(|a.accepted|, 4) + s2;
    TakeNumber(b, 23, |a.registry|, 4, AuthorityBytes(a.registry) + s1);
    TakeAuthorities(b, 27, a.registry, s1);
    var accepted := 27 + AuthoritiesWidth(a.registry);
    TakeNumber(b, accepted, |a.accepted|, 4, s2);
    TakePayloads(b, accepted + 4, a.accepted, s3);
    var stale := accepted + 4 + PayloadsWidth(a.accepted);
    TakeNumber(b, stale, |a.stale|, 4, s4);
    TakeStale(b, stale + 4, a.stale, s5);
  }

  /** Every part of an archive stands at its position in the stored body. */
  lemma BodyLayout(a: Archive)
    requires Writable(a)
    ensures BodyAt(Body(a), a)
  {
    hide HeaderBytes, SectionBytes, NumberAt, ByteAt, AuthoritiesAt, PayloadsAt, StaleAt, Blob, DigestBlock;
    hide AuthoritiesWidth, PayloadsWidth, RetainedWidth;
    var b := Body(a);
    assert Rests(b, 0, HeaderBytes(a.epoch, a.createdNs) + SectionBytes(a));
    hide Rests, Body;
    TakeHeader(b, a.epoch, a.createdNs, SectionBytes(a));
    TakeSections(b, a);
    var accepted := 27 + AuthoritiesWidth(a.registry);
    var stale := accepted + 4 + PayloadsWidth(a.accepted);
    TakeDigests(b, stale + 4 + RetainedWidth(a.stale), a.digests);
  }

  /** The file: length, body, digest of the body. */
  ghost predicate SealHolds(all: Bytes) {
    36 <= |all| < 0x1_0000_0024 && NumberAt(all, 0, 4, |all| - 36)
  }

  lemma UnsealParts(all: Bytes)
    requires |all| >= 4
    ensures Unseal(all) ==
            if |all| != 36 + Value(all[..4]) then Err(LengthMismatch)
            else if Sha256.Hash(all[4..|all| - 32]) != all[|all| - 32..] then Err(ChecksumMismatch)
            else Ok(all[4..|all| - 32])
  {
    hide Sha256.Hash;
    ReadUintSucceeds(Cursor(all, false), 4);
    hide Value, ReadUint;
    var n: nat := ReadU32(Cursor(all, false)).value;
    if |all| - 36 == n {
      assert all[4..][..n] == all[4..|all| - 32] && all[4..][n..] == all[|all| - 32..];
      assert all[|all| - 32..][..32] == all[|all| - 32..] && all[|all| - 32..][32..] == [];
    }
  }

  lemma SealNumber(all: Bytes)
    requires |all| >= 4
    ensures SealHolds(all) <==> |all| == 36 + Value(all[..4])
  {
    Pow256Values();
    assert all[0..0 + 4] == all[..4];
    if 36 <= |all| < 0x1_0000_0024 { NumberIsValue(all, 0, 4, |all| - 36); }
  }

  /** What becomes of any stored bytes before the body is looked at. */
  lemma SealJudged(all: Bytes)
    ensures var r := Unseal(all);
            && (r == Err(CorruptInput) <==> |all| < 4)
            && (r == Err(LengthMismatch) <==> |all| >= 4 && !SealHolds(all))
            && (r == Err(ChecksumMismatch) <==>
                SealHolds(all) && Sha256.Hash(all[4..|all| - 32]) != all[|all| - 32..])
            && (r.Ok? <==> SealHolds(all) && Sha256.Hash(all[4..|all| - 32]) == all[|all| - 32..])
            && (r.Ok? ==> r.value == all[4..|all| - 32])
  {
    hide Sha256.Hash, NumberAt, Value;
    if |all| < 4 {
      ReadUintFails(Cursor(all, false), 4);
    } else {
      UnsealParts(all);
      SealNumber(all);
      hide Unseal, SealHolds;
    }
  }
}
