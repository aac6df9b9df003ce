/** Deterministic replay (include/servingobs/replay/replay.hpp, src/replay.cpp). The JSON renderings
    of traces, explanations and aggregates are parameters: any functions of what they render. */
module Replays {
  import opened Types
  import opened BigEndian
  import opened Identity
  import opened Ordering
  import opened Wire
  import opened Observations
  import opened ObservationCodec
  import opened Authority
  import opened Coordinators
  import opened Traces
  import Sha256

  datatype Views = Views(
    trace: RequestTrace -> Bytes,
    explanation: RequestTrace -> Bytes,
    aggregate: (nat, seq<RequestTrace>) -> Bytes)

  datatype ReplayResult = ReplayResult(
    obsCount: nat, traceCount: nat,
    evidenceDigest: Bytes, traceDigest: Bytes, explanationDigest: Bytes, aggregateDigest: Bytes,
    traces: seq<RequestTrace>)

  predicate ById(a: Observation, b: Observation) {
    IdLess(a.id, b.id)
  }

  /** An observation whose encoding fits a 32-bit length prefix. */
  ghost predicate Storable(o: Observation) {
    Fits(o) && |Encode(o)| < TWO_32
  }

  ghost predicate AllStorable(s: seq<Observation>) {
    forall o :: o in s ==> Storable(o)
  }

  ghost function EncodedBlobs(s: seq<Observation>): Bytes
    requires AllStorable(s)
  {
    if s == [] then []
    else
      assert s[|s| - 1] in s && forall o :: o in s[..|s| - 1] ==> o in s;
      EncodedBlobs(s[..|s| - 1]) + Blob(Encode(s[|s| - 1]))
  }

  lemma SortKeepsStorable(s: seq<Observation>)
    requires AllStorable(s)
    ensures AllStorable(SortBy(ById, s))
  {
    assert forall o :: o in SortBy(ById, s) ==> o in multiset(SortBy(ById, s));
    assert forall o :: o in multiset(s) ==> o in s;
  }

  /** The bytes behind the evidence digest: count, then every observation in identity order. */
  ghost function EvidenceBytes(s: seq<Observation>): Bytes
    requires AllStorable(s)
  {
    SortKeepsStorable(s);
    BE(|s| % TWO_64, 8) + EncodedBlobs(SortBy(ById, s))
  }

  /** The non-null request identities of some evidence. */
  function RequestIds(s: seq<Observation>): set<Id128> {
    set o | o in s && !RequestIdOf(o).IsNull() :: RequestIdOf(o)
  }

  function TracesFor(s: seq<Observation>, rids: seq<Id128>): (t: seq<RequestTrace>)
    ensures |t| == |rids|
  {
    if rids == [] then []
    else TracesFor(s, rids[..|rids| - 1]) + [Reconstruct(ForRequest(s, rids[|rids| - 1]), rids[|rids| - 1])]
  }

  /** One trace per request, in request-identity order. */
  ghost function TracesOf(s: seq<Observation>): seq<RequestTrace> {
    TracesFor(s, SortedKeys(IdLess, RequestIds(s)))
  }

  function Rendered(view: RequestTrace -> Bytes, ts: seq<RequestTrace>): Bytes {
    if ts == [] then [] else Rendered(view, ts[..|ts| - 1]) + Blob(view(ts[|ts| - 1]))
  }

  ghost predicate Renderable(view: RequestTrace -> Bytes, ts: seq<RequestTrace>) {
    forall i :: 0 <= i < |ts| ==> |view(ts[i])| < TWO_32
  }

  /** When no length prefix overflows; otherwise replay throws. */
  ghost predicate Replayable(views: Views, s: seq<Observation>) {
    AllStorable(s) && Renderable(views.trace, TracesOf(s)) && Renderable(views.explanation, TracesOf(s))
  }

  ghost function Replay(views: Views, s: seq<Observation>): ReplayResult
    requires Replayable(views, s)
  {
    var ts := TracesOf(s);
    ReplayResult(|s|, |ts|, Sha256.Hash(EvidenceBytes(s)),
                 Sha256.Hash(Rendered(views.trace, ts)), Sha256.Hash(Rendered(views.explanation, ts)),
                 Sha256.Hash(views.aggregate(|s|, ts)), ts)
  }

  // ------------------------------------------------------------ independence of arrival order

  lemma {:induction false} ForRequestCounts(s: seq<Observation>, r: Id128, o: Observation)
    ensures multiset(ForRequest(s, r))[o] == if RequestIdOf(o) == r then multiset(s)[o] else 0
  {
    hide RequestIdOf;
    if s != [] {
      var n := |s| - 1;
      ForRequestCounts(s[..n], r, o);
      assert s == s[..n] + [s[n]];
    }
  }

  lemma ForRequestPermutes(s: seq<Observation>, t: seq<Observation>, r: Id128)
    requires multiset(s) == multiset(t)
    ensures multiset(ForRequest(s, r)) == multiset(ForRequest(t, r))
  {
    forall o ensures multiset(ForRequest(s, r))[o] == multiset(ForRequest(t, r))[o] {
      ForRequestCounts(s, r, o);
      ForRequestCounts(t, r, o);
    }
  }

  lemma {:induction false} ForRequestIn(s: seq<Observation>, r: Id128)
    ensures forall o :: o in ForRequest(s, r) ==> o in s && RequestIdOf(o) == r
  {
    hide RequestIdOf;
    if s != [] { ForRequestIn(s[..|s| - 1], r); }
  }

  lemma {:induction false} ForRequestDistinct(s: seq<Observation>, r: Id128)
    requires DistinctIds(s)
    ensures DistinctIds(ForRequest(s, r))
  {
    hide RequestIdOf;
    if s != [] {
      var n := |s| - 1;
      ForRequestDistinct(s[..n], r);
      ForRequestIn(s[..n], r);
      var rest := ForRequest(s[..n], r);
      forall i | 0 <= i < |rest| ensures rest[i].id != s[n].id {
        assert rest[i] in s[..n];
      }
    }
  }

  lemma SameRequests(s: seq<Observation>, t: seq<Observation>)
    requires multiset(s) == multiset(t)
    ensures RequestIds(s) == RequestIds(t)
  {
    hide RequestIdOf;
    assert forall o :: o in s <==> o in multiset(s);
    assert forall o :: o in t <==> o in multiset(t);
  }

  lemma {:induction false} TracesIgnoreOrder(s: seq<Observation>, t: seq<Observation>, rids: seq<Id128>)
    requires DistinctIds(s) && multiset(s) == multiset(t)
    ensures TracesFor(s, rids) == TracesFor(t, rids)
    decreases |rids|
  {
    hide ForRequest, Reconstruct;
    if rids != [] {
      var r := rids[|rids| - 1];
      TracesIgnoreOrder(s, t, rids[..|rids| - 1]);
      ForRequestPermutes(s, t, r);
      ForRequestDistinct(s, r);
      ReconstructionIgnoresOrder(ForRequest(s, r), ForRequest(t, r), r);
    }
  }

  lemma ByIdIsWeakOrder()
    ensures WeakOrder(ById)
  {
  }

  lemma DistinctIdsCompareById(s: seq<Observation>)
    requires DistinctIds(s)
    ensures TotalOn(ById, multiset(s))
  {
    forall x, y | x in multiset(s) && y in multiset(s) ensures x == y || ById(x, y) || ById(y, x) {
      var i :| 0 <= i < |s| && s[i] == x;
      var j :| 0 <= j < |s| && s[j] == y;
    }
  }

  lemma EvidenceIgnoresOrder(s: seq<Observation>, t: seq<Observation>)
    requires DistinctIds(s) && multiset(s) == multiset(t) && AllStorable(s)
    ensures AllStorable(t) && EvidenceBytes(s) == EvidenceBytes(t)
  {
    assert |multiset(s)| == |s| && |multiset(t)| == |t|;
    assert forall o :: o in t ==> o in multiset(t);
    assert forall o :: o in multiset(s) ==> o in s;
    ByIdIsWeakOrder();
    DistinctIdsCompareById(s);
    SortIsTheOnlySorting(ById, s, t);
  }

  /** Replay depends only on which observations there are: every permutation gives the same traces
      and the same four digests. */
  lemma ReplayIgnoresOrder(views: Views, s: seq<Observation>, t: seq<Observation>)
    requires DistinctIds(s) && multiset(s) == multiset(t) && Replayable(views, s)
    ensures Replayable(views, t) && Replay(views, s) == Replay(views, t)
  {
    hide SortedKeys, EvidenceBytes, AllStorable, Renderable, Rendered, TracesFor;
    assert |multiset(s)| == |s| && |multiset(t)| == |t|;
    EvidenceIgnoresOrder(s, t);
    SameRequests(s, t);
    TracesIgnoreOrder(s, t, SortedKeys(IdLess, RequestIds(s)));
  }

  // ------------------------------------------------------------ the live index and replay

  lemma {:induction false} LookupValues<K(!new), T(!new)>(m: map<K, T>, ids: seq<K>)
    requires forall id :: id in ids ==> id in m
    ensures forall i :: 0 <= i < |ids| ==> Lookup(m, ids)[i] == m[ids[i]]
    ensures forall o :: o in Lookup(m, ids) <==> exists id :: id in ids && m[id] == o
  {
    if ids != [] {
      var n := |ids| - 1;
      LookupValues(m, ids[..n]);
      forall i | 0 <= i < |ids| ensures Lookup(m, ids)[i] == m[ids[i]] {
        if i < n { assert ids[..n][i] == ids[i]; }
      }
      forall o | o in Lookup(m, ids) ensures exists id :: id in ids && m[id] == o {
        var i :| 0 <= i < |ids| && Lookup(m, ids)[i] == o;
        assert ids[i] in ids;
      }
      forall o, id | id in ids && m[id] == o ensures o in Lookup(m, ids) {
        var i :| 0 <= i < |ids| && ids[i] == id;
        assert Lookup(m, ids)[i] == o;
      }
    }
  }

  /** The accepted observations in identity order are a permutation of the acceptance log. */
  lemma AcceptedPermutesLog(s: State, log: seq<Observation>)
    requires MapIsLog(s, log)
    ensures multiset(AcceptedInOrder(s.accepted)) == multiset(log)
    ensures DistinctIds(log) && DistinctIds(AcceptedInOrder(s.accepted))
  {
    hide SortedKeys;
    var ids := SortedKeys(IdLess, s.accepted.Keys);
    var out := AcceptedInOrder(s.accepted);
    var S := set o | o in log;
    DistinctFromSet(s.accepted.Keys, ids);
    LookupValues(s.accepted, ids);
    forall i, j | 0 <= i < j < |out| ensures out[i].id != out[j].id {
      assert ids[i] in ids && ids[j] in ids && ids[i] != ids[j];
      assert out[i].id == ids[i] && out[j].id == ids[j];
    }
    forall o ensures o in out <==> o in S {
      if o in log {
        var i :| 0 <= i < |log| && log[i] == o;
        assert o.id in ids;
      }
    }
    DistinctMultiset(out, S);
    DistinctMultiset(log, S);
  }

  /** What replay would show for each live request. */
  function LiveTraces(index: map<Id128, seq<Observation>>, rids: seq<Id128>): (t: seq<RequestTrace>)
    requires forall r :: r in rids ==> r in index
    ensures |t| == |rids|
  {
    if rids == [] then []
    else LiveTraces(index, rids[..|rids| - 1]) + [Reconstruct(index[rids[|rids| - 1]], rids[|rids| - 1])]
  }

  lemma {:induction false} LiveIsReplayed(s: State, log: seq<Observation>, rids: seq<Id128>)
    requires IndexIsLog(s, log) && forall r :: r in rids ==> r in s.byRequest
    ensures LiveTraces(s.byRequest, rids) == TracesFor(log, rids)
    decreases |rids|
  {
    hide ForRequest, Reconstruct, RequestIdOf;
    if rids != [] {
      var n := |rids| - 1;
      assert rids[n] in rids && forall r :: r in rids[..n] ==> r in rids;
      LiveIsReplayed(s, log, rids[..n]);
    }
  }

  lemma IndexKeysAreRequests(s: State, log: seq<Observation>)
    requires IndexIsLog(s, log)
    ensures s.byRequest.Keys == RequestIds(log)
  {
    hide RequestIdOf, ForRequest;
  }

  /** In every reachable state the live index shows exactly what replaying the accepted evidence
      would rebuild: the same requests, and for each the same trace. */
  lemma LiveIndexAgreesWithReplay(keyOf: KeyFunction, steps: seq<Step>)
    ensures var s := Run(keyOf, steps).s;
            && s.byRequest.Keys == RequestIds(AcceptedInOrder(s.accepted))
            && LiveTraces(s.byRequest, SortedKeys(IdLess, s.byRequest.Keys)) == TracesOf(AcceptedInOrder(s.accepted))
  {
    hide Run, SortedKeys, RequestIds, AcceptedInOrder, TracesFor, LiveTraces;
    var w := Run(keyOf, steps);
    ReachableConsistent(keyOf, steps);
    AcceptedPermutesLog(w.s, w.log);
    SameRequests(w.log, AcceptedInOrder(w.s.accepted));
    IndexKeysAreRequests(w.s, w.log);
    var rids := SortedKeys(IdLess, w.s.byRequest.Keys);
    LiveIsReplayed(w.s, w.log, rids);
    TracesIgnoreOrder(w.log, AcceptedInOrder(w.s.accepted), rids);
  }

  // ------------------------------------------------------------ the code

  method GroupByRequest(s: seq<Observation>) returns (groups: map<Id128, seq<Observation>>)
    ensures groups.Keys == RequestIds(s)
    ensures forall r :: r in groups ==> groups[r] == ForRequest(s, r)
  {
    hide RequestIdOf;
    groups := map[];
    for i := 0 to |s|
      invariant groups.Keys == RequestIds(s[..i])
      invariant forall r :: r in groups ==> groups[r] == ForRequest(s[..i], r)
    {
      var o := s[i];
      var rid := RequestIdOf(o);
      assert s[..i + 1] == s[..i] + [o];
      OneMoreRequest(s[..i], o);
      forall r ensures ForRequest(s[..i + 1], r) == if rid
          == r then ForRequest(s[..i], r) + [o] else ForRequest(s[..i], r) {
        ForRequestAppend(s[..i], o, r);
      }
      if !rid.IsNull() {
        if rid !in groups { NoneForRequest(s[..i], rid); }
        groups := groups[rid := (if rid in groups then groups[rid] else []) + [o]];
      }
    }
    assert s[..|s|] == s;
  }

  lemma OneMoreRequest(s: seq<Observation>, o: Observation)
    ensures RequestIds(s + [o]) == RequestIds(s) + if RequestIdOf(o).IsNull() then {} else {RequestIdOf(o)}
  {
    hide RequestIdOf;
    assert forall p :: p in s + [o] <==> p in s || p == o;
  }

  lemma NoneForRequest(s: seq<Observation>, r: Id128)
    requires r !in RequestIds(s) && !r.IsNull()
    ensures ForRequest(s, r) == []
  {
    hide RequestIdOf;
    ForRequestNone(s, r);
  }

  /** `write_bytes(encode_observation_payload(o))`. */
  method WriteStored(w: BinaryWriter, o: Observation) returns (r: Result<()>)
    modifies w
    ensures r.Ok? <==> Storable(o)
    ensures r.Ok? ==> w.buf == old(w.buf) + Blob(Encode(o))
  {
    hide Encode, Fits, Blob;
    var b :- EncodePayload(o);
    var _ :- w.WriteBlob(b);
    return Ok(());
  }

  lemma OneMoreStored(base: Bytes, s: seq<Observation>, i: nat)
    requires i < |s|
    ensures AllStorable(s[..i + 1]) <==> AllStorable(s[..i]) && Storable(s[i])
    ensures AllStorable(s[..i + 1]) ==>
              base + EncodedBlobs(s[..i + 1]) == base + EncodedBlobs(s[..i]) + Blob(Encode(s[i]))
    ensures AllStorable(s) ==> Storable(s[i])
  {
    hide Fits, Encode, Blob;
    assert s[..i + 1][..i] == s[..i] && s[i] in s;
    assert forall p :: p in s[..i + 1] <==> p in s[..i] || p == s[i];
    if AllStorable(s[..i + 1]) {
      assert s[i] in s[..i + 1] && Storable(s[i]);
      var a, b := EncodedBlobs(s[..i]), Blob(Encode(s[i]));
      assert base + (a + b) == base + a + b;
    }
  }

  method WriteAllStored(w: BinaryWriter, s: seq<Observation>) returns (r: Result<()>)
    modifies w
    ensures r.Ok? <==> AllStorable(s)
    ensures r.Ok? ==> w.buf == old(w.buf) + EncodedBlobs(s)
  {
    hide Encode, Blob, AllStorable, Storable, EncodedBlobs;
    ghost var base := w.buf;
    NothingStored(base, s);
    for i := 0 to |s|
      invariant AllStorable(s[..i]) && w.buf == base + EncodedBlobs(s[..i])
    {
      OneMoreStored(base, s, i);
      var _ :- WriteStored(w, s[i]);
    }
    assert s[..|s|] == s;
    return Ok(());
  }

  lemma NothingStored(base: Bytes, s: seq<Observation>)
    ensures AllStorable(s[..0]) && base + EncodedBlobs(s[..0]) == base
  {
  }

  method EvidenceDigestOf(s: seq<Observation>) returns (r: Result<Bytes>)
    ensures r.Ok? <==> AllStorable(s)
    ensures r.Ok? ==> r.value == Sha256.Hash(EvidenceBytes(s))
  {
    SortMembers(s);
    hide AllStorable, EncodedBlobs, SortBy;
    var sorted := SortBy(ById, s);
    var w := new BinaryWriter();
    w.WriteU64(|s| % TWO_64);
    var _ :- WriteAllStored(w, sorted);
    assert w.buf == BE(|s| % TWO_64, 8) + EncodedBlobs(sorted);
    var d := Sha256.HashBytes(w.buf);
    return Ok(d);
  }

  lemma SortMembers(s: seq<Observation>)
    ensures forall o :: o in SortBy(ById, s) <==> o in s
    ensures AllStorable(SortBy(ById, s)) <==> AllStorable(s)
  {
    hide Storable, SortBy;
    assert forall o :: o in SortBy(ById, s) <==> o in multiset(SortBy(ById, s));
    assert forall o :: o in multiset(s) <==> o in s;
  }

  method RenderAll(view: RequestTrace -> Bytes, ts: seq<RequestTrace>) returns (r: Result<Bytes>)
    ensures r.Ok? <==> Renderable(view, ts)
    ensures r.Ok? ==> r.value == Rendered(view, ts)
  {
    hide Blob;
    var w := new BinaryWriter();
    for i := 0 to |ts|
      invariant Renderable(view, ts[..i]) && w.buf == Rendered(view, ts[..i])
    {
      assert ts[..i + 1][..i] == ts[..i];
      var _ :- w.WriteBlob(view(ts[i]));
    }
    assert ts[..|ts|] == ts;
    return Ok(w.buf);
  }

  method ReconstructAll(s: seq<Observation>) returns (ts: seq<RequestTrace>)
    ensures ts == TracesOf(s)
  {
    hide Reconstruct, ForRequest, RequestIds;
    var groups := GroupByRequest(s);
    IdLessTotal();
    hide TotalOrder;
    var rids := KeysInOrder(IdLess, groups.Keys);
    ts := [];
    for i := 0 to |rids|
      invariant ts == TracesFor(s, rids[..i])
    {
      assert rids[i] in groups && rids[..i + 1][..i] == rids[..i];
      var t := ReconstructTrace(groups[rids[i]], rids[i]);
      ts := ts + [t];
    }
    assert rids[..|rids|] == rids;
  }

  method ReplayAll(views: Views, s: seq<Observation>) returns (r: Result<ReplayResult>)
    ensures r.Ok? <==> Replayable(views, s)
    ensures r.Ok? ==> r.value == Replay(views, s)
  {
    hide AllStorable, Renderable, TracesOf, EvidenceBytes, Sha256.Hash;
    var evidence :- EvidenceDigestOf(s);
    var ts := ReconstructAll(s);
    var tw :- RenderAll(views.trace, ts);
    var xw :- RenderAll(views.explanation, ts);
    var td := Sha256.HashBytes(tw);
    var xd := Sha256.HashBytes(xw);
    var ad := Sha256.HashBytes(views.aggregate(|s|, ts));
    return Ok(ReplayResult(|s|, |ts|, evidence, td, xd, ad, ts));
  }
}
