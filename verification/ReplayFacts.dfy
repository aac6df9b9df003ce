/** What a replay reports, in terms of the evidence it was given (src/replay.cpp:24-95). */
module ReplayFacts {
  import opened Types
  import opened BigEndian
  import opened Identity
  import opened Ordering
  import opened Wire
  import opened Observations
  import opened ObservationCodec
  import opened Coordinators
  import opened Traces
  import opened Replays
  import opened Layouts
  import opened ArchiveLayout
  import Sha256

  /** The request an observation names; the null identity when it names none. */
  ghost predicate Names(o: Observation, r: Id128) {
    var key := Ascii("request_id");
    if key in o.fields && o.fields[key].Ident? then o.fields[key].id == r else r.hi == 0 && r.lo == 0
  }

  lemma NamesRequest(o: Observation, r: Id128)
    ensures Names(o, r) <==> RequestIdOf(o) == r
  {
  }

  /** The evidence of one request: every observation that names it, as often as it was given. */
  ghost predicate IsGroup(w: seq<Observation>, s: seq<Observation>, r: Id128) {
    forall o :: multiset(w)[o] == if Names(o, r) then multiset(s)[o] else 0
  }

  /** A trace reconstructed from exactly the evidence of its request. */
  ghost predicate IsReconstructed(t: RequestTrace, s: seq<Observation>) {
    exists w :: IsGroup(w, s, t.requestId) && t == Reconstruct(w, t.requestId)
  }

  lemma GroupIsForRequest(s: seq<Observation>, r: Id128)
    ensures IsGroup(ForRequest(s, r), s, r)
  {
    hide Names, RequestIdOf;
    forall o ensures multiset(ForRequest(s, r))[o] == if Names(o, r) then multiset(s)[o] else 0 {
      ForRequestCounts(s, r, o);
      NamesRequest(o, r);
    }
  }

  function Numeral(v: Id128): nat {
    v.hi * 0x1_0000_0000_0000_0000 + v.lo
  }

  ghost predicate Requested(s: seq<Observation>, r: Id128) {
    Numeral(r) != 0 && exists o :: o in s && Names(o, r)
  }

  lemma RequestedIsRequestIds(s: seq<Observation>, r: Id128)
    ensures r in RequestIds(s) <==> Requested(s, r)
  {
    hide Names, RequestIdOf;
    forall o ensures Names(o, r) <==> RequestIdOf(o) == r { NamesRequest(o, r); }
  }

  lemma {:induction false} TracesForAt(s: seq<Observation>, rids: seq<Id128>, i: nat)
    requires i < |rids|
    ensures TracesFor(s, rids)[i] == Reconstruct(ForRequest(s, rids[i]), rids[i])
    ensures TracesFor(s, rids)[i].requestId == rids[i]
    decreases |rids|
  {
    hide ForRequest;
    var n := |rids| - 1;
    if i < n { TracesForAt(s, rids[..n], i); }
  }

  /** One trace for every request that is named, in rising order of the identities, each the
      reconstruction of exactly the evidence that names it. */
  lemma ReplayTraces(s: seq<Observation>)
    ensures var ts := TracesOf(s);
            && (forall i, j :: 0 <= i < j < |ts| ==> Numeral(ts[i].requestId) < Numeral(ts[j].requestId))
            && (forall r :: Requested(s, r) <==> exists i :: 0 <= i < |ts| && ts[i].requestId == r)
            && (forall i :: 0 <= i < |ts| ==> IsReconstructed(ts[i], s))
  {
    hide ForRequest, Reconstruct, IsGroup, Requested, SortedKeys, RequestIds, TracesFor;
    var rids := SortedKeys(IdLess, RequestIds(s));
    var ts := TracesOf(s);
    IdLessTotal();
    SortedKeysSorted(IdLess, RequestIds(s));
    forall i | 0 <= i < |ts|
      ensures ts[i] == Reconstruct(ForRequest(s, rids[i]), rids[i]) && ts[i].requestId == rids[i] {
      TracesForAt(s, rids, i);
    }
    forall i, j | 0 <= i < j < |ts| ensures Numeral(ts[i].requestId) < Numeral(ts[j].requestId) {
      assert IdLess(rids[i], rids[j]);
      IdLessIsNumeric(rids[i], rids[j]);
    }
    forall r ensures Requested(s, r) <==> exists i :: 0 <= i < |ts| && ts[i].requestId == r {
      RequestedIsRequestIds(s, r);
      assert r in RequestIds(s) <==> r in rids;
      if r in rids {
        var i :| 0 <= i < |rids| && rids[i] == r;
        assert ts[i].requestId == r;
      }
      if i :| 0 <= i < |ts| && ts[i].requestId == r { assert rids[i] == r; }
    }
    forall i | 0 <= i < |ts| ensures IsReconstructed(ts[i], s) {
      GroupIsForRequest(s, rids[i]);
      assert IsGroup(ForRequest(s, rids[i]), s, ts[i].requestId);
    }
  }

  // ------------------------------------------------------------ what the digests cover

  /** Bytes taken by the length-prefixed renderings of a list of traces. */
  function RenderedWidth(view: RequestTrace -> Bytes, ts: seq<RequestTrace>): nat {
    if ts == [] then 0 else RenderedWidth(view, ts[..|ts| - 1]) + 4 + |view(ts[|ts| - 1])|
  }

  /** Nothing but the renderings of the traces, in order. */
  ghost predicate RendersAll(b: Bytes, view: RequestTrace -> Bytes, ts: seq<RequestTrace>) {
    && |b| == RenderedWidth(view, ts)
    && forall i :: 0 <= i < |ts| ==> TextAt(b, RenderedWidth(view, ts[..i]), view(ts[i]))
  }

  lemma TextStays(b: Bytes, e: Bytes, at: nat, t: Bytes)
    requires TextAt(b, at, t)
    ensures TextAt(b + e, at, t)
  {
  }

  lemma {:induction false} RenderedRendersAll(view: RequestTrace -> Bytes, ts: seq<RequestTrace>)
    ensures RendersAll(Rendered(view, ts), view, ts)
    decreases |ts|
  {
    hide TextAt, Blob;
    if ts != [] {
      var n := |ts| - 1;
      var b, e := Rendered(view, ts[..n]), Blob(view(ts[n]));
      RenderedRendersAll(view, ts[..n]);
      forall i | 0 <= i < |ts| ensures TextAt(b + e, RenderedWidth(view, ts[..i]), view(ts[i])) {
        if i < n {
          assert ts[..n][..i] == ts[..i];
          TextStays(b, e, RenderedWidth(view, ts[..i]), view(ts[i]));
        } else {
          assert ts[..i] == ts[..n];
          assert (b + e)[|b|..] == e;
          TakeLastText(b + e, |b|, view(ts[n]));
        }
      }
    }
  }

  /** The same observations in order of their identities. */
  ghost predicate OrderedById(w: seq<Observation>, s: seq<Observation>) {
    multiset(w) == multiset(s) && forall i, j :: 0 <= i < j < |w| ==> Numeral(w[i].id) <= Numeral(w[j].id)
  }

  lemma SortOrdersById(s: seq<Observation>)
    ensures OrderedById(SortBy(ById, s), s)
  {
    hide SortBy;
    var w := SortBy(ById, s);
    ByIdIsWeakOrder();
    SortBySorts(ById, s);
    hide WeakOrder;
    forall i, j | 0 <= i < j < |w| ensures Numeral(w[i].id) <= Numeral(w[j].id) {
      assert !ById(w[j], w[i]);
      IdLessIsNumeric(w[j].id, w[i].id);
    }
  }

  /** The count, then every observation once, in order of the identities. */
  ghost predicate CoversEvidence(b: Bytes, s: seq<Observation>) {
    && NumberAt(b, 0, 8, |s| % 0x1_0000_0000_0000_0000)
    && exists w: seq<Observation> ::
      OrderedById(w, s) && PayloadsAt(b, 8, w) && |b| == 8 + PayloadsWidth(w)
  }

  lemma EvidenceBytesCover(s: seq<Observation>)
    requires AllStorable(s)
    ensures CoversEvidence(EvidenceBytes(s), s)
  {
    hide AllStorable, BE, EncodedBlobs, NumberAt, PayloadsAt, SortBy, OrderedById, PayloadsWidth, Rests;
    var b := EvidenceBytes(s);
    var w := SortBy(ById, s);
    SortOrdersById(s);
    SortKeepsStorable(s);
    Start(b, |s| % TWO_64, EncodedBlobs(w));
    TakeNumber(b, 0, |s| % TWO_64, 8, EncodedBlobs(w));
    assert EncodedBlobs(w) + [] == EncodedBlobs(w);
    TakePayloads(b, 8, w, []);
    Finish(b, 8 + PayloadsWidth(w));
  }

  lemma Start(b: Bytes, v: nat, s: Bytes)
    requires b == BE(v, 8) + s
    ensures Rests(b, 0, BE(v, 8) + s)
  {
  }

  lemma Finish(b: Bytes, at: nat)
    requires Rests(b, at, [])
    ensures |b| == at
  {
  }

  /** The counts and the four digests of a replay. */
  lemma ReplayReports(views: Views, s: seq<Observation>)
    requires Replayable(views, s)
    ensures var r := Replay(views, s);
            && r.traces == TracesOf(s) && r.obsCount == |s| && r.traceCount == |r.traces|
            && (exists b :: CoversEvidence(b, s) && r.evidenceDigest == Sha256.Hash(b))
            && (exists b :: RendersAll(b, views.trace, r.traces) && r.traceDigest == Sha256.Hash(b))
            && (exists b :: RendersAll(b, views.explanation, r.traces) && r.explanationDigest == Sha256.Hash(b))
            && r.aggregateDigest == Sha256.Hash(views.aggregate(|s|, r.traces))
  {
    hide CoversEvidence, RendersAll, TracesOf, EvidenceBytes, Sha256.Hash, AllStorable, Renderable, Rendered;
    EvidenceBytesCover(s);
    RenderedRendersAll(views.trace, TracesOf(s));
    RenderedRendersAll(views.explanation, TracesOf(s));
  }
}
