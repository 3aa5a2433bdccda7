/** A whole transfer through the postgres_bytea backend: what is downloaded is what was uploaded. */
module ChunkDelivery {
  import opened Hashing
  import opened LinkArchiveDb
  import opened ChunkBlobs

  /** The bodies' digests in order, as the old device feeds them to its manifest hash. */
  function BodyHashes(sha: Sha256, bodies: seq<Bytes>, n: nat): Bytes
    requires n <= |bodies|
  {
    if n == 0 then [] else BodyHashes(sha, bodies, n - 1) + sha(bodies[n - 1]).bytes
  }

  function BodyBytes(bodies: seq<Bytes>, n: nat): nat
    requires n <= |bodies|
  {
    if n == 0 then 0 else BodyBytes(bodies, n - 1) + |bodies[n - 1]|
  }

  /** What the old device announces at init. */
  function ManifestOf(sha: Sha256, user: string, bodies: seq<Bytes>): Manifest {
    Manifest(user, |bodies|, BodyBytes(bodies, |bodies|), sha(BodyHashes(sha, bodies, |bodies|)))
  }

  /** The old device's own requests are uploads of its bodies with true headers, in any order and any number
      of times, and touches. */
  predicate Honest(sha: Sha256, r: Request, id: ArchiveId, bodies: seq<Bytes>) {
    r.id == id ==>
      r.Touch? || (r.Upload? && r.idx < |bodies| && r.body == bodies[r.idx] && r.declared == sha(r.body))
  }

  /** Its requests come before the sliding expiry of the one before, and before the hard deadline. */
  predicate Timely(requests: seq<(Request, int)>, id: ArchiveId, last: int, deadline: int)
    decreases |requests|
  {
    requests == [] ||
    (if requests[0].0.id != id then Timely(requests[1..], id, last, deadline)
     else last <= requests[0].1 < Min(last + DEFAULT_EXPIRY, deadline)
          && Timely(requests[1..], id, requests[0].1, deadline))
  }

  function Indices(requests: seq<(Request, int)>, id: ArchiveId): set<nat> {
    set k | 0 <= k < |requests| && requests[k].0.id == id && requests[k].0.Upload? :: requests[k].0.idx
  }

  /** The time of the last of its requests. */
  function LastOf(requests: seq<(Request, int)>, id: ArchiveId, last: int): int
    decreases |requests|
  {
    if requests == [] then last
    else LastOf(requests[1..], id, if requests[0].0.id == id then requests[0].1 else last)
  }

  /** The archive while its bodies arrive: rows and blobs of exactly these. */
  ghost predicate Holding(sha: Sha256, s: Store, id: ArchiveId, m: Manifest, bodies: seq<Bytes>, sent: set<nat>,
                          begun: int, last: int) {
    && id in s.db.archives && (forall i :: i in sent ==> i < |bodies|)
    && s.db.archives[id]
       == Archive(m, false, Uploading, begun, Min(last + DEFAULT_EXPIRY, begun + MAX_LIFETIME), begun + MAX_LIFETIME)
    && (forall i :: i in ChunksOf(s.db, id) <==> i in sent)
    && (forall i :: i in sent ==> ChunksOf(s.db, id)[i] == ChunkRow(|bodies[i]|, sha(bodies[i])))
    && (forall i :: (id, i) in s.blobs <==> i in sent)
    && (forall i :: i in sent ==> s.blobs[(id, i)] == bodies[i])
  }

  lemma InitHolds(sha: Sha256, s: Store, id: ArchiveId, m: Manifest, bodies: seq<Bytes>, now: int)
    requires Sound(sha, s) && id !in s.db.archives
    ensures Holding(sha, Serve(sha, s, Init(id, m), now), id, m, bodies, {}, now, now)
  {
    assert id !in s.db.chunks;
    assert forall i :: (id, i) in s.blobs ==> id in s.db.chunks;
  }

  /** A request for another archive touches nothing of this one. */
  lemma OthersStayOut(sha: Sha256, s: Store, r: Request, now: int, id: ArchiveId)
    requires r.id != id
    ensures var after := Serve(sha, s, r, now);
      && (id in after.db.archives <==> id in s.db.archives)
      && (id in s.db.archives ==> after.db.archives[id] == s.db.archives[id])
      && ChunksOf(after.db, id) == ChunksOf(s.db, id)
      && forall i: nat ::
           && ((id, i) in after.blobs <==> (id, i) in s.blobs)
           && ((id, i) in s.blobs ==> after.blobs[(id, i)] == s.blobs[(id, i)])
  {
    hide Delivers, Fresh, OnlyIndex, ChunkBlobs.Uploaded, UploadAccepted;
    if r.Upload? && UploadAccepted(s, r.id, r.idx, r.body, now) {
      UploadOnlyIndex(sha, s, r.id, r.idx, r.body, r.declared, now);
      OtherRows(s, ChunkBlobs.Uploaded(sha, s, r.id, r.idx, r.body, r.declared, now), r.id, r.idx, id);
      UploadOtherArchive(sha, s, r.id, r.idx, r.body, r.declared, now, id);
    }
  }

  lemma UploadOtherArchive(sha: Sha256, s: Store, k: ArchiveId, idx: nat, body: Bytes, declared: Digest, now: int,
                           id: ArchiveId)
    requires id != k
    ensures var after := ChunkBlobs.Uploaded(sha, s, k, idx, body, declared, now).db.archives;
      (id in after <==> id in s.db.archives) && (id in s.db.archives ==> after[id] == s.db.archives[id])
  {
  }

  lemma OtherRows(s: Store, after: Store, k: ArchiveId, idx: nat, id: ArchiveId)
    requires OnlyIndex(s, after, k, idx) && id != k
    ensures ChunksOf(after.db, id) == ChunksOf(s.db, id)
    ensures forall i: nat ::
      && ((id, i) in after.blobs <==> (id, i) in s.blobs)
      && ((id, i) in s.blobs ==> after.blobs[(id, i)] == s.blobs[(id, i)])
  {
  }

  lemma UploadHolds(sha: Sha256, s: Store, id: ArchiveId, m: Manifest, bodies: seq<Bytes>, sent: set<nat>,
                    begun: int, last: int, idx: nat, now: int)
    requires Holding(sha, s, id, m, bodies, sent, begun, last) && m.totalChunks == |bodies| && idx < |bodies|
    requires now < Min(last + DEFAULT_EXPIRY, begun + MAX_LIFETIME) && 0 < |bodies[idx]| <= CHUNK_BODY_MAX
    ensures var after := Serve(sha, s, Upload(id, idx, bodies[idx], sha(bodies[idx])), now);
      Holding(sha, after, id, m, bodies, sent + {idx}, begun, now)
  {
    assert UploadAccepted(s, id, idx, bodies[idx], now);
  }

  lemma OneRequest(sha: Sha256, s: Store, id: ArchiveId, m: Manifest, bodies: seq<Bytes>, sent: set<nat>,
                   begun: int, last: int, r: Request, now: int)
    requires Holding(sha, s, id, m, bodies, sent, begun, last) && m.totalChunks == |bodies|
    requires forall b :: b in bodies ==> 0 < |b| <= CHUNK_BODY_MAX
    requires Honest(sha, r, id, bodies) && Timely([(r, now)], id, last, begun + MAX_LIFETIME)
    ensures Holding(sha, Serve(sha, s, r, now), id, m, bodies,
                    sent + if r.id == id && r.Upload? then {r.idx} else {}, begun, if r.id == id then now else last)
  {
    if r.id != id {
      OthersStayOut(sha, s, r, now, id);
      hide Serve;
    } else if r.Upload? {
      assert bodies[r.idx] in bodies;
      hide Holding, Serve;
      UploadHolds(sha, s, id, m, bodies, sent, begun, last, r.idx, now);
    }
  }

  lemma {:induction false} AllRequests(sha: Sha256, s: Store, id: ArchiveId, m: Manifest, bodies: seq<Bytes>,
                                       sent: set<nat>, begun: int, last: int, requests: seq<(Request, int)>)
    requires Holding(sha, s, id, m, bodies, sent, begun, last) && m.totalChunks == |bodies|
    requires forall b :: b in bodies ==> 0 < |b| <= CHUNK_BODY_MAX
    requires forall q :: q in requests ==> Honest(sha, q.0, id, bodies)
    requires Timely(requests, id, last, begun + MAX_LIFETIME)
    ensures Holding(sha, RunStore(sha, s, requests), id, m, bodies, sent + Indices(requests, id), begun,
                    LastOf(requests, id, last))
    decreases |requests|
  {
    hide Holding, Serve, Honest;
    if requests == [] {
      assert sent + Indices(requests, id) == sent;
    } else {
      var (r, now) := requests[0];
      assert requests[0] in requests;
      OneRequest(sha, s, id, m, bodies, sent, begun, last, r, now);
      var next, mine := if r.id == id then now else last, if r.id == id && r.Upload? then {r.idx} else {};
      AllRequests(sha, Serve(sha, s, r, now), id, m, bodies, sent + mine, begun, next, requests[1..]);
      assert Indices(requests, id) == mine + Indices(requests[1..], id) by { FirstIndex(requests, id); }
      assert sent + mine + Indices(requests[1..], id) == sent + Indices(requests, id);
    }
  }

  lemma FirstIndex(requests: seq<(Request, int)>, id: ArchiveId)
    requires requests != []
    ensures Indices(requests, id) == Indices(requests[1..], id) +
      if requests[0].0.id == id && requests[0].0.Upload? then {requests[0].0.idx} else {}
  {
    var rest := requests[1..];
    assert forall k :: 0 < k < |requests| ==> requests[k] == rest[k - 1];
    forall i | i in Indices(requests[1..], id) ensures i in Indices(requests, id) {
      var k :| 0 <= k < |rest| && rest[k].0.id == id && rest[k].0.Upload? && rest[k].0.idx == i;
      assert requests[k + 1] == rest[k];
    }
  }

  lemma {:induction false} BodiesDeliver(sha: Sha256, rows: map<nat, ChunkRow>, bodies: seq<Bytes>, n: nat)
    requires n <= |bodies| && forall i: nat :: i < n ==> i in rows && rows[i] == ChunkRow(|bodies[i]|, sha(bodies[i]))
    ensures HasAll(rows, n) && HashBytes(rows, n) == BodyHashes(sha, bodies, n)
    ensures TotalSize(rows, n) == BodyBytes(bodies, n)
  {
    if n > 0 {
      BodiesDeliver(sha, rows, bodies, n - 1);
    }
  }

  lemma FinalizeCompletes(sha: Sha256, s: Store, id: ArchiveId, m: Manifest, user: string, bodies: seq<Bytes>,
                          sent: set<nat>, begun: int, last: int, now: int)
    requires m == ManifestOf(sha, user, bodies) && Holding(sha, s, id, m, bodies, sent, begun, last)
    requires (forall i: nat :: i < |bodies| ==> i in sent) && now < Min(last + DEFAULT_EXPIRY, begun + MAX_LIFETIME)
    ensures var after := Serve(sha, s, Finalize(id), now);
      && id in after.db.archives && after.db.archives[id].finalized && after.db.archives[id].state == Available
      && after.db.archives[id].manifest == m
      && forall i: nat :: i < |bodies| ==> (id, i) in after.blobs && after.blobs[(id, i)] == bodies[i]
  {
    BodiesDeliver(sha, ChunksOf(s.db, id), bodies, |bodies|);
    hide HashBytes, TotalSize, BodyHashes, BodyBytes, HasAll;
  }

  /** In any sound store, so after any allowed serialised run: an old device that inits with the manifest of
      its bodies, uploads every one of them in time and finalizes makes the archive available, and what is
      downloaded is exactly the bodies. Requests for other archives, good or bad, may come anywhere between. */
  lemma DownloadIsUpload(sha: Sha256, s: Store, id: ArchiveId, user: string, bodies: seq<Bytes>, begun: int,
                         requests: seq<(Request, int)>, now: int)
    requires Sound(sha, s) && id !in s.db.archives
    requires forall b :: b in bodies ==> 0 < |b| <= CHUNK_BODY_MAX
    requires forall q :: q in requests ==> Honest(sha, q.0, id, bodies)
    requires Timely(requests, id, begun, begun + MAX_LIFETIME)
    requires now < Min(LastOf(requests, id, begun) + DEFAULT_EXPIRY, begun + MAX_LIFETIME)
    requires forall i: nat :: i < |bodies| ==> i in Indices(requests, id)
    ensures var m := ManifestOf(sha, user, bodies);
      var sent := RunStore(sha, Serve(sha, s, Init(id, m), begun), requests);
      var after := Serve(sha, sent, Finalize(id), now);
      && id in after.db.archives && after.db.archives[id].finalized && after.db.archives[id].state == Available
      && after.db.archives[id].manifest == m
      && forall i: nat :: i < |bodies| ==> (id, i) in after.blobs && after.blobs[(id, i)] == bodies[i]
  {
    var m := ManifestOf(sha, user, bodies);
    hide Serve, RunStore, Sound, Timely, Honest, Holding, Indices, LastOf;
    InitHolds(sha, s, id, m, bodies, begun);
    AllRequests(sha, Serve(sha, s, Init(id, m), begun), id, m, bodies, {}, begun, begun, requests);
    assert {} + Indices(requests, id) == Indices(requests, id);
    var sent := RunStore(sha, Serve(sha, s, Init(id, m), begun), requests);
    FinalizeCompletes(sha, sent, id, m, user, bodies, Indices(requests, id), begun, LastOf(requests, id, begun), now);
  }
}
