/** The postgres_bytea backend under the upload, finalize and purge handlers, each run without
    interruption: when does a chunk row's stored blob hash to the row's chunk_hash? */
module ChunkBlobs {
  import opened Basics
  import opened Hashing
  import opened LinkArchiveDb

  /** storage_key is archiveID/idx; a pair here. */
  type Key = (ArchiveId, nat)

  datatype Store = Store(db: Db, blobs: map<Key, Bytes>)

  /** INSERT ... ON CONFLICT (storage_key) DO NOTHING: the first writer wins. */
  function PutBlob(s: Store, key: Key, body: Bytes): Store {
    if key in s.blobs then s else s.(blobs := s.blobs[key := body])
  }

  function DropBlob(s: Store, key: Key): Store { s.(blobs := s.blobs - {key}) }

  predicate UploadAccepted(s: Store, id: ArchiveId, idx: nat, body: Bytes, now: int) {
    && id in s.db.archives && Fresh(s.db.archives[id], now) && !s.db.archives[id].finalized
    && idx < s.db.archives[id].manifest.totalChunks && 0 < |body| <= CHUNK_BODY_MAX
  }

  /** linkArchiveUploadChunk past its checks: put, compare, insert the row. The digest compared and
      stored is that of the bytes received, whatever the blob table kept. */
  function Uploaded(sha: Sha256, s: Store, id: ArchiveId, idx: nat, body: Bytes, declared: Digest, now: int): Store {
    var put := PutBlob(s, (id, idx), body);
    if sha(body) != declared then DropBlob(put, (id, idx)) else
      var inserted := put.(db := InsertChunk(put.db, id, idx, ChunkRow(|body|, sha(body))));
      if InsertReport(put.db, id, idx, ChunkRow(|body|, sha(body))).Accepted?
      then inserted.(db := Refresh(inserted.db, id, now)) else inserted
  }

  /** Every chunk row's blob is there and hashes to the row's chunk_hash. */
  ghost predicate BlobsMatch(sha: Sha256, s: Store) {
    forall id, idx :: id in s.db.chunks && idx in s.db.chunks[id] ==>
      (id, idx) in s.blobs && sha(s.blobs[(id, idx)]) == s.db.chunks[id][idx].hash
  }

  /** No blob without a chunk row. */
  ghost predicate NoStrays(s: Store) {
    forall id, idx :: (id, idx) in s.blobs ==> id in s.db.chunks && idx in s.db.chunks[id]
  }

  /** Exactly when one upload keeps rows and blobs together. Re-sending an index that has a row must
      carry a true header, because the rollback of a false one deletes the row's blob; a first
      upload must not meet a leftover blob with another digest. */
  lemma UploadKeepsMatchIff(sha: Sha256, s: Store, id: ArchiveId, idx: nat, body: Bytes, declared: Digest, now: int)
    requires BlobsMatch(sha, s) && UploadAccepted(s, id, idx, body, now)
    ensures BlobsMatch(sha, Uploaded(sha, s, id, idx, body, declared, now)) <==>
      if idx in ChunksOf(s.db, id) then declared == sha(body)
      else declared == sha(body) && (id, idx) in s.blobs ==> sha(s.blobs[(id, idx)]) == sha(body)
  {
    hide Uploaded, UploadAccepted, BlobsMatch, OnlyIndex;
    UploadTables(sha, s, id, idx, body, declared, now);
    var after := Uploaded(sha, s, id, idx, body, declared, now);
    OneKeyDecides(sha, s, after, id, idx);
    assert IndexMatches(sha, s, id, idx);
  }

  /** What an upload does to the one index, and that it does nothing to any other. */
  lemma UploadTables(sha: Sha256, s: Store, id: ArchiveId, idx: nat, body: Bytes, declared: Digest, now: int)
    requires UploadAccepted(s, id, idx, body, now)
    ensures var after, key := Uploaded(sha, s, id, idx, body, declared, now), (id, idx);
      && OnlyIndex(s, after, id, idx)
      && (if declared != sha(body) then key !in after.blobs
          else key in after.blobs && after.blobs[key] == if key in s.blobs then s.blobs[key] else body)
      && (if idx in ChunksOf(s.db, id) || declared != sha(body) then after.db.chunks == s.db.chunks
          else idx in ChunksOf(after.db, id) && ChunksOf(after.db, id)[idx].hash == sha(body))
  {
    hide Fresh, OnlyIndex;
    UploadOnlyIndex(sha, s, id, idx, body, declared, now);
  }

  lemma UploadOnlyIndex(sha: Sha256, s: Store, id: ArchiveId, idx: nat, body: Bytes, declared: Digest, now: int)
    requires UploadAccepted(s, id, idx, body, now)
    ensures OnlyIndex(s, Uploaded(sha, s, id, idx, body, declared, now), id, idx)
  {
    hide Fresh;
  }

  /** Blobs and rows of every other index are as before. */
  ghost predicate OnlyIndex(s: Store, after: Store, id: ArchiveId, idx: nat) {
    && (forall k :: k != (id, idx) ==> (k in after.blobs <==> k in s.blobs))
    && (forall k :: k != (id, idx) && k in s.blobs ==> after.blobs[k] == s.blobs[k])
    && (forall a, i: nat :: (a, i) != (id, idx) ==> (i in ChunksOf(after.db, a) <==> i in ChunksOf(s.db, a)))
    && (forall a, i: nat :: (a, i) != (id, idx) && i in ChunksOf(s.db, a) ==>
          ChunksOf(after.db, a)[i] == ChunksOf(s.db, a)[i])
  }

  predicate IndexMatches(sha: Sha256, s: Store, id: ArchiveId, idx: nat) {
    idx in ChunksOf(s.db, id) ==>
      (id, idx) in s.blobs && sha(s.blobs[(id, idx)]) == ChunksOf(s.db, id)[idx].hash
  }

  lemma OneKeyDecides(sha: Sha256, s: Store, after: Store, id: ArchiveId, idx: nat)
    requires OnlyIndex(s, after, id, idx)
    ensures (forall a, i: nat :: (a, i) != (id, idx) ==> IndexMatches(sha, s, a, i)) ==>
      (BlobsMatch(sha, after) <==> IndexMatches(sha, after, id, idx))
    ensures BlobsMatch(sha, s) <==> forall a, i :: IndexMatches(sha, s, a, i)
  {
    MatchByIndex(sha, s);
    MatchByIndex(sha, after);
    forall a, i: nat | (a, i) != (id, idx) ensures IndexMatches(sha, after, a, i) <==> IndexMatches(sha, s, a, i) {
      assert (a, i) in after.blobs <==> (a, i) in s.blobs;
    }
    hide OnlyIndex, BlobsMatch;
  }

  lemma MatchByIndex(sha: Sha256, s: Store)
    ensures BlobsMatch(sha, s) <==> forall a, i :: IndexMatches(sha, s, a, i)
  {
    if BlobsMatch(sha, s) {
      forall a, i ensures IndexMatches(sha, s, a, i) {
        if i in ChunksOf(s.db, a) {
          assert a in s.db.chunks && i in s.db.chunks[a];
        }
      }
    }
    if forall a, i :: IndexMatches(sha, s, a, i) {
      forall a, i | a in s.db.chunks && i in s.db.chunks[a]
        ensures (a, i) in s.blobs && sha(s.blobs[(a, i)]) == s.db.chunks[a][i].hash
      {
        assert IndexMatches(sha, s, a, i);
      }
    }
  }

  /** An accepted upload leaves no blob without a row, unless it deletes the row's own blob. */
  lemma UploadLeavesNoStray(sha: Sha256, s: Store, id: ArchiveId, idx: nat, body: Bytes, declared: Digest, now: int)
    requires NoStrays(s) && UploadAccepted(s, id, idx, body, now)
    ensures NoStrays(Uploaded(sha, s, id, idx, body, declared, now))
  {
  }

  /** purgeArchive: every listed row's blob, then the archive and its rows. */
  function Purged(s: Store, id: ArchiveId): Store {
    Store(DeleteArchives(s.db, {id}), s.blobs - (set i | i in ChunksOf(s.db, id) :: (id, i)))
  }

  lemma PurgeKeeps(sha: Sha256, s: Store, id: ArchiveId)
    requires BlobsMatch(sha, s) && NoStrays(s)
    ensures BlobsMatch(sha, Purged(s, id)) && NoStrays(Purged(s, id))
    ensures forall i: nat :: (id, i) !in Purged(s, id).blobs
  {
  }

  // ----- serialised runs -----

  datatype Request =
    | Init(id: ArchiveId, manifest: Manifest)
    | Upload(id: ArchiveId, idx: nat, body: Bytes, declared: Digest)
    | Finalize(id: ArchiveId)
    | Touch(id: ArchiveId)
    | Move(id: ArchiveId, next: Lifecycle, allowedFrom: set<Lifecycle>)
    | Purge(id: ArchiveId)

  /** The statements of linkArchiveFinalize once its check has passed. */
  function Finalized(db: Db, id: ArchiveId, now: int): Db {
    var uploaded := Transition(MarkFinalized(db, id), id, Lifecycle.Uploaded, {Uploading, UploadPaused});
    Refresh(Transition(uploaded, id, Available, {Lifecycle.Uploaded}), id, now)
  }

  predicate FinalizeOpen(s: Store, id: ArchiveId, now: int) {
    id in s.db.archives && Fresh(s.db.archives[id], now) && !s.db.archives[id].finalized
  }

  function Serve(sha: Sha256, s: Store, r: Request, now: int): Store {
    match r
    case Init(id, m) =>
      if id in s.db.archives then s
      else s.(db := Transition(InsertArchive(s.db, id, m, now), id, Uploading, {Created}))
    case Upload(id, idx, body, declared) =>
      if UploadAccepted(s, id, idx, body, now) then Uploaded(sha, s, id, idx, body, declared, now) else s
    case Finalize(id) =>
      if FinalizeOpen(s, id, now) && Delivers(sha, s.db.archives[id].manifest, ChunksOf(s.db, id))
      then s.(db := Finalized(s.db, id, now)) else s
    case Touch(id) => s.(db := Refresh(s.db, id, now))
    case Move(id, next, allowedFrom) => s.(db := Transition(s.db, id, next, allowedFrom))
    case Purge(id) => Purged(s, id)
  }

  /** Only a false header on an index that already has a row is excluded. */
  predicate Allowed(sha: Sha256, s: Store, r: Request, now: int) {
    r.Upload? && UploadAccepted(s, r.id, r.idx, r.body, now) && r.idx in ChunksOf(s.db, r.id) ==>
      r.declared == sha(r.body)
  }

  ghost predicate FinalizedDeliver(sha: Sha256, db: Db) {
    && db.chunks.Keys <= db.archives.Keys
    && forall id :: id in db.archives && db.archives[id].finalized ==>
         Delivers(sha, db.archives[id].manifest, ChunksOf(db, id))
  }

  ghost predicate Sound(sha: Sha256, s: Store) {
    BlobsMatch(sha, s) && NoStrays(s) && FinalizedDeliver(sha, s.db)
  }

  predicate RunAllowed(sha: Sha256, s: Store, requests: seq<(Request, int)>)
    decreases |requests|
  {
    requests == [] ||
    (Allowed(sha, s, requests[0].0, requests[0].1)
     && RunAllowed(sha, Serve(sha, s, requests[0].0, requests[0].1), requests[1..]))
  }

  function RunStore(sha: Sha256, s: Store, requests: seq<(Request, int)>): Store
    decreases |requests|
  {
    if requests == [] then s else RunStore(sha, Serve(sha, s, requests[0].0, requests[0].1), requests[1..])
  }

  /** Serialised runs keep every row's blob right and every finalized archive complete, retries with
      other bytes included. */
  lemma {:induction false} SerialRunsKeepBlobs(sha: Sha256, s: Store, requests: seq<(Request, int)>)
    requires Sound(sha, s) && RunAllowed(sha, s, requests)
    ensures Sound(sha, RunStore(sha, s, requests))
    decreases |requests|
  {
    hide Sound, Serve, Allowed;
    if requests != [] {
      var (r, now) := requests[0];
      ServeKeepsIff(sha, s, r, now);
      SerialRunsKeepBlobs(sha, Serve(sha, s, r, now), requests[1..]);
    }
  }

  /** One request of a serialised run keeps everything exactly when it is allowed. */
  lemma ServeKeepsIff(sha: Sha256, s: Store, r: Request, now: int)
    requires Sound(sha, s)
    ensures Sound(sha, Serve(sha, s, r, now)) <==> Allowed(sha, s, r, now)
  {
    hide Delivers, UploadAccepted, Uploaded, Purged;
    ServeDelivers(sha, s, r, now);
    if r.Upload? && UploadAccepted(s, r.id, r.idx, r.body, now) {
      UploadKeepsMatchIff(sha, s, r.id, r.idx, r.body, r.declared, now);
      UploadLeavesNoStray(sha, s, r.id, r.idx, r.body, r.declared, now);
      if r.idx !in ChunksOf(s.db, r.id) {
        assert (r.id, r.idx) !in s.blobs;
      }
    } else if r.Purge? {
      PurgeKeeps(sha, s, r.id);
    } else {
      assert Serve(sha, s, r, now).db.chunks == s.db.chunks && Serve(sha, s, r, now).blobs == s.blobs;
    }
  }

  /** An archive after a statement: gone, new and empty, as before, or completed and finalized. */
  predicate Carries(sha: Sha256, before: Db, after: Db, id: ArchiveId) {
    id in after.archives ==>
      || !after.archives[id].finalized
      || Delivers(sha, after.archives[id].manifest, ChunksOf(after, id))
      || (id in before.archives && before.archives[id].finalized
          && after.archives[id].manifest == before.archives[id].manifest && ChunksOf(after, id) == ChunksOf(before, id))
  }

  /** Rows are only added to archives that are not finalized, and only a passed check finalizes. */
  lemma ServeCarries(sha: Sha256, s: Store, r: Request, now: int, id: ArchiveId)
    ensures Carries(sha, s.db, Serve(sha, s, r, now).db, id)
  {
    hide Delivers, Fresh, Uploaded, Finalized;
    if r.Upload? && UploadAccepted(s, r.id, r.idx, r.body, now) {
      UploadCarries(sha, s, r.id, r.idx, r.body, r.declared, now, id);
    } else if r.Finalize? && Serve(sha, s, r, now) != s {
      FinalizeCarries(sha, s.db, r.id, now, id);
    }
  }

  lemma UploadCarries(sha: Sha256, s: Store, id: ArchiveId, idx: nat, body: Bytes, declared: Digest, now: int,
                      k: ArchiveId)
    requires UploadAccepted(s, id, idx, body, now)
    ensures Carries(sha, s.db, Uploaded(sha, s, id, idx, body, declared, now).db, k)
  {
    hide Delivers, Fresh;
  }

  lemma FinalizeCarries(sha: Sha256, db: Db, id: ArchiveId, now: int, k: ArchiveId)
    requires id in db.archives && Delivers(sha, db.archives[id].manifest, ChunksOf(db, id))
    ensures Carries(sha, db, Finalized(db, id, now), k)
  {
    hide Delivers;
  }

  lemma ServeKeepsKeys(sha: Sha256, s: Store, r: Request, now: int)
    requires s.db.chunks.Keys <= s.db.archives.Keys
    ensures Serve(sha, s, r, now).db.chunks.Keys <= Serve(sha, s, r, now).db.archives.Keys
  {
    hide Delivers, Fresh;
  }

  lemma ServeDelivers(sha: Sha256, s: Store, r: Request, now: int)
    requires FinalizedDeliver(sha, s.db)
    ensures FinalizedDeliver(sha, Serve(sha, s, r, now).db)
  {
    hide Delivers, Serve, ChunksOf;
    ServeKeepsKeys(sha, s, r, now);
    var after := Serve(sha, s, r, now).db;
    forall id | id in after.archives && after.archives[id].finalized
      ensures Delivers(sha, after.archives[id].manifest, ChunksOf(after, id))
    {
      ServeCarries(sha, s, r, now, id);
    }
  }

  // ----- interleaved uploads of one index -----

  /** When the row insert of an upload keeps the match. */
  lemma InsertKeepsMatchIff(sha: Sha256, s: Store, id: ArchiveId, idx: nat, row: ChunkRow)
    requires BlobsMatch(sha, s)
    ensures BlobsMatch(sha, s.(db := InsertChunk(s.db, id, idx, row))) <==>
      || id !in s.db.archives || idx in ChunksOf(s.db, id)
      || ((id, idx) in s.blobs && sha(s.blobs[(id, idx)]) == row.hash)
  {
    var after := InsertChunk(s.db, id, idx, row);
    if id in s.db.archives && idx !in ChunksOf(s.db, id) {
      assert after.chunks[id][idx] == row;
    }
  }

  /** The writes of an upload: a put, then the row insert if its header is true, else the rollback. */
  datatype UploadStep = Put(body: Bytes) | Insert(body: Bytes) | Drop

  function Apply(sha: Sha256, s: Store, id: ArchiveId, idx: nat, step: UploadStep): Store {
    match step
    case Put(body) => PutBlob(s, (id, idx), body)
    case Insert(body) => s.(db := InsertChunk(s.db, id, idx, ChunkRow(|body|, sha(body))))
    case Drop => DropBlob(s, (id, idx))
  }

  function ApplyAll(sha: Sha256, s: Store, id: ArchiveId, idx: nat, steps: seq<UploadStep>): Store
    decreases |steps|
  {
    if steps == [] then s
    else Apply(sha, ApplyAll(sha, s, id, idx, steps[..|steps| - 1]), id, idx, steps[|steps| - 1])
  }

  function FirstPut(steps: seq<UploadStep>): Option<Bytes> {
    if steps == [] then None else if steps[0].Put? then Some(steps[0].body) else FirstPut(steps[1..])
  }

  function FirstInsert(steps: seq<UploadStep>): Option<Bytes> {
    if steps == [] then None else if steps[0].Insert? then Some(steps[0].body) else FirstInsert(steps[1..])
  }

  function AfterLastDrop(steps: seq<UploadStep>): seq<UploadStep>
    decreases |steps|
  {
    if steps == [] || steps[|steps| - 1].Drop? then []
    else AfterLastDrop(steps[..|steps| - 1]) + [steps[|steps| - 1]]
  }

  lemma {:induction false} FirstsSnoc(steps: seq<UploadStep>, last: UploadStep)
    ensures FirstPut(steps + [last]) ==
      if FirstPut(steps).Some? then FirstPut(steps) else if last.Put? then Some(last.body) else None
    ensures FirstInsert(steps + [last]) ==
      if FirstInsert(steps).Some? then FirstInsert(steps) else if last.Insert? then Some(last.body) else None
  {
    if steps != [] {
      assert (steps + [last])[1..] == steps[1..] + [last];
      FirstsSnoc(steps[1..], last);
    }
  }

  /** The index's blob is the first put after the last rollback, its row the first insert. */
  ghost predicate IndexIs(sha: Sha256, s: Store, id: ArchiveId, idx: nat, blob: Option<Bytes>, row: Option<Bytes>) {
    && (if blob.Some? then (id, idx) in s.blobs && s.blobs[(id, idx)] == blob.value else (id, idx) !in s.blobs)
    && (if row.Some? then idx in ChunksOf(s.db, id) && ChunksOf(s.db, id)[idx].hash == sha(row.value)
        else idx !in ChunksOf(s.db, id))
  }

  lemma ApplyIndex(sha: Sha256, s: Store, id: ArchiveId, idx: nat, step: UploadStep, blob: Option<Bytes>,
                   row: Option<Bytes>)
    requires id in s.db.archives && IndexIs(sha, s, id, idx, blob, row)
    ensures var after := Apply(sha, s, id, idx, step);
      && id in after.db.archives && OnlyIndex(s, after, id, idx)
      && IndexIs(sha, after, id, idx,
           if step.Drop? then None else if blob.Some? || !step.Put? then blob else Some(step.body),
           if row.Some? || !step.Insert? then row else Some(step.body))
  {
  }

  lemma OnlyIndexTwice(s: Store, mid: Store, after: Store, id: ArchiveId, idx: nat)
    requires OnlyIndex(s, mid, id, idx) && OnlyIndex(mid, after, id, idx)
    ensures OnlyIndex(s, after, id, idx)
  {
    hide ChunksOf;
  }

  lemma {:induction false} ApplyAllIndex(sha: Sha256, s: Store, id: ArchiveId, idx: nat, steps: seq<UploadStep>)
    requires id in s.db.archives && IndexIs(sha, s, id, idx, None, None)
    ensures var after := ApplyAll(sha, s, id, idx, steps);
      && id in after.db.archives && OnlyIndex(s, after, id, idx)
      && IndexIs(sha, after, id, idx, FirstPut(AfterLastDrop(steps)), FirstInsert(steps))
    decreases |steps|
  {
    hide OnlyIndex, IndexIs, Apply;
    if steps == [] {
      assert OnlyIndex(s, s, id, idx) by { Untouched(s, id, idx); }
    } else {
      var less, last := steps[..|steps| - 1], steps[|steps| - 1];
      var mid := ApplyAll(sha, s, id, idx, less);
      ApplyAllIndex(sha, s, id, idx, less);
      ApplyIndex(sha, mid, id, idx, last, FirstPut(AfterLastDrop(less)), FirstInsert(less));
      OnlyIndexTwice(s, mid, Apply(sha, mid, id, idx, last), id, idx);
      FirstsSnoc(less, last);
      FirstsSnoc(AfterLastDrop(less), last);
      assert less + [last] == steps;
    }
  }

  lemma Untouched(s: Store, id: ArchiveId, idx: nat)
    ensures OnlyIndex(s, s, id, idx)
  {
  }

  /** Any number of uploads of one new index, with true and false headers, their puts, inserts and
      rollbacks crossing in any order: rows and blobs match exactly when no row was inserted, or some put
      came after the last rollback and the first such put has the digest of the first insert. */
  lemma CrossedUploadsMatchIff(sha: Sha256, s: Store, id: ArchiveId, idx: nat, steps: seq<UploadStep>)
    requires BlobsMatch(sha, s) && id in s.db.archives && idx !in ChunksOf(s.db, id) && (id, idx) !in s.blobs
    ensures var blob, row := FirstPut(AfterLastDrop(steps)), FirstInsert(steps);
      BlobsMatch(sha, ApplyAll(sha, s, id, idx, steps)) <==>
        row.None? || (blob.Some? && sha(blob.value) == sha(row.value))
  {
    ApplyAllIndex(sha, s, id, idx, steps);
    hide BlobsMatch, OnlyIndex, ApplyAll;
    OneKeyDecides(sha, s, ApplyAll(sha, s, id, idx, steps), id, idx);
  }

  // ----- what a download delivers -----

  /** The digests of the first n downloaded chunk bodies, in order. */
  function DownloadedHashes(sha: Sha256, blobs: map<Key, Bytes>, id: ArchiveId, n: nat): Bytes {
    if n == 0 then [] else
      DownloadedHashes(sha, blobs, id, n - 1) + if (id, n - 1) in blobs then sha(blobs[(id, n - 1)]).bytes else []
  }

  lemma {:induction false} DownloadsMatchRows(sha: Sha256, s: Store, id: ArchiveId, n: nat)
    requires BlobsMatch(sha, s) && HasAll(ChunksOf(s.db, id), n)
    ensures DownloadedHashes(sha, s.blobs, id, n) == HashBytes(ChunksOf(s.db, id), n)
  {
    if n > 0 {
      DownloadsMatchRows(sha, s, id, n - 1);
      assert n - 1 in ChunksOf(s.db, id);
    }
  }

  const EMPTY_STORE := Store(EMPTY_DB, map[])

  /** End to end: after every serialised run from an empty store, what a new device downloads from a
      finalized archive digests to the manifest hash the old device announced at init, chunk by chunk
      and in order. */
  lemma FinalizedDownloadMatchesManifest(sha: Sha256, requests: seq<(Request, int)>, id: ArchiveId)
    requires RunAllowed(sha, EMPTY_STORE, requests)
    requires var db := RunStore(sha, EMPTY_STORE, requests).db; id in db.archives && db.archives[id].finalized
    ensures var s := RunStore(sha, EMPTY_STORE, requests); var m := s.db.archives[id].manifest;
      && sha(DownloadedHashes(sha, s.blobs, id, m.totalChunks)) == m.manifestHash
      && forall i :: 0 <= i < m.totalChunks ==> (id, i) in s.blobs
  {
    hide RunAllowed, RunStore;
    SerialRunsKeepBlobs(sha, EMPTY_STORE, requests);
    var s := RunStore(sha, EMPTY_STORE, requests);
    var m := s.db.archives[id].manifest;
    DownloadsMatchRows(sha, s, id, m.totalChunks);
    forall i | 0 <= i < m.totalChunks ensures (id, i) in s.blobs {
      HasIndex(ChunksOf(s.db, id), m.totalChunks, i);
    }
  }

  // ----- the handlers, statement by statement -----

  datatype FinalizeStatus = NoArchive | WasFinalized | Checked(verdict: Verdict)

  datatype UploadStatus =
    | NotFound | AlreadyFinalized | IdxOutOfRange | BodyTooLarge | BodyEmpty | HashMismatch | ChunkConflict | Stored

  /** The first check an upload fails; Stored when it fails none of these. */
  function Refusal(db: Db, id: ArchiveId, idx: nat, body: Bytes, now: int): UploadStatus {
    if id !in db.archives || !Fresh(db.archives[id], now) then NotFound
    else if db.archives[id].finalized then AlreadyFinalized
    else if idx >= db.archives[id].manifest.totalChunks then IdxOutOfRange
    else if |body| > CHUNK_BODY_MAX then BodyTooLarge
    else if |body| == 0 then BodyEmpty
    else Stored
  }

  class Handlers {
    const sha: Sha256
    var db: Db
    var blobs: map<Key, Bytes>

    function View(): Store reads this { Store(db, blobs) }

    constructor (sha: Sha256, s: Store)
      ensures this.sha == sha && View() == s
    {
      this.sha, db, blobs := sha, s.db, s.blobs;
    }

    /** The backend's Put: returns the digest of the bytes read, not of the bytes kept. */
    method Put(key: Key, body: Bytes) returns (sum: Digest)
      modifies this`blobs
      ensures View() == PutBlob(old(View()), key, body) && sum == sha(body)
    {
      if key !in blobs {
        blobs := blobs[key := body];
      }
      sum := sha(body);
    }

    /** linkArchiveUploadChunk. An accepted upload with a true header is stored when its index has no row, or a
        row of the same digest, which a retry keeps; only another digest conflicts. A stored one refreshes
        the archive; nothing else changes the database. */
    method UploadChunk(id: ArchiveId, idx: nat, body: Bytes, declared: Digest, now: int) returns (status: UploadStatus)
      modifies this
      ensures View() == Serve(sha, old(View()), Upload(id, idx, body, declared), now)
      ensures UploadAccepted(old(View()), id, idx, body, now) <==> status in {HashMismatch, ChunkConflict, Stored}
      ensures status == Refusal(old(db), id, idx, body, now) || UploadAccepted(old(View()), id, idx, body, now)
      ensures UploadAccepted(old(View()), id, idx, body, now) ==>
        var rows := ChunksOf(old(db), id);
        && (status.HashMismatch? <==> declared != sha(body))
        && (status.Stored? <==> declared == sha(body) && (idx in rows ==> rows[idx].hash == sha(body)))
      ensures status.Stored? ==>
        var rows, a := ChunksOf(old(db), id), old(db).archives[id];
        && ChunksOf(db, id) == (if idx in rows then rows else rows[idx := ChunkRow(|body|, sha(body))])
        && db.archives == old(db).archives[id := a.(expiresAt := Min(now + DEFAULT_EXPIRY, a.hardDeadlineAt))]
      ensures !status.Stored? ==> db == old(db)
    {
      if id !in db.archives || !Fresh(db.archives[id], now) {
        return NotFound;
      }
      if db.archives[id].finalized {
        return AlreadyFinalized;
      }
      if idx >= db.archives[id].manifest.totalChunks {
        return IdxOutOfRange;
      }
      if |body| > CHUNK_BODY_MAX {
        return BodyTooLarge;
      }
      if |body| == 0 {
        return BodyEmpty;
      }
      var sum := Put((id, idx), body);
      if sum != declared {
        blobs := blobs - {(id, idx)};
        return HashMismatch;
      }
      var report := InsertReport(db, id, idx, ChunkRow(|body|, sum));
      db := InsertChunk(db, id, idx, ChunkRow(|body|, sum));
      if !report.Accepted? {
        return ChunkConflict;
      }
      db := Refresh(db, id, now);
      return Stored;
    }

    /** SELECT of the chunk rows, in no particular order. */
    method ListRows(id: ArchiveId) returns (chunks: seq<(nat, ChunkRow)>)
      ensures forall c :: c in chunks <==> c.0 in ChunksOf(db, id) && ChunksOf(db, id)[c.0] == c.1
      ensures forall i, j :: 0 <= i < j < |chunks| ==> chunks[i].0 != chunks[j].0
    {
      var rows := ChunksOf(db, id);
      var rest := rows.Keys;
      chunks := [];
      while rest != {}
        invariant rest <= rows.Keys
        invariant forall c :: c in chunks <==> c.0 in rows && c.0 !in rest && rows[c.0] == c.1
        invariant forall i, j :: 0 <= i < j < |chunks| ==> chunks[i].0 != chunks[j].0
        decreases rest
      {
        var i :| i in rest;
        assert forall j :: 0 <= j < |chunks| ==> chunks[j] in chunks;
        chunks := chunks + [(i, rows[i])];
        rest := rest - {i};
      }
    }

    /** linkArchiveFinalize. A complete archive gets its flag and a fresh expiry; only one that was
        uploading also becomes available. No other archive and no row changes. */
    method Finalize(id: ArchiveId, now: int) returns (status: FinalizeStatus)
      modifies this`db
      ensures View() == Serve(sha, old(View()), Request.Finalize(id), now)
      ensures status.Checked? <==> FinalizeOpen(old(View()), id, now)
      ensures status.Checked? ==>
        var a := old(db).archives[id];
        && (status.verdict.Complete? <==> Delivers(sha, a.manifest, ChunksOf(old(db), id)))
        && (if status.verdict.Complete?
            then id in db.archives && db.archives[id] == a.(
                   finalized := true, expiresAt := Min(now + DEFAULT_EXPIRY, a.hardDeadlineAt),
                   state := if a.state in {Uploading, UploadPaused, Lifecycle.Uploaded} then Available else a.state)
            else db == old(db))
      ensures db.chunks == old(db).chunks && db.archives.Keys == old(db).archives.Keys
      ensures forall k :: k in db.archives && k != id ==> db.archives[k] == old(db).archives[k]
    {
      if id !in db.archives || !Fresh(db.archives[id], now) {
        return NoArchive;
      }
      if db.archives[id].finalized {
        return WasFinalized;
      }
      var chunks := ListRows(id);
      PresentIsTable(chunks, ChunksOf(db, id));
      var verdict := CheckRows(sha, db.archives[id].manifest, chunks);
      if verdict.Complete? {
        db := MarkFinalized(db, id);
        db := Transition(db, id, Lifecycle.Uploaded, {Uploading, UploadPaused});
        db := Transition(db, id, Available, {Lifecycle.Uploaded});
        db := Refresh(db, id, now);
      }
      return Checked(verdict);
    }

    /** purgeArchive: blob by blob, then the row. */
    method PurgeArchive(id: ArchiveId)
      modifies this
      ensures View() == Purged(old(View()), id)
    {
      var chunks := ListRows(id);
      ghost var before := blobs;
      for k := 0 to |chunks|
        invariant db == old(db)
        invariant blobs == before - (set c | c in chunks[..k] :: (id, c.0))
      {
        blobs := blobs - {(id, chunks[k].0)};
        assert chunks[..k + 1] == chunks[..k] + [chunks[k]];
      }
      assert chunks[..|chunks|] == chunks;
      assert forall i :: i in ChunksOf(db, id) ==> (i, ChunksOf(db, id)[i]) in chunks;
      assert (set c | c in chunks :: (id, c.0)) == (set i | i in ChunksOf(db, id) :: (id, i));
      db := DeleteArchives(db, {id});
    }
  }
}
