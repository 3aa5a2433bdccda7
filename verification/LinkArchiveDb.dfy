/** The link_archives and link_archive_chunks tables: each function is one SQL statement, atomic. */
module LinkArchiveDb {
  import opened Hashing

  type ArchiveId = string

  datatype Lifecycle =
    | Created | Uploading | UploadPaused | Uploaded | Available | Importing
    | ImportPaused | Imported | Acknowledged | Aborted | Expired | TerminalFailure

  const ACTIVE_STATES := {Created, Uploading, UploadPaused, Uploaded, Available, Importing, ImportPaused, Imported}

  /** What an archive promises at init and never changes. */
  datatype Manifest = Manifest(user: string, totalChunks: nat, totalBytes: int, manifestHash: Digest)

  datatype Archive = Archive(
    manifest: Manifest, finalized: bool, state: Lifecycle,
    createdAt: int, expiresAt: int, hardDeadlineAt: int)

  datatype ChunkRow = ChunkRow(size: int, hash: Digest)

  /** chunks holds link_archive_chunks by archive_id, then by idx: the table's primary key. */
  datatype Db = Db(archives: map<ArchiveId, Archive>, chunks: map<ArchiveId, map<nat, ChunkRow>>)

  const EMPTY_DB := Db(map[], map[])

  // Times are in seconds.
  const DEFAULT_EXPIRY := 60 * 60
  const MAX_LIFETIME := 7 * 24 * 60 * 60
  const CHUNK_BODY_MAX := 4 * 1024 * 1024 + 256

  function Min(a: int, b: int): int { if a <= b then a else b }

  /** INSERT INTO link_archives at time now, in state created. */
  function InsertArchive(db: Db, id: ArchiveId, m: Manifest, now: int): Db {
    var archive := Archive(m, false, Created, now, now + DEFAULT_EXPIRY, now + MAX_LIFETIME);
    db.(archives := db.archives[id := archive])
  }

  /** UPDATE ... SET state = next WHERE id = $1 AND state = ANY(allowedFrom). */
  function Transition(db: Db, id: ArchiveId, next: Lifecycle, allowedFrom: set<Lifecycle>): Db {
    if id in db.archives && db.archives[id].state in allowedFrom
    then db.(archives := db.archives[id := db.archives[id].(state := next)])
    else db
  }

  /** expires_at = LEAST(now() + ttl, hard_deadline_at). */
  function Refresh(db: Db, id: ArchiveId, now: int): Db {
    if id in db.archives
    then db.(archives := db.archives[id :=
           db.archives[id].(expiresAt := Min(now + DEFAULT_EXPIRY, db.archives[id].hardDeadlineAt))])
    else db
  }

  function MarkFinalized(db: Db, id: ArchiveId): Db {
    if id in db.archives then db.(archives := db.archives[id := db.archives[id].(finalized := true)]) else db
  }

  /** SELECT ... FROM link_archive_chunks WHERE archive_id = $1. */
  function ChunksOf(db: Db, id: ArchiveId): map<nat, ChunkRow> {
    if id in db.chunks then db.chunks[id] else map[]
  }

  /** INSERT ... ON CONFLICT (archive_id, idx) DO NOTHING; the foreign key refuses a deleted archive. */
  function InsertChunk(db: Db, id: ArchiveId, idx: nat, row: ChunkRow): Db {
    if id in db.archives && idx !in ChunksOf(db, id)
    then db.(chunks := db.chunks[id := ChunksOf(db, id)[idx := row]])
    else db
  }

  datatype InsertOutcome = Accepted | Conflict | MissingArchive

  /** What InsertLinkArchiveChunk reports: a retry with the same hash is accepted, another hash is not. */
  function InsertReport(db: Db, id: ArchiveId, idx: nat, row: ChunkRow): InsertOutcome {
    if id !in db.archives then MissingArchive
    else if idx in ChunksOf(db, id) && ChunksOf(db, id)[idx].hash != row.hash then Conflict
    else Accepted
  }

  /** DELETE FROM link_archives; chunk rows cascade. */
  function DeleteArchives(db: Db, ids: set<ArchiveId>): Db {
    Db(db.archives - ids, db.chunks - ids)
  }

  /** CountActiveLinkArchivesForUser counts these. */
  function ActiveOf(db: Db, user: string): set<ArchiveId> {
    set id | id in db.archives && db.archives[id].manifest.user == user && db.archives[id].state in ACTIVE_STATES
  }

  /** ListSupersedableLinkArchivesForUser with the threshold supersedeAbandonedArchives computes. */
  function Supersedable(db: Db, user: string, now: int, grace: int): set<ArchiveId> {
    set id | id in db.archives
      && db.archives[id].manifest.user == user && db.archives[id].state in ACTIVE_STATES
      && db.archives[id].expiresAt < now + (DEFAULT_EXPIRY - grace)
  }

  /** scanLinkArchive's freshness gate. */
  predicate Fresh(a: Archive, now: int) { a.expiresAt > now && a.hardDeadlineAt > now }

  // ----- the finalize check -----

  datatype Verdict = Incomplete(missing: seq<nat>) | ManifestMismatch | BytesMismatch | Complete

  /** Indices below n without a row, ascending. */
  function Missing(rows: map<nat, ChunkRow>, n: nat): seq<nat> {
    if n == 0 then [] else Missing(rows, n - 1) + if n - 1 in rows then [] else [n - 1]
  }

  lemma {:induction false} MissingIsExact(rows: map<nat, ChunkRow>, n: nat)
    ensures forall i :: i in Missing(rows, n) <==> 0 <= i < n && i !in rows
  {
    if n > 0 {
      MissingIsExact(rows, n - 1);
    }
  }

  predicate HasAll(rows: map<nat, ChunkRow>, n: nat) { forall i: nat :: i < n ==> i in rows }

  lemma HasIndex(rows: map<nat, ChunkRow>, n: nat, i: nat)
    requires HasAll(rows, n) && i < n
    ensures i in rows
  {
  }

  /** The chunk hashes in index order, as they are fed to the manifest digest. */
  function HashBytes(rows: map<nat, ChunkRow>, n: nat): Bytes
    requires HasAll(rows, n)
  {
    if n == 0 then [] else HashBytes(rows, n - 1) + rows[n - 1].hash.bytes
  }

  function TotalSize(rows: map<nat, ChunkRow>, n: nat): int
    requires HasAll(rows, n)
  {
    if n == 0 then 0 else TotalSize(rows, n - 1) + rows[n - 1].size
  }

  /** What finalized promises about the rows. */
  predicate Delivers(sha: Sha256, m: Manifest, rows: map<nat, ChunkRow>) {
    && HasAll(rows, m.totalChunks)
    && sha(HashBytes(rows, m.totalChunks)) == m.manifestHash
    && TotalSize(rows, m.totalChunks) == m.totalBytes
  }

  /** The listed rows keyed by index; a later row for an index would replace an earlier one. */
  function Present(chunks: seq<(nat, ChunkRow)>): map<nat, ChunkRow> {
    if chunks == [] then map[]
    else Present(chunks[..|chunks| - 1])[chunks[|chunks| - 1].0 := chunks[|chunks| - 1].1]
  }

  /** Listing a table and keying the list again gives the table. */
  lemma {:induction false} PresentIsTable(chunks: seq<(nat, ChunkRow)>, rows: map<nat, ChunkRow>)
    requires forall i, j :: 0 <= i < j < |chunks| ==> chunks[i].0 != chunks[j].0
    requires forall c :: c in chunks <==> c.0 in rows && rows[c.0] == c.1
    ensures Present(chunks) == rows
  {
    if chunks == [] {
      assert forall i :: i in rows ==> (i, rows[i]) in chunks;
    } else {
      var last := chunks[|chunks| - 1];
      assert last in chunks;
      var rest := chunks[..|chunks| - 1];
      assert forall c :: c in chunks <==> c in rest || c == last;
      forall c ensures c in rest <==> c.0 in rows - {last.0} && (rows - {last.0})[c.0] == c.1 {
        if c in rest {
          var k :| 0 <= k < |rest| && rest[k] == c;
          assert chunks[k].0 != chunks[|chunks| - 1].0;
        }
      }
      PresentIsTable(rest, rows - {last.0});
    }
  }

  /** linkArchiveFinalize's verification of the rows it listed. */
  method CheckRows(sha: Sha256, m: Manifest, chunks: seq<(nat, ChunkRow)>) returns (verdict: Verdict)
    ensures verdict.Complete? <==> Delivers(sha, m, Present(chunks))
    ensures verdict.Incomplete? <==> !HasAll(Present(chunks), m.totalChunks)
    ensures verdict.Incomplete? ==> verdict.missing == Missing(Present(chunks), m.totalChunks)
    ensures verdict.ManifestMismatch? <==>
      HasAll(Present(chunks), m.totalChunks) && sha(HashBytes(Present(chunks), m.totalChunks)) != m.manifestHash
  {
    var present: map<nat, ChunkRow> := map[];
    for k := 0 to |chunks|
      invariant present == Present(chunks[..k])
    {
      present := present[chunks[k].0 := chunks[k].1];
      assert chunks[..k + 1][..k] == chunks[..k];
    }
    assert chunks[..|chunks|] == chunks;
    var missing: seq<nat> := [];
    for i := 0 to m.totalChunks
      invariant missing == Missing(present, i)
    {
      if i !in present {
        missing := missing + [i];
      }
    }
    MissingIsExact(present, m.totalChunks);
    if |missing| > 0 {
      assert missing[0] in missing;
      return Incomplete(missing);
    }
    assert HasAll(present, m.totalChunks);
    var totalBytes, manifest := 0, [];
    for i := 0 to m.totalChunks
      invariant manifest == HashBytes(present, i) && totalBytes == TotalSize(present, i)
    {
      manifest := manifest + present[i].hash.bytes;
      totalBytes := totalBytes + present[i].size;
    }
    if sha(manifest) != m.manifestHash {
      return ManifestMismatch;
    }
    if totalBytes != m.totalBytes {
      return BytesMismatch;
    }
    return Complete;
  }
}
