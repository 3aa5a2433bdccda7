/** The link-archive handlers as sequences of atomic statements, interleaved in any order. Every
    statement may also fail, which ends the handler or skips an advisory step. */
module LinkArchiveProtocol {
  import opened Hashing
  import opened LinkArchiveDb

  /** A handler between two of its statements, with what it has read so far. */
  datatype Thread =
    | Done
    | InitCounted(id: ArchiveId, manifest: Manifest)   // quota check passed, row still to insert
    | InitInserted(id: ArchiveId)
    | UploadChecked(id: ArchiveId, idx: nat, row: ChunkRow)
    | FinalizeRead(id: ArchiveId, manifest: Manifest)
    | FinalizeListed(id: ArchiveId, manifest: Manifest, rows: map<nat, ChunkRow>)
    | FinalizeMarked(id: ArchiveId)
    | FinalizeUploaded(id: ArchiveId)
    | AckChecked(id: ArchiveId)
    | RefreshDue(id: ArchiveId)

  /** used holds every archive id ever issued; ids are random UUIDs and never come back. touched is
      the time of each archive's last refresh. */
  datatype System = System(db: Db, threads: seq<Thread>, now: int, used: set<ArchiveId>, touched: map<ArchiveId, int>)

  datatype Action =
    | Tick(seconds: nat)
    | Init(id: ArchiveId, manifest: Manifest, quota: nat)
    | InitWhole(id: ArchiveId, manifest: Manifest, quota: nat, grace: int)
    | Upload(id: ArchiveId, idx: nat, row: ChunkRow)
    | Finalize(id: ArchiveId)
    | Ack(id: ArchiveId)
    | Touch(id: ArchiveId)
    | Delete(id: ArchiveId)
    | Advance(t: nat, ok: bool)

  const START := System(EMPTY_DB, [], 0, {}, map[])

  /** The token lookup every handler starts with: present and fresh. */
  predicate Found(s: System, id: ArchiveId) {
    id in s.db.archives && Fresh(s.db.archives[id], s.now)
  }

  predicate InitAccepts(m: Manifest) {
    m.totalChunks > 0 && m.totalBytes > 0 && m.totalBytes <= m.totalChunks * CHUNK_BODY_MAX
  }

  /** The checks of one chunk's body. */
  predicate Sized(row: ChunkRow) { 0 < row.size <= CHUNK_BODY_MAX }

  function Spawn(s: System, t: Thread): System { s.(threads := s.threads + [t]) }

  /** InsertLinkArchive under a fresh id. */
  function Inserted(s: System, id: ArchiveId, m: Manifest): System {
    if id in s.used then s else
      s.(db := InsertArchive(s.db, id, m, s.now), used := s.used + {id}, touched := s.touched[id := s.now])
  }

  /** linkArchiveInit run without interruption: supersede, count, insert. */
  function GuardedInit(s: System, id: ArchiveId, m: Manifest, quota: nat, grace: int): System {
    var stale := Supersedable(s.db, m.user, s.now, grace);
    var cleaned := s.(db := DeleteArchives(s.db, stale));
    if |ActiveOf(cleaned.db, m.user)| >= quota || id in s.used then cleaned
    else Spawn(Inserted(cleaned, id, m), InitInserted(id))
  }

  /** Request arrivals up to the first write, and the environment's own moves. An interrupted init
      arrives with its count; what it superseded before are Deletes. */
  function Arrive(s: System, a: Action): System
    requires !a.Advance?
  {
    match a
    case Tick(seconds) => s.(now := s.now + seconds)
    case Init(id, m, quota) =>
      if InitAccepts(m) && |ActiveOf(s.db, m.user)| < quota then Spawn(s, InitCounted(id, m)) else s
    case InitWhole(id, m, quota, grace) => if InitAccepts(m) then GuardedInit(s, id, m, quota, grace) else s
    case Upload(id, idx, row) =>
      if Found(s, id) && !s.db.archives[id].finalized && idx < s.db.archives[id].manifest.totalChunks && Sized(row)
      then Spawn(s, UploadChecked(id, idx, row)) else s
    case Finalize(id) =>
      if Found(s, id) && !s.db.archives[id].finalized
      then Spawn(s, FinalizeRead(id, s.db.archives[id].manifest)) else s
    case Ack(id) => if Found(s, id) then Spawn(s, AckChecked(id)) else s
    case Touch(id) => if Found(s, id) then Spawn(s, RefreshDue(id)) else s
    case Delete(id) => s.(db := DeleteArchives(s.db, {id}))
  }

  /** The next statement of a handler and the handler's state after it. */
  function Continue(sha: Sha256, s: System, t: Thread, ok: bool): (System, Thread) {
    match t
    case Done => (s, Done)
    case InitCounted(id, m) => if ok && id !in s.used then (Inserted(s, id, m), InitInserted(id)) else (s, Done)
    case InitInserted(id) =>
      (if ok then s.(db := Transition(s.db, id, Uploading, {Created})) else s, Done)
    case UploadChecked(id, idx, row) =>
      if ok then (s.(db := InsertChunk(s.db, id, idx, row)),
                  if InsertReport(s.db, id, idx, row).Accepted? then RefreshDue(id) else Done)
      else (s, Done)
    case FinalizeRead(id, m) => (s, if ok then FinalizeListed(id, m, ChunksOf(s.db, id)) else Done)
    case FinalizeListed(id, m, rows) =>
      if ok && Delivers(sha, m, rows) then (s.(db := MarkFinalized(s.db, id)), FinalizeMarked(id)) else (s, Done)
    case FinalizeMarked(id) =>
      (if ok then s.(db := Transition(s.db, id, Uploaded, {Uploading, UploadPaused})) else s, FinalizeUploaded(id))
    case FinalizeUploaded(id) =>
      (if ok then s.(db := Transition(s.db, id, Available, {Uploaded})) else s, RefreshDue(id))
    case AckChecked(id) =>
      var from := {Available, Importing, ImportPaused, Imported};
      (if ok then s.(db := Transition(s.db, id, Acknowledged, from)) else s, Done)
    case RefreshDue(id) =>
      (if ok && id in s.db.archives
       then s.(db := Refresh(s.db, id, s.now), touched := s.touched[id := s.now]) else s, Done)
  }

  function Step(sha: Sha256, s: System, a: Action): System {
    match a
    case Advance(t, ok) =>
      if t >= |s.threads| then s else
        var (after, thread) := Continue(sha, s, s.threads[t], ok);
        after.(threads := s.threads[t := thread])
    case _ => Arrive(s, a)
  }

  function Run(sha: Sha256, s: System, actions: seq<Action>): System
    decreases |actions|
  {
    if actions == [] then s else Run(sha, Step(sha, s, actions[0]), actions[1..])
  }

  // ----- what every interleaving keeps -----

  ghost predicate ArchiveOk(sha: Sha256, db: Db, id: ArchiveId, touch: int)
    requires id in db.archives
  {
    var a := db.archives[id];
    && (a.finalized ==> Delivers(sha, a.manifest, ChunksOf(db, id)))
    && (forall i :: i in ChunksOf(db, id) ==> i < a.manifest.totalChunks)
    && a.state in {Created, Uploading, Uploaded, Available, Acknowledged}
    && (a.state in {Uploaded, Available, Acknowledged} ==> a.finalized)
    && a.expiresAt == Min(touch + DEFAULT_EXPIRY, a.hardDeadlineAt)
  }

  /** What a handler in flight may still rely on, as long as its archive exists. */
  ghost predicate ThreadOk(sha: Sha256, db: Db, t: Thread) {
    match t
    case UploadChecked(id, idx, row) => id in db.archives ==> idx < db.archives[id].manifest.totalChunks
    case FinalizeRead(id, m) => id in db.archives ==> db.archives[id].manifest == m
    case FinalizeListed(id, m, rows) => id in db.archives ==>
      && db.archives[id].manifest == m
      && forall i :: i in rows ==> i in ChunksOf(db, id) && ChunksOf(db, id)[i] == rows[i]
    case FinalizeMarked(id) => id in db.archives ==> db.archives[id].finalized
    case FinalizeUploaded(id) => id in db.archives ==> db.archives[id].finalized
    case _ => true
  }

  /** The archive a handler works on; one not yet inserted is nobody's. */
  function ThreadIds(t: Thread): set<ArchiveId> { if t.Done? || t.InitCounted? then {} else {t.id} }

  ghost predicate TablesOk(sha: Sha256, s: System) {
    && s.db.archives.Keys <= s.used && s.db.chunks.Keys <= s.db.archives.Keys <= s.touched.Keys
    && forall id :: id in s.db.archives ==> s.touched[id] <= s.now && ArchiveOk(sha, s.db, id, s.touched[id])
  }

  ghost predicate Inv(sha: Sha256, s: System) {
    TablesOk(sha, s) && forall t :: t in s.threads ==> ThreadIds(t) <= s.used && ThreadOk(sha, s.db, t)
  }

  /** How one statement changes an archive that exists before and after it: the manifest stays, a
      finalized archive stays finalized, rows are only added, and none to a finalized archive. */
  ghost predicate Preserved(before: Db, after: Db) {
    forall id :: id in before.archives && id in after.archives ==>
      && after.archives[id].manifest == before.archives[id].manifest
      && after.archives[id].hardDeadlineAt == before.archives[id].hardDeadlineAt
      && (before.archives[id].finalized ==> after.archives[id].finalized && ChunksOf(after, id) == ChunksOf(before, id))
      && forall i :: i in ChunksOf(before, id) ==>
           i in ChunksOf(after, id) && ChunksOf(after, id)[i] == ChunksOf(before, id)[i]
  }

  lemma {:induction false} SameRowsSameDigest(small: map<nat, ChunkRow>, big: map<nat, ChunkRow>, n: nat)
    requires HasAll(small, n) && forall i :: i in small ==> i in big && big[i] == small[i]
    ensures HasAll(big, n)
    ensures HashBytes(big, n) == HashBytes(small, n) && TotalSize(big, n) == TotalSize(small, n)
  {
    if n > 0 {
      SameRowsSameDigest(small, big, n - 1);
    }
  }

  /** An update of one archive row that keeps that row's promises keeps everything. */
  lemma RowUpdateKeeps(sha: Sha256, s: System, after: System, id: ArchiveId, row: Archive)
    requires TablesOk(sha, s) && id in s.db.archives
    requires after.db == s.db.(archives := s.db.archives[id := row])
    requires after.used == s.used && after.now == s.now
    requires after.touched == s.touched || after.touched == s.touched[id := s.now]
    requires ArchiveOk(sha, after.db, id, after.touched[id])
    requires row.manifest == s.db.archives[id].manifest && row.hardDeadlineAt == s.db.archives[id].hardDeadlineAt
    requires s.db.archives[id].finalized ==> row.finalized
    ensures TablesOk(sha, after) && Preserved(s.db, after.db)
  {
    hide Delivers, ArchiveOk;
    forall k | k in after.db.archives
      ensures after.touched[k] <= s.now && ArchiveOk(sha, after.db, k, after.touched[k])
    {
      if k != id {
        ArchiveElsewhere(sha, s.db, after.db, k, s.touched[k]);
      }
    }
  }

  lemma ArchiveElsewhere(sha: Sha256, before: Db, after: Db, k: ArchiveId, touch: int)
    requires k in before.archives && k in after.archives && ArchiveOk(sha, before, k, touch)
    requires after.archives[k] == before.archives[k] && ChunksOf(after, k) == ChunksOf(before, k)
    ensures ArchiveOk(sha, after, k, touch)
  {
  }

  lemma InsertChunkRows(db: Db, id: ArchiveId, idx: nat, row: ChunkRow)
    requires id in db.archives && idx !in ChunksOf(db, id)
    ensures var after := InsertChunk(db, id, idx, row);
      && after.chunks.Keys == db.chunks.Keys + {id}
      && ChunksOf(after, id) == ChunksOf(db, id)[idx := row]
      && forall k :: k != id ==> ChunksOf(after, k) == ChunksOf(db, k)
  {
  }

  lemma InsertChunkPreserves(db: Db, id: ArchiveId, idx: nat, row: ChunkRow)
    requires id in db.archives && !db.archives[id].finalized
    ensures Preserved(db, InsertChunk(db, id, idx, row))
  {
    if idx in ChunksOf(db, id) {
      NothingChanges(db);
    } else {
      InsertChunkRows(db, id, idx, row);
      assert InsertChunk(db, id, idx, row).archives == db.archives;
      hide InsertChunk, ChunksOf;
    }
  }

  /** ON CONFLICT DO NOTHING: a row for an index below totalChunks never reaches a finalized archive. */
  lemma InsertChunkKeeps(sha: Sha256, s: System, after: System, id: ArchiveId, idx: nat, row: ChunkRow)
    requires TablesOk(sha, s) && ThreadOk(sha, s.db, UploadChecked(id, idx, row))
    requires after == s.(db := InsertChunk(s.db, id, idx, row))
    ensures TablesOk(sha, after) && Preserved(s.db, after.db)
  {
    hide Delivers, HashBytes, TotalSize;
    if id in s.db.archives && idx !in ChunksOf(s.db, id) {
      assert ArchiveOk(sha, s.db, id, s.touched[id]);
      if s.db.archives[id].finalized {
        OpenWhileMissing(sha, s.db.archives[id].manifest, ChunksOf(s.db, id), idx);
      }
      InsertChunkPreserves(s.db, id, idx, row);
      InsertChunkRows(s.db, id, idx, row);
      assert after.db.archives == s.db.archives;
      assert ArchiveOk(sha, after.db, id, s.touched[id]);
      hide ArchiveOk, InsertChunk, ChunksOf, Preserved;
      forall k | k in s.db.archives && k != id ensures ArchiveOk(sha, after.db, k, s.touched[k]) {
        ArchiveElsewhere(sha, s.db, after.db, k, s.touched[k]);
      }
    } else {
      NothingChanges(s.db);
    }
  }

  lemma OpenWhileMissing(sha: Sha256, m: Manifest, rows: map<nat, ChunkRow>, idx: nat)
    requires idx < m.totalChunks && idx !in rows
    ensures !Delivers(sha, m, rows)
  {
    if Delivers(sha, m, rows) {
      HasIndex(rows, m.totalChunks, idx);
    }
  }

  /** Every statement of every handler keeps each archive's promises and the handler's own reading. */
  lemma ContinueKeeps(sha: Sha256, s: System, t: Thread, ok: bool)
    requires TablesOk(sha, s) && ThreadOk(sha, s.db, t) && ThreadIds(t) <= s.used && !t.InitCounted?
    ensures var (after, thread) := Continue(sha, s, t, ok);
      && after.threads == s.threads && after.now == s.now && after.used == s.used
      && after.db.archives.Keys == s.db.archives.Keys
      && TablesOk(sha, after) && Preserved(s.db, after.db)
      && ThreadOk(sha, after.db, thread) && ThreadIds(thread) <= s.used
  {
    hide Delivers, Preserved, TablesOk;
    var (after, thread) := Continue(sha, s, t, ok);
    if after == s {
      NothingChanges(s.db);
    } else {
      var id := t.id;
      if t.UploadChecked? {
        InsertChunkKeeps(sha, s, after, id, t.idx, t.row);
      } else if id in s.db.archives {
        TablesGiveArchive(sha, s, id);
        if t.FinalizeListed? {
          ListedRowsDeliver(sha, s.db, id, t.manifest, t.rows);
        }
        assert ChunksOf(after.db, id) == ChunksOf(s.db, id);
        RowUpdateKeeps(sha, s, after, id, after.db.archives[id]);
      }
    }
  }

  lemma TablesGiveArchive(sha: Sha256, s: System, id: ArchiveId)
    requires TablesOk(sha, s) && id in s.db.archives
    ensures id in s.touched && ArchiveOk(sha, s.db, id, s.touched[id])
  {
  }

  lemma ListedRowsDeliver(sha: Sha256, db: Db, id: ArchiveId, m: Manifest, rows: map<nat, ChunkRow>)
    requires id in db.archives && ThreadOk(sha, db, FinalizeListed(id, m, rows)) && Delivers(sha, m, rows)
    ensures Delivers(sha, db.archives[id].manifest, ChunksOf(db, id))
  {
    SameRowsSameDigest(rows, ChunksOf(db, id), m.totalChunks);
  }

  lemma OtherThreadsKeep(sha: Sha256, before: Db, after: Db, used: set<ArchiveId>, t: Thread)
    requires Preserved(before, after) && ThreadOk(sha, before, t) && ThreadIds(t) <= used
    requires after.archives.Keys * used <= before.archives.Keys
    ensures ThreadOk(sha, after, t)
  {
    hide HashBytes, TotalSize, HasAll;
  }

  lemma InitKeeps(sha: Sha256, s: System, after: System, id: ArchiveId, m: Manifest)
    requires TablesOk(sha, s) && id !in s.used
    requires after.db == InsertArchive(s.db, id, m, s.now) && after.now == s.now
    requires after.used == s.used + {id} && after.touched == s.touched[id := s.now]
    ensures TablesOk(sha, after) && Preserved(s.db, after.db)
  {
    hide Delivers;
    assert id !in s.db.chunks && ChunksOf(after.db, id) == map[];
    forall k | k in s.db.archives ensures ArchiveOk(sha, after.db, k, s.touched[k]) {
      ArchiveElsewhere(sha, s.db, after.db, k, s.touched[k]);
    }
  }

  lemma DeleteKeeps(sha: Sha256, s: System, ids: set<ArchiveId>)
    requires TablesOk(sha, s)
    ensures TablesOk(sha, s.(db := DeleteArchives(s.db, ids))) && Preserved(s.db, DeleteArchives(s.db, ids))
  {
    hide Delivers;
    var db := DeleteArchives(s.db, ids);
    forall k | k in db.archives ensures ArchiveOk(sha, db, k, s.touched[k]) {
      ArchiveElsewhere(sha, s.db, db, k, s.touched[k]);
    }
  }

  lemma InitWholeKeeps(sha: Sha256, s: System, after: System, id: ArchiveId, m: Manifest, quota: nat, grace: int)
    requires TablesOk(sha, s) && after == GuardedInit(s, id, m, quota, grace)
    ensures TablesOk(sha, after) && Preserved(s.db, after.db) && s.used <= after.used
    ensures after.db.archives.Keys * s.used <= s.db.archives.Keys
    ensures after.threads == s.threads || after.threads == s.threads + [InitInserted(id)]
    ensures after.threads == s.threads || id in after.used
  {
    hide Delivers, ArchiveOk;
    var stale := Supersedable(s.db, m.user, s.now, grace);
    var cleaned := s.(db := DeleteArchives(s.db, stale));
    DeleteKeeps(sha, s, stale);
    if after.threads != s.threads {
      InitKeeps(sha, cleaned, Inserted(cleaned, id, m), id, m);
    }
  }

  lemma ArriveKeeps(sha: Sha256, s: System, a: Action)
    requires TablesOk(sha, s) && !a.Advance?
    ensures var after := Arrive(s, a);
      && TablesOk(sha, after) && Preserved(s.db, after.db) && s.used <= after.used
      && after.db.archives.Keys * s.used <= s.db.archives.Keys
      && (after.threads == s.threads ||
          exists t :: after.threads == s.threads + [t] && ThreadOk(sha, after.db, t) && ThreadIds(t) <= after.used)
  {
    hide Delivers, ArchiveOk, Preserved;
    NothingChanges(s.db);
    var after := Arrive(s, a);
    if a.InitWhole? {
      if after != s {
        InitWholeKeeps(sha, s, after, a.id, a.manifest, a.quota, a.grace);
      }
    } else if a.Delete? {
      DeleteKeeps(sha, s, {a.id});
    } else {
      assert after.db == s.db && after.used == s.used;
      if after.threads != s.threads {
        assert ThreadOk(sha, s.db, after.threads[|s.threads|]);
      }
    }
  }

  /** The insert of an init that has counted. */
  lemma InsertKeeps(sha: Sha256, s: System, t: Thread, ok: bool)
    requires TablesOk(sha, s) && t.InitCounted?
    ensures var (after, thread) := Continue(sha, s, t, ok);
      && after.threads == s.threads && TablesOk(sha, after) && Preserved(s.db, after.db)
      && s.used <= after.used && after.db.archives.Keys * s.used <= s.db.archives.Keys
      && ThreadOk(sha, after.db, thread) && ThreadIds(thread) <= after.used
  {
    hide Delivers, ArchiveOk, Preserved;
    if ok && t.id !in s.used {
      InitKeeps(sha, s, Inserted(s, t.id, t.manifest), t.id, t.manifest);
    } else {
      NothingChanges(s.db);
    }
  }

  lemma StepKeeps(sha: Sha256, s: System, a: Action)
    requires Inv(sha, s)
    ensures Inv(sha, Step(sha, s, a)) && Preserved(s.db, Step(sha, s, a).db)
    ensures s.used <= Step(sha, s, a).used
    ensures Step(sha, s, a).db.archives.Keys * s.used <= s.db.archives.Keys
  {
    hide ArchiveOk, ThreadOk, Preserved, Continue, Arrive, ThreadIds;
    var after := Step(sha, s, a);
    match a
    case Advance(k, ok) =>
      if k < |s.threads| {
        assert s.threads[k] in s.threads;
        if s.threads[k].InitCounted? {
          InsertKeeps(sha, s, s.threads[k], ok);
        } else {
          ContinueKeeps(sha, s, s.threads[k], ok);
        }
        forall t | t in after.threads
          ensures ThreadIds(t) <= after.used && ThreadOk(sha, after.db, t)
        {
          if t in s.threads {
            OtherThreadsKeep(sha, s.db, after.db, s.used, t);
          }
        }
      } else {
        NothingChanges(s.db);
      }
    case _ =>
      ArriveKeeps(sha, s, a);
      forall t | t in after.threads
        ensures ThreadIds(t) <= after.used && ThreadOk(sha, after.db, t)
      {
        if t in s.threads {
          OtherThreadsKeep(sha, s.db, after.db, s.used, t);
        }
      }
  }

  lemma NothingChanges(db: Db)
    ensures Preserved(db, db)
  {
  }

  // ----- whole runs -----

  lemma {:induction false} RunKeeps(sha: Sha256, s: System, actions: seq<Action>)
    requires Inv(sha, s)
    ensures Inv(sha, Run(sha, s, actions)) && s.used <= Run(sha, s, actions).used
    ensures Run(sha, s, actions).db.archives.Keys * s.used <= s.db.archives.Keys
    decreases |actions|
  {
    hide Inv, Step;
    if actions != [] {
      StepKeeps(sha, s, actions[0]);
      RunKeeps(sha, Step(sha, s, actions[0]), actions[1..]);
    }
  }

  lemma StartKeeps(sha: Sha256)
    ensures Inv(sha, START)
  {
  }

  /** Every archive that any interleaving can produce: only five of the twelve states occur, an
      archive past uploading is finalized, a finalized archive has all its rows with the promised
      digest and size, and its expiry never passes its hard deadline. */
  lemma ReachableArchives(sha: Sha256, actions: seq<Action>, id: ArchiveId)
    requires id in Run(sha, START, actions).db.archives
    ensures var db := Run(sha, START, actions).db; var a := db.archives[id];
      && a.state in {Created, Uploading, Uploaded, Available, Acknowledged}
      && (a.state in {Uploaded, Available, Acknowledged} ==> a.finalized)
      && (a.finalized ==> Delivers(sha, a.manifest, ChunksOf(db, id)))
      && a.expiresAt <= a.hardDeadlineAt
  {
    hide Run, Delivers;
    StartKeeps(sha);
    RunKeeps(sha, START, actions);
    var s := Run(sha, START, actions);
    TablesGiveArchive(sha, s, id);
  }

  lemma {:induction false} FinalizedRowsStay(sha: Sha256, s: System, actions: seq<Action>, id: ArchiveId)
    requires Inv(sha, s) && id in s.db.archives && s.db.archives[id].finalized
    requires id in Run(sha, s, actions).db.archives
    ensures var later := Run(sha, s, actions).db;
      && later.archives[id].finalized && later.archives[id].manifest == s.db.archives[id].manifest
      && ChunksOf(later, id) == ChunksOf(s.db, id)
      && Delivers(sha, s.db.archives[id].manifest, ChunksOf(later, id))
    decreases |actions|
  {
    hide Step, Delivers, ChunksOf;
    if actions == [] {
      TablesGiveArchive(sha, s, id);
    } else {
      var mid := Step(sha, s, actions[0]);
      StepKeeps(sha, s, actions[0]);
      RunKeeps(sha, mid, actions[1..]);
      assert id in s.used;
      FinalizedRowsStay(sha, mid, actions[1..], id);
    }
  }

  /** Once finalized, in any run, an archive's rows never change while it exists, whatever handlers were
      already under way: an upload that passed its check before finalize ran finds its row taken. */
  lemma FinalizedRowsNeverChange(sha: Sha256, before: seq<Action>, after: seq<Action>, id: ArchiveId)
    requires var db := Run(sha, START, before).db; id in db.archives && db.archives[id].finalized
    requires id in Run(sha, Run(sha, START, before), after).db.archives
    ensures var s := Run(sha, START, before); var later := Run(sha, s, after).db;
      && later.archives[id].finalized && later.archives[id].manifest == s.db.archives[id].manifest
      && ChunksOf(later, id) == ChunksOf(s.db, id)
      && Delivers(sha, s.db.archives[id].manifest, ChunksOf(later, id))
  {
    StartKeeps(sha);
    RunKeeps(sha, START, before);
    FinalizedRowsStay(sha, Run(sha, START, before), after, id);
  }

  function Rank(state: Lifecycle): nat {
    match state
    case Created => 0
    case Uploading => 1
    case Uploaded => 2
    case Available => 3
    case Acknowledged => 4
    case _ => 5
  }

  /** One step moves a surviving archive's state forward by one, or not at all. */
  lemma StepMovesForward(sha: Sha256, s: System, a: Action, id: ArchiveId)
    requires Inv(sha, s) && id in s.db.archives && id in Step(sha, s, a).db.archives
    ensures var before, after := s.db.archives[id].state, Step(sha, s, a).db.archives[id].state;
      before == after || Rank(after) == Rank(before) + 1
  {
    hide Delivers, ThreadOk, ChunksOf, HasAll;
    TablesGiveArchive(sha, s, id);
    if a.Advance? {
      if a.t < |s.threads| {
        ContinueMovesForward(sha, s, s.threads[a.t], a.ok, id);
      }
    } else {
      assert id in s.used;
    }
  }

  lemma ContinueMovesForward(sha: Sha256, s: System, t: Thread, ok: bool, id: ArchiveId)
    requires id in s.db.archives && s.db.archives.Keys <= s.used
    requires s.db.archives[id].state in {Created, Uploading, Uploaded, Available, Acknowledged}
    ensures var after := Continue(sha, s, t, ok).0;
      && id in after.db.archives
      && (s.db.archives[id].state == after.db.archives[id].state
          || Rank(after.db.archives[id].state) == Rank(s.db.archives[id].state) + 1)
  {
    hide Delivers, ChunksOf;
  }

  /** How often an archive's state changes along a run it survives. */
  function Moves(sha: Sha256, s: System, actions: seq<Action>, id: ArchiveId): nat
    decreases |actions|
  {
    if actions == [] then 0 else
      var next := Step(sha, s, actions[0]);
      var here := if id in s.db.archives && id in next.db.archives
                     && s.db.archives[id].state != next.db.archives[id].state then 1 else 0;
      here + Moves(sha, next, actions[1..], id)
  }

  lemma {:induction false} MovesMatchRank(sha: Sha256, s: System, actions: seq<Action>, id: ArchiveId)
    requires Inv(sha, s) && id in s.db.archives && id in Run(sha, s, actions).db.archives
    ensures var before, after := s.db.archives[id].state, Run(sha, s, actions).db.archives[id].state;
      Moves(sha, s, actions, id) == Rank(after) - Rank(before) <= 4
    decreases |actions|
  {
    hide Step;
    if actions == [] {
    } else {
      var mid := Step(sha, s, actions[0]);
      StepKeeps(sha, s, actions[0]);
      RunKeeps(sha, mid, actions[1..]);
      assert id in s.used;
      StepMovesForward(sha, s, actions[0], id);
      MovesMatchRank(sha, mid, actions[1..], id);
      TablesGiveArchive(sha, Run(sha, s, actions), id);
    }
  }

  /** From any point of any run on, an archive that survives moves exactly as often as its rank grows: at
      most four times in its life. */
  lemma AtMostFourMoves(sha: Sha256, before: seq<Action>, after: seq<Action>, id: ArchiveId)
    requires id in Run(sha, START, before).db.archives && id in Run(sha, Run(sha, START, before), after).db.archives
    ensures var s := Run(sha, START, before); var later := Run(sha, s, after);
      Moves(sha, s, after, id) == Rank(later.db.archives[id].state) - Rank(s.db.archives[id].state) <= 4
  {
    StartKeeps(sha);
    RunKeeps(sha, START, before);
    MovesMatchRank(sha, Run(sha, START, before), after, id);
  }
}
