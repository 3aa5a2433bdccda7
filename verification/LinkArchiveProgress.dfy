/** What the link-archive handlers achieve: one that runs to its end without a failure reaches its goal,
    whatever interleaves. */
module LinkArchiveProgress {
  import opened Hashing
  import opened LinkArchiveDb
  import opened LinkArchiveProtocol
  import opened LinkArchiveExpiry

  // ----- one handler among others -----

  /** No statement of the handler at this place fails. */
  predicate NeverFails(actions: seq<Action>, t: nat) {
    forall k :: 0 <= k < |actions| && actions[k].Advance? && actions[k].t == t ==> actions[k].ok
  }

  /** How many statements a handler still has to run at most. */
  function Left(t: Thread): nat {
    match t
    case Done => 0
    case InitCounted(_, _) => 2
    case InitInserted(_) => 1
    case UploadChecked(_, _, _) => 2
    case FinalizeRead(_, _) => 5
    case FinalizeListed(_, _, _) => 4
    case FinalizeMarked(_) => 3
    case FinalizeUploaded(_) => 2
    case AckChecked(_) => 1
    case RefreshDue(_) => 1
  }

  /** How often the handler at this place moves. */
  function Turns(actions: seq<Action>, t: nat): nat {
    if actions == [] then 0 else (if actions[0].Advance? && actions[0].t == t then 1 else 0) + Turns(actions[1..], t)
  }

  lemma StepLeft(sha: Sha256, s: System, a: Action, t: nat)
    requires t < |s.threads|
    ensures t < |Step(sha, s, a).threads|
    ensures var left := Left(Step(sha, s, a).threads[t]);
      if a.Advance? && a.t == t then left == 0 || left + 1 <= Left(s.threads[t])
      else Step(sha, s, a).threads[t] == s.threads[t]
  {
    hide Delivers, ChunksOf, ActiveOf, Supersedable, Found, InitAccepts, InsertChunk, Transition, Refresh;
  }

  /** Every handler ends after as many turns as it has statements. */
  lemma {:induction false} HandlersEnd(sha: Sha256, s: System, actions: seq<Action>, t: nat)
    requires t < |s.threads| && Turns(actions, t) >= Left(s.threads[t])
    ensures t < |Run(sha, s, actions).threads| && Run(sha, s, actions).threads[t].Done?
    decreases |actions|
  {
    hide Step;
    if actions != [] {
      StepLeft(sha, s, actions[0], t);
      HandlersEnd(sha, Step(sha, s, actions[0]), actions[1..], t);
    }
  }

  /** A handler on its way to its goal: what it has already reached. */
  ghost predicate OnTrack(sha: Sha256, db: Db, t: Thread, goal: Action)
    requires Goal(goal)
  {
    !t.InitCounted? &&
    (goal.id in db.archives ==>
      var a := db.archives[goal.id];
      match goal
      case Upload(id, idx, row) => t == UploadChecked(id, idx, row) || (idx in ChunksOf(db, id) && Ends(t, id))
      case Finalize(id) =>
        && Rank(a.state) >= 1 && Delivers(sha, a.manifest, ChunksOf(db, id))
        && ((t == FinalizeRead(id, a.manifest))
            || (t.FinalizeListed? && t.id == id && t.manifest == a.manifest && Delivers(sha, a.manifest, t.rows))
            || (t == FinalizeMarked(id) && a.finalized)
            || (t == FinalizeUploaded(id) && a.finalized && Rank(a.state) >= 2)
            || (Ends(t, id) && a.finalized && Rank(a.state) >= 3))
      case Ack(id) => Rank(a.state) >= 3 && (t == AckChecked(id) || (t.Done? && Rank(a.state) == 4))
      case _ => true)
  }

  predicate Ends(t: Thread, id: ArchiveId) { t == RefreshDue(id) || t.Done? }

  predicate Goal(a: Action) { a.Upload? || a.Finalize? || a.Ack? }

  /** Steps of other handlers keep it on track. */
  lemma OthersKeepTrack(sha: Sha256, before: Db, after: Db, t: Thread, goal: Action)
    requires Goal(goal) && OnTrack(sha, before, t, goal) && Preserved(before, after)
    requires goal.id in after.archives ==> goal.id in before.archives
    requires goal.id in after.archives ==>
      Rank(before.archives[goal.id].state) <= Rank(after.archives[goal.id].state) <= 4
    ensures OnTrack(sha, after, t, goal)
  {
    if goal.id in after.archives && goal.Finalize? {
      MoreRowsDeliver(sha, before, after, goal.id);
    }
    hide Delivers;
  }

  lemma MoreRowsDeliver(sha: Sha256, before: Db, after: Db, id: ArchiveId)
    requires Preserved(before, after) && id in before.archives && id in after.archives
    requires Delivers(sha, before.archives[id].manifest, ChunksOf(before, id))
    ensures Delivers(sha, after.archives[id].manifest, ChunksOf(after, id))
  {
    SameRowsSameDigest(ChunksOf(before, id), ChunksOf(after, id), before.archives[id].manifest.totalChunks);
  }

  /** Its own next statement, when it does not fail, takes it further. */
  lemma OwnStepKeepsTrack(sha: Sha256, s: System, t: Thread, goal: Action)
    requires Goal(goal) && OnTrack(sha, s.db, t, goal)
    requires goal.id in s.db.archives ==>
      s.db.archives[goal.id].state in {Created, Uploading, Uploaded, Available, Acknowledged}
    ensures var (after, thread) := Continue(sha, s, t, true); OnTrack(sha, after.db, thread, goal)
  {
    hide Delivers;
  }

  /** What a step does to every archive but in the state it may be in. */
  lemma StepCarries(sha: Sha256, s: System, a: Action, id: ArchiveId)
    requires Inv(sha, s) && id in s.used
    ensures Inv(sha, Step(sha, s, a)) && Preserved(s.db, Step(sha, s, a).db) && id in Step(sha, s, a).used
    ensures id in Step(sha, s, a).db.archives ==>
      && id in s.db.archives
      && Rank(s.db.archives[id].state) <= Rank(Step(sha, s, a).db.archives[id].state) <= 4
  {
    var after := Step(sha, s, a);
    StepKeeps(sha, s, a);
    if id in after.db.archives {
      assert id in after.db.archives.Keys * s.used;
      StepMovesForward(sha, s, a, id);
      TablesGiveArchive(sha, after, id);
    }
  }

  lemma StepKeepsTrack(sha: Sha256, s: System, a: Action, t: nat, goal: Action)
    requires Inv(sha, s) && t < |s.threads| && Goal(goal) && goal.id in s.used
    requires OnTrack(sha, s.db, s.threads[t], goal) && (a.Advance? && a.t == t ==> a.ok)
    ensures t < |Step(sha, s, a).threads| && OnTrack(sha, Step(sha, s, a).db, Step(sha, s, a).threads[t], goal)
  {
    hide OnTrack, Delivers, ArchiveOk, ThreadOk, Arrive, Preserved;
    StepLeft(sha, s, a, t);
    StepCarries(sha, s, a, goal.id);
    if a.Advance? && a.t == t {
      if goal.id in s.db.archives {
        TablesGiveArchive(sha, s, goal.id);
        StatesOf(sha, s.db, goal.id, s.touched[goal.id]);
      }
      hide Inv, Continue;
      OwnStepKeepsTrack(sha, s, s.threads[t], goal);
    } else {
      hide Step;
      OthersKeepTrack(sha, s.db, Step(sha, s, a).db, s.threads[t], goal);
    }
  }

  lemma StatesOf(sha: Sha256, db: Db, id: ArchiveId, touch: int)
    requires id in db.archives && ArchiveOk(sha, db, id, touch)
    ensures db.archives[id].state in {Created, Uploading, Uploaded, Available, Acknowledged}
  {
  }

  lemma {:induction false} RunKeepsTrack(sha: Sha256, s: System, actions: seq<Action>, t: nat, goal: Action)
    requires Inv(sha, s) && t < |s.threads| && Goal(goal) && goal.id in s.used
    requires OnTrack(sha, s.db, s.threads[t], goal) && NeverFails(actions, t)
    ensures t < |Run(sha, s, actions).threads|
    ensures OnTrack(sha, Run(sha, s, actions).db, Run(sha, s, actions).threads[t], goal)
    decreases |actions|
  {
    hide Inv, Step, OnTrack;
    if actions != [] {
      StepKeepsTrack(sha, s, actions[0], t, goal);
      StepCarries(sha, s, actions[0], goal.id);
      RunKeepsTrack(sha, Step(sha, s, actions[0]), actions[1..], t, goal);
    }
  }

  /** The request is accepted in this state: a handler starts. */
  predicate Starts(sha: Sha256, s: System, a: Action) { |Step(sha, s, a).threads| == |s.threads| + 1 }

  /** Which requests are accepted, in every state of every run: those for an archive refreshed less than an
      hour ago and before its hard deadline; uploads and finalizes only until it is finalized. */
  lemma StartsIff(sha: Sha256, actions: seq<Action>, a: Action)
    requires a.Upload? || a.Finalize? || a.Ack? || a.Touch?
    ensures var s := Run(sha, START, actions);
      var open := a.id in s.db.archives && a.id in s.touched && s.now < s.touched[a.id] + 3600
                  && s.now < s.db.archives[a.id].hardDeadlineAt;
      Starts(sha, s, a) <==>
        && open
        && (a.Upload? || a.Finalize? ==> !s.db.archives[a.id].finalized)
        && (a.Upload? ==> a.idx < s.db.archives[a.id].manifest.totalChunks && 0 < a.row.size <= 4194560)
  {
    hide Run, Delivers;
    StartKeeps(sha);
    RunKeeps(sha, START, actions);
    var s := Run(sha, START, actions);
    if a.id in s.db.archives {
      TablesGiveArchive(sha, s, a.id);
      hide Inv;
    }
  }

  lemma GoalReached(sha: Sha256, before: seq<Action>, goal: Action, after: seq<Action>)
    requires Goal(goal)
    requires var s := Run(sha, START, before);
      && Starts(sha, s, goal) && NeverFails(after, |s.threads|)
      && OnTrack(sha, s.db, Step(sha, s, goal).threads[|s.threads|], goal)
      && Turns(after, |s.threads|) >= Left(Step(sha, s, goal).threads[|s.threads|])
    ensures var later := Run(sha, Step(sha, Run(sha, START, before), goal), after); OnTrack(sha, later.db, Done, goal)
  {
    var s := Run(sha, START, before);
    StartKeeps(sha);
    RunKeeps(sha, START, before);
    assert goal.id in s.used && Step(sha, s, goal).db == s.db && Step(sha, s, goal).used == s.used;
    StepKeeps(sha, s, goal);
    hide Run, Inv, Step, OnTrack, Starts;
    RunKeepsTrack(sha, Step(sha, s, goal), after, |s.threads|, goal);
    HandlersEnd(sha, Step(sha, s, goal), after, |s.threads|);
  }

  /** An accepted upload that does not fail leaves a row for its index, whatever interleaves. */
  lemma UploadStores(sha: Sha256, before: seq<Action>, id: ArchiveId, idx: nat, row: ChunkRow, after: seq<Action>)
    requires var s := Run(sha, START, before);
      Starts(sha, s, Upload(id, idx, row)) && NeverFails(after, |s.threads|) && Turns(after, |s.threads|) >= 2
    ensures var later := Run(sha, Step(sha, Run(sha, START, before), Upload(id, idx, row)), after);
      id in later.db.archives ==> idx in ChunksOf(later.db, id)
  {
    hide Run;
    GoalReached(sha, before, Upload(id, idx, row), after);
  }

  /** An accepted finalize that does not fail makes a complete archive available for good, whatever
      interleaves, other finalizes and late uploads included. */
  lemma FinalizeMakesAvailable(sha: Sha256, before: seq<Action>, id: ArchiveId, after: seq<Action>)
    requires var s := Run(sha, START, before);
      && Starts(sha, s, Finalize(id)) && NeverFails(after, |s.threads|) && Turns(after, |s.threads|) >= 5
      && s.db.archives[id].state != Created && Delivers(sha, s.db.archives[id].manifest, ChunksOf(s.db, id))
    ensures var later := Run(sha, Step(sha, Run(sha, START, before), Finalize(id)), after);
      id in later.db.archives ==>
        later.db.archives[id].finalized && later.db.archives[id].state in {Available, Acknowledged}
  {
    hide Run;
    ReachableArchives(sha, before, id);
    GoalReached(sha, before, Finalize(id), after);
    LaterState(sha, before, Finalize(id), after, id);
  }

  lemma LaterState(sha: Sha256, before: seq<Action>, a: Action, after: seq<Action>, id: ArchiveId)
    ensures var later := Run(sha, Step(sha, Run(sha, START, before), a), after);
      id in later.db.archives ==> later.db.archives[id].state in {Created, Uploading, Uploaded, Available, Acknowledged}
  {
    hide Step;
    RunAppend(sha, START, before, [a] + after);
    assert ([a] + after)[1..] == after;
    assert Run(sha, Run(sha, START, before), [a] + after) == Run(sha, Step(sha, Run(sha, START, before), a), after);
    if id in Run(sha, START, before + ([a] + after)).db.archives {
      ReachableArchives(sha, before + ([a] + after), id);
    }
  }

  /** An accepted ack of an available archive that does not fail leaves it acknowledged, out of its user's
      quota and open to garbage collection, whatever interleaves. */
  lemma AckAcknowledges(sha: Sha256, before: seq<Action>, id: ArchiveId, after: seq<Action>)
    requires var s := Run(sha, START, before);
      && Starts(sha, s, Ack(id)) && NeverFails(after, |s.threads|) && Turns(after, |s.threads|) >= 1
      && s.db.archives[id].state == Available
    ensures var later := Run(sha, Step(sha, Run(sha, START, before), Ack(id)), after);
      id in later.db.archives ==>
        && later.db.archives[id].state == Acknowledged && id in GcEligible(later.db, later.now)
        && forall user :: id !in ActiveOf(later.db, user)
  {
    hide Run;
    GoalReached(sha, before, Ack(id), after);
    LaterState(sha, before, Ack(id), after, id);
  }

  /** An uninterrupted init under a fresh id deletes exactly what its grace window supersedes, and inserts
      its archive exactly when what is left of the user's archives is below the quota. */
  lemma WholeInitInsertsIff(sha: Sha256, before: seq<Action>, id: ArchiveId, m: Manifest, quota: nat, grace: int)
    requires id !in Run(sha, START, before).used && InitAccepts(m)
    ensures var s := Run(sha, START, before); var after := Step(sha, s, InitWhole(id, m, quota, grace));
      var stale := Supersedable(s.db, m.user, s.now, grace);
      if |ActiveOf(s.db, m.user) - stale| < quota
      then && after.db.archives == (s.db.archives - stale)[id := NewArchive(m, s.now)]
           && ActiveOf(after.db, m.user) == ActiveOf(s.db, m.user) - stale + {id}
      else after.db.archives == s.db.archives - stale
  {
    var s := Run(sha, START, before);
    StartKeeps(sha);
    RunKeeps(sha, START, before);
    assert s.db.archives.Keys <= s.used;
    assert Step(sha, s, InitWhole(id, m, quota, grace)) == GuardedInit(s, id, m, quota, grace);
    hide Run, Inv, Step, Supersedable, ActiveOf, GuardedInit;
    GuardedInitInserts(s, id, m, quota, grace);
  }

  lemma GuardedInitInserts(s: System, id: ArchiveId, m: Manifest, quota: nat, grace: int)
    requires id !in s.used && s.db.archives.Keys <= s.used
    ensures var after, stale := GuardedInit(s, id, m, quota, grace), Supersedable(s.db, m.user, s.now, grace);
      if |ActiveOf(s.db, m.user) - stale| < quota
      then && after.db.archives == (s.db.archives - stale)[id := NewArchive(m, s.now)]
           && ActiveOf(after.db, m.user) == ActiveOf(s.db, m.user) - stale + {id}
      else after.db.archives == s.db.archives - stale
  {
    hide Supersedable, ActiveOf, Inserted;
    var stale := Supersedable(s.db, m.user, s.now, grace);
    var cleaned := s.(db := DeleteArchives(s.db, stale));
    DeletedActiveIs(s.db, stale, m.user);
    InsertedActive(cleaned, id, m, m.user);
    InsertedArchives(cleaned, id, m);
  }

  /** The row of a new archive. */
  function NewArchive(m: Manifest, now: int): Archive {
    Archive(m, false, Created, now, now + 3600, now + 7 * 24 * 3600)
  }

  lemma DeletedActiveIs(db: Db, ids: set<ArchiveId>, user: string)
    ensures ActiveOf(DeleteArchives(db, ids), user) == ActiveOf(db, user) - ids
  {
  }

  lemma InsertedArchives(s: System, id: ArchiveId, m: Manifest)
    requires id !in s.used
    ensures Inserted(s, id, m).db.archives == s.db.archives[id := NewArchive(m, s.now)]
  {
  }

  /** Rows that accepted uploads can leave, with this total. */
  predicate Uploadable(rows: map<nat, ChunkRow>, m: Manifest) {
    && HasAll(rows, m.totalChunks) && TotalSize(rows, m.totalChunks) == m.totalBytes
    && forall i: nat :: i < m.totalChunks ==> Sized(rows[i])
  }

  lemma {:induction false} SizesAreBounded(rows: map<nat, ChunkRow>, n: nat)
    requires HasAll(rows, n) && forall i: nat :: i < n ==> Sized(rows[i])
    ensures n <= TotalSize(rows, n) <= n * CHUNK_BODY_MAX
  {
    if n > 0 {
      SizesAreBounded(rows, n - 1);
    }
  }

  lemma {:induction false} RowsOfTotal(n: nat, total: int) returns (rows: map<nat, ChunkRow>)
    requires n <= total <= n * CHUNK_BODY_MAX
    ensures HasAll(rows, n) && TotalSize(rows, n) == total && forall i :: i in rows ==> i < n
    ensures forall i: nat :: i < n ==> Sized(rows[i])
  {
    rows := map[];
    if n > 0 {
      var last := Min(total - (n - 1), CHUNK_BODY_MAX);
      var rest := RowsOfTotal(n - 1, total - last);
      rows := rest[n - 1 := ChunkRow(last, ZERO_DIGEST)];
      SameRowsSameDigest(rest, rows, n - 1);
    }
  }

  /** Init's size check against the checks of each chunk: some rows of accepted chunks add up to the
      announced total exactly when init accepts it and it is at least one byte a chunk. */
  lemma UploadableIff(m: Manifest)
    requires m.totalChunks > 0
    ensures (exists rows :: Uploadable(rows, m)) <==> InitAccepts(m) && m.totalBytes >= m.totalChunks
    ensures InitAccepts(m) <==> (exists rows :: Uploadable(rows, m)) || 0 < m.totalBytes < m.totalChunks
  {
    if rows :| Uploadable(rows, m) {
      SizesAreBounded(rows, m.totalChunks);
    }
    if InitAccepts(m) && m.totalBytes >= m.totalChunks {
      var rows := RowsOfTotal(m.totalChunks, m.totalBytes);
      assert Uploadable(rows, m);
    }
  }

  /** Every stored and every waiting chunk row passed the body checks. */
  ghost predicate AllSized(s: System) {
    && (forall id, i :: id in s.db.chunks && i in s.db.chunks[id] ==> Sized(s.db.chunks[id][i]))
    && (forall t :: t in s.threads && t.UploadChecked? ==> Sized(t.row))
  }

  lemma StepSized(sha: Sha256, s: System, a: Action)
    requires AllSized(s)
    ensures AllSized(Step(sha, s, a))
  {
    hide Delivers, Fresh, ActiveOf, Supersedable, InitAccepts, Sized;
    if a.Advance? && a.t < |s.threads| {
      assert s.threads[a.t] in s.threads;
    }
  }

  lemma {:induction false} RunSized(sha: Sha256, s: System, actions: seq<Action>)
    requires AllSized(s)
    ensures AllSized(Run(sha, s, actions))
    decreases |actions|
  {
    hide Step, AllSized;
    if actions != [] {
      StepSized(sha, s, actions[0]);
      RunSized(sha, Step(sha, s, actions[0]), actions[1..]);
    }
  }

  /** So an archive announced with fewer bytes than chunks is accepted by init, but no run finalizes it. */
  lemma FinalizedIsUploadable(sha: Sha256, actions: seq<Action>, id: ArchiveId)
    requires var db := Run(sha, START, actions).db; id in db.archives && db.archives[id].finalized
    ensures var db := Run(sha, START, actions).db; var m := db.archives[id].manifest;
      Uploadable(ChunksOf(db, id), m) && m.totalBytes >= m.totalChunks
  {
    hide Run;
    RunSized(sha, START, actions);
    ReachableArchives(sha, actions, id);
    var db := Run(sha, START, actions).db;
    SizesAreBounded(ChunksOf(db, id), db.archives[id].manifest.totalChunks);
  }

  // ----- stuck in created -----

  /** An init that has still to move its archive to uploading. */
  predicate Moving(threads: seq<Thread>, id: ArchiveId) { InitInserted(id) in threads }

  lemma StepStaysCreated(sha: Sha256, s: System, a: Action, id: ArchiveId)
    requires Inv(sha, s) && id in s.db.archives && s.db.archives[id].state == Created && !Moving(s.threads, id)
    ensures !Moving(Step(sha, s, a).threads, id)
    ensures id in Step(sha, s, a).db.archives ==> Step(sha, s, a).db.archives[id].state == Created
  {
    hide Delivers, ChunksOf, ThreadOk, ArchiveOk, Fresh, Supersedable, ActiveOf;
    assert id in s.used;
    if a.Advance? && a.t < |s.threads| {
      assert s.threads[a.t] in s.threads;
    }
  }

  lemma GoneStaysGone(sha: Sha256, s: System, actions: seq<Action>, id: ArchiveId)
    requires Inv(sha, s) && id in s.used && id !in s.db.archives
    ensures id !in Run(sha, s, actions).db.archives
  {
    RunKeeps(sha, s, actions);
    assert id in Run(sha, s, actions).db.archives ==> id in Run(sha, s, actions).db.archives.Keys * s.used;
  }

  /** A deleted archive comes back in no continuation, whatever handlers were already under way. */
  lemma DeletedStaysDeleted(sha: Sha256, before: seq<Action>, id: ArchiveId, after: seq<Action>)
    requires id in Run(sha, START, before).db.archives
    ensures var deleted := Step(sha, Run(sha, START, before), Delete(id));
      id !in Run(sha, deleted, after).db.archives && id !in Run(sha, deleted, after).db.chunks
  {
    hide Delivers, ThreadOk, ArchiveOk, Run;
    StartKeeps(sha);
    RunKeeps(sha, START, before);
    var s := Run(sha, START, before);
    var deleted := Step(sha, s, Delete(id));
    StepKeeps(sha, s, Delete(id));
    GoneStaysGone(sha, deleted, after, id);
    RunKeeps(sha, deleted, after);
  }

  lemma {:induction false} StaysCreated(sha: Sha256, s: System, actions: seq<Action>, id: ArchiveId)
    requires Inv(sha, s) && id in s.db.archives && s.db.archives[id].state == Created && !Moving(s.threads, id)
    ensures id in Run(sha, s, actions).db.archives ==> Run(sha, s, actions).db.archives[id].state == Created
    decreases |actions|
  {
    hide Step, Moving;
    if actions != [] {
      var next := Step(sha, s, actions[0]);
      assert id in s.used;
      StepStaysCreated(sha, s, actions[0], id);
      StepKeeps(sha, s, actions[0]);
      hide Inv;
      if id in next.db.archives {
        StaysCreated(sha, next, actions[1..], id);
      } else {
        GoneStaysGone(sha, next, actions[1..], id);
      }
    }
  }

  predicate LeavesCreated(sha: Sha256, s: System, after: seq<Action>, id: ArchiveId) {
    id in Run(sha, s, after).db.archives && Run(sha, s, after).db.archives[id].state != Created
  }

  /** A created archive can leave that state exactly while the init that inserted it has its transition
      still to run. After a failed transition, which the code calls advisory, no continuation acknowledges
      it, finalized or not: it holds its quota slot until it expires. */
  lemma LeavesCreatedIff(sha: Sha256, before: seq<Action>, id: ArchiveId)
    requires var s := Run(sha, START, before); id in s.db.archives && s.db.archives[id].state == Created
    ensures var s := Run(sha, START, before);
      (exists after :: LeavesCreated(sha, s, after, id)) <==> Moving(s.threads, id)
  {
    var s := Run(sha, START, before);
    StartKeeps(sha);
    RunKeeps(sha, START, before);
    if Moving(s.threads, id) {
      var t :| 0 <= t < |s.threads| && s.threads[t] == InitInserted(id);
      var after := [Advance(t, true)];
      assert after[1..] == [] && Run(sha, s, after) == Step(sha, s, after[0]);
      assert LeavesCreated(sha, s, after, id);
    } else {
      forall after ensures !LeavesCreated(sha, s, after, id) {
        StaysCreated(sha, s, after, id);
      }
    }
  }

  // ----- stuck after finalize -----

  /** A finalize that can still move a finalized archive on: its retry cannot, it returns at once. */
  ghost predicate Finalizes(sha: Sha256, t: Thread, id: ArchiveId) {
    || (t.FinalizeRead? && t.id == id)
    || (t.FinalizeListed? && t.id == id && Delivers(sha, t.manifest, t.rows))
    || t == FinalizeMarked(id)
  }

  ghost predicate Stranded(sha: Sha256, s: System, id: ArchiveId) {
    && id in s.db.archives && s.db.archives[id].finalized && s.db.archives[id].state == Uploading
    && forall t :: t in s.threads ==> !Finalizes(sha, t, id)
  }

  lemma StepStaysStranded(sha: Sha256, s: System, a: Action, id: ArchiveId)
    requires Inv(sha, s) && Stranded(sha, s, id)
    ensures id in Step(sha, s, a).db.archives ==> Stranded(sha, Step(sha, s, a), id)
  {
    hide Delivers, ChunksOf, ThreadOk, ArchiveOk, Fresh, Supersedable, ActiveOf;
    assert id in s.used;
    if a.Advance? && a.t < |s.threads| {
      assert s.threads[a.t] in s.threads;
    }
  }

  lemma {:induction false} StaysStranded(sha: Sha256, s: System, actions: seq<Action>, id: ArchiveId)
    requires Inv(sha, s) && Stranded(sha, s, id)
    ensures id in Run(sha, s, actions).db.archives ==> Run(sha, s, actions).db.archives[id].state == Uploading
    decreases |actions|
  {
    hide Step;
    if actions != [] {
      var next := Step(sha, s, actions[0]);
      assert id in s.used;
      StepStaysStranded(sha, s, actions[0], id);
      StepKeeps(sha, s, actions[0]);
      hide Inv, Stranded;
      if id in next.db.archives {
        StaysStranded(sha, next, actions[1..], id);
      } else {
        GoneStaysGone(sha, next, actions[1..], id);
      }
    }
  }

  predicate LeavesUploading(sha: Sha256, s: System, after: seq<Action>, id: ArchiveId) {
    id in Run(sha, s, after).db.archives && Run(sha, s, after).db.archives[id].state != Uploading
  }

  /** The turns that take a handler of a finalize past its first transition. */
  lemma FinalizeMovesOn(sha: Sha256, s: System, id: ArchiveId, t: nat) returns (after: seq<Action>)
    requires Inv(sha, s) && id in s.db.archives && s.db.archives[id].finalized && s.db.archives[id].state == Uploading
    requires t < |s.threads| && Finalizes(sha, s.threads[t], id)
    ensures LeavesUploading(sha, s, after, id)
    decreases Left(s.threads[t])
  {
    hide Delivers, HasAll;
    var next := Step(sha, s, Advance(t, true));
    assert s.threads[t] in s.threads;
    TablesGiveArchive(sha, s, id);
    if s.threads[t].FinalizeMarked? {
      after := [Advance(t, true)];
      assert after[1..] == [] && Run(sha, s, after) == Run(sha, next, []) == next;
    } else {
      StepKeeps(sha, s, Advance(t, true));
      var rest := FinalizeMovesOn(sha, next, id, t);
      after := [Advance(t, true)] + rest;
      assert after[1..] == rest;
    }
  }

  /** A finalized archive in uploading can leave that state exactly while a finalize that marks or has marked
      it is still before its first transition. When that transition fails, which the code calls advisory, a
      retry answers ok without repeating it, and no continuation makes the archive available or
      acknowledges it. */
  lemma LeavesUploadingIff(sha: Sha256, before: seq<Action>, id: ArchiveId)
    requires var s := Run(sha, START, before);
      id in s.db.archives && s.db.archives[id].finalized && s.db.archives[id].state == Uploading
    ensures var s := Run(sha, START, before);
      (exists after :: LeavesUploading(sha, s, after, id)) <==> exists t :: t in s.threads && Finalizes(sha, t, id)
  {
    hide Run;
    var s := Run(sha, START, before);
    StartKeeps(sha);
    RunKeeps(sha, START, before);
    if t :| t in s.threads && Finalizes(sha, t, id) {
      var k :| 0 <= k < |s.threads| && s.threads[k] == t;
      var after := FinalizeMovesOn(sha, s, id, k);
    } else {
      forall after ensures !LeavesUploading(sha, s, after, id) {
        StaysStranded(sha, s, after, id);
      }
    }
  }

  /** It happens: a finalize alone on its archive whose first transition fails ends with the archive
      refreshed, finalized and stranded. */
  lemma LostTransitionStrands(sha: Sha256, before: seq<Action>, id: ArchiveId, t: nat, ok: bool)
    requires var s := Run(sha, START, before);
      && t < |s.threads| && s.threads[t] == FinalizeMarked(id)
      && id in s.db.archives && s.db.archives[id].state == Uploading
      && forall k :: 0 <= k < |s.threads| && k != t ==> !Finalizes(sha, s.threads[k], id)
    ensures var s := Run(sha, START, before);
      var after := Run(sha, s, [Advance(t, false), Advance(t, ok), Advance(t, true)]);
      && id in after.touched && after.touched[id] == s.now
      && Stranded(sha, after, id)
  {
    hide Run, Delivers;
    var s := Run(sha, START, before);
    StartKeeps(sha);
    RunKeeps(sha, START, before);
    assert s.threads[t] in s.threads && s.db.archives[id].finalized;
    hide Inv, Step;
    RunThree(sha, s, Advance(t, false), Advance(t, ok), Advance(t, true));
    LostTransition(sha, s, id, t, ok);
  }

  lemma LostTransition(sha: Sha256, s: System, id: ArchiveId, t: nat, ok: bool)
    requires t < |s.threads| && s.threads[t] == FinalizeMarked(id) && id in s.db.archives
    requires s.db.archives[id].finalized && s.db.archives[id].state == Uploading
    requires forall k :: 0 <= k < |s.threads| && k != t ==> !Finalizes(sha, s.threads[k], id)
    ensures var after := Step(sha, Step(sha, Step(sha, s, Advance(t, false)), Advance(t, ok)), Advance(t, true));
      id in after.touched && after.touched[id] == s.now && Stranded(sha, after, id)
  {
    hide Delivers;
    var kept := Step(sha, s, Advance(t, false));
    assert kept.db == s.db && kept.threads == s.threads[t := FinalizeUploaded(id)];
    var next := Step(sha, kept, Advance(t, ok));
    assert next.db == s.db && next.threads == s.threads[t := RefreshDue(id)];
    var after := Step(sha, next, Advance(t, true));
    assert after.threads == s.threads[t := Done];
  }
}
