/** Which archives the expiry queries select, and what the per-user quota guarantees. */
module LinkArchiveExpiry {
  import opened Basics
  import opened Hashing
  import opened LinkArchiveDb
  import opened LinkArchiveProtocol

  const DAY := 24 * 60 * 60

  /** ListGcEligibleLinkArchives before its LIMIT: the four clauses of the WHERE. */
  function GcEligible(db: Db, now: int): set<ArchiveId> {
    set id | id in db.archives && (
      || db.archives[id].state in {Acknowledged, Aborted}
      || (db.archives[id].state in {TerminalFailure, Imported} && db.archives[id].expiresAt < now - DAY)
      || db.archives[id].expiresAt < now
      || db.archives[id].hardDeadlineAt < now)
  }

  /** An active archive is superseded exactly when it was not touched within the grace window, or its
      hard deadline is near: the deadline clamp makes a late touch look like no touch. */
  lemma SupersededIff(sha: Sha256, actions: seq<Action>, s: System, id: ArchiveId, grace: int)
    requires s == Run(sha, START, actions) && id in s.db.archives
    ensures var a := s.db.archives[id];
      && id in s.touched
      && (id in Supersedable(s.db, a.manifest.user, s.now, grace) <==>
            a.state in ACTIVE_STATES
            && (s.touched[id] < s.now - grace || a.hardDeadlineAt < s.now + DEFAULT_EXPIRY - grace))
  {
    hide Delivers, Run;
    StartKeeps(sha);
    RunKeeps(sha, START, actions);
    TablesGiveArchive(sha, s, id);
  }

  /** So the promise that an active session is never preempted (link_archives.go:186-191) holds for
      an archive touched this very second exactly while its hard deadline is at least
      expiry - grace away. */
  lemma FreshTouchIsPreemptedIff(sha: Sha256, actions: seq<Action>, s: System, id: ArchiveId, grace: int)
    requires s == Run(sha, START, actions) && id in s.db.archives && id in s.touched
    requires s.touched[id] == s.now && grace > 0
    requires s.db.archives[id].state in ACTIVE_STATES
    ensures var a := s.db.archives[id];
      id in Supersedable(s.db, a.manifest.user, s.now, grace) <==>
        a.hardDeadlineAt - s.now < DEFAULT_EXPIRY - grace
  {
    SupersededIff(sha, actions, s, id, grace);
  }

  lemma {:induction false} RunAppend(sha: Sha256, s: System, first: seq<Action>, rest: seq<Action>)
    ensures Run(sha, s, first + rest) == Run(sha, Run(sha, s, first), rest)
    decreases |first|
  {
    hide Step;
    if first == [] {
      assert first + rest == rest;
    } else {
      assert (first + rest)[1..] == first[1..] + rest;
      RunAppend(sha, Step(sha, s, first[0]), first[1..], rest);
    }
  }

  /** An init, then touches always one second before the sliding expiry. */
  function KeepAlive(id: ArchiveId, m: Manifest, k: nat): seq<Action> {
    if k == 0 then [Init(id, m, 1), Advance(0, true)]
    else KeepAlive(id, m, k - 1) + [Tick(DEFAULT_EXPIRY - 1), Touch(id), Advance(k, true)]
  }

  lemma RunThree(sha: Sha256, s: System, a: Action, b: Action, c: Action)
    ensures Run(sha, s, [a, b, c]) == Step(sha, Step(sha, Step(sha, s, a), b), c)
  {
    hide Step;
    assert [a, b, c][1..] == [b, c] && [b, c][1..] == [c] && [c][1..] == [];
    assert Run(sha, s, [a, b, c]) == Run(sha, Step(sha, s, a), [b, c]);
    assert Run(sha, Step(sha, s, a), [b, c]) == Run(sha, Step(sha, Step(sha, s, a), b), [c]);
  }

  /** The archive after k such touches, before its hard deadline. */
  ghost predicate Kept(s: System, id: ArchiveId, m: Manifest, k: nat) {
    && s.now == k * (DEFAULT_EXPIRY - 1) && |s.threads| == k + 1 && id in s.touched && s.touched[id] == s.now
    && id in s.db.archives
    && s.db.archives[id] == Archive(m, false, Created, 0, Min(s.now + DEFAULT_EXPIRY, MAX_LIFETIME), MAX_LIFETIME)
  }

  lemma KeptTouch(sha: Sha256, s: System, id: ArchiveId, m: Manifest, k: nat)
    requires Kept(s, id, m, k) && (k + 1) * (DEFAULT_EXPIRY - 1) < MAX_LIFETIME
    ensures var later := Step(sha, s, Tick(DEFAULT_EXPIRY - 1));
      Kept(Step(sha, Step(sha, later, Touch(id)), Advance(k + 1, true)), id, m, k + 1)
  {
    hide Delivers;
    var later := Step(sha, s, Tick(DEFAULT_EXPIRY - 1));
    assert Found(later, id);
    var due := Step(sha, later, Touch(id));
    assert due.threads[k + 1] == RefreshDue(id);
  }

  lemma {:induction false} AliveWhileTouched(sha: Sha256, id: ArchiveId, m: Manifest, k: nat)
    requires InitAccepts(m) && k * (DEFAULT_EXPIRY - 1) < MAX_LIFETIME
    ensures Kept(Run(sha, START, KeepAlive(id, m, k)), id, m, k)
  {
    if k == 0 {
      var init := Step(sha, START, Init(id, m, 1));
      assert ActiveOf(START.db, m.user) == {} && init.threads == [InitCounted(id, m)];
      assert [Init(id, m, 1), Advance(0, true)][1..] == [Advance(0, true)] && [Advance(0, true)][1..] == [];
      assert Run(sha, START, KeepAlive(id, m, 0)) == Run(sha, init, [Advance(0, true)]);
      assert Run(sha, init, [Advance(0, true)]) == Step(sha, init, Advance(0, true));
    } else {
      hide Step, Kept;
      AliveWhileTouched(sha, id, m, k - 1);
      var s := Run(sha, START, KeepAlive(id, m, k - 1));
      RunAppend(sha, START, KeepAlive(id, m, k - 1), [Tick(DEFAULT_EXPIRY - 1), Touch(id), Advance(k, true)]);
      RunThree(sha, s, Tick(DEFAULT_EXPIRY - 1), Touch(id), Advance(k, true));
      KeptTouch(sha, s, id, m, k - 1);
    }
  }

  const DEFAULT_GRACE := 30 * 60

  /** It happens: an archive touched without fail for 168 hours is superseded the moment after a touch. */
  lemma TouchedArchiveIsPreempted(sha: Sha256, id: ArchiveId, m: Manifest)
    requires InitAccepts(m)
    ensures var s := Run(sha, START, KeepAlive(id, m, 168));
      && id in s.touched && s.touched[id] == s.now && id in s.db.archives
      && id in Supersedable(s.db, m.user, s.now, DEFAULT_GRACE)
  {
    AliveWhileTouched(sha, id, m, 168);
  }

  /** The four GC clauses collapse to two. In particular the 24-hour diagnostic grace the query
      spells out for imported and terminal_failure never applies: the sliding clause is wider. */
  lemma GcEligibleIff(sha: Sha256, actions: seq<Action>, s: System, id: ArchiveId)
    requires s == Run(sha, START, actions) && id in s.db.archives
    ensures var a := s.db.archives[id];
      id in GcEligible(s.db, s.now) <==> a.state in {Acknowledged, Aborted} || a.expiresAt < s.now
  {
    hide Delivers, Run;
    StartKeeps(sha);
    RunKeeps(sha, START, actions);
    TablesGiveArchive(sha, s, id);
  }

  // ----- the per-user quota -----

  /** The two steps that insert an archive. */
  predicate Inserts(s: System, a: Action) {
    a.InitWhole? || (a.Advance? && a.t < |s.threads| && s.threads[a.t].InitCounted?)
  }

  /** Apart from an init's insert no step activates an archive. */
  lemma OnlyInitActivates(sha: Sha256, s: System, a: Action, user: string)
    requires Inv(sha, s) && !Inserts(s, a)
    ensures ActiveOf(Step(sha, s, a).db, user) <= ActiveOf(s.db, user)
  {
    hide Delivers, Step, TablesOk, ThreadOk;
    var after := Step(sha, s, a);
    StepKeeps(sha, s, a);
    forall id | id in ActiveOf(after.db, user) ensures id in ActiveOf(s.db, user) {
      StepActivates(sha, s, a, id);
      StepMovesForward(sha, s, a, id);
      TablesGiveArchive(sha, s, id);
      TablesGiveArchive(sha, after, id);
    }
  }

  lemma StepActivates(sha: Sha256, s: System, a: Action, id: ArchiveId)
    requires Inv(sha, s) && !Inserts(s, a) && id in Step(sha, s, a).db.archives
    ensures id in s.db.archives
  {
    hide Delivers, ThreadOk, ArchiveOk;
    if a.Advance? && a.t < |s.threads| {
      assert s.threads[a.t] in s.threads;
      ContinueKeeps(sha, s, s.threads[a.t], a.ok);
    }
  }

  /** Handlers of a user's inits that have passed the count and not yet inserted. */
  function CountedBy(threads: seq<Thread>, user: string): set<nat> {
    set k: nat | k < |threads| && threads[k].InitCounted? && threads[k].manifest.user == user
  }

  /** What a user's quota has to hold: active archives, and those still to be inserted. */
  function Load(s: System, user: string): nat { |ActiveOf(s.db, user)| + |CountedBy(s.threads, user)| }

  /** An init of this user that is not refused. */
  predicate Admits(s: System, a: Action, user: string) {
    && (a.Init? || a.InitWhole?) && InitAccepts(a.manifest) && a.manifest.user == user
    && |ActiveOf(Cleaned(s, a).db, user)| < a.quota
  }

  /** The state an init counts in: only an uninterrupted one supersedes first. */
  function Cleaned(s: System, a: Action): System {
    if a.InitWhole? then s.(db := DeleteArchives(s.db, Supersedable(s.db, a.manifest.user, s.now, a.grace))) else s
  }

  /** Every init of this user that is admitted finds room beside what is still to be inserted. Inits of
      other users are free, and so is everything else. */
  ghost predicate RoomForEach(sha: Sha256, s: System, actions: seq<Action>, quota: nat, user: string)
    decreases |actions|
  {
    actions == [] ||
    ((Admits(s, actions[0], user) ==> Load(Cleaned(s, actions[0]), user) < quota)
     && RoomForEach(sha, Step(sha, s, actions[0]), actions[1..], quota, user))
  }

  lemma DeletedActive(db: Db, ids: set<ArchiveId>, user: string)
    ensures ActiveOf(DeleteArchives(db, ids), user) <= ActiveOf(db, user)
  {
  }

  lemma InsertedActive(s: System, id: ArchiveId, m: Manifest, user: string)
    requires id !in s.used && s.db.archives.Keys <= s.used
    ensures ActiveOf(Inserted(s, id, m).db, user) == ActiveOf(s.db, user) + if m.user == user then {id} else {}
    ensures id !in ActiveOf(s.db, user)
  {
  }

  lemma SpawnCounted(threads: seq<Thread>, t: Thread, user: string)
    ensures CountedBy(threads + [t], user) == CountedBy(threads, user)
      + if t.InitCounted? && t.manifest.user == user then {|threads|} else {}
  {
  }

  lemma AdvanceCounted(threads: seq<Thread>, k: nat, t: Thread, user: string)
    requires k < |threads| && !t.InitCounted?
    ensures CountedBy(threads[k := t], user) == CountedBy(threads, user) - {k}
  {
  }

  /** No step but an admitted init adds to a user's load, and that one adds at most one. */
  lemma StepLoad(sha: Sha256, s: System, a: Action, user: string)
    requires Inv(sha, s)
    ensures var after := Load(Step(sha, s, a), user);
      if Admits(s, a, user) then after <= Load(Cleaned(s, a), user) + 1 else after <= Load(s, user)
  {
    if a.InitWhole? {
      WholeLoad(sha, s, a, user);
    } else if Inserts(s, a) {
      InsertLoad(sha, s, a, user);
    } else {
      hide Inv, ActiveOf, CountedBy, Step, Inserts;
      OnlyInitActivates(sha, s, a, user);
      OtherThreads(sha, s, a, user);
      SubsetSize(ActiveOf(Step(sha, s, a).db, user), ActiveOf(s.db, user));
    }
  }

  /** Only an admitted interrupted init waits for its insert. */
  lemma OtherThreads(sha: Sha256, s: System, a: Action, user: string)
    requires !Inserts(s, a)
    ensures |CountedBy(Step(sha, s, a).threads, user)|
         <= |CountedBy(s.threads, user)| + if a.Init? && Admits(s, a, user) then 1 else 0
  {
    hide ActiveOf, CountedBy, Delivers, ChunksOf;
    var after := Step(sha, s, a);
    if a.Advance? && a.t < |s.threads| {
      AdvanceCounted(s.threads, a.t, after.threads[a.t], user);
      SubsetSize(CountedBy(after.threads, user), CountedBy(s.threads, user));
    } else if after.threads != s.threads {
      SpawnCounted(s.threads, after.threads[|s.threads|], user);
    }
  }

  lemma WholeLoad(sha: Sha256, s: System, a: Action, user: string)
    requires Inv(sha, s) && a.InitWhole?
    ensures var after := Load(Step(sha, s, a), user);
      if Admits(s, a, user) then after <= Load(Cleaned(s, a), user) + 1 else after <= Load(s, user)
  {
    var cleaned, after := Cleaned(s, a), Step(sha, s, a);
    DeletedActive(s.db, Supersedable(s.db, a.manifest.user, s.now, a.grace), user);
    assert cleaned.db.archives.Keys <= s.used;
    hide Inv, ActiveOf, CountedBy, Supersedable;
    SubsetSize(ActiveOf(cleaned.db, user), ActiveOf(s.db, user));
    if after.threads != s.threads {
      SpawnCounted(s.threads, InitInserted(a.id), user);
      InsertedActive(cleaned, a.id, a.manifest, user);
    }
  }

  lemma InsertLoad(sha: Sha256, s: System, a: Action, user: string)
    requires Inv(sha, s) && a.Advance? && Inserts(s, a)
    ensures Load(Step(sha, s, a), user) <= Load(s, user)
  {
    var t, after := s.threads[a.t], Step(sha, s, a);
    assert t.manifest.user == user ==> a.t in CountedBy(s.threads, user);
    assert s.db.archives.Keys <= s.used;
    AdvanceCounted(s.threads, a.t, after.threads[a.t], user);
    hide Inv, ActiveOf, CountedBy;
    SubsetSize(CountedBy(after.threads, user), CountedBy(s.threads, user));
    if a.ok && t.id !in s.used {
      InsertedActive(s, t.id, t.manifest, user);
    }
  }

  lemma {:induction false} RoomKeepsLoad(sha: Sha256, s: System, actions: seq<Action>, quota: nat, user: string)
    requires Inv(sha, s) && Load(s, user) <= quota && RoomForEach(sha, s, actions, quota, user)
    ensures Load(Run(sha, s, actions), user) <= quota
    decreases |actions|
  {
    hide Inv, Step, Load, Admits, Cleaned;
    if actions != [] {
      StepKeeps(sha, s, actions[0]);
      StepLoad(sha, s, actions[0], user);
      RoomKeepsLoad(sha, Step(sha, s, actions[0]), actions[1..], quota, user);
    }
  }

  /** A user whose every admitted init finds room beside the inits still to insert never holds more active
      archives than the quota, over every run and whatever interleaves, interrupted inits included. */
  lemma RoomyInitsNeverExceedQuota(sha: Sha256, actions: seq<Action>, quota: nat, user: string)
    requires RoomForEach(sha, START, actions, quota, user)
    ensures |ActiveOf(Run(sha, START, actions).db, user)| <= quota
  {
    StartKeeps(sha);
    assert ActiveOf(START.db, user) == {} && CountedBy(START.threads, user) == {};
    RoomKeepsLoad(sha, START, actions, quota, user);
  }

  /** Every init of this user runs without interruption, under quotas up to this one. */
  predicate InitsWhole(actions: seq<Action>, quota: nat, user: string) {
    forall k :: 0 <= k < |actions| ==>
      && (actions[k].Init? ==> actions[k].manifest.user != user)
      && (actions[k].InitWhole? && actions[k].manifest.user == user ==> actions[k].quota <= quota)
  }

  lemma StepKeepsUncounted(sha: Sha256, s: System, a: Action, user: string)
    requires CountedBy(s.threads, user) == {} && !(a.Init? && a.manifest.user == user)
    ensures CountedBy(Step(sha, s, a).threads, user) == {}
  {
    hide CountedBy, ActiveOf, Delivers, Supersedable;
    var after := Step(sha, s, a);
    if a.Advance? && a.t < |s.threads| {
      AdvanceCounted(s.threads, a.t, after.threads[a.t], user);
    } else if after.threads != s.threads {
      SpawnCounted(s.threads, after.threads[|s.threads|], user);
    }
  }

  lemma {:induction false} WholeInitsFindRoom(sha: Sha256, s: System, actions: seq<Action>, quota: nat, user: string)
    requires CountedBy(s.threads, user) == {} && InitsWhole(actions, quota, user)
    ensures RoomForEach(sha, s, actions, quota, user)
    decreases |actions|
  {
    hide Step, ActiveOf, CountedBy;
    if actions != [] {
      StepKeepsUncounted(sha, s, actions[0], user);
      WholeInitsFindRoom(sha, Step(sha, s, actions[0]), actions[1..], quota, user);
    }
  }

  /** In particular a user whose own inits are never interrupted keeps the quota. */
  lemma WholeInitsNeverExceedQuota(sha: Sha256, actions: seq<Action>, quota: nat, user: string)
    requires InitsWhole(actions, quota, user)
    ensures |ActiveOf(Run(sha, START, actions).db, user)| <= quota
  {
    assert CountedBy(START.threads, user) == {};
    WholeInitsFindRoom(sha, START, actions, quota, user);
    RoomyInitsNeverExceedQuota(sha, actions, quota, user);
  }

  // ----- racing inits -----

  /** The inserts of the handlers at these places, in this order. */
  function InsertsAt(order: seq<nat>): seq<Action> {
    if order == [] then [] else [Advance(order[0], true)] + InsertsAt(order[1..])
  }

  /** The handlers at these places are inits of one user past their count, each for its own fresh id and
      its own archive. */
  ghost predicate Waiting(s: System, order: seq<nat>, user: string) {
    && (forall i :: 0 <= i < |order| ==> order[i] in CountedBy(s.threads, user) && s.threads[order[i]].id !in s.used)
    && (forall i, j :: 0 <= i < j < |order| ==> s.threads[order[i]].id != s.threads[order[j]].id)
  }

  lemma InsertOne(sha: Sha256, s: System, order: seq<nat>, user: string)
    requires Inv(sha, s) && Waiting(s, order, user) && order != []
    ensures var after := Step(sha, s, Advance(order[0], true));
      Waiting(after, order[1..], user) && |ActiveOf(after.db, user)| == |ActiveOf(s.db, user)| + 1
  {
    var t, after := s.threads[order[0]], Step(sha, s, Advance(order[0], true));
    assert s.db.archives.Keys <= s.used;
    InsertedActive(s, t.id, t.manifest, user);
    hide Inv, ActiveOf;
    forall i | 0 < i < |order|
      ensures order[i] in CountedBy(after.threads, user) && after.threads[order[i]] == s.threads[order[i]]
      ensures s.threads[order[i]].id !in after.used
    {
      assert order[i] in CountedBy(s.threads, user) && order[i] != order[0];
    }
  }

  /** Waiting inits all insert, in any order and whatever the count has become. */
  lemma {:induction false} AllInsert(sha: Sha256, s: System, order: seq<nat>, user: string)
    requires Inv(sha, s) && Waiting(s, order, user)
    ensures |ActiveOf(Run(sha, s, InsertsAt(order)).db, user)| == |ActiveOf(s.db, user)| + |order|
    decreases |order|
  {
    hide Inv, ActiveOf, Step, Waiting;
    if order != [] {
      InsertOne(sha, s, order, user);
      StepKeeps(sha, s, Advance(order[0], true));
      AllInsert(sha, Step(sha, s, Advance(order[0], true)), order[1..], user);
      assert InsertsAt(order)[1..] == InsertsAt(order[1..]);
    }
  }

  /** No further init of this user is admitted. */
  ghost predicate NoneAdmitted(sha: Sha256, s: System, actions: seq<Action>, user: string)
    decreases |actions|
  {
    actions == [] || (!Admits(s, actions[0], user) && NoneAdmitted(sha, Step(sha, s, actions[0]), actions[1..], user))
  }

  lemma {:induction false} NoneAdmittedHasRoom(sha: Sha256, s: System, actions: seq<Action>, quota: nat, user: string)
    requires NoneAdmitted(sha, s, actions, user)
    ensures RoomForEach(sha, s, actions, quota, user)
    decreases |actions|
  {
    hide Step, Admits;
    if actions != [] {
      NoneAdmittedHasRoom(sha, Step(sha, s, actions[0]), actions[1..], quota, user);
    }
  }

  /** The load decides. From any state of any run, with all inits of a user that wait for their insert: if
      the load is within the quota, no continuation without new inits of the user exceeds it; otherwise
      letting them insert, in any order, does. */
  lemma QuotaExceededIffLoad(sha: Sha256, before: seq<Action>, order: seq<nat>, after: seq<Action>, quota: nat,
                             user: string)
    requires Waiting(Run(sha, START, before), order, user)
    requires |order| == |CountedBy(Run(sha, START, before).threads, user)|
    requires NoneAdmitted(sha, Run(sha, START, before), after, user)
    ensures var s := Run(sha, START, before);
      && (Load(s, user) <= quota ==> |ActiveOf(Run(sha, s, after).db, user)| <= quota)
      && (|ActiveOf(Run(sha, s, InsertsAt(order)).db, user)| > quota <==> Load(s, user) > quota)
  {
    hide Waiting, NoneAdmitted, ActiveOf, CountedBy, Inv;
    var s := Run(sha, START, before);
    StartKeeps(sha);
    RunKeeps(sha, START, before);
    AllInsert(sha, s, order, user);
    if Load(s, user) <= quota {
      NoneAdmittedHasRoom(sha, s, after, quota, user);
      RoomKeepsLoad(sha, s, after, quota, user);
    }
  }

  /** The arrivals of these inits, each with its own archive. */
  function Counts(inits: seq<Thread>, quota: nat): seq<Action>
    requires forall t :: t in inits ==> t.InitCounted?
  {
    if inits == [] then [] else
      assert inits[0] in inits;
      [Init(inits[0].id, inits[0].manifest, quota)] + Counts(inits[1..], quota)
  }

  predicate Racing(inits: seq<Thread>, user: string) {
    forall t :: t in inits ==> t.InitCounted? && InitAccepts(t.manifest) && t.manifest.user == user
  }

  /** Counting changes no table, so every one of the inits sees the same count. */
  lemma {:induction false} AllCountTheSame(sha: Sha256, s: System, inits: seq<Thread>, quota: nat, user: string)
    requires Racing(inits, user) && |ActiveOf(s.db, user)| < quota
    ensures Run(sha, s, Counts(inits, quota)) == s.(threads := s.threads + inits)
    decreases |inits|
  {
    hide ActiveOf;
    if inits != [] {
      assert inits[0] in inits;
      var next := Step(sha, s, Init(inits[0].id, inits[0].manifest, quota));
      AllCountTheSame(sha, next, inits[1..], quota, user);
      assert next.threads + inits[1..] == s.threads + inits;
      assert Counts(inits, quota)[1..] == Counts(inits[1..], quota);
    } else {
      assert s.threads + [] == s.threads;
    }
  }

  /** The count and the insert are two statements. From any state of any run let inits of one user, each
      with its own archive, arrive and count before any of them inserts; then some of those waiting
      insert, in any order. They leave the count they all saw plus their number, so the quota is exceeded
      exactly when that sum is above it. */
  lemma RacingInitsExceedQuotaIff(sha: Sha256, before: seq<Action>, s: System, inits: seq<Thread>, order: seq<nat>,
                                  user: string, quota: nat)
    requires s == Run(sha, START, before) && Racing(inits, user) && |ActiveOf(s.db, user)| < quota
    requires Waiting(s.(threads := s.threads + inits), order, user)
    ensures var counted, active := |ActiveOf(s.db, user)|,
        |ActiveOf(Run(sha, s, Counts(inits, quota) + InsertsAt(order)).db, user)|;
      active == counted + |order| && (active > quota <==> counted + |order| > quota)
  {
    hide ActiveOf, Waiting, Inv;
    StartKeeps(sha);
    assert forall t :: t in inits ==> t.InitCounted?;
    RunKeeps(sha, START, before + Counts(inits, quota));
    RunAppend(sha, START, before, Counts(inits, quota));
    AllCountTheSame(sha, s, inits, quota, user);
    RunAppend(sha, s, Counts(inits, quota), InsertsAt(order));
    AllInsert(sha, s.(threads := s.threads + inits), order, user);
  }
}
