/** The attachment rows of one guild under its storage quota: the size checks of presign, and the
    eviction that follows every insert, interleaved between requests. */
module AttachmentQuota {
  import opened Basics

  datatype Attachment = Attachment(id: nat, size: nat)

  const MAX_ATTACHMENT_BYTES := 25 * 1024 * 1024

  /** An unset configuration value means the built-in cap. */
  function Cap(maxBytes: int): int { if maxBytes <= 0 then MAX_ATTACHMENT_BYTES else maxBytes }

  function Total(rows: seq<Attachment>): nat {
    if rows == [] then 0 else rows[0].size + Total(rows[1..])
  }

  function Ids(rows: seq<Attachment>): set<nat> {
    set k | 0 <= k < |rows| :: rows[k].id
  }

  predicate Distinct(rows: seq<Attachment>) {
    forall j, k :: 0 <= j < k < |rows| ==> rows[j].id != rows[k].id
  }

  /** Rows left when the ids are tombstoned; the order stays. */
  function Without(rows: seq<Attachment>, ids: set<nat>): seq<Attachment> {
    if rows == [] then []
    else if rows[0].id in ids then Without(rows[1..], ids)
    else [rows[0]] + Without(rows[1..], ids)
  }

  /** The shortest prefix whose removal brings the rest to at most the quota. */
  predicate ShortestPrefix(active: seq<Attachment>, quota: int, k: nat) {
    && k <= |active|
    && Total(active[k..]) <= quota
    && forall j: nat :: j < k ==> Total(active[j..]) > quota
  }

  lemma {:induction false} WithoutPrefix(rows: seq<Attachment>, k: nat, ids: set<nat>)
    requires Distinct(rows) && k <= |rows| && ids >= Ids(rows[..k])
    requires forall j :: k <= j < |rows| ==> rows[j].id !in ids
    ensures Without(rows, ids) == rows[k..]
    decreases |rows|
  {
    if k > 0 {
      assert rows[..k][0] == rows[0];
      assert Ids(rows[1..][..k - 1]) <= ids by {
        assert rows[1..][..k - 1] == rows[..k][1..];
      }
      WithoutPrefix(rows[1..], k - 1, ids);
      assert rows[1..][k - 1..] == rows[k..];
    } else if rows != [] {
      WithoutPrefix(rows[1..], 0, ids);
    }
  }

  lemma TotalFrom(rows: seq<Attachment>, i: nat)
    requires i <= |rows|
    ensures Total(rows[i..]) == if i < |rows| then rows[i].size + Total(rows[i + 1..]) else 0
    ensures i == 0 ==> rows[i..] == rows
  {
    if i < |rows| {
      assert rows[i..][1..] == rows[i + 1..];
    }
  }

  // ----- attachments.go -----

  /** The loops of enforceGuildAttachmentQuota over the listing, oldest first. */
  method ChooseEvicted(active: seq<Attachment>, quota: int) returns (ids: seq<nat>)
    ensures quota <= 0 ==> ids == []
    ensures quota > 0 ==> ShortestPrefix(active, quota, |ids|) && forall k :: 0 <= k < |ids| ==> ids[k] == active[k].id
  {
    hide Total;
    ids := [];
    if quota <= 0 {
      return;
    }
    var total := 0;
    TotalFrom(active, 0);
    for i := 0 to |active|
      invariant total + Total(active[i..]) == Total(active)
    {
      TotalFrom(active, i);
      total := total + active[i].size;
    }
    TotalFrom(active, |active|);
    if total <= quota {
      return;
    }
    var excess := total - quota;
    var i := 0;
    while i < |active| && excess > 0
      invariant 0 <= i <= |active|
      invariant |ids| == i && forall k :: 0 <= k < i ==> ids[k] == active[k].id
      invariant excess == Total(active[i..]) - quota
      invariant forall j: nat :: j < i ==> Total(active[j..]) > quota
    {
      TotalFrom(active, i);
      ids := ids + [active[i].id];
      excess := excess - active[i].size;
      i := i + 1;
    }
  }

  class GuildAttachments {
    /** Active rows in the order of the quota query. */
    var active: seq<Attachment>

    method SoftDeleteAttachmentsByID(ids: seq<nat>)
      modifies this
      ensures active == Without(old(active), set id | id in ids)
    {
      active := Without(active, set id | id in ids);
    }

    method EnforceQuota(quota: int)
      requires Distinct(active)
      modifies this
      ensures quota <= 0 ==> active == old(active)
      ensures quota > 0 ==> (exists k: nat :: ShortestPrefix(old(active), quota, k) && active == old(active)[k..])
    {
      var ids := ChooseEvicted(active, quota);
      ghost var doomed := set id | id in ids;
      assert Ids(active[..|ids|]) <= doomed by {
        assert forall k :: 0 <= k < |ids| ==> ids[k] in ids;
      }
      WithoutPrefix(active, |ids|, doomed);
      SoftDeleteAttachmentsByID(ids);
    }

    /** presign up to the presigned URL: refuse, or insert the newest row and evict. */
    method Presign(id: nat, size: int, maxBytes: int, quota: Option<int>) returns (accepted: bool)
      requires Distinct(active) && id !in Ids(active)
      modifies this
      ensures accepted <==>
        && 0 < size <= (if maxBytes > 0 then maxBytes else 25 * 1024 * 1024)
        && (quota.Some? ==> size <= quota.value)
      ensures !accepted ==> active == old(active)
      ensures accepted && quota.None? ==> active == old(active) + [Attachment(id, size)]
      ensures accepted && quota.Some? ==>
        var all := old(active) + [Attachment(id, size)];
        exists k: nat :: k < |all| && ShortestPrefix(all, quota.value, k) && active == all[k..]
    {
      if size <= 0 || size > Cap(maxBytes) || (quota.Some? && size > quota.value) {
        return false;
      }
      var row := Attachment(id, size);
      assert forall k :: 0 <= k < |active| ==> active[k].id in Ids(active);
      active := active + [row];
      if quota.Some? {
        ghost var before := old(active);
        EnforceQuota(quota.value);
        ghost var k: nat :| ShortestPrefix(before + [row], quota.value, k) && active == (before + [row])[k..];
        NewestEvictedIff(before, row, quota.value, k);
      }
      return true;
    }
  }

  /** The newest attachment is evicted by its own insertion exactly when it alone exceeds the quota,
      which presign refuses beforehand. */
  lemma NewestEvictedIff(older: seq<Attachment>, newest: Attachment, quota: int, k: nat)
    requires ShortestPrefix(older + [newest], quota, k)
    ensures k == |older| + 1 <==> newest.size > quota
    ensures k <= |older| ==> newest in (older + [newest])[k..]
  {
    var all := older + [newest];
    assert all[|older|..] == [newest];
    assert Total([newest]) == newest.size;
    if k <= |older| {
      assert all[k..] == older[k..] + [newest];
      TotalAppend(older[k..], [newest]);
    }
  }

  lemma {:induction false} TotalAppend(a: seq<Attachment>, b: seq<Attachment>)
    ensures Total(a + b) == Total(a) + Total(b)
  {
    if a == [] {
      assert a + b == b;
    } else {
      assert (a + b)[1..] == a[1..] + b;
      TotalAppend(a[1..], b);
    }
  }

  // ----- interleaved uploads -----

  /** A presign in flight: its row inserted, then its listing taken. bound: the id after the newest row
      the listing saw. */
  datatype Upload = Inserted(id: nat) | Listed(id: nat, bound: nat, doomed: set<nat>) | Done

  /** Ids are issued in increasing order and never reused. enforced and covered are history: whether an
      eviction has completed, and the largest bound among those that have. */
  datatype World = World(active: seq<Attachment>, nextId: nat, uploads: seq<Upload>, enforced: bool, covered: nat)

  datatype Action =
    | Insert(size: nat, position: nat)   // ties in created_at may place a new row before older ones
    | List(t: nat)
    | Evict(t: nat)
    | Fail(t: nat, cleaned: bool)        // a failed enforcement tombstones the upload's own row
    | OwnerDelete(id: nat)

  /** How many rows the loops choose. */
  function EvictedLength(active: seq<Attachment>, quota: nat): (k: nat)
    ensures ShortestPrefix(active, quota, k)
  {
    if Total(active) <= quota then
      assert active[0..] == active;
      0
    else
      var k := EvictedLength(active[1..], quota);
      assert active[1..][k..] == active[k + 1..];
      assert forall j: nat :: 0 < j < k + 1 ==> active[1..][j - 1..] == active[j..];
      assert active[0..] == active;
      k + 1
  }

  function Step(w: World, a: Action, quota: nat): World {
    match a
    case Insert(size, position) =>
      if !(0 < size <= quota) || position > |w.active| then w else
        w.(active := w.active[..position] + [Attachment(w.nextId, size)] + w.active[position..],
           nextId := w.nextId + 1, uploads := w.uploads + [Inserted(w.nextId)])
    case List(t) =>
      if t >= |w.uploads| || !w.uploads[t].Inserted? then w else
        var doomed := Ids(w.active[..EvictedLength(w.active, quota)]);
        w.(uploads := w.uploads[t := Listed(w.uploads[t].id, w.nextId, doomed)])
    case Evict(t) =>
      if t >= |w.uploads| || !w.uploads[t].Listed? then w else
        var u := w.uploads[t];
        w.(active := Without(w.active, u.doomed), uploads := w.uploads[t := Done],
           enforced := true, covered := if u.bound > w.covered then u.bound else w.covered)
    case Fail(t, cleaned) =>
      if t >= |w.uploads| || w.uploads[t].Done? then w else
        w.(active := if cleaned then Without(w.active, {w.uploads[t].id}) else w.active,
           uploads := w.uploads[t := Done])
    case OwnerDelete(id) => w.(active := Without(w.active, {id}))
  }

  function Run(w: World, actions: seq<Action>, quota: nat): World
    decreases |actions|
  {
    if actions == [] then w else Run(Step(w, actions[0], quota), actions[1..], quota)
  }

  function InFlight(uploads: seq<Upload>): set<nat> {
    set t | 0 <= t < |uploads| && !uploads[t].Done? :: uploads[t].id
  }

  /** Bytes of the rows numbered below the bound and not dropped. */
  function Weight(rows: seq<Attachment>, bound: nat, drop: set<nat>): nat {
    if rows == [] then 0
    else (if rows[0].id < bound && rows[0].id !in drop then rows[0].size else 0) + Weight(rows[1..], bound, drop)
  }

  lemma {:induction false} WeightWithout(rows: seq<Attachment>, ids: set<nat>, bound: nat, drop: set<nat>)
    ensures Weight(Without(rows, ids), bound, drop) == Weight(rows, bound, drop + ids)
  {
    if rows != [] {
      WeightWithout(rows[1..], ids, bound, drop);
    }
  }

  lemma {:induction false} WeightShrinks(rows: seq<Attachment>, bound: nat, drop: set<nat>, more: set<nat>)
    ensures Weight(rows, bound, drop + more) <= Weight(rows, bound, drop)
  {
    if rows != [] {
      WeightShrinks(rows[1..], bound, drop, more);
    }
  }

  lemma {:induction false} WeightSplit(a: seq<Attachment>, b: seq<Attachment>, bound: nat, drop: set<nat>)
    ensures Weight(a + b, bound, drop) == Weight(a, bound, drop) + Weight(b, bound, drop)
  {
    if a == [] {
      assert a + b == b;
    } else {
      assert (a + b)[1..] == a[1..] + b;
      WeightSplit(a[1..], b, bound, drop);
    }
  }

  lemma {:induction false} WeightAtMostTotal(rows: seq<Attachment>, bound: nat, drop: set<nat>)
    ensures Weight(rows, bound, drop) <= Total(rows)
  {
    if rows != [] {
      WeightAtMostTotal(rows[1..], bound, drop);
    }
  }

  lemma {:induction false} DroppedWeighNothing(rows: seq<Attachment>, bound: nat, drop: set<nat>)
    requires forall k :: 0 <= k < |rows| ==> rows[k].id in drop || rows[k].id >= bound
    ensures Weight(rows, bound, drop) == 0
  {
    if rows != [] {
      DroppedWeighNothing(rows[1..], bound, drop);
    }
  }

  /** A listing's doomed rows leave at most the quota of what it saw. */
  lemma ListingFits(active: seq<Attachment>, quota: nat, bound: nat)
    ensures Weight(active, bound, Ids(active[..EvictedLength(active, quota)])) <= quota
  {
    var k := EvictedLength(active, quota);
    var doomed := Ids(active[..k]);
    assert active == active[..k] + active[k..];
    WeightSplit(active[..k], active[k..], bound, doomed);
    DroppedWeighNothing(active[..k], bound, doomed);
    WeightAtMostTotal(active[k..], bound, doomed);
  }

  predicate UploadFits(w: World, u: Upload, base: nat, quota: nat) {
    !u.Done? ==>
      && u.id < w.nextId
      && (u.Listed? ==> u.id < u.bound && base <= u.bound <= w.nextId && Weight(w.active, u.bound, u.doomed) <= quota)
  }

  ghost predicate UploadsFit(w: World, base: nat, quota: nat) {
    forall t :: 0 <= t < |w.uploads| ==> UploadFits(w, w.uploads[t], base, quota)
  }

  /** base: the first id of the run; earlier rows predate the quota. */
  ghost predicate Inv(w: World, base: nat, quota: nat) {
    && UploadsFit(w, base, quota)
    && base <= w.covered <= w.nextId
    && (if w.enforced then Weight(w.active, w.covered, {}) <= quota else w.covered == base)
  }

  lemma {:induction false} WithoutKeeps(rows: seq<Attachment>, ids: set<nat>)
    ensures forall r :: r in Without(rows, ids) <==> r in rows && r.id !in ids
  {
    if rows != [] {
      WithoutKeeps(rows[1..], ids);
    }
  }

  /** Tombstoning rows keeps every bound. */
  lemma ShrinkKeeps(w: World, ids: set<nat>, base: nat, quota: nat)
    requires UploadsFit(w, base, quota)
    ensures UploadsFit(w.(active := Without(w.active, ids)), base, quota)
    ensures Weight(Without(w.active, ids), w.covered, {}) <= Weight(w.active, w.covered, {})
  {
    var after := w.(active := Without(w.active, ids));
    forall t | 0 <= t < |w.uploads| ensures UploadFits(after, w.uploads[t], base, quota) {
      assert UploadFits(w, w.uploads[t], base, quota);
      if w.uploads[t].Listed? {
        WeightWithout(w.active, ids, w.uploads[t].bound, w.uploads[t].doomed);
        WeightShrinks(w.active, w.uploads[t].bound, w.uploads[t].doomed, ids);
      }
    }
    WeightWithout(w.active, ids, w.covered, {});
    WeightShrinks(w.active, w.covered, {}, ids);
  }

  lemma InsertKeeps(w: World, size: nat, position: nat, base: nat, quota: nat)
    requires Inv(w, base, quota)
    ensures Inv(Step(w, Insert(size, position), quota), base, quota)
  {
    var after := Step(w, Insert(size, position), quota);
    if after == w { return; }
    var row := Attachment(w.nextId, size);
    forall t | 0 <= t < |after.uploads| ensures UploadFits(after, after.uploads[t], base, quota) {
      if t < |w.uploads| {
        assert UploadFits(w, w.uploads[t], base, quota);
        if w.uploads[t].Listed? {
          NewRowWeighsNothing(w.active, position, row, w.uploads[t].bound, w.uploads[t].doomed);
        }
      }
    }
    if w.enforced {
      NewRowWeighsNothing(w.active, position, row, w.covered, {});
    }
  }

  lemma NewRowWeighsNothing(rows: seq<Attachment>, position: nat, row: Attachment, bound: nat, drop: set<nat>)
    requires position <= |rows| && row.id >= bound
    ensures Weight(rows[..position] + [row] + rows[position..], bound, drop) == Weight(rows, bound, drop)
  {
    WeightSplit(rows[..position] + [row], rows[position..], bound, drop);
    WeightSplit(rows[..position], [row], bound, drop);
    WeightSplit(rows[..position], rows[position..], bound, drop);
    assert rows[..position] + rows[position..] == rows;
  }

  lemma ListKeeps(w: World, t: nat, base: nat, quota: nat)
    requires Inv(w, base, quota) && t < |w.uploads| && w.uploads[t].Inserted?
    ensures Inv(Step(w, List(t), quota), base, quota)
  {
    var after := Step(w, List(t), quota);
    ListingFits(w.active, quota, w.nextId);
    assert UploadFits(w, w.uploads[t], base, quota);
    hide Weight, Ids;
    forall k | 0 <= k < |after.uploads| ensures UploadFits(after, after.uploads[k], base, quota) {
      assert UploadFits(w, w.uploads[k], base, quota);
    }
  }

  /** An eviction that saw more rows than any before it extends the covered range; one that saw fewer
      only removes rows from it. */
  lemma EvictKeeps(w: World, t: nat, base: nat, quota: nat)
    requires Inv(w, base, quota) && t < |w.uploads| && w.uploads[t].Listed?
    ensures Inv(Step(w, Evict(t), quota), base, quota)
  {
    var after, u := Step(w, Evict(t), quota), w.uploads[t];
    assert UploadFits(w, u, base, quota);
    ShrinkKeeps(w, u.doomed, base, quota);
    WeightWithout(w.active, u.doomed, u.bound, {});
    assert {} + u.doomed == u.doomed;
    hide Weight, Without;
    DoneKeeps(w.(active := after.active), after, t, base, quota);
  }

  /** Ending an upload asks nothing more of the others. */
  lemma DoneKeeps(w: World, after: World, t: nat, base: nat, quota: nat)
    requires UploadsFit(w, base, quota) && t < |w.uploads|
    requires after.active == w.active && after.nextId == w.nextId && after.uploads == w.uploads[t := Done]
    ensures UploadsFit(after, base, quota)
  {
    forall k | 0 <= k < |after.uploads| ensures UploadFits(after, after.uploads[k], base, quota) {
      assert UploadFits(w, w.uploads[k], base, quota);
    }
  }

  lemma RemoveKeeps(w: World, id: nat, base: nat, quota: nat)
    requires Inv(w, base, quota)
    ensures Inv(w.(active := Without(w.active, {id})), base, quota)
  {
    ShrinkKeeps(w, {id}, base, quota);
  }

  lemma FailKeeps(w: World, t: nat, cleaned: bool, base: nat, quota: nat)
    requires Inv(w, base, quota) && t < |w.uploads| && !w.uploads[t].Done?
    ensures Inv(Step(w, Fail(t, cleaned), quota), base, quota)
  {
    var after, id := Step(w, Fail(t, cleaned), quota), w.uploads[t].id;
    RemoveKeeps(w, id, base, quota);
    hide Weight, Without;
    DoneKeeps(w.(active := after.active), after, t, base, quota);
  }

  lemma StepKeeps(w: World, a: Action, base: nat, quota: nat)
    requires Inv(w, base, quota)
    ensures Inv(Step(w, a, quota), base, quota)
  {
    hide Inv;
    if a.Insert? {
      InsertKeeps(w, a.size, a.position, base, quota);
    } else if a.OwnerDelete? {
      RemoveKeeps(w, a.id, base, quota);
    } else if a.t < |w.uploads| {
      if a.List? && w.uploads[a.t].Inserted? {
        ListKeeps(w, a.t, base, quota);
      } else if a.Evict? && w.uploads[a.t].Listed? {
        EvictKeeps(w, a.t, base, quota);
      } else if a.Fail? && !w.uploads[a.t].Done? {
        FailKeeps(w, a.t, a.cleaned, base, quota);
      }
    }
  }

  lemma {:induction false} RunKeeps(w: World, actions: seq<Action>, base: nat, quota: nat)
    requires Inv(w, base, quota)
    ensures Inv(Run(w, actions, quota), base, quota)
    decreases |actions|
  {
    hide Inv, Step;
    if actions != [] {
      StepKeeps(w, actions[0], base, quota);
      RunKeeps(Step(w, actions[0], quota), actions[1..], base, quota);
    }
  }

  /** A guild with rows already in it when the quota is set. */
  function Start(existing: seq<Attachment>, base: nat, quota: nat): World {
    World(existing, base, [], Total(existing) <= quota, base)
  }

  /** The rows newer than every listing whose eviction has completed. */
  function Escaped(w: World): set<nat> { set r | r in w.active && r.id >= w.covered :: r.id }

  /** Under every interleaving of inserts, listings, evictions, deletions and failures of any kind: from
      the first completed eviction on (or from the start, if the guild began within its quota), the
      attachments that have not escaped total at most the quota. */
  lemma CoveredRowsStayWithinQuota(existing: seq<Attachment>, base: nat, actions: seq<Action>, quota: nat)
    ensures var w := Run(Start(existing, base, quota), actions, quota);
      w.enforced ==> Total(Without(w.active, Escaped(w))) <= quota
  {
    WeightAtMostTotal(existing, base, {});
    RunKeeps(Start(existing, base, quota), actions, base, quota);
    var w := Run(Start(existing, base, quota), actions, quota);
    if w.enforced {
      hide Run, Weight, Total;
      RestWeighs(w, Escaped(w));
    }
  }

  /** Dropping at least the escaped rows leaves no more than the covered weight. */
  lemma RestWeighs(w: World, drop: set<nat>)
    requires Escaped(w) <= drop
    ensures Total(Without(w.active, drop)) <= Weight(w.active, w.covered, {})
  {
    WithoutKeeps(w.active, drop);
    forall r | r in Without(w.active, drop) ensures r.id < w.covered {
      assert r.id >= w.covered ==> r.id in Escaped(w);
    }
    AllWeigh(Without(w.active, drop), w.covered);
    WeightWithout(w.active, drop, w.covered, {});
    WeightShrinks(w.active, w.covered, {}, drop);
  }

  /** A step that completes the eviction of a listing taken after the id was issued. */
  predicate Covers(w: World, a: Action, id: nat) {
    a.Evict? && a.t < |w.uploads| && w.uploads[a.t].Listed? && w.uploads[a.t].bound > id
  }

  predicate EverCovered(w: World, actions: seq<Action>, quota: nat, id: nat)
    decreases |actions|
  {
    actions != [] && (Covers(w, actions[0], id) || EverCovered(Step(w, actions[0], quota), actions[1..], quota, id))
  }

  /** A row escapes exactly until the eviction of some listing that saw it completes. */
  lemma {:induction false} EscapesUntilCovered(w: World, actions: seq<Action>, quota: nat, id: nat)
    ensures Run(w, actions, quota).covered > id <==> w.covered > id || EverCovered(w, actions, quota, id)
    decreases |actions|
  {
    if actions != [] {
      EscapesUntilCovered(Step(w, actions[0], quota), actions[1..], quota, id);
    }
  }

  // ----- when failures are cleaned up -----

  /** Every failed enforcement manages to tombstone its own upload. */
  predicate FailuresCleaned(actions: seq<Action>) {
    forall k :: 0 <= k < |actions| && actions[k].Fail? ==> actions[k].cleaned
  }

  /** Then only uploads still in flight escape. */
  ghost predicate EscapedAreInFlight(w: World) {
    forall r :: r in w.active ==> r.id < w.nextId && (r.id < w.covered || r.id in InFlight(w.uploads))
  }

  /** Changing one upload removes at most its own id from the air. */
  lemma FlightChanges(uploads: seq<Upload>, t: nat, u: Upload)
    requires t < |uploads| && !uploads[t].Done? && (!u.Done? ==> u.id == uploads[t].id)
    ensures InFlight(uploads) <= InFlight(uploads[t := u]) + if u.Done? then {uploads[t].id} else {}
  {
    var after := uploads[t := u];
    forall id | id in InFlight(uploads) && (id != uploads[t].id || !u.Done?) ensures id in InFlight(after) {
      var k :| 0 <= k < |uploads| && !uploads[k].Done? && uploads[k].id == id;
      assert !after[k].Done? && after[k].id == id;
    }
  }

  lemma StepKeepsFlight(w: World, a: Action, base: nat, quota: nat)
    requires Inv(w, base, quota) && EscapedAreInFlight(w) && (a.Fail? ==> a.cleaned)
    ensures EscapedAreInFlight(Step(w, a, quota))
  {
    var after := Step(w, a, quota);
    if a.Insert? {
      if after != w {
        assert after.uploads[|w.uploads|] == Inserted(w.nextId);
        assert forall t :: 0 <= t < |w.uploads| ==> after.uploads[t] == w.uploads[t];
      }
    } else if a.OwnerDelete? {
      WithoutKeeps(w.active, {a.id});
    } else if a.t < |w.uploads| && !w.uploads[a.t].Done? {
      assert UploadFits(w, w.uploads[a.t], base, quota);
      FlightChanges(w.uploads, a.t, after.uploads[a.t]);
      var u := w.uploads[a.t];
      WithoutKeeps(w.active, if a.Fail? then {u.id} else if u.Listed? then u.doomed else {});
    }
  }

  lemma {:induction false} RunKeepsFlight(w: World, actions: seq<Action>, base: nat, quota: nat)
    requires Inv(w, base, quota) && EscapedAreInFlight(w) && FailuresCleaned(actions)
    ensures EscapedAreInFlight(Run(w, actions, quota))
    decreases |actions|
  {
    hide Inv, Step, EscapedAreInFlight;
    if actions != [] {
      StepKeeps(w, actions[0], base, quota);
      StepKeepsFlight(w, actions[0], base, quota);
      RunKeepsFlight(Step(w, actions[0], quota), actions[1..], base, quota);
    }
  }

  /** So when failures are cleaned up, the attachments whose uploads are no longer in flight total at
      most the quota. */
  lemma SettledRowsStayWithinQuota(existing: seq<Attachment>, base: nat, actions: seq<Action>, quota: nat)
    requires FailuresCleaned(actions) && forall r :: r in existing ==> r.id < base
    ensures var w := Run(Start(existing, base, quota), actions, quota);
      w.enforced ==> Total(Without(w.active, InFlight(w.uploads))) <= quota
  {
    var start := Start(existing, base, quota);
    WeightAtMostTotal(existing, base, {});
    RunKeeps(start, actions, base, quota);
    RunKeepsFlight(start, actions, base, quota);
    var w := Run(start, actions, quota);
    if w.enforced {
      hide Run, Weight, Total, InFlight;
      RestWeighs(w, InFlight(w.uploads));
    }
  }

  lemma {:induction false} AllWeigh(rows: seq<Attachment>, bound: nat)
    requires forall r :: r in rows ==> r.id < bound
    ensures Total(rows) == Weight(rows, bound, {})
  {
    if rows != [] {
      AllWeigh(rows[1..], bound);
    }
  }

  /** Cleaning is needed: two uploads whose enforcement and clean-up both fail stay, unevicted. */
  lemma UncleanedFailuresExceedQuota(quota: nat)
    requires quota > 0
    ensures var actions := [Insert(quota, 0), Insert(quota, 0), Fail(0, false), Fail(1, false)];
      var w := Run(Start([], 0, quota), actions, quota);
      InFlight(w.uploads) == {} && w.enforced && Total(w.active) == 2 * quota
  {
    var actions := [Insert(quota, 0), Insert(quota, 0), Fail(0, false), Fail(1, false)];
    var w0 := Start([], 0, quota);
    var w1 := Step(w0, actions[0], quota);
    var w2 := Step(w1, actions[1], quota);
    var w3 := Step(w2, actions[2], quota);
    var w4 := Step(w3, actions[3], quota);
    assert actions[1..][1..] == actions[2..] && actions[2..][1..] == actions[3..] && actions[3..][1..] == [];
    assert w1.active == [Attachment(0, quota)];
    assert w2.active == [Attachment(1, quota)] + [Attachment(0, quota)];
    TotalAppend([Attachment(1, quota)], [Attachment(0, quota)]);
    assert Total([Attachment(1, quota)]) == quota && Total([Attachment(0, quota)]) == quota;
    assert w4.uploads == [Done, Done] && InFlight(w4.uploads) == {};
    assert Run(w0, actions, quota) == Run(w1, actions[1..], quota);
    assert Run(w1, actions[1..], quota) == Run(w2, actions[2..], quota);
    assert Run(w2, actions[2..], quota) == Run(w3, actions[3..], quota) == w4;
  }

  // ----- what is kept -----

  /** The rows that, with all newer ones, exceed the quota. */
  function Crowded(active: seq<Attachment>, quota: nat): set<nat> {
    set j | 0 <= j < |active| && Total(active[j..]) > quota :: active[j].id
  }

  lemma {:induction false} TotalShrinks(rows: seq<Attachment>, j: nat, k: nat)
    requires j <= k <= |rows|
    ensures Total(rows[k..]) <= Total(rows[j..])
    decreases k - j
  {
    if j < k {
      TotalFrom(rows, j);
      TotalShrinks(rows, j + 1, k);
    }
  }

  /** A listing dooms exactly the crowded rows. */
  lemma ListingDoomsCrowded(active: seq<Attachment>, quota: nat)
    ensures Ids(active[..EvictedLength(active, quota)]) == Crowded(active, quota)
  {
    var k := EvictedLength(active, quota);
    forall j | 0 <= j < |active| ensures Total(active[j..]) > quota <==> j < k {
      if j >= k {
        TotalShrinks(active, k, j);
      }
    }
    hide Total, EvictedLength;
    assert forall j :: 0 <= j < k ==> active[..k][j] == active[j];
  }

  /** Ids whose removal a step may cause, an eviction's apart. */
  function Dropped(w: World, a: Action): set<nat> {
    match a
    case OwnerDelete(id) => {id}
    case Fail(t, true) => if t < |w.uploads| && !w.uploads[t].Done? then {w.uploads[t].id} else {}
    case _ => {}
  }

  /** Along a run: what owners deleted, what failed uploads took back, and what some listing of the run
      found crowded. */
  function Causes(w: World, actions: seq<Action>, quota: nat): set<nat>
    decreases |actions|
  {
    if actions == [] then {} else
      Dropped(w, actions[0]) + (if actions[0].List? then Crowded(w.active, quota) else {})
        + Causes(Step(w, actions[0], quota), actions[1..], quota)
  }

  predicate DoomedFor(w: World, causes: set<nat>) {
    forall t :: 0 <= t < |w.uploads| && w.uploads[t].Listed? ==> w.uploads[t].doomed <= causes
  }

  lemma StepCauses(w: World, a: Action, quota: nat, causes: set<nat>)
    requires DoomedFor(w, causes)
    ensures DoomedFor(Step(w, a, quota), causes + if a.List? then Crowded(w.active, quota) else {})
    ensures forall r :: r in w.active && r !in Step(w, a, quota).active ==> r.id in causes + Dropped(w, a)
  {
    hide Ids, EvictedLength, Total, Crowded;
    match a
    case Insert(size, position) =>
      if position <= |w.active| {
        assert w.active == w.active[..position] + w.active[position..];
      }
    case List(t) => ListingDoomsCrowded(w.active, quota);
    case Evict(t) =>
      if t < |w.uploads| && w.uploads[t].Listed? {
        WithoutKeeps(w.active, w.uploads[t].doomed);
      }
    case Fail(t, cleaned) =>
      if t < |w.uploads| {
        WithoutKeeps(w.active, if w.uploads[t].Done? then {} else {w.uploads[t].id});
      }
    case OwnerDelete(id) => WithoutKeeps(w.active, {id});
  }

  lemma {:induction false} RunCauses(w: World, actions: seq<Action>, quota: nat, causes: set<nat>)
    requires DoomedFor(w, causes)
    ensures DoomedFor(Run(w, actions, quota), causes + Causes(w, actions, quota))
    ensures forall r :: r in w.active && r !in Run(w, actions, quota).active ==>
      r.id in causes + Causes(w, actions, quota)
    decreases |actions|
  {
    hide Step, Dropped, Crowded, DoomedFor;
    if actions == [] {
      assert causes + {} == causes;
    } else {
      var a := actions[0];
      var more := causes + if a.List? then Crowded(w.active, quota) else {};
      StepCauses(w, a, quota, causes);
      RunCauses(Step(w, a, quota), actions[1..], quota, more);
      MoreCauses(Run(w, actions, quota), more + Causes(Step(w, a, quota), actions[1..], quota),
                 causes + Causes(w, actions, quota));
    }
  }

  lemma MoreCauses(w: World, fewer: set<nat>, more: set<nat>)
    requires DoomedFor(w, fewer) && fewer <= more
    ensures DoomedFor(w, more)
  {
  }

  /** Nothing is lost without a cause, under every interleaving and failure: an attachment that leaves the
      guild was deleted by its owner, was taken back by its own failed upload, or together with the newer
      ones exceeded the quota when some listing of the run was taken. */
  lemma NothingLostWithoutCause(existing: seq<Attachment>, base: nat, before: seq<Action>, after: seq<Action>,
                                quota: nat, r: Attachment)
    requires var w := Run(Start(existing, base, quota), before, quota);
      r in w.active && r !in Run(w, after, quota).active
    ensures var start := Start(existing, base, quota);
      r.id in Causes(start, before, quota) + Causes(Run(start, before, quota), after, quota)
  {
    hide Run, Causes;
    var start := Start(existing, base, quota);
    RunCauses(start, before, quota, {});
    assert {} + Causes(start, before, quota) == Causes(start, before, quota);
    RunCauses(Run(start, before, quota), after, quota, Causes(start, before, quota));
  }

  lemma {:induction false} GoneStaysGone(w: World, actions: seq<Action>, quota: nat, id: nat)
    requires id < w.nextId && forall r :: r in w.active ==> r.id != id
    ensures forall r :: r in Run(w, actions, quota).active ==> r.id != id
    decreases |actions|
  {
    if actions != [] {
      StepStaysGone(w, actions[0], quota, id);
      hide Step;
      GoneStaysGone(Step(w, actions[0], quota), actions[1..], quota, id);
    }
  }

  lemma StepStaysGone(w: World, a: Action, quota: nat, id: nat)
    requires id < w.nextId && forall r :: r in w.active ==> r.id != id
    ensures id < Step(w, a, quota).nextId && forall r :: r in Step(w, a, quota).active ==> r.id != id
  {
    hide EvictedLength, Ids, Total;
    match a
    case Insert(size, position) =>
    case List(t) =>
    case Evict(t) =>
      if t < |w.uploads| && w.uploads[t].Listed? {
        WithoutKeeps(w.active, w.uploads[t].doomed);
      }
    case Fail(t, cleaned) =>
      if t < |w.uploads| && !w.uploads[t].Done? {
        WithoutKeeps(w.active, {w.uploads[t].id});
      }
    case OwnerDelete(k) => WithoutKeeps(w.active, {k});
  }

  /** An attachment its owner deletes is gone in every continuation, uploads in flight included. */
  lemma DeletedStaysDeleted(w: World, id: nat, after: seq<Action>, quota: nat)
    requires id < w.nextId
    ensures forall r :: r in Run(Step(w, OwnerDelete(id), quota), after, quota).active ==> r.id != id
  {
    WithoutKeeps(w.active, {id});
    GoneStaysGone(Step(w, OwnerDelete(id), quota), after, quota, id);
  }

  /** An upload that runs without interruption keeps exactly the rows behind the shortest prefix, its own
      row included when it is the newest. */
  lemma WholeUploadEvictsShortestPrefix(w: World, size: nat, position: nat, quota: nat)
    requires Distinct(w.active) && (forall k :: 0 <= k < |w.active| ==> w.active[k].id < w.nextId)
    requires 0 < size <= quota && position <= |w.active|
    ensures var t, row := |w.uploads|, Attachment(w.nextId, size);
      var all := w.active[..position] + [row] + w.active[position..];
      var after := Step(Step(Step(w, Insert(size, position), quota), List(t), quota), Evict(t), quota);
      exists k: nat ::
        ShortestPrefix(all, quota, k) && after.active == all[k..] && (position == |w.active| ==> row in all[k..])
  {
    var t, row := |w.uploads|, Attachment(w.nextId, size);
    var all := w.active[..position] + [row] + w.active[position..];
    var inserted := Step(w, Insert(size, position), quota);
    var listed := Step(inserted, List(t), quota);
    var after := Step(listed, Evict(t), quota);
    var k := EvictedLength(all, quota);
    assert inserted.active == all && inserted.uploads[t] == Inserted(w.nextId);
    assert listed.uploads[t] == Listed(w.nextId, w.nextId + 1, Ids(all[..k]));
    DistinctInsert(w.active, row, position);
    FirstsOnly(all, k);
    WithoutPrefix(all, k, Ids(all[..k]));
    if position == |w.active| {
      assert all == w.active + [row];
      NewestEvictedIff(w.active, row, quota, k);
    }
  }

  lemma DistinctInsert(rows: seq<Attachment>, row: Attachment, position: nat)
    requires Distinct(rows) && position <= |rows| && forall k :: 0 <= k < |rows| ==> rows[k].id < row.id
    ensures Distinct(rows[..position] + [row] + rows[position..])
  {
  }

  lemma FirstsOnly(rows: seq<Attachment>, k: nat)
    requires Distinct(rows) && k <= |rows|
    ensures forall j :: k <= j < |rows| ==> rows[j].id !in Ids(rows[..k])
  {
  }

  lemma {:induction false} SizesStay(w: World, actions: seq<Action>, base: nat, quota: nat)
    requires base <= w.nextId && forall r :: r in w.active && r.id >= base ==> 0 < r.size <= quota
    ensures forall r :: r in Run(w, actions, quota).active && r.id >= base ==> 0 < r.size <= quota
    decreases |actions|
  {
    if actions != [] {
      StepSizes(w, actions[0], base, quota);
      hide Step;
      SizesStay(Step(w, actions[0], quota), actions[1..], base, quota);
    }
  }

  lemma StepSizes(w: World, a: Action, base: nat, quota: nat)
    requires base <= w.nextId && forall r :: r in w.active && r.id >= base ==> 0 < r.size <= quota
    ensures base <= Step(w, a, quota).nextId
    ensures forall r :: r in Step(w, a, quota).active && r.id >= base ==> 0 < r.size <= quota
  {
    hide EvictedLength, Ids, Total;
    match a
    case Insert(size, position) =>
    case List(t) =>
    case Evict(t) =>
      if t < |w.uploads| && w.uploads[t].Listed? {
        WithoutKeeps(w.active, w.uploads[t].doomed);
      }
    case Fail(t, cleaned) =>
      if t < |w.uploads| && !w.uploads[t].Done? {
        WithoutKeeps(w.active, {w.uploads[t].id});
      }
    case OwnerDelete(k) => WithoutKeeps(w.active, {k});
  }

  /** No upload of a run is empty or alone exceeds the quota, so that no newest row is evicted for itself. */
  lemma UploadsFitAlone(existing: seq<Attachment>, base: nat, actions: seq<Action>, quota: nat)
    requires forall r :: r in existing ==> r.id < base
    ensures forall r :: r in Run(Start(existing, base, quota), actions, quota).active && r.id >= base ==>
      0 < r.size <= quota
  {
    SizesStay(Start(existing, base, quota), actions, base, quota);
  }
}
