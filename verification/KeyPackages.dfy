/** MLS KeyPackages: one-time packages, each handed out once, and a reusable last resort. */
module KeyPackages {
  import opened Basics

  datatype Owner = Owner(user: string, device: string)

  datatype Package = Package(owner: Owner, suite: nat, bytes: string, lastResort: bool,
                             createdAt: int, expiresAt: int, consumedAt: Option<int>)

  /** Keyed by row id. */
  type Rows = map<nat, Package>

  const FAR_FUTURE := 4070908800          // 2099-01-01
  const CONSUMED_KEPT := 30 * 24 * 3600
  const PURGE_LIMIT := 10000

  predicate Usable(p: Package, owner: Owner, suite: nat, now: int) {
    p.owner == owner && p.suite == suite && p.consumedAt.None? && !p.lastResort && p.expiresAt > now
  }

  function UsableIds(rows: Rows, owner: Owner, suite: nat, now: int): set<nat> {
    set id | id in rows && Usable(rows[id], owner, suite, now)
  }

  predicate IsLastResort(p: Package, owner: Owner, suite: nat) { p.owner == owner && p.suite == suite && p.lastResort }

  /** What the fallback query may return. */
  function FallbackIds(rows: Rows, owner: Owner, suite: nat): set<nat> {
    set id | id in rows && IsLastResort(rows[id], owner, suite) && rows[id].consumedAt.None?
  }

  predicate Purgeable(p: Package, now: int) {
    || (p.consumedAt.Some? && p.createdAt < now - CONSUMED_KEPT)
    || (p.consumedAt.None? && p.expiresAt < now && !p.lastResort)
  }

  function PurgeableIds(rows: Rows, now: int): set<nat> {
    set id | id in rows && Purgeable(rows[id], now)
  }

  // ----- the statements -----

  /** A batch insert with consecutive fresh ids. */
  function Uploaded(rows: Rows, nextId: nat, owner: Owner, suite: nat, packages: seq<string>, expiresAt: int, now: int)
    : (r: Rows)
    ensures rows.Keys <= r.Keys
    ensures forall id :: id in r ==>
      if nextId <= id < nextId + |packages|
      then r[id] == Package(owner, suite, packages[id - nextId], false, now, expiresAt, None)
      else id in rows && r[id] == rows[id]
  {
    if packages == [] then rows else
      var last := |packages| - 1;
      Uploaded(rows, nextId, owner, suite, packages[..last], expiresAt, now)
        [nextId + last := Package(owner, suite, packages[last], false, now, expiresAt, None)]
  }

  function Replaced(rows: Rows, nextId: nat, owner: Owner, suite: nat, bytes: string, now: int): Rows {
    (map id | id in rows && !IsLastResort(rows[id], owner, suite) :: rows[id])
      [nextId := Package(owner, suite, bytes, true, now, FAR_FUTURE, None)]
  }

  function Taken(rows: Rows, id: nat, now: int): Rows
    requires id in rows
  {
    rows[id := rows[id].(consumedAt := Some(now))]
  }

  /** What one consume may do: answer with the row at id, or with nothing. */
  predicate Consumes(rows: Rows, after: Rows, owner: Owner, suite: nat, now: int, id: Option<nat>) {
    var usable, fallback := UsableIds(rows, owner, suite, now), FallbackIds(rows, owner, suite);
    if usable != {} then id.Some? && id.value in usable && after == Taken(rows, id.value, now)
    else after == rows && if fallback != {} then id.Some? && id.value in fallback else id.None?
  }

  /** What one purge may delete: any purgeable rows, and all of them if they fit the batch. */
  predicate PurgeBatch(rows: Rows, now: int, batch: set<nat>) {
    && batch <= PurgeableIds(rows, now)
    && |batch| == if |PurgeableIds(rows, now)| <= PURGE_LIMIT then |PurgeableIds(rows, now)| else PURGE_LIMIT
  }

  class KeyPackageTable {
    var rows: Rows
    var nextId: nat

    method InsertMLSKeyPackages(owner: Owner, suite: nat, packages: seq<string>, expiresAt: int, now: int)
      modifies this
      ensures rows == Uploaded(old(rows), old(nextId), owner, suite, packages, expiresAt, now)
      ensures nextId == old(nextId) + |packages|
    {
      for k := 0 to |packages|
        invariant rows == Uploaded(old(rows), old(nextId), owner, suite, packages[..k], expiresAt, now)
        invariant nextId == old(nextId) + k
      {
        rows := rows[nextId := Package(owner, suite, packages[k], false, now, expiresAt, None)];
        nextId := nextId + 1;
        assert packages[..k + 1][..k] == packages[..k];
      }
      assert packages[..|packages|] == packages;
    }

    /** One transaction: delete, then insert. */
    method InsertMLSLastResortKeyPackage(owner: Owner, suite: nat, bytes: string, now: int)
      modifies this
      ensures rows == Replaced(old(rows), old(nextId), owner, suite, bytes, now)
      ensures nextId == old(nextId) + 1
    {
      rows := map id | id in rows && !IsLastResort(rows[id], owner, suite) :: rows[id];
      rows := rows[nextId := Package(owner, suite, bytes, true, now, FAR_FUTURE, None)];
      nextId := nextId + 1;
    }

    /** The row chosen by LIMIT 1 is any that matches. */
    method ConsumeMLSKeyPackage(owner: Owner, suite: nat, now: int) returns (id: Option<nat>, bytes: Option<string>)
      modifies this
      ensures nextId == old(nextId) && Consumes(old(rows), rows, owner, suite, now, id)
      ensures bytes == if id.Some? then Some(old(rows)[id.value].bytes) else None
    {
      var usable := UsableIds(rows, owner, suite, now);
      if usable != {} {
        var chosen :| chosen in usable;
        id, bytes := Some(chosen), Some(rows[chosen].bytes);
        rows := rows[chosen := rows[chosen].(consumedAt := Some(now))];
        return;
      }
      var fallback := FallbackIds(rows, owner, suite);
      if fallback == {} {
        return None, None;
      }
      var kept :| kept in fallback;
      return Some(kept), Some(rows[kept].bytes);
    }

    method PurgeExpiredMLSKeyPackages(now: int) returns (deleted: nat, ghost batch: set<nat>)
      modifies this
      ensures nextId == old(nextId) && PurgeBatch(old(rows), now, batch)
      ensures rows == old(rows) - batch && deleted == |batch|
    {
      var left := PurgeableIds(rows, now);
      ghost var all := PurgeableIds(rows, now);
      deleted, batch := 0, {};
      while left != {} && deleted < PURGE_LIMIT
        invariant left <= all && batch <= all && left !! batch && deleted == |batch| <= PURGE_LIMIT
        invariant |left| + |batch| == |all| && rows == old(rows) - batch && nextId == old(nextId)
        decreases left
      {
        var id :| id in left;
        left := left - {id};
        rows, batch, deleted := rows - {id}, batch + {id}, deleted + 1;
      }
    }
  }

  // ----- one statement at a time -----

  /** A regular package leaves the supply for good and nobody else's supply changes. */
  lemma TakenLowersSupply(rows: Rows, id: nat, owner: Owner, suite: nat, now: int, other: Owner)
    requires id in UsableIds(rows, owner, suite, now)
    ensures UsableIds(Taken(rows, id, now), other, suite, now)
         == UsableIds(rows, other, suite, now) - if other == owner then {id} else {}
    ensures |UsableIds(Taken(rows, id, now), owner, suite, now)| == |UsableIds(rows, owner, suite, now)| - 1
  {
    assert UsableIds(Taken(rows, id, now), owner, suite, now) == UsableIds(rows, owner, suite, now) - {id};
  }

  /** Purging takes no usable package and no last resort. */
  lemma PurgeKeepsSupply(rows: Rows, now: int, batch: set<nat>, owner: Owner, suite: nat)
    requires batch <= PurgeableIds(rows, now)
    ensures UsableIds(rows - batch, owner, suite, now) == UsableIds(rows, owner, suite, now)
    ensures FallbackIds(rows - batch, owner, suite) == FallbackIds(rows, owner, suite)
  {
  }

  /** A purge step leaves no purgeable row, or 10000 fewer. */
  lemma PurgeEmpties(w: World, batch: set<nat>)
    requires Possible(w, Purge(batch))
    ensures var left, all := PurgeableIds(Step(w, Purge(batch)).rows, w.now), PurgeableIds(w.rows, w.now);
      |left| == if |all| <= 10000 then 0 else |all| - 10000
  {
    assert PurgeableIds(w.rows - batch, w.now) == PurgeableIds(w.rows, w.now) - batch;
  }

  /** An upload adds its packages to its owner's supply, unless they have already expired. */
  lemma {:induction false} UploadAddsSupply(rows: Rows, nextId: nat, owner: Owner, suite: nat, packages: seq<string>,
                                            expiresAt: int, now: int, other: Owner)
    requires forall id :: id in rows ==> id < nextId
    ensures |UsableIds(Uploaded(rows, nextId, owner, suite, packages, expiresAt, now), other, suite, now)|
         == |UsableIds(rows, other, suite, now)| + if other == owner && expiresAt > now then |packages| else 0
    decreases |packages|
  {
    hide UsableIds;
    if packages != [] {
      var last := |packages| - 1;
      var before := Uploaded(rows, nextId, owner, suite, packages[..last], expiresAt, now);
      UploadAddsSupply(rows, nextId, owner, suite, packages[..last], expiresAt, now, other);
      var p := Package(owner, suite, packages[last], false, now, expiresAt, None);
      InsertAddsSupply(before, nextId + last, p, other, suite, now);
    }
  }

  lemma InsertAddsSupply(rows: Rows, id: nat, p: Package, owner: Owner, suite: nat, now: int)
    requires id !in rows
    ensures |UsableIds(rows[id := p], owner, suite, now)|
         == |UsableIds(rows, owner, suite, now)| + if Usable(p, owner, suite, now) then 1 else 0
  {
    assert UsableIds(rows[id := p], owner, suite, now)
        == UsableIds(rows, owner, suite, now) + if Usable(p, owner, suite, now) then {id} else {};
  }

  lemma ReplaceKeepsSupply(rows: Rows, nextId: nat, owner: Owner, suite: nat, bytes: string, now: int, other: Owner)
    requires forall id :: id in rows ==> id < nextId
    ensures UsableIds(Replaced(rows, nextId, owner, suite, bytes, now), other, suite, now)
         == UsableIds(rows, other, suite, now)
  {
  }

  // ----- runs -----

  /** suite: the server's current ciphersuite. handed: ids of regular packages given out, in order. */
  datatype World = World(rows: Rows, nextId: nat, now: int, suite: nat, handed: seq<nat>)

  const START := World(map[], 0, 0, 1, [])

  datatype Action =
    | Tick(seconds: nat)
    | Upgrade(suite: nat)
    | Upload(owner: Owner, packages: seq<string>, expiresAt: int)
    | UploadLastResort(owner: Owner, bytes: string)
    | Consume(owner: Owner, id: Option<nat>)     // the id the database happens to choose
    | Purge(batch: set<nat>)

  predicate Possible(w: World, a: Action) {
    && (a.Consume? ==> Consumes(w.rows, ConsumedRows(w, a), a.owner, w.suite, w.now, a.id))
    && (a.Purge? ==> PurgeBatch(w.rows, w.now, a.batch))
  }

  predicate TakesRegular(w: World, a: Action) {
    a.Consume? && a.id.Some? && a.id.value in UsableIds(w.rows, a.owner, w.suite, w.now)
  }

  function ConsumedRows(w: World, a: Action): Rows {
    if TakesRegular(w, a) then Taken(w.rows, a.id.value, w.now) else w.rows
  }

  function Step(w: World, a: Action): World {
    match a
    case Tick(seconds) => w.(now := w.now + seconds)
    case Upgrade(suite) => w.(suite := suite)
    case Upload(owner, packages, expiresAt) =>
      w.(rows := Uploaded(w.rows, w.nextId, owner, w.suite, packages, expiresAt, w.now),
         nextId := w.nextId + |packages|)
    case UploadLastResort(owner, bytes) =>
      w.(rows := Replaced(w.rows, w.nextId, owner, w.suite, bytes, w.now), nextId := w.nextId + 1)
    case Consume(_, id) =>
      w.(rows := ConsumedRows(w, a), handed := if TakesRegular(w, a) then w.handed + [id.value] else w.handed)
    case Purge(batch) => w.(rows := w.rows - batch)
  }

  function Run(w: World, actions: seq<Action>): World
    decreases |actions|
  {
    if actions == [] then w else Run(Step(w, actions[0]), actions[1..])
  }

  predicate RunPossible(w: World, actions: seq<Action>)
    decreases |actions|
  {
    actions == [] || (Possible(w, actions[0]) && RunPossible(Step(w, actions[0]), actions[1..]))
  }

  /** Row ids are fresh, last resorts are never consumed, and a package handed out is spent or purged. */
  ghost predicate Sound(w: World) {
    && (forall id :: id in w.rows ==> id < w.nextId && (w.rows[id].lastResort ==> w.rows[id].consumedAt.None?))
    && (forall id :: id in w.handed ==> id < w.nextId && (id in w.rows ==> w.rows[id].consumedAt.Some?))
  }

  ghost predicate NoRepeats(ids: seq<nat>) { forall j, k :: 0 <= j < k < |ids| ==> ids[j] != ids[k] }

  ghost predicate OneLastResort(rows: Rows) {
    forall i, j :: i in rows && j in rows && i != j && rows[i].lastResort ==>
      !IsLastResort(rows[j], rows[i].owner, rows[i].suite)
  }

  lemma StepSound(w: World, a: Action)
    requires Sound(w) && Possible(w, a)
    ensures Sound(Step(w, a))
    ensures NoRepeats(w.handed) ==> NoRepeats(Step(w, a).handed)
    ensures OneLastResort(w.rows) ==> OneLastResort(Step(w, a).rows)
  {
  }

  lemma {:induction false} RunSound(w: World, actions: seq<Action>)
    requires Sound(w) && NoRepeats(w.handed) && OneLastResort(w.rows) && RunPossible(w, actions)
    ensures var after := Run(w, actions);
      Sound(after) && NoRepeats(after.handed) && OneLastResort(after.rows)
    decreases |actions|
  {
    hide Sound, NoRepeats, OneLastResort, Step, Possible;
    if actions != [] {
      StepSound(w, actions[0]);
      RunSound(Step(w, actions[0]), actions[1..]);
    }
  }

  /** Over every run no regular package is handed out twice, no last resort is handed out as a regular
      one or marked consumed, and a user, device and suite have at most one last resort. */
  lemma HandedOutAtMostOnce(actions: seq<Action>)
    requires RunPossible(START, actions)
    ensures var after := Run(START, actions);
      && NoRepeats(after.handed) && OneLastResort(after.rows)
      && (forall id :: id in after.rows && after.rows[id].lastResort ==>
            after.rows[id].consumedAt.None? && id !in after.handed)
  {
    RunSound(START, actions);
  }

  lemma StepKeepsFallback(w: World, a: Action, owner: Owner, suite: nat)
    requires Possible(w, a) && FallbackIds(w.rows, owner, suite) != {} && Sound(w)
    ensures FallbackIds(Step(w, a).rows, owner, suite) != {}
  {
    var id :| id in FallbackIds(w.rows, owner, suite);
    if a.UploadLastResort? && a.owner == owner && w.suite == suite {
      assert w.nextId in FallbackIds(Step(w, a).rows, owner, suite);
    } else {
      assert id in FallbackIds(Step(w, a).rows, owner, suite);
    }
  }

  lemma {:induction false} FallbackStays(w: World, actions: seq<Action>, owner: Owner, suite: nat)
    requires Sound(w) && FallbackIds(w.rows, owner, suite) != {} && RunPossible(w, actions)
    ensures FallbackIds(Run(w, actions).rows, owner, suite) != {}
    decreases |actions|
  {
    hide Sound, Step, FallbackIds;
    if actions != [] {
      StepSound(w, actions[0]);
      StepKeepsFallback(w, actions[0], owner, suite);
      FallbackStays(Step(w, actions[0]), actions[1..], owner, suite);
    }
  }

  /** Once an owner uploads a last resort, at any point of any run, every later consume under that suite
      answers, whatever expires, is consumed or is purged in between. */
  lemma LastResortAlwaysAnswers(before: seq<Action>, owner: Owner, bytes: string, after: seq<Action>, id: Option<nat>)
    requires RunPossible(START, before)
    requires RunPossible(Step(Run(START, before), UploadLastResort(owner, bytes)), after)
    ensures var uploaded := Step(Run(START, before), UploadLastResort(owner, bytes));
      var later := Run(uploaded, after);
      later.suite == uploaded.suite && Possible(later, Consume(owner, id)) ==> id.Some?
  {
    RunSound(START, before);
    var w := Run(START, before);
    var uploaded := Step(w, UploadLastResort(owner, bytes));
    StepSound(w, UploadLastResort(owner, bytes));
    assert w.nextId in FallbackIds(uploaded.rows, owner, w.suite);
    FallbackStays(uploaded, after, owner, w.suite);
  }

  // ----- supply -----

  function Added(w: World, actions: seq<Action>, owner: Owner): nat
    decreases |actions|
  {
    if actions == [] then 0 else
      var a := actions[0];
      (if a.Upload? && a.owner == owner && a.expiresAt > w.now then |a.packages| else 0)
        + Added(Step(w, a), actions[1..], owner)
  }

  function Given(w: World, actions: seq<Action>, owner: Owner): nat
    decreases |actions|
  {
    if actions == [] then 0 else
      (if actions[0].Consume? && actions[0].owner == owner && TakesRegular(w, actions[0]) then 1 else 0)
        + Given(Step(w, actions[0]), actions[1..], owner)
  }

  function Supply(w: World, owner: Owner): nat { |UsableIds(w.rows, owner, w.suite, w.now)| }

  lemma StepSupply(w: World, a: Action, owner: Owner)
    requires Sound(w) && Possible(w, a) && !a.Tick? && !a.Upgrade?
    ensures Supply(Step(w, a), owner) + Given(w, [a], owner) == Supply(w, owner) + Added(w, [a], owner)
  {
    if a.Upload? {
      UploadAddsSupply(w.rows, w.nextId, a.owner, w.suite, a.packages, a.expiresAt, w.now, owner);
    } else if a.UploadLastResort? {
      ReplaceKeepsSupply(w.rows, w.nextId, a.owner, w.suite, a.bytes, w.now, owner);
    } else if a.Consume? {
      if TakesRegular(w, a) {
        TakenLowersSupply(w.rows, a.id.value, a.owner, w.suite, w.now, owner);
      }
    } else {
      PurgeKeepsSupply(w.rows, w.now, a.batch, owner, w.suite);
    }
  }

  lemma {:induction false} RunSupply(w: World, actions: seq<Action>, owner: Owner)
    requires Sound(w) && RunPossible(w, actions)
    requires forall k :: 0 <= k < |actions| ==> !actions[k].Tick? && !actions[k].Upgrade?
    ensures Supply(Run(w, actions), owner) + Given(w, actions, owner) == Supply(w, owner) + Added(w, actions, owner)
    decreases |actions|
  {
    if actions != [] {
      var a := actions[0];
      StepSound(w, a);
      StepSupply(w, a, owner);
      hide Sound, Step, Supply, Possible, TakesRegular;
      RunSupply(Step(w, a), actions[1..], owner);
      assert [a][1..] == [];
    }
  }

  /** Conservation over any stretch of a run with a fixed clock and suite: the unused count plus the
      packages given out equals the count before plus the packages uploaded. */
  lemma SupplyIsConserved(before: seq<Action>, actions: seq<Action>, owner: Owner)
    requires RunPossible(START, before) && RunPossible(Run(START, before), actions)
    requires forall k :: 0 <= k < |actions| ==> !actions[k].Tick? && !actions[k].Upgrade?
    ensures var w := Run(START, before);
      Supply(Run(w, actions), owner) + Given(w, actions, owner) == Supply(w, owner) + Added(w, actions, owner)
  {
    RunSound(START, before);
    RunSupply(Run(START, before), actions, owner);
  }

  /** A consume answers nothing exactly when no usable package and no last resort is left. */
  lemma ConsumeFailsIff(w: World, owner: Owner, id: Option<nat>)
    requires Possible(w, Consume(owner, id))
    ensures id.None? <==> Supply(w, owner) == 0 && FallbackIds(w.rows, owner, w.suite) == {}
    ensures id.Some? ==> w.rows[id.value].owner == owner && w.rows[id.value].suite == w.suite
    ensures id.Some? && w.rows[id.value].lastResort <==>
      Supply(w, owner) == 0 && FallbackIds(w.rows, owner, w.suite) != {}
  {
    var usable := UsableIds(w.rows, owner, w.suite, w.now);
    assert |usable| == 0 <==> usable == {};
  }

  lemma {:induction false} ClockAdvances(w: World, actions: seq<Action>)
    ensures Run(w, actions).now >= w.now
    decreases |actions|
  {
    if actions != [] {
      ClockAdvances(Step(w, actions[0]), actions[1..]);
    }
  }

  /** A row that no later statement of a run may remove before this time. */
  predicate KeptUntil(p: Package, time: int) {
    p.consumedAt.Some? && time <= p.createdAt + 30 * 24 * 3600
  }

  lemma StepKeepsConsumed(w: World, a: Action, id: nat)
    requires Sound(w) && Possible(w, a) && id in w.rows && KeptUntil(w.rows[id], w.now)
    ensures id in Step(w, a).rows && Step(w, a).rows[id] == w.rows[id]
  {
  }

  /** From any point of any run on, a package that was handed out keeps its row until 30 days after its
      upload, whatever is uploaded, consumed or purged. */
  lemma ConsumedRowsStay(before: seq<Action>, after: seq<Action>, id: nat)
    requires RunPossible(START, before) && RunPossible(Run(START, before), after)
    requires id in Run(START, before).rows && KeptUntil(Run(START, before).rows[id], Run(Run(START, before), after).now)
    ensures var w := Run(START, before); id in Run(w, after).rows && Run(w, after).rows[id] == w.rows[id]
  {
    RunSound(START, before);
    ConsumedRowsKept(Run(START, before), after, id);
  }

  lemma {:induction false} ConsumedRowsKept(w: World, actions: seq<Action>, id: nat)
    requires Sound(w) && RunPossible(w, actions) && id in w.rows && KeptUntil(w.rows[id], Run(w, actions).now)
    ensures id in Run(w, actions).rows && Run(w, actions).rows[id] == w.rows[id]
    decreases |actions|
  {
    hide Sound, Step, Possible;
    if actions != [] {
      ClockAdvances(w, actions);
      StepKeepsConsumed(w, actions[0], id);
      StepSound(w, actions[0]);
      ConsumedRowsKept(Step(w, actions[0]), actions[1..], id);
    }
  }

  // ----- what was uploaded -----

  /** One package of an upload. */
  datatype Offer = Offer(owner: Owner, suite: nat, bytes: string, lastResort: bool, at: int, expiresAt: int)

  function OfferOf(p: Package): Offer { Offer(p.owner, p.suite, p.bytes, p.lastResort, p.createdAt, p.expiresAt) }

  function OffersOf(w: World, a: Action): seq<Offer> {
    match a
    case Upload(owner, packages, expiresAt) =>
      seq(|packages|, k requires 0 <= k < |packages| => Offer(owner, w.suite, packages[k], false, w.now, expiresAt))
    case UploadLastResort(owner, bytes) => [Offer(owner, w.suite, bytes, true, w.now, 4070908800)]
    case _ => []
  }

  /** Everything ever uploaded along a run, in order. */
  function Offers(w: World, actions: seq<Action>): seq<Offer>
    decreases |actions|
  {
    if actions == [] then [] else OffersOf(w, actions[0]) + Offers(Step(w, actions[0]), actions[1..])
  }

  predicate Later(offers: seq<Offer>, k: nat, o: Offer) {
    exists j :: k < j < |offers| && offers[j].lastResort && offers[j].owner == o.owner && offers[j].suite == o.suite
  }

  /** The row with id k is the k-th package ever uploaded, and a last resort in the table is its owner's
      most recent one under its suite. */
  ghost predicate RowsAreOffers(w: World, offers: seq<Offer>) {
    && w.nextId == |offers|
    && forall k :: k in w.rows ==>
         && k < |offers| && OfferOf(w.rows[k]) == offers[k]
         && (w.rows[k].lastResort ==> !Later(offers, k, offers[k]))
  }

  /** A step keeps a row's offer, or inserts the next ones. */
  lemma StepRows(w: World, a: Action, k: nat)
    requires (forall id :: id in w.rows ==> id < w.nextId) && Possible(w, a) && k in Step(w, a).rows
    ensures if k < w.nextId then k in w.rows && OfferOf(Step(w, a).rows[k]) == OfferOf(w.rows[k])
            else k - w.nextId < |OffersOf(w, a)| && OfferOf(Step(w, a).rows[k]) == OffersOf(w, a)[k - w.nextId]
    ensures k < w.nextId && a.UploadLastResort? ==> !IsLastResort(w.rows[k], a.owner, w.suite)
  {
  }

  lemma NewOffers(w: World, a: Action)
    ensures Step(w, a).nextId == w.nextId + |OffersOf(w, a)|
    ensures forall o :: o in OffersOf(w, a) && o.lastResort ==>
      a.UploadLastResort? && o.owner == a.owner && o.suite == w.suite && |OffersOf(w, a)| == 1
  {
  }

  lemma StepOffers(w: World, a: Action, offers: seq<Offer>)
    requires RowsAreOffers(w, offers) && Possible(w, a)
    ensures RowsAreOffers(Step(w, a), offers + OffersOf(w, a))
  {
    hide Possible, OffersOf, Step, Later;
    NewOffers(w, a);
    var after, more := Step(w, a), offers + OffersOf(w, a);
    forall k | k in after.rows
      ensures k < |more| && OfferOf(after.rows[k]) == more[k] && (after.rows[k].lastResort ==> !Later(more, k, more[k]))
    {
      StepRows(w, a, k);
      if after.rows[k].lastResort {
        StaysLatest(w, a, offers, k);
      }
    }
  }

  lemma StaysLatest(w: World, a: Action, offers: seq<Offer>, k: nat)
    requires RowsAreOffers(w, offers) && Possible(w, a)
    requires k in Step(w, a).rows && Step(w, a).rows[k].lastResort
    requires k < |offers| + |OffersOf(w, a)| && (offers + OffersOf(w, a))[k] == OfferOf(Step(w, a).rows[k])
    ensures !Later(offers + OffersOf(w, a), k, (offers + OffersOf(w, a))[k])
  {
    hide Possible, OffersOf, Step;
    StepRows(w, a, k);
    NewOffers(w, a);
  }

  lemma {:induction false} RunOffers(w: World, actions: seq<Action>, offers: seq<Offer>)
    requires RowsAreOffers(w, offers) && RunPossible(w, actions)
    ensures RowsAreOffers(Run(w, actions), offers + Offers(w, actions))
    decreases |actions|
  {
    hide RowsAreOffers, Step, Possible, OffersOf;
    if actions == [] {
      assert offers + [] == offers;
    } else {
      StepOffers(w, actions[0], offers);
      RunOffers(Step(w, actions[0]), actions[1..], offers + OffersOf(w, actions[0]));
      assert offers + OffersOf(w, actions[0]) + Offers(Step(w, actions[0]), actions[1..])
          == offers + Offers(w, actions);
    }
  }

  /** Over every run a consume answers with an uploaded package of the owner it asked for, under the
      current suite: a regular one that has not expired and that no earlier consume was answered with, or
      the very last resort the owner uploaded last under that suite. */
  lemma AnswersWereUploaded(actions: seq<Action>, owner: Owner, id: nat)
    requires RunPossible(START, actions) && Possible(Run(START, actions), Consume(owner, Some(id)))
    ensures var w, offers := Run(START, actions), Offers(START, actions);
      && id in w.rows && id < |offers|
      && offers[id] == OfferOf(w.rows[id]) && offers[id].owner == owner && offers[id].suite == w.suite
      && (if offers[id].lastResort then !Later(offers, id, offers[id])
          else && offers[id].expiresAt > w.now && id !in w.handed
               && Step(w, Consume(owner, Some(id))).handed == w.handed + [id])
  {
    hide Run, RunPossible, Offers, Later, Possible, RowsAreOffers, Sound, Step, OneLastResort;
    StartHasNoRows();
    RunSound(START, actions);
    RunOffers(START, actions, []);
    assert [] + Offers(START, actions) == Offers(START, actions);
    AnswerIsOffer(Run(START, actions), Offers(START, actions), owner, id);
  }

  lemma StartHasNoRows()
    ensures Sound(START) && OneLastResort(START.rows) && RowsAreOffers(START, [])
  {
  }

  lemma AnswerIsOffer(w: World, offers: seq<Offer>, owner: Owner, id: nat)
    requires Sound(w) && RowsAreOffers(w, offers) && Possible(w, Consume(owner, Some(id)))
    ensures id in w.rows && id < |offers|
    ensures offers[id] == OfferOf(w.rows[id]) && offers[id].owner == owner && offers[id].suite == w.suite
    ensures if offers[id].lastResort then !Later(offers, id, offers[id])
            else && offers[id].expiresAt > w.now && id !in w.handed
                 && Step(w, Consume(owner, Some(id))).handed == w.handed + [id]
  {
    hide Later;
    assert id in UsableIds(w.rows, owner, w.suite, w.now) || id in FallbackIds(w.rows, owner, w.suite);
  }
}
