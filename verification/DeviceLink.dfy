/** Device linking over the auth_nonces table: handlers as sequences of atomic inserts, consumes and
    deletes, interleaved in any order, with any of them failing. */
module DeviceLink {
  import opened Basics

  /** Nonce names; Render gives the stored strings. */
  datatype Name =
    | RequestNonce(id: string, secret: string)
    | CodeNonce(code: string)
    | ClaimNonce(token: string)
    | ResultNonce(id: string, secret: string)

  function Render(n: Name): string {
    match n
    case RequestNonce(id, secret) => "link:req:" + (id + ":" + secret)
    case CodeNonce(code) => "link:code:" + code
    case ClaimNonce(token) => "link:claim:" + token
    case ResultNonce(id, secret) => "link:result:" + (id + ":" + secret)
  }

  /** Request ids are UUIDs: no colon. */
  predicate PlainId(n: Name) {
    match n
    case RequestNonce(id, _) => ':' !in id
    case ResultNonce(id, _) => ':' !in id
    case _ => true
  }

  function BeforeColon(s: string): string {
    if s == [] || s[0] == ':' then [] else [s[0]] + BeforeColon(s[1..])
  }

  lemma {:induction false} BeforeColonOf(id: string, rest: string)
    requires ':' !in id
    ensures BeforeColon(id + ":" + rest) == id
  {
    if id != [] {
      assert (id + ":" + rest)[1..] == id[1..] + ":" + rest;
      BeforeColonOf(id[1..], rest);
    }
  }

  lemma ColonSplits(a: string, b: string, s: string, t: string)
    requires ':' !in a && ':' !in b && a + ":" + s == b + ":" + t
    ensures a == b && s == t
  {
    BeforeColonOf(a, s);
    BeforeColonOf(b, t);
    assert (a + ":" + s)[|a| + 1..] == s && (b + ":" + t)[|b| + 1..] == t;
  }

  /** The prefixes keep the four kinds of rows apart. */
  lemma RenderKeepsKinds(m: Name, n: Name)
    requires Render(m) == Render(n)
    ensures m.RequestNonce? == n.RequestNonce? && m.CodeNonce? == n.CodeNonce? && m.ClaimNonce? == n.ClaimNonce?
  {
    var s, t := Render(m), Render(n);
    assert s[5] == t[5] && s[6] == t[6] && s[7] == t[7];
  }

  lemma PrefixCancels(prefix: string, s: string, t: string)
    requires prefix + s == prefix + t
    ensures s == t
  {
    assert (prefix + s)[|prefix|..] == s && (prefix + t)[|prefix|..] == t;
  }

  /** Distinct nonces are distinct rows. */
  lemma RenderIsInjective(m: Name, n: Name)
    requires PlainId(m) && PlainId(n) && Render(m) == Render(n)
    ensures m == n
  {
    RenderKeepsKinds(m, n);
    if m.RequestNonce? {
      PrefixCancels("link:req:", m.id + ":" + m.secret, n.id + ":" + n.secret);
      ColonSplits(m.id, n.id, m.secret, n.secret);
    } else if m.CodeNonce? {
      PrefixCancels("link:code:", m.code, n.code);
    } else if m.ClaimNonce? {
      PrefixCancels("link:claim:", m.token, n.token);
    } else {
      PrefixCancels("link:result:", m.id + ":" + m.secret, n.id + ":" + n.secret);
      ColonSplits(m.id, n.id, m.secret, n.secret);
    }
  }

  /** storedLinkRequest, as far as the protocol reads it. */
  datatype Request = Request(id: string, secret: string, code: string)

  datatype NonceRow = NonceRow(request: Request, expiresAt: int)

  type Nonces = map<Name, NonceRow>

  const LINK_CODE_EXPIRY := 5 * 60

  // ----- auth_nonces.go -----

  /** INSERT: the nonce is the primary key. */
  function Insert(nonces: Nonces, n: Name, row: NonceRow): Nonces {
    if n in nonces then nonces else nonces[n := row]
  }

  predicate Live(nonces: Nonces, n: Name, now: int) { n in nonces && nonces[n].expiresAt > now }

  /** DELETE ... WHERE nonce = $1 AND expires_at > now() RETURNING user_public_key. */
  function Consumed(nonces: Nonces, n: Name, now: int): Nonces {
    if Live(nonces, n, now) then nonces - {n} else nonces
  }

  function Purged(nonces: Nonces, now: int): Nonces {
    map n | n in nonces && !(nonces[n].expiresAt < now) :: nonces[n]
  }

  lemma PurgedIsSmaller(rows: Nonces, kept: Nonces)
    requires kept.Keys <= rows.Keys
    ensures |kept| <= |rows|
  {
    SubsetSize(kept.Keys, rows.Keys);
  }

  // ----- handlers in flight -----

  datatype Thread =
    | Done
    | RequestStored(request: Request)          // link-request: code nonce still to insert
    | RequestRollback(request: Request)        // link-request: code insert failed, request nonce to delete
    | ResolveConsumed(request: Request, companion: Name)
    | ResolveCleaned(request: Request)         // link-resolve: claim still to insert
    | VerifyConsumed(request: Request)         // link-verify: device still to register
    | VerifyRegistered(request: Request)       // link-verify: result still to insert

  /** used: request ids ever issued (UUIDs never repeat). registered: one entry per InsertDeviceKey. */
  datatype System = System(nonces: Nonces, threads: seq<Thread>, registered: seq<Request>, now: int, used: set<string>)

  const START := System(map[], [], [], 0, {})

  datatype Action =
    | Tick(seconds: nat)
    | Purge
    | LinkRequest(request: Request)
    | Resolve(nonce: Name)
    | Verify(token: string)
    | FetchResult(nonce: Name)
    | Advance(t: nat, ok: bool, token: string)
    | ResolveWhole(nonce: Name, ok: bool, token: string)

  function Companion(n: Name, r: Request): Name {
    if n.CodeNonce? then RequestNonce(r.id, r.secret) else CodeNonce(r.code)
  }

  /** An uninterrupted link-resolve of a live nonce. */
  function Resolved(nonces: Nonces, n: Name, now: int, ok: bool, token: string): Nonces
    requires n in nonces
  {
    var r := nonces[n].request;
    var rest := Consumed(nonces, n, now) - {Companion(n, r)};
    if ok then Insert(rest, ClaimNonce(token), NonceRow(r, now + LINK_CODE_EXPIRY)) else rest
  }

  /** The table, and the two link handlers that write it without being interrupted. */
  class NonceTable {
    var rows: Nonces

    method InsertAuthNonce(n: Name, row: NonceRow) returns (ok: bool)
      modifies this
      ensures ok <==> n !in old(rows)
      ensures rows == Insert(old(rows), n, row)
    {
      ok := n !in rows;
      if ok {
        rows := rows[n := row];
      }
    }

    /** Once asked for, a nonce never answers again, live or not; other nonces are untouched. */
    method ConsumeAuthNonce(n: Name, now: int) returns (payload: seq<Request>)
      modifies this
      ensures rows == Consumed(old(rows), n, now)
      ensures payload == if Live(old(rows), n, now) then [old(rows)[n].request] else []
      ensures forall later :: later >= now ==> !Live(rows, n, later)
      ensures forall m, later :: m != n ==> (Live(rows, m, later) <==> Live(old(rows), m, later))
    {
      payload := [];
      if n in rows && rows[n].expiresAt > now {
        payload := [rows[n].request];
        rows := rows - {n};
      }
    }

    /** A deleted nonce is live at no time; every other nonce is live exactly when it was, with its row. */
    method DeleteAuthNonce(n: Name)
      modifies this
      ensures forall now :: !Live(rows, n, now)
      ensures forall m :: m != n ==> (m in rows <==> m in old(rows))
      ensures forall m :: m in rows ==> m in old(rows) && rows[m] == old(rows)[m]
      ensures n !in rows
    {
      rows := rows - {n};
    }

    method PurgeExpiredNonces(now: int) returns (deleted: nat)
      modifies this
      ensures rows == Purged(old(rows), now) && deleted == |old(rows)| - |rows|
      ensures forall n, later :: later >= now ==> (Live(rows, n, later) <==> Live(old(rows), n, later))
    {
      var kept := Purged(rows, now);
      PurgedIsSmaller(rows, kept);
      deleted := |rows| - |kept|;
      rows := kept;
    }

    /** linkRequest: both nonces or, when the code is taken, neither. */
    method LinkRequest(r: Request, now: int) returns (ok: bool)
      requires RequestNonce(r.id, r.secret) !in rows
      modifies this
      ensures ok <==> CodeNonce(r.code) !in old(rows)
      ensures !ok ==> rows == old(rows)
      ensures ok ==> rows == old(rows)[RequestNonce(r.id, r.secret) := NonceRow(r, now + LINK_CODE_EXPIRY)]
                                      [CodeNonce(r.code) := NonceRow(r, now + LINK_CODE_EXPIRY)]
    {
      var row := NonceRow(r, now + LINK_CODE_EXPIRY);
      var stored := InsertAuthNonce(RequestNonce(r.id, r.secret), row);
      ok := InsertAuthNonce(CodeNonce(r.code), row);
      if !ok {
        DeleteAuthNonce(RequestNonce(r.id, r.secret));
        assert rows == old(rows);
      }
    }

    /** linkResolve: neither of the request's nonces can be resolved any more, and the claim carries it. */
    method LinkResolve(n: Name, now: int, token: string) returns (claimed: bool)
      requires n.RequestNonce? || n.CodeNonce?
      modifies this
      ensures claimed ==> Live(old(rows), n, now) && rows == Resolved(old(rows), n, now, true, token)
      ensures Live(old(rows), n, now) ==>
        var r := old(rows)[n].request;
        && n !in rows && Companion(n, r) !in rows
        && (claimed <==> ClaimNonce(token) !in old(rows))
        && (claimed ==> Live(rows, ClaimNonce(token), now) && rows[ClaimNonce(token)].request == r)
      ensures !Live(old(rows), n, now) ==> !claimed && rows == old(rows)
    {
      var payload := ConsumeAuthNonce(n, now);
      if payload == [] {
        return false;
      }
      ghost var consumed := rows;
      DeleteAuthNonce(Companion(n, payload[0]));
      assert rows == consumed - {Companion(n, payload[0])};
      claimed := InsertAuthNonce(ClaimNonce(token), NonceRow(payload[0], now + LINK_CODE_EXPIRY));
    }
  }

  predicate Resolvable(s: System, n: Name) { (n.RequestNonce? || n.CodeNonce?) && Live(s.nonces, n, s.now) }

  function Spawn(s: System, t: Thread): System { s.(threads := s.threads + [t]) }

  function Arrive(s: System, a: Action): System
    requires !a.Advance?
  {
    match a
    case Tick(seconds) => s.(now := s.now + seconds)
    case Purge => s.(nonces := Purged(s.nonces, s.now))
    case LinkRequest(r) =>
      if r.id in s.used then s else
        Spawn(s, RequestStored(r)).(
          nonces := Insert(s.nonces, RequestNonce(r.id, r.secret), NonceRow(r, s.now + LINK_CODE_EXPIRY)),
          used := s.used + {r.id})
    case Resolve(n) =>
      if !Resolvable(s, n) then s else
        var r := s.nonces[n].request;
        Spawn(s, ResolveConsumed(r, Companion(n, r))).(nonces := Consumed(s.nonces, n, s.now))
    case Verify(token) =>
      if !Live(s.nonces, ClaimNonce(token), s.now) then s else
        Spawn(s, VerifyConsumed(s.nonces[ClaimNonce(token)].request)).(
          nonces := Consumed(s.nonces, ClaimNonce(token), s.now))
    case FetchResult(n) => if n.ResultNonce? then s.(nonces := Consumed(s.nonces, n, s.now)) else s
    case ResolveWhole(n, ok, token) =>
      if !Resolvable(s, n) then s else s.(nonces := Resolved(s.nonces, n, s.now, ok, token))
  }

  /** The next statement of a handler. A failed companion delete is logged and skipped; any other
      failure ends the handler. */
  function Continue(s: System, t: Thread, ok: bool, token: string): (System, Thread) {
    match t
    case Done => (s, Done)
    case RequestStored(r) =>
      if ok && CodeNonce(r.code) !in s.nonces
      then (s.(nonces := Insert(s.nonces, CodeNonce(r.code), NonceRow(r, s.now + LINK_CODE_EXPIRY))), Done)
      else (s, RequestRollback(r))
    case RequestRollback(r) => (if ok then s.(nonces := s.nonces - {RequestNonce(r.id, r.secret)}) else s, Done)
    case ResolveConsumed(r, companion) => (if ok then s.(nonces := s.nonces - {companion}) else s, ResolveCleaned(r))
    case ResolveCleaned(r) =>
      (if ok then s.(nonces := Insert(s.nonces, ClaimNonce(token), NonceRow(r, s.now + LINK_CODE_EXPIRY))) else s, Done)
    case VerifyConsumed(r) => if ok then (s.(registered := s.registered + [r]), VerifyRegistered(r)) else (s, Done)
    case VerifyRegistered(r) =>
      var row := NonceRow(r, s.now + LINK_CODE_EXPIRY);
      (if ok then s.(nonces := Insert(s.nonces, ResultNonce(r.id, r.secret), row)) else s, Done)
  }

  function Step(s: System, a: Action): System {
    match a
    case Advance(t, ok, token) =>
      if t >= |s.threads| then s else
        var (after, thread) := Continue(s, s.threads[t], ok, token);
        after.(threads := s.threads[t := thread])
    case _ => Arrive(s, a)
  }

  function Run(s: System, actions: seq<Action>): System
    decreases |actions|
  {
    if actions == [] then s else Run(Step(s, actions[0]), actions[1..])
  }

  // ----- token conservation -----

  /** Everything that is, or may still become, one device registration. */
  datatype Unit = NonceUnit(name: Name) | ThreadUnit(index: nat) | DeviceUnit(index: nat)

  /** late: count only what resolves have led to, not what can still be resolved. */
  predicate Counts(t: Thread, id: string, late: bool) {
    && ((!late && t.RequestStored?) || t.ResolveConsumed? || t.ResolveCleaned? || t.VerifyConsumed?)
    && t.request.id == id
  }

  predicate Holds(n: Name, late: bool) { n.ClaimNonce? || (!late && !n.ResultNonce?) }

  function NonceUnits(nonces: Nonces, id: string, late: bool): set<Unit> {
    set n | n in nonces && Holds(n, late) && nonces[n].request.id == id :: NonceUnit(n)
  }

  function ThreadUnits(threads: seq<Thread>, id: string, late: bool): set<Unit> {
    set t: nat | t < |threads| && Counts(threads[t], id, late) :: ThreadUnit(t)
  }

  function DeviceUnits(registered: seq<Request>, id: string): set<Unit> {
    set k: nat | k < |registered| && registered[k].id == id :: DeviceUnit(k)
  }

  function Units(s: System, id: string, late: bool): set<Unit> {
    NonceUnits(s.nonces, id, late) + ThreadUnits(s.threads, id, late) + DeviceUnits(s.registered, id)
  }

  ghost predicate IdsUsed(s: System) {
    && (forall n :: n in s.nonces ==> s.nonces[n].request.id in s.used)
    && (forall t :: t in s.threads && !t.Done? ==> t.request.id in s.used)
    && (forall r :: r in s.registered ==> r.id in s.used)
  }

  lemma UnitKinds(s: System, id: string, late: bool)
    ensures forall u :: u in NonceUnits(s.nonces, id, late) ==> u.NonceUnit?
    ensures forall u :: u in ThreadUnits(s.threads, id, late) ==> u.ThreadUnit?
    ensures forall u :: u in DeviceUnits(s.registered, id) ==> u.DeviceUnit?
  {
  }

  lemma InsertUnits(nonces: Nonces, n: Name, row: NonceRow, id: string, late: bool)
    ensures NonceUnits(Insert(nonces, n, row), id, late) <= NonceUnits(nonces, id, late) +
      if row.request.id == id && Holds(n, late) then {NonceUnit(n)} else {}
  {
  }

  lemma DeleteUnits(nonces: Nonces, n: Name, id: string, late: bool)
    ensures NonceUnits(nonces - {n}, id, late) <= NonceUnits(nonces, id, late) - {NonceUnit(n)}
  {
  }

  lemma UpdateUnits(threads: seq<Thread>, k: nat, t: Thread, id: string, late: bool)
    requires k < |threads|
    ensures ThreadUnits(threads[k := t], id, late) <= ThreadUnits(threads, id, late) - {ThreadUnit(k)} +
      if Counts(t, id, late) then {ThreadUnit(k)} else {}
    ensures Counts(threads[k], id, late) ==> ThreadUnit(k) in ThreadUnits(threads, id, late)
  {
  }

  lemma RegisterUnits(registered: seq<Request>, r: Request, id: string)
    ensures DeviceUnits(registered + [r], id) <= DeviceUnits(registered, id) +
      if r.id == id then {DeviceUnit(|registered|)} else {}
  {
  }

  /** Units after a step, bounded part by part. */
  lemma Bounded(s: System, after: System, id: string, late: bool, lost: Unit, gained: set<Unit>)
    requires NonceUnits(after.nonces, id, late) <= NonceUnits(s.nonces, id, late) + gained
    requires ThreadUnits(after.threads, id, late) <= ThreadUnits(s.threads, id, late) + gained
    requires DeviceUnits(after.registered, id) <= DeviceUnits(s.registered, id) + gained
    requires lost.NonceUnit? ==> lost !in NonceUnits(after.nonces, id, late)
    requires lost.ThreadUnit? ==> lost in gained || lost !in ThreadUnits(after.threads, id, late)
    requires !lost.DeviceUnit? && |gained| <= 1 && (gained != {} ==> lost in Units(s, id, late))
    ensures |Units(after, id, late)| <= |Units(s, id, late)|
  {
    UnitKinds(s, id, late);
    UnitKinds(after, id, late);
    hide NonceUnits, ThreadUnits, DeviceUnits;
    if gained == {} {
      SubsetSize(Units(after, id, late), Units(s, id, late));
    } else {
      SubsetSize(Units(after, id, late), (Units(s, id, late) - {lost}) + gained);
    }
  }

  /** Without anything lost, one unit gained is one more. */
  lemma Grows(s: System, after: System, id: string, late: bool, gained: set<Unit>)
    requires NonceUnits(after.nonces, id, late) <= NonceUnits(s.nonces, id, late) + gained
    requires ThreadUnits(after.threads, id, late) <= ThreadUnits(s.threads, id, late) + gained
    requires DeviceUnits(after.registered, id) <= DeviceUnits(s.registered, id) + gained
    ensures |Units(after, id, late)| <= |Units(s, id, late)| + |gained|
  {
    hide NonceUnits, ThreadUnits, DeviceUnits;
    SubsetSize(Units(after, id, late), Units(s, id, late) + gained);
  }

  lemma StoreConserves(s: System, after: System, k: nat, n: Name, row: NonceRow, id: string, late: bool)
    requires k < |s.threads| && !s.threads[k].Done? && s.threads[k].request == row.request
    requires after == s.(nonces := Insert(s.nonces, n, row), threads := s.threads[k := Done])
    requires !Holds(n, late) || Counts(s.threads[k], row.request.id, late)
    ensures |Units(after, id, late)| <= |Units(s, id, late)|
  {
    InsertUnits(s.nonces, n, row, id, late);
    UpdateUnits(s.threads, k, Done, id, late);
    hide NonceUnits, ThreadUnits, DeviceUnits;
    Bounded(s, after, id, late, ThreadUnit(k), if row.request.id == id && Holds(n, late) then {NonceUnit(n)} else {});
  }

  /** A handler's next statement trades its unit for at most one other. */
  lemma ContinueConserves(s: System, k: nat, ok: bool, token: string, id: string, late: bool)
    requires k < |s.threads|
    ensures |Units(Step(s, Advance(k, ok, token)), id, late)| <= |Units(s, id, late)|
  {
    hide Units, Insert;
    var t, after := s.threads[k], Step(s, Advance(k, ok, token));
    var expiry := s.now + LINK_CODE_EXPIRY;
    if t.RequestStored? && after.threads[k].Done? {
      StoreConserves(s, after, k, CodeNonce(t.request.code), NonceRow(t.request, expiry), id, late);
    } else if t.ResolveCleaned? && ok {
      StoreConserves(s, after, k, ClaimNonce(token), NonceRow(t.request, expiry), id, late);
    } else if t.VerifyRegistered? && ok {
      var result := ResultNonce(t.request.id, t.request.secret);
      StoreConserves(s, after, k, result, NonceRow(t.request, expiry), id, late);
    } else {
      var gone := if !ok then {} else if t.ResolveConsumed? then {t.companion}
                  else if t.RequestRollback? then {RequestNonce(t.request.id, t.request.secret)} else {};
      assert s.nonces - {} == s.nonces;
      MoveConserves(s, after, k, gone, id, late);
    }
  }

  /** Deletes, registrations and failures. */
  lemma MoveConserves(s: System, after: System, k: nat, gone: set<Name>, id: string, late: bool)
    requires k < |s.threads| == |after.threads| && after.threads == s.threads[k := after.threads[k]]
    requires after.nonces == s.nonces - gone
    requires Counts(after.threads[k], id, late) ==> Counts(s.threads[k], id, late)
    requires after.registered == s.registered ||
      (s.threads[k].VerifyConsumed? && after.threads[k].VerifyRegistered?
       && after.registered == s.registered + [s.threads[k].request])
    ensures |Units(after, id, late)| <= |Units(s, id, late)|
  {
    UpdateUnits(s.threads, k, after.threads[k], id, late);
    assert NonceUnits(after.nonces, id, late) <= NonceUnits(s.nonces, id, late);
    if after.registered != s.registered {
      RegisterUnits(s.registered, s.threads[k].request, id);
    }
    hide NonceUnits, ThreadUnits, DeviceUnits;
    var registers := after.registered != s.registered && s.threads[k].request.id == id;
    var gained := if registers then {DeviceUnit(|s.registered|)}
                  else if Counts(after.threads[k], id, late) then {ThreadUnit(k)} else {};
    Bounded(s, after, id, late, ThreadUnit(k), gained);
  }

  lemma SpawnUnits(threads: seq<Thread>, t: Thread, id: string, late: bool)
    ensures ThreadUnits(threads + [t], id, late) <= ThreadUnits(threads, id, late) +
      if Counts(t, id, late) then {ThreadUnit(|threads|)} else {}
  {
  }

  lemma ConsumeUnits(nonces: Nonces, n: Name, now: int, id: string, late: bool)
    requires Live(nonces, n, now)
    ensures nonces[n].request.id == id && Holds(n, late) ==> NonceUnit(n) in NonceUnits(nonces, id, late)
    ensures NonceUnits(Consumed(nonces, n, now), id, late) <= NonceUnits(nonces, id, late) - {NonceUnit(n)}
  {
  }

  /** An arriving request trades the nonce it consumes for its own unit. Where the nonce does not count,
      the unit is new. */
  lemma ConsumeConserves(s: System, after: System, n: Name, t: Thread, id: string, late: bool)
    requires Live(s.nonces, n, s.now) && !n.ResultNonce? && !t.Done? && t.request == s.nonces[n].request
    requires after == s.(nonces := Consumed(s.nonces, n, s.now), threads := s.threads + [t])
    ensures |Units(after, id, late)| <= |Units(s, id, late)| + if !Holds(n, late) && t.request.id == id then 1 else 0
  {
    ConsumeUnits(s.nonces, n, s.now, id, late);
    SpawnUnits(s.threads, t, id, late);
    hide NonceUnits, ThreadUnits, DeviceUnits;
    var gained := if Counts(t, id, late) then {ThreadUnit(|s.threads|)} else {};
    if Holds(n, late) || t.request.id != id {
      Bounded(s, after, id, late, NonceUnit(n), gained);
    } else {
      Grows(s, after, id, late, gained);
    }
  }

  lemma ResolvedUnits(nonces: Nonces, n: Name, now: int, ok: bool, token: string, id: string, late: bool)
    requires Live(nonces, n, now)
    ensures NonceUnits(Resolved(nonces, n, now, ok, token), id, late) <= NonceUnits(nonces, id, late) - {NonceUnit(n)} +
      if ok && nonces[n].request.id == id then {NonceUnit(ClaimNonce(token))} else {}
  {
    hide NonceUnits, Insert;
    var r := nonces[n].request;
    var rest := Consumed(nonces, n, now) - {Companion(n, r)};
    ConsumeUnits(nonces, n, now, id, late);
    DeleteUnits(Consumed(nonces, n, now), Companion(n, r), id, late);
    InsertUnits(rest, ClaimNonce(token), NonceRow(r, now + LINK_CODE_EXPIRY), id, late);
  }

  lemma ResolveWholeConserves(s: System, n: Name, ok: bool, token: string, id: string, late: bool)
    requires Resolvable(s, n)
    ensures |Units(Arrive(s, ResolveWhole(n, ok, token)), id, late)|
         <= |Units(s, id, late)| + if !Holds(n, late) && s.nonces[n].request.id == id then 1 else 0
  {
    hide NonceUnits, ThreadUnits, DeviceUnits, Resolved;
    var after, mine := Arrive(s, ResolveWhole(n, ok, token)), s.nonces[n].request.id == id;
    var claim := if ok && mine then {NonceUnit(ClaimNonce(token))} else {};
    ResolvedUnits(s.nonces, n, s.now, ok, token, id, late);
    if mine {
      ConsumeUnits(s.nonces, n, s.now, id, late);
    }
    if Holds(n, late) || !mine {
      Bounded(s, after, id, late, NonceUnit(n), claim);
    } else {
      Grows(s, after, id, late, claim);
    }
  }

  /** This step is a resolve of the request with this id, and its nonce is live. */
  predicate Accepts(s: System, a: Action, id: string) {
    (a.Resolve? || a.ResolveWhole?) && Resolvable(s, a.nonce) && s.nonces[a.nonce].request.id == id
  }

  /** Only link-request creates units, and only an accepted resolve creates late ones. */
  lemma ArriveConserves(s: System, a: Action, id: string, late: bool)
    requires !a.Advance? && !(a.LinkRequest? && a.request.id == id && !late)
    ensures |Units(Arrive(s, a), id, late)| <= |Units(s, id, late)| + if late && Accepts(s, a, id) then 1 else 0
  {
    hide Units, Insert, Resolved;
    var after := Arrive(s, a);
    if a.Resolve? && Resolvable(s, a.nonce) {
      ConsumeConserves(s, after, a.nonce, after.threads[|s.threads|], id, late);
    } else if a.Verify? && Live(s.nonces, ClaimNonce(a.token), s.now) {
      ConsumeConserves(s, after, ClaimNonce(a.token), after.threads[|s.threads|], id, late);
    } else if a.ResolveWhole? && Resolvable(s, a.nonce) {
      ResolveWholeConserves(s, a.nonce, a.ok, a.token, id, late);
    } else if a.LinkRequest? && after != s {
      OtherRequestConserves(s, after, a.request, id, late);
    } else {
      FewerNoncesConserve(s, after, id, late);
    }
  }

  lemma OtherRequestConserves(s: System, after: System, r: Request, id: string, late: bool)
    requires after == Spawn(s, RequestStored(r)).(
      nonces := Insert(s.nonces, RequestNonce(r.id, r.secret), NonceRow(r, s.now + LINK_CODE_EXPIRY)),
      used := after.used)
    requires r.id != id || late
    ensures |Units(after, id, late)| <= |Units(s, id, late)|
  {
    hide NonceUnits, ThreadUnits, DeviceUnits, Insert, Units;
    InsertUnits(s.nonces, RequestNonce(r.id, r.secret), NonceRow(r, s.now + LINK_CODE_EXPIRY), id, late);
    SpawnUnits(s.threads, RequestStored(r), id, late);
    RequestsCountEarly(r, id, late);
    Grows(s, after, id, late, {});
  }

  lemma FewerNoncesConserve(s: System, after: System, id: string, late: bool)
    requires forall n :: n in after.nonces ==> n in s.nonces && after.nonces[n] == s.nonces[n]
    requires after.threads == s.threads && after.registered == s.registered
    ensures |Units(after, id, late)| <= |Units(s, id, late)|
  {
    FewerNonces(s.nonces, after.nonces, id, late);
    hide NonceUnits, ThreadUnits, DeviceUnits, Units;
    Grows(s, after, id, late, {});
  }

  lemma RequestsCountEarly(r: Request, id: string, late: bool)
    ensures Counts(RequestStored(r), id, late) <==> r.id == id && !late
  {
  }

  lemma FewerNonces(nonces: Nonces, fewer: Nonces, id: string, late: bool)
    requires forall n :: n in fewer ==> n in nonces && fewer[n] == nonces[n]
    ensures NonceUnits(fewer, id, late) <= NonceUnits(nonces, id, late)
  {
  }

  lemma StepIdsUsed(s: System, a: Action)
    requires IdsUsed(s)
    ensures IdsUsed(Step(s, a)) && s.used <= Step(s, a).used
    ensures forall id :: id in Step(s, a).used - s.used ==> a.LinkRequest? && a.request.id == id
  {
    if a.Advance? && a.t < |s.threads| {
      assert s.threads[a.t] in s.threads;
    }
  }

  lemma FreshIdHasNoUnits(s: System, id: string)
    requires IdsUsed(s) && id !in s.used
    ensures Units(s, id, false) == {}
  {
    assert forall t :: 0 <= t < |s.threads| ==> s.threads[t] in s.threads;
    assert forall k :: 0 <= k < |s.registered| ==> s.registered[k] in s.registered;
  }

  lemma LinkRequestMakesTwo(s: System, r: Request)
    requires IdsUsed(s) && r.id !in s.used
    ensures |Units(Step(s, LinkRequest(r)), r.id, false)| <= 2
  {
    var n, row, t := RequestNonce(r.id, r.secret), NonceRow(r, s.now + LINK_CODE_EXPIRY), RequestStored(r);
    var after := Step(s, LinkRequest(r));
    assert after.nonces == Insert(s.nonces, n, row);
    assert after.threads == s.threads + [t] && after.registered == s.registered;
    FreshIdHasNoUnits(s, r.id);
    hide IdsUsed, Insert, Step;
    TwoUnits(s, after, n, row, t);
  }

  lemma TwoUnits(s: System, after: System, n: Name, row: NonceRow, t: Thread)
    requires Units(s, row.request.id, false) == {}
    requires after.nonces == Insert(s.nonces, n, row)
    requires after.threads == s.threads + [t] && after.registered == s.registered
    ensures |Units(after, row.request.id, false)| <= 2
  {
    var id := row.request.id;
    InsertUnits(s.nonces, n, row, id, false);
    SpawnUnits(s.threads, t, id, false);
    hide Insert, NonceUnits, ThreadUnits, DeviceUnits, Counts;
    assert NonceUnits(s.nonces, id, false) <= Units(s, id, false);
    assert ThreadUnits(s.threads, id, false) <= Units(s, id, false);
    assert DeviceUnits(s.registered, id) <= Units(s, id, false);
    var two := {NonceUnit(n), ThreadUnit(|s.threads|)};
    assert Units(after, id, false) <= two;
    hide Units;
    SubsetSize(Units(after, id, false), two);
  }

  lemma StepConserves(s: System, a: Action, id: string)
    requires IdsUsed(s) && |Units(s, id, false)| <= 2
    ensures |Units(Step(s, a), id, false)| <= 2
  {
    hide Units, IdsUsed;
    if a.Advance? {
      if a.t < |s.threads| {
        ContinueConserves(s, a.t, a.ok, a.token, id, false);
      }
    } else if a.LinkRequest? && a.request.id == id && id !in s.used {
      LinkRequestMakesTwo(s, a.request);
    } else if !(a.LinkRequest? && a.request.id == id) {
      ArriveConserves(s, a, id, false);
    }
  }

  lemma {:induction false} RunConserves(s: System, actions: seq<Action>, id: string)
    requires IdsUsed(s) && |Units(s, id, false)| <= 2
    ensures IdsUsed(Run(s, actions)) && |Units(Run(s, actions), id, false)| <= 2
    decreases |actions|
  {
    hide Step, IdsUsed, Units;
    if actions != [] {
      var a := actions[0];
      StepIdsUsed(s, a);
      StepConserves(s, a, id);
      RunConserves(Step(s, a), actions[1..], id);
    }
  }

  /** Token conservation, under every interleaving and every failure: one link request never has more
      than two of live request, code and claim nonces, resolves and verifies in flight, and device
      registrations, taken together. */
  lemma TokensNeverExceedTwo(actions: seq<Action>, id: string)
    ensures |Units(Run(START, actions), id, false)| <= 2
  {
    assert Units(START, id, false) == {};
    RunConserves(START, actions, id);
  }

  /** Two is reached: a scan of the code and a scan of the QR handle that both consume before either
      deletes its companion leave two claims for one request. */
  lemma InterleavedResolvesYieldTwoClaims(r: Request, a: string, b: string)
    requires a != b
    ensures var byHandle, byCode := RequestNonce(r.id, r.secret), CodeNonce(r.code);
      var s := Run(START, [LinkRequest(r), Advance(0, true, ""), Resolve(byHandle), Resolve(byCode),
                           Advance(1, true, ""), Advance(1, true, a), Advance(2, true, ""), Advance(2, true, b)]);
      Live(s.nonces, ClaimNonce(a), s.now) && Live(s.nonces, ClaimNonce(b), s.now)
      && s.nonces[ClaimNonce(a)].request == s.nonces[ClaimNonce(b)].request == r
  {
    var byHandle, byCode := RequestNonce(r.id, r.secret), CodeNonce(r.code);
    var first := [LinkRequest(r), Advance(0, true, ""), Resolve(byHandle), Resolve(byCode)];
    var rest := [Advance(1, true, ""), Advance(1, true, a), Advance(2, true, ""), Advance(2, true, b)];
    var s4 := BothConsumed(r);
    assert first + rest == [LinkRequest(r), Advance(0, true, ""), Resolve(byHandle), Resolve(byCode),
                            Advance(1, true, ""), Advance(1, true, a), Advance(2, true, ""), Advance(2, true, b)];
    RunFour(START, first + rest);
    RunFour(s4, rest);
    assert (first + rest)[4..] == rest && rest[4..] == [];
    TwoClaims(s4, r, a, b);
  }

  /** Both nonces of a request consumed, neither companion deleted yet. */
  function BothConsumed(r: Request): (s: System)
    ensures s == Step(Step(Step(Step(START, LinkRequest(r)), Advance(0, true, "")),
                           Resolve(RequestNonce(r.id, r.secret))), Resolve(CodeNonce(r.code)))
    ensures s.nonces == map[]
    ensures s.threads == [Done, ResolveConsumed(r, CodeNonce(r.code)), ResolveConsumed(r, RequestNonce(r.id, r.secret))]
    ensures s.now == 0
  {
    var byHandle, byCode := RequestNonce(r.id, r.secret), CodeNonce(r.code);
    var s2 := Step(Step(START, LinkRequest(r)), Advance(0, true, ""));
    assert s2.nonces == map[byHandle := NonceRow(r, LINK_CODE_EXPIRY), byCode := NonceRow(r, LINK_CODE_EXPIRY)];
    var s3 := Step(s2, Resolve(byHandle));
    assert s3.nonces == map[byCode := NonceRow(r, LINK_CODE_EXPIRY)];
    Step(s3, Resolve(byCode))
  }

  lemma TwoClaims(s: System, r: Request, a: string, b: string)
    requires a != b && s.nonces == map[] && s.now == 0
    requires s.threads
      == [Done, ResolveConsumed(r, CodeNonce(r.code)), ResolveConsumed(r, RequestNonce(r.id, r.secret))]
    ensures var first := Step(Step(s, Advance(1, true, "")), Advance(1, true, a));
      Step(Step(first, Advance(2, true, "")), Advance(2, true, b)).nonces
         == map[ClaimNonce(a) := NonceRow(r, LINK_CODE_EXPIRY), ClaimNonce(b) := NonceRow(r, LINK_CODE_EXPIRY)]
    ensures var first := Step(Step(s, Advance(1, true, "")), Advance(1, true, a));
      Step(Step(first, Advance(2, true, "")), Advance(2, true, b)).now == 0
  {
    var s6 := Step(Step(s, Advance(1, true, "")), Advance(1, true, a));
    assert s6.nonces == map[ClaimNonce(a) := NonceRow(r, LINK_CODE_EXPIRY)];
    var s7 := Step(s6, Advance(2, true, ""));
    assert s7.nonces == s6.nonces;
  }

  lemma RunFour(s: System, actions: seq<Action>)
    requires |actions| >= 4
    ensures var two := Step(Step(s, actions[0]), actions[1]);
      Run(s, actions) == Run(Step(Step(two, actions[2]), actions[3]), actions[4..])
  {
    hide Step;
    var s1 := Step(s, actions[0]);
    var s2 := Step(s1, actions[1]);
    var s3 := Step(s2, actions[2]);
    assert actions[1..][1..] == actions[2..] && actions[2..][1..] == actions[3..] && actions[3..][1..] == actions[4..];
    assert Run(s, actions) == Run(s1, actions[1..]);
    assert Run(s1, actions[1..]) == Run(s2, actions[2..]);
    assert Run(s2, actions[2..]) == Run(s3, actions[3..]);
  }

  // ----- what resolves lead to -----

  /** Resolves of a request accepted along a run. */
  function AcceptedResolves(s: System, actions: seq<Action>, id: string): nat
    decreases |actions|
  {
    if actions == [] then 0
    else (if Accepts(s, actions[0], id) then 1 else 0) + AcceptedResolves(Step(s, actions[0]), actions[1..], id)
  }

  lemma {:induction false} OutcomesFollowResolves(s: System, actions: seq<Action>, id: string)
    ensures |Units(Run(s, actions), id, true)| <= |Units(s, id, true)| + AcceptedResolves(s, actions, id)
    decreases |actions|
  {
    hide Units, Accepts, Arrive, Continue;
    if actions != [] {
      var a := actions[0];
      if a.Advance? {
        if a.t < |s.threads| {
          ContinueConserves(s, a.t, a.ok, a.token, id, true);
        }
      } else {
        ArriveConserves(s, a, id, true);
      }
      OutcomesFollowResolves(Step(s, a), actions[1..], id);
    }
  }

  /** Claims, resolves and verifies in flight, and devices of one request never outnumber its accepted
      resolves, under every interleaving and every failure. */
  lemma OutcomesNeverExceedResolves(actions: seq<Action>, id: string)
    ensures |Units(Run(START, actions), id, true)| <= AcceptedResolves(START, actions, id)
  {
    assert Units(START, id, true) == {};
    OutcomesFollowResolves(START, actions, id);
  }

  // Which resolves are accepted. r stands for the one request ever issued under its id.

  predicate Names(n: Name, r: Request) { n == RequestNonce(r.id, r.secret) || n == CodeNonce(r.code) }

  predicate Resolves(nonces: Nonces, n: Name, id: string) {
    n in nonces && (n.RequestNonce? || n.CodeNonce?) && nonces[n].request.id == id
  }

  predicate Requesting(t: Thread, id: string) { t.RequestStored? && t.request.id == id }

  /** r's rows carry r's names, and its code nonce waits for its one link-request handler. */
  ghost predicate Issued(s: System, r: Request) {
    && (forall n :: Resolves(s.nonces, n, r.id) ==> Names(n, r) && s.nonces[n].request == r)
    && (forall i :: 0 <= i < |s.threads| && Requesting(s.threads[i], r.id) ==>
          s.threads[i].request == r && !Resolves(s.nonces, CodeNonce(r.code), r.id))
    && (forall i, j :: 0 <= i < j < |s.threads| ==>
          !(Requesting(s.threads[i], r.id) && Requesting(s.threads[j], r.id)))
  }

  /** Of r's two names at most this one can still be resolved. */
  ghost predicate Only(s: System, r: Request, c: Name) {
    && r.id in s.used
    && (forall n :: Resolves(s.nonces, n, r.id) ==> n == c)
    && (forall i :: 0 <= i < |s.threads| && Requesting(s.threads[i], r.id) ==> c == CodeNonce(r.code))
  }

  /** r cannot be resolved again. */
  ghost predicate Shut(s: System, r: Request) {
    && r.id in s.used
    && (forall n :: !Resolves(s.nonces, n, r.id))
    && (forall i :: 0 <= i < |s.threads| ==> !Requesting(s.threads[i], r.id))
  }

  predicate IssuesOnly(actions: seq<Action>, r: Request) {
    forall k :: 0 <= k < |actions| && actions[k].LinkRequest? && actions[k].request.id == r.id ==>
      actions[k].request == r
  }

  lemma FreshIsIssued(s: System, r: Request)
    requires IdsUsed(s) && r.id !in s.used
    ensures forall n :: !Resolves(s.nonces, n, r.id)
    ensures forall i :: 0 <= i < |s.threads| ==> !Requesting(s.threads[i], r.id)
  {
    assert forall i :: 0 <= i < |s.threads| ==> s.threads[i] in s.threads;
  }

  /** How one step can add to what resolves r: its link-request, and that handler's code nonce. */
  lemma StepAdds(s: System, a: Action, id: string)
    ensures forall n :: Resolves(Step(s, a).nonces, n, id) && !Resolves(s.nonces, n, id) ==>
      || (a.LinkRequest? && a.request.id == id && id !in s.used && n == RequestNonce(id, a.request.secret)
          && Step(s, a).nonces[n].request == a.request)
      || (a.Advance? && a.t < |s.threads| && Requesting(s.threads[a.t], id)
          && n == CodeNonce(s.threads[a.t].request.code) && Step(s, a).nonces[n].request == s.threads[a.t].request
          && Step(s, a).threads[a.t].Done?)
    ensures forall n :: Resolves(Step(s, a).nonces, n, id) && Resolves(s.nonces, n, id) ==>
      Step(s, a).nonces[n] == s.nonces[n]
  {
  }

  lemma StepThreads(s: System, a: Action, id: string)
    ensures |s.threads| <= |Step(s, a).threads|
    ensures forall i :: 0 <= i < |s.threads| ==>
      Step(s, a).threads[i] == s.threads[i] || !Requesting(Step(s, a).threads[i], id)
    ensures forall i :: |s.threads| <= i < |Step(s, a).threads| && Requesting(Step(s, a).threads[i], id) ==>
      i == |s.threads| && a.LinkRequest? && a.request.id == id && id !in s.used
      && Step(s, a).threads[i].request == a.request
  {
  }

  lemma StepIssued(s: System, a: Action, r: Request)
    requires IdsUsed(s) && Issued(s, r) && (a.LinkRequest? && a.request.id == r.id ==> a.request == r)
    ensures Issued(Step(s, a), r)
  {
    StepAdds(s, a, r.id);
    StepThreads(s, a, r.id);
    if r.id !in s.used {
      FreshIsIssued(s, r);
    }
    hide Step, Resolves, Requesting, IdsUsed;
  }

  lemma StepOnly(s: System, a: Action, r: Request, c: Name)
    requires Issued(s, r) && Only(s, r, c) && s.used <= Step(s, a).used
    ensures Only(Step(s, a), r, c)
  {
    StepAdds(s, a, r.id);
    StepThreads(s, a, r.id);
    hide Step, Resolves, Requesting;
  }

  lemma StepShut(s: System, a: Action, r: Request)
    requires Shut(s, r) && s.used <= Step(s, a).used
    ensures Shut(Step(s, a), r)
  {
    StepAdds(s, a, r.id);
    StepThreads(s, a, r.id);
    hide Step, Resolves, Requesting;
  }

  /** An accepted resolve leaves at most the companion to resolve. */
  lemma AcceptLeavesCompanion(s: System, a: Action, r: Request)
    requires IdsUsed(s) && Issued(s, r) && Accepts(s, a, r.id)
    ensures Only(Step(s, a), r, Companion(a.nonce, r)) && s.nonces[a.nonce].request == r
    ensures a.ResolveWhole? ==> !Resolves(Step(s, a).nonces, Companion(a.nonce, r), r.id)
  {
    StepAdds(s, a, r.id);
    StepThreads(s, a, r.id);
    assert Resolves(s.nonces, a.nonce, r.id);
    assert !Resolves(Step(s, a).nonces, a.nonce, r.id);
    if a.ResolveWhole? {
      WholeTakesCompanion(s, a, r);
    }
    hide Step;
  }

  lemma WholeTakesCompanion(s: System, a: Action, r: Request)
    requires a.ResolveWhole? && Resolvable(s, a.nonce) && s.nonces[a.nonce].request == r
    ensures !Resolves(Step(s, a).nonces, Companion(a.nonce, r), r.id)
  {
  }

  /** A second one must take that companion, and leaves nothing. */
  lemma SecondAcceptShuts(s: System, a: Action, r: Request, c: Name)
    requires IdsUsed(s) && Issued(s, r) && Only(s, r, c) && Accepts(s, a, r.id)
    ensures a.nonce == c && Shut(Step(s, a), r)
  {
    assert Resolves(s.nonces, a.nonce, r.id);
    AcceptLeavesCompanion(s, a, r);
    StepOnlyUsed(s, a);
    StepOnly(s, a, r, c);
    var d := Companion(a.nonce, r);
    assert d != c;
    hide Step;
  }

  lemma StepOnlyUsed(s: System, a: Action)
    ensures s.used <= Step(s, a).used
  {
  }

  lemma {:induction false} RunIssued(s: System, actions: seq<Action>, r: Request)
    requires IdsUsed(s) && Issued(s, r) && IssuesOnly(actions, r)
    ensures IdsUsed(Run(s, actions)) && Issued(Run(s, actions), r)
    decreases |actions|
  {
    hide Step, IdsUsed, Issued;
    if actions != [] {
      StepIdsUsed(s, actions[0]);
      StepIssued(s, actions[0], r);
      RunIssued(Step(s, actions[0]), actions[1..], r);
    }
  }

  lemma {:induction false} RunOnly(s: System, actions: seq<Action>, r: Request, c: Name)
    requires IdsUsed(s) && Issued(s, r) && Only(s, r, c) && IssuesOnly(actions, r)
    ensures Only(Run(s, actions), r, c)
    decreases |actions|
  {
    hide Step, IdsUsed, Issued, Only;
    if actions != [] {
      StepIdsUsed(s, actions[0]);
      StepIssued(s, actions[0], r);
      StepOnly(s, actions[0], r, c);
      RunOnly(Step(s, actions[0]), actions[1..], r, c);
    }
  }

  lemma {:induction false} ShutAcceptsNothing(s: System, actions: seq<Action>, r: Request)
    requires IdsUsed(s) && Shut(s, r)
    ensures AcceptedResolves(s, actions, r.id) == 0
    decreases |actions|
  {
    hide Step, IdsUsed;
    if actions != [] {
      assert Accepts(s, actions[0], r.id) ==> Resolves(s.nonces, actions[0].nonce, r.id);
      StepIdsUsed(s, actions[0]);
      StepShut(s, actions[0], r);
      ShutAcceptsNothing(Step(s, actions[0]), actions[1..], r);
    }
  }

  /** At any time after a first resolve of r was accepted, a second one is accepted exactly when it
      names the companion of the first and the companion's row is still live. */
  lemma SecondResolveAcceptedIff(before: seq<Action>, first: Action, after: seq<Action>, second: Action, r: Request)
    requires IssuesOnly(before, r) && IssuesOnly(after, r) && Accepts(Run(START, before), first, r.id)
    requires second.Resolve? || second.ResolveWhole?
    ensures var later := Run(Step(Run(START, before), first), after);
      Accepts(later, second, r.id) <==>
        second.nonce == Companion(first.nonce, r) && Live(later.nonces, second.nonce, later.now)
        && later.nonces[second.nonce].request.id == r.id
  {
    var s := Run(START, before);
    RunIssued(START, before, r);
    StepIdsUsed(s, first);
    StepIssued(s, first, r);
    AcceptLeavesCompanion(s, first, r);
    RunOnly(Step(s, first), after, r, Companion(first.nonce, r));
    var later := Run(Step(s, first), after);
    hide Run, Step, IdsUsed, Issued;
    if Accepts(later, second, r.id) {
      assert Resolves(later.nonces, second.nonce, r.id);
    }
  }

  lemma {:induction false} OnlyAcceptsOne(s: System, actions: seq<Action>, r: Request, c: Name)
    requires IdsUsed(s) && Issued(s, r) && Only(s, r, c) && IssuesOnly(actions, r)
    ensures AcceptedResolves(s, actions, r.id) <= 1
    decreases |actions|
  {
    hide Step, IdsUsed, Issued, Only, Shut, Accepts;
    if actions != [] {
      var next := Step(s, actions[0]);
      StepIdsUsed(s, actions[0]);
      StepIssued(s, actions[0], r);
      if Accepts(s, actions[0], r.id) {
        SecondAcceptShuts(s, actions[0], r, c);
        ShutAcceptsNothing(next, actions[1..], r);
      } else {
        StepOnly(s, actions[0], r, c);
        OnlyAcceptsOne(next, actions[1..], r, c);
      }
    }
  }

  // ----- resolves that do not overlap -----

  /** A resolve of r that has consumed its nonce and will now delete this companion. */
  predicate Deleting(t: Thread, r: Request, c: Name) { t == ResolveConsumed(r, c) }

  /** No resolve of r overlaps: none takes the companion of one that is still deleting it, none fails to
      delete it, and none arrives before link-request has answered with r's names. */
  ghost predicate Serial(s: System, a: Action, r: Request) {
    && (Accepts(s, a, r.id) ==> forall t :: t in s.threads ==> !Deleting(t, r, a.nonce) && !Requesting(t, r.id))
    && (a.Advance? && a.t < |s.threads| && s.threads[a.t].ResolveConsumed? && s.threads[a.t].request == r ==> a.ok)
  }

  ghost predicate RunSerial(s: System, actions: seq<Action>, r: Request)
    decreases |actions|
  {
    actions == [] || (Serial(s, actions[0], r) && RunSerial(Step(s, actions[0]), actions[1..], r))
  }

  /** r's companion is gone, or a resolve is still about to delete it. */
  ghost predicate Doomed(s: System, r: Request, c: Name) {
    && Only(s, r, c)
    && (forall i :: 0 <= i < |s.threads| ==> !Requesting(s.threads[i], r.id))
    && (Resolves(s.nonces, c, r.id) ==> exists t :: t in s.threads && Deleting(t, r, c))
  }

  lemma AcceptDooms(s: System, a: Action, r: Request)
    requires IdsUsed(s) && Issued(s, r) && Accepts(s, a, r.id) && Serial(s, a, r)
    ensures Doomed(Step(s, a), r, Companion(a.nonce, r))
  {
    AcceptLeavesCompanion(s, a, r);
    StepThreads(s, a, r.id);
    var after, c := Step(s, a), Companion(a.nonce, r);
    assert forall i :: 0 <= i < |s.threads| ==> s.threads[i] in s.threads;
    if a.Resolve? {
      assert after.threads[|s.threads|] == ResolveConsumed(r, c) && after.threads[|s.threads|] in after.threads;
    }
  }

  lemma StepDoomed(s: System, a: Action, r: Request, c: Name)
    requires IdsUsed(s) && Issued(s, r) && Doomed(s, r, c) && Serial(s, a, r)
    ensures !Accepts(s, a, r.id) && Doomed(Step(s, a), r, c)
  {
    if Accepts(s, a, r.id) {
      assert Resolves(s.nonces, a.nonce, r.id);
    }
    StepOnlyUsed(s, a);
    StepOnly(s, a, r, c);
    StepThreads(s, a, r.id);
    StepAdds(s, a, r.id);
    var after := Step(s, a);
    if Resolves(after.nonces, c, r.id) {
      assert Resolves(s.nonces, c, r.id);
      var i :| 0 <= i < |s.threads| && Deleting(s.threads[i], r, c);
      DeletingStays(s, a, r, c, i);
    }
  }

  lemma DeletingStays(s: System, a: Action, r: Request, c: Name, i: nat)
    requires i < |s.threads| && Deleting(s.threads[i], r, c) && Serial(s, a, r) && c in Step(s, a).nonces
    ensures exists t :: t in Step(s, a).threads && Deleting(t, r, c)
  {
    var after := Step(s, a);
    assert after.threads[i] == s.threads[i];
    assert after.threads[i] in after.threads;
  }

  lemma {:induction false} DoomedAcceptsNothing(s: System, actions: seq<Action>, r: Request, c: Name)
    requires IdsUsed(s) && Issued(s, r) && Doomed(s, r, c) && IssuesOnly(actions, r) && RunSerial(s, actions, r)
    ensures AcceptedResolves(s, actions, r.id) == 0
    decreases |actions|
  {
    hide Step, IdsUsed, Issued, Doomed, Serial, Accepts;
    if actions != [] {
      StepIdsUsed(s, actions[0]);
      StepIssued(s, actions[0], r);
      StepDoomed(s, actions[0], r, c);
      DoomedAcceptsNothing(Step(s, actions[0]), actions[1..], r, c);
    }
  }

  lemma {:induction false} SerialAcceptsOne(s: System, actions: seq<Action>, r: Request)
    requires IdsUsed(s) && Issued(s, r) && IssuesOnly(actions, r)
    ensures AcceptedResolves(s, actions, r.id) <= 2
    ensures RunSerial(s, actions, r) ==> AcceptedResolves(s, actions, r.id) <= 1
    decreases |actions|
  {
    hide Step, IdsUsed, Issued, Serial, Resolvable, Only, Doomed;
    if actions != [] {
      var next := Step(s, actions[0]);
      StepIdsUsed(s, actions[0]);
      StepIssued(s, actions[0], r);
      if Accepts(s, actions[0], r.id) {
        AcceptLeavesCompanion(s, actions[0], r);
        OnlyAcceptsOne(next, actions[1..], r, Companion(actions[0].nonce, r));
        if RunSerial(s, actions, r) {
          AcceptDooms(s, actions[0], r);
          DoomedAcceptsNothing(next, actions[1..], r, Companion(actions[0].nonce, r));
        }
      } else {
        SerialAcceptsOne(next, actions[1..], r);
      }
    }
  }

  /** The first scan wins when resolves of the one request do not overlap, whatever resolves of other
      requests do: it leads to at most one resolve in flight, claim, verify or device. In any run it
      leads to at most two. */
  lemma AtMostOneOutcome(actions: seq<Action>, r: Request)
    requires IssuesOnly(actions, r)
    ensures |Units(Run(START, actions), r.id, true)| <= 2
    ensures RunSerial(START, actions, r) ==> |Units(Run(START, actions), r.id, true)| <= 1
  {
    SerialAcceptsOne(START, actions, r);
    OutcomesNeverExceedResolves(actions, r.id);
  }
}
