/** What device linking achieves: handlers that do not fail reach their goal, whatever runs between
    their statements. */
module DeviceLinkProgress {
  import opened DeviceLink

  // ----- one handler among others -----

  /** No statement of the handler at this place. */
  predicate Idle(actions: seq<Action>, t: nat) {
    forall k :: 0 <= k < |actions| && actions[k].Advance? ==> actions[k].t != t
  }

  lemma {:induction false} ThreadWaits(s: System, actions: seq<Action>, t: nat)
    requires t < |s.threads| && Idle(actions, t)
    ensures t < |Run(s, actions).threads| && Run(s, actions).threads[t] == s.threads[t]
    decreases |actions|
  {
    if actions != [] {
      StepWaits(s, actions[0], t);
      hide Step;
      ThreadWaits(Step(s, actions[0]), actions[1..], t);
    }
  }

  lemma StepWaits(s: System, a: Action, t: nat)
    requires t < |s.threads| && (a.Advance? ==> a.t != t)
    ensures t < |Step(s, a).threads| && Step(s, a).threads[t] == s.threads[t]
  {
    hide Insert, Consumed, Resolved, Purged;
  }

  /** A verify of a live claim spends the claim, and when nothing of its own fails adds exactly that
      claim's request to the registered devices and then leaves a result, unless the request already has
      one. Anything may run between its statements. */
  lemma VerifyRegisters(s: System, token: string, between: seq<Action>, more: seq<Action>)
    requires Live(s.nonces, ClaimNonce(token), s.now)
    requires Idle(between, |s.threads|) && Idle(more, |s.threads|)
    ensures var t, r := |s.threads|, s.nonces[ClaimNonce(token)].request;
      var claimed := Step(s, Verify(token));
      var mid := Run(claimed, between);
      var verified := Step(mid, Advance(t, true, ""));
      var later := Run(verified, more);
      var answered := Step(later, Advance(t, true, ""));
      && claimed.nonces == s.nonces - {ClaimNonce(token)} && claimed.registered == s.registered
      && verified.registered == mid.registered + [r] && verified.nonces == mid.nonces
      && answered.registered == later.registered
      && ResultNonce(r.id, r.secret) in answered.nonces
      && (ResultNonce(r.id, r.secret) !in later.nonces ==>
            answered.nonces == later.nonces[ResultNonce(r.id, r.secret) := NonceRow(r, later.now + LINK_CODE_EXPIRY)])
  {
    var t, r := |s.threads|, s.nonces[ClaimNonce(token)].request;
    var claimed := Step(s, Verify(token));
    assert claimed.threads[t] == VerifyConsumed(r);
    ThreadWaits(claimed, between, t);
    var verified := Step(Run(claimed, between), Advance(t, true, ""));
    assert verified.threads[t] == VerifyRegistered(r);
    ThreadWaits(verified, more, t);
    hide Run;
  }

  /** A resolve of a live nonce spends it, deletes the companion, and whether or not that fails leaves a live
      claim for the request, unless the token is taken. Anything may run between its statements. */
  lemma ResolveClaims(s: System, n: Name, between: seq<Action>, deleted: bool, more: seq<Action>, token: string)
    requires Resolvable(s, n) && Idle(between, |s.threads|) && Idle(more, |s.threads|)
    ensures var t, r := |s.threads|, s.nonces[n].request;
      var found := Step(s, Resolve(n));
      var mid := Run(found, between);
      var cleaned := Step(mid, Advance(t, deleted, ""));
      var later := Run(cleaned, more);
      var claimed := Step(later, Advance(t, true, token));
      && found.nonces == s.nonces - {n}
      && cleaned.nonces == (if deleted then mid.nonces - {Companion(n, r)} else mid.nonces)
      && (ClaimNonce(token) !in later.nonces ==>
            claimed.nonces == later.nonces[ClaimNonce(token) := NonceRow(r, later.now + LINK_CODE_EXPIRY)])
  {
    var t, r := |s.threads|, s.nonces[n].request;
    var found := Step(s, Resolve(n));
    assert found.threads[t] == ResolveConsumed(r, Companion(n, r));
    ThreadWaits(found, between, t);
    var cleaned := Step(Run(found, between), Advance(t, deleted, ""));
    assert cleaned.threads[t] == ResolveCleaned(r);
    ThreadWaits(cleaned, more, t);
    hide Run;
  }

  /** A resolve whose statements run in a row is the whole one. */
  lemma WholeResolveIsUninterrupted(s: System, n: Name, ok: bool, token: string)
    requires Resolvable(s, n)
    ensures var t := |s.threads|;
      var rest := Step(Step(Step(s, Resolve(n)), Advance(t, true, "")), Advance(t, ok, token));
      rest == Step(s, ResolveWhole(n, ok, token)).(threads := s.threads + [Done])
  {
    var t, r := |s.threads|, s.nonces[n].request;
    var found := Step(s, Resolve(n));
    assert found.threads == s.threads + [ResolveConsumed(r, Companion(n, r))];
    var cleaned := Step(found, Advance(t, true, ""));
    assert cleaned.threads == s.threads + [ResolveCleaned(r)];
    var claimed := Step(cleaned, Advance(t, ok, token));
    assert claimed.threads == s.threads + [Done];
  }

  // ----- a whole link -----

  /** Result and request nonces carry ids that were issued. */
  ghost predicate NamesUsed(s: System) {
    forall n :: n in s.nonces && (n.RequestNonce? || n.ResultNonce?) ==> n.id in s.used
  }

  lemma StartNames()
    ensures IdsUsed(START) && NamesUsed(START)
  {
  }

  lemma StepNamesUsed(s: System, a: Action)
    requires IdsUsed(s) && NamesUsed(s)
    ensures NamesUsed(Step(s, a))
  {
    if a.Advance? && a.t < |s.threads| {
      assert s.threads[a.t] in s.threads;
    }
  }

  lemma {:induction false} RunNamesUsed(s: System, actions: seq<Action>)
    requires IdsUsed(s) && NamesUsed(s)
    ensures NamesUsed(Run(s, actions))
    decreases |actions|
  {
    hide Step, IdsUsed, NamesUsed;
    if actions != [] {
      StepNamesUsed(s, actions[0]);
      StepIdsUsed(s, actions[0]);
      RunNamesUsed(Step(s, actions[0]), actions[1..]);
    }
  }

  /** A fresh request and its link-request handler. */
  lemma Requested(s: System, r: Request)
    requires NamesUsed(s) && r.id !in s.used
    ensures var t, row := |s.threads|, NonceRow(r, s.now + LINK_CODE_EXPIRY);
      var stored := Step(Step(s, LinkRequest(r)), Advance(t, true, ""));
      if CodeNonce(r.code) in s.nonces
      then Step(stored, Advance(t, true, "")) == s.(threads := s.threads + [Done], used := s.used + {r.id})
      else stored == s.(nonces := s.nonces[RequestNonce(r.id, r.secret) := row][CodeNonce(r.code) := row],
                        threads := s.threads + [Done], used := s.used + {r.id})
  {
    var t := |s.threads|;
    var asked := Step(s, LinkRequest(r));
    assert asked.threads == s.threads + [RequestStored(r)];
    var stored := Step(asked, Advance(t, true, ""));
    if CodeNonce(r.code) in s.nonces {
      assert stored.threads == s.threads + [RequestRollback(r)];
      var undone := Step(stored, Advance(t, true, ""));
      assert undone.threads == s.threads + [Done];
      assert undone.nonces == s.nonces;
    } else {
      assert stored.threads == s.threads + [Done];
    }
  }

  /** The code nonce is a primary key, expired or not: a new request that draws the code of an expired one is
      refused, until a purge has run. */
  lemma ExpiredCodeBlocksUntilPurge(s: System, r: Request)
    requires NamesUsed(s) && r.id !in s.used
    requires CodeNonce(r.code) in s.nonces && s.nonces[CodeNonce(r.code)].expiresAt < s.now
    ensures var t, code := |s.threads|, CodeNonce(r.code);
      var purged := Step(s, Purge);
      && !Live(Step(Step(s, LinkRequest(r)), Advance(t, true, "")).nonces, code, s.now)
      && Live(Step(Step(purged, LinkRequest(r)), Advance(t, true, "")).nonces, code, s.now)
  {
    var purged := Step(s, Purge);
    assert CodeNonce(r.code) !in purged.nonces && NamesUsed(purged);
    Requested(purged, r);
    var asked := Step(s, LinkRequest(r));
    assert asked.threads == s.threads + [RequestStored(r)];
  }

  /** One device links another: the request, after a wait its resolve by either name, after another wait
      its verify, each without interruption. */
  function Session(r: Request, n: Name, token: string, t: nat, wait: nat, think: nat): seq<Action> {
    [LinkRequest(r), Advance(t, true, ""), Tick(wait), Resolve(n)] +
    [Advance(t + 1, true, ""), Advance(t + 1, true, token), Tick(think), Verify(token)] +
    [Advance(t + 2, true, ""), Advance(t + 2, true, "")]
  }

  lemma SessionSteps(s: System, r: Request, n: Name, token: string, t: nat, wait: nat, think: nat)
    ensures var requested := Step(Step(Step(s, LinkRequest(r)), Advance(t, true, "")), Tick(wait));
      var resolved := Step(Step(Step(requested, Resolve(n)), Advance(t + 1, true, "")), Advance(t + 1, true, token));
      var verified := Step(Step(resolved, Tick(think)), Verify(token));
      Run(s, Session(r, n, token, t, wait, think))
        == Step(Step(verified, Advance(t + 2, true, "")), Advance(t + 2, true, ""))
  {
    hide Step;
    var actions := Session(r, n, token, t, wait, think);
    RunFour(s, actions);
    RunFour(Run4(s, actions), actions[4..]);
    var last := actions[4..][4..];
    assert last[1..] == [Advance(t + 2, true, "")] && last[1..][1..] == [];
    var s8 := Run4(Run4(s, actions), actions[4..]);
    assert Run(s8, last) == Run(Step(s8, last[0]), last[1..]);
    assert Run(Step(s8, last[0]), last[1..]) == Step(Step(s8, last[0]), last[1]);
  }

  function Run4(s: System, actions: seq<Action>): System
    requires |actions| >= 4
  {
    Step(Step(Step(Step(s, actions[0]), actions[1]), actions[2]), actions[3])
  }

  /** From any state of any run, by either name: the device is registered exactly when the resolve comes
      within five minutes of the request and the verify within five minutes of the resolve. Then the result
      waits for the new device and nothing else of the session is left. */
  lemma SessionLinksIff(before: seq<Action>, r: Request, n: Name, token: string, wait: nat, think: nat)
    requires var s := Run(START, before);
      r.id !in s.used && CodeNonce(r.code) !in s.nonces && ClaimNonce(token) !in s.nonces
    requires Names(n, r)
    ensures var s := Run(START, before);
      var after := Run(s, Session(r, n, token, |s.threads|, wait, think));
      if wait < 300 && think < 300
      then && after.registered == s.registered + [r]
           && after.nonces == s.nonces[ResultNonce(r.id, r.secret) := NonceRow(r, after.now + LINK_CODE_EXPIRY)]
           && Step(after, FetchResult(ResultNonce(r.id, r.secret))).nonces == s.nonces
      else after.registered == s.registered
  {
    hide Run, Session, Step, NamesUsed;
    var s := Run(START, before);
    StartNames();
    RunNamesUsed(START, before);
    var t := |s.threads|;
    SessionSteps(s, r, n, token, t, wait, think);
    var requested := AfterRequest(s, r, wait);
    if wait < LINK_CODE_EXPIRY {
      var claim := NonceRow(r, requested.now + LINK_CODE_EXPIRY);
      var resolved := AfterResolve(s, requested, r, n, token, wait);
      Verified(s, resolved, r, token, claim, think);
    } else {
      Unresolved(requested, n, token, think);
    }
  }

  /** The state a resolve finds. */
  lemma AfterRequest(s: System, r: Request, wait: nat) returns (requested: System)
    requires NamesUsed(s) && r.id !in s.used && CodeNonce(r.code) !in s.nonces
    ensures requested == Step(Step(Step(s, LinkRequest(r)), Advance(|s.threads|, true, "")), Tick(wait))
    ensures var row := NonceRow(r, s.now + LINK_CODE_EXPIRY);
      requested == s.(nonces := s.nonces[RequestNonce(r.id, r.secret) := row][CodeNonce(r.code) := row],
                      threads := s.threads + [Done], used := s.used + {r.id}, now := s.now + wait)
    ensures ResultNonce(r.id, r.secret) !in s.nonces && RequestNonce(r.id, r.secret) !in s.nonces
  {
    Requested(s, r);
    requested := Step(Step(Step(s, LinkRequest(r)), Advance(|s.threads|, true, "")), Tick(wait));
  }

  lemma AfterResolve(s: System, requested: System, r: Request, n: Name, token: string, wait: nat)
    returns (resolved: System)
    requires RequestNonce(r.id, r.secret) !in s.nonces && CodeNonce(r.code) !in s.nonces
    requires ClaimNonce(token) !in s.nonces && Names(n, r) && wait < LINK_CODE_EXPIRY
    requires var row := NonceRow(r, s.now + LINK_CODE_EXPIRY);
      requested == s.(nonces := s.nonces[RequestNonce(r.id, r.secret) := row][CodeNonce(r.code) := row],
                      threads := s.threads + [Done], used := s.used + {r.id}, now := s.now + wait)
    ensures var t := |s.threads|;
      resolved == Step(Step(Step(requested, Resolve(n)), Advance(t + 1, true, "")), Advance(t + 1, true, token))
    ensures resolved == requested.(
      nonces := s.nonces[ClaimNonce(token) := NonceRow(r, requested.now + LINK_CODE_EXPIRY)],
      threads := s.threads + [Done, Done])
  {
    WholeResolveIsUninterrupted(requested, n, true, token);
    resolved := Step(requested, ResolveWhole(n, true, token)).(threads := requested.threads + [Done]);
    assert Resolved(requested.nonces, n, requested.now, true, token)
        == s.nonces[ClaimNonce(token) := NonceRow(r, requested.now + LINK_CODE_EXPIRY)];
    assert resolved.threads == s.threads + [Done, Done];
  }

  lemma Verified(s: System, resolved: System, r: Request, token: string, claim: NonceRow, think: nat)
    requires ClaimNonce(token) !in s.nonces && ResultNonce(r.id, r.secret) !in s.nonces
    requires claim == NonceRow(r, resolved.now + LINK_CODE_EXPIRY)
    requires resolved.nonces == s.nonces[ClaimNonce(token) := claim] && |resolved.threads| == |s.threads| + 2
    ensures var t, verified := |s.threads|, Step(Step(resolved, Tick(think)), Verify(token));
      var after := Step(Step(verified, Advance(t + 2, true, "")), Advance(t + 2, true, ""));
      if think < LINK_CODE_EXPIRY
      then && after.registered == resolved.registered + [r]
           && after.nonces == s.nonces[ResultNonce(r.id, r.secret) := NonceRow(r, after.now + LINK_CODE_EXPIRY)]
           && Step(after, FetchResult(ResultNonce(r.id, r.secret))).nonces == s.nonces
      else after.registered == resolved.registered
  {
    var t, ticked := |s.threads|, Step(resolved, Tick(think));
    if think < LINK_CODE_EXPIRY {
      assert Run(Step(ticked, Verify(token)), []) == Step(ticked, Verify(token));
      VerifyRegisters(ticked, token, [], []);
      var after := Step(Step(Step(ticked, Verify(token)), Advance(t + 2, true, "")), Advance(t + 2, true, ""));
      assert s.nonces[ClaimNonce(token) := claim] - {ClaimNonce(token)} == s.nonces;
      assert after.nonces - {ResultNonce(r.id, r.secret)} == s.nonces;
    }
  }

  /** After a refused resolve the rest of the session finds nothing to do. */
  lemma Unresolved(requested: System, n: Name, token: string, think: nat)
    requires |requested.threads| > 0 && !Resolvable(requested, n) && ClaimNonce(token) !in requested.nonces
    ensures var t := |requested.threads| - 1;
      var resolved := Step(Step(Step(requested, Resolve(n)), Advance(t + 1, true, "")), Advance(t + 1, true, token));
      var verified := Step(Step(resolved, Tick(think)), Verify(token));
      Step(Step(verified, Advance(t + 2, true, "")), Advance(t + 2, true, "")).registered == requested.registered
  {
  }
}
