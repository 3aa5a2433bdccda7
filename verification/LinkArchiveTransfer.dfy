/** A whole transfer, from init to ack, through all five states. */
module LinkArchiveTransfer {
  import opened Hashing
  import opened LinkArchiveDb
  import opened LinkArchiveProtocol
  import opened LinkArchiveExpiry

  /** last: when the archive was last refreshed. threads: how many handlers have started. */
  datatype Phase = Phase(threads: nat, now: int, last: int, finalized: bool, state: Lifecycle, rows: map<nat, ChunkRow>)

  /** The archive begun at this time is in this phase. */
  ghost predicate At(s: System, id: ArchiveId, m: Manifest, begun: int, p: Phase) {
    && |s.threads| == p.threads && s.now == p.now && id in s.db.archives && ChunksOf(s.db, id) == p.rows
    && s.db.archives[id] == Archive(m, p.finalized, p.state, begun,
                                    Min(p.last + DEFAULT_EXPIRY, begun + MAX_LIFETIME), begun + MAX_LIFETIME)
  }

  /** An upload of this index after a pause. */
  datatype Send = Send(pause: nat, idx: nat)

  /** Uploads in this order, each without interruption. */
  function Uploads(id: ArchiveId, rows: map<nat, ChunkRow>, sends: seq<Send>, t: nat): seq<Action>
    requires forall q :: q in sends ==> q.idx in rows
  {
    if sends == [] then [] else
      assert sends[0] in sends;
      [Tick(sends[0].pause), Upload(id, sends[0].idx, rows[sends[0].idx]), Advance(t, true), Advance(t, true)]
        + Uploads(id, rows, sends[1..], t + 1)
  }

  function Elapsed(sends: seq<Send>): nat { if sends == [] then 0 else sends[0].pause + Elapsed(sends[1..]) }

  function Restricted(rows: map<nat, ChunkRow>, kept: set<nat>): map<nat, ChunkRow> {
    map i | i in rows && i in kept :: rows[i]
  }

  function Sent(sends: seq<Send>): set<nat> { set q | q in sends :: q.idx }

  lemma InitCreates(sha: Sha256, s: System, id: ArchiveId, m: Manifest, quota: nat)
    requires Inv(sha, s) && id !in s.used && InitAccepts(m) && |ActiveOf(s.db, m.user)| < quota
    ensures var t := |s.threads|; var created := Step(sha, Step(sha, s, Init(id, m, quota)), Advance(t, true));
      && At(created, id, m, s.now, Phase(t + 1, s.now, s.now, false, Created, map[]))
      && At(Step(sha, created, Advance(t, true)), id, m, s.now, Phase(t + 1, s.now, s.now, false, Uploading, map[]))
  {
    hide ArchiveOk, ThreadOk, ActiveOf;
    assert id !in s.db.chunks;
  }

  /** The next request still finds the archive. */
  predicate InTime(p: Phase, pause: nat, begun: int) {
    pause < DEFAULT_EXPIRY && p.last == p.now && p.now + pause < begun + MAX_LIFETIME
  }

  lemma OneUpload(sha: Sha256, s: System, id: ArchiveId, m: Manifest, begun: int, p: Phase, pause: nat, idx: nat,
                  row: ChunkRow)
    requires At(s, id, m, begun, p) && !p.finalized && InTime(p, pause, begun) && idx < m.totalChunks && Sized(row)
    requires idx in p.rows ==> p.rows[idx] == row
    ensures var t, now := p.threads, p.now + pause;
      var checked := Step(sha, Step(sha, s, Tick(pause)), Upload(id, idx, row));
      At(Step(sha, Step(sha, checked, Advance(t, true)), Advance(t, true)), id, m, begun,
         p.(threads := t + 1, now := now, last := now, rows := p.rows[idx := row]))
  {
    var checked := Step(sha, Step(sha, s, Tick(pause)), Upload(id, idx, row));
    assert checked.threads == s.threads + [UploadChecked(id, idx, row)];
    assert idx in p.rows ==> p.rows[idx := row] == p.rows;
    assert id in s.db.chunks || p.rows == map[];
    var stored := Step(sha, checked, Advance(p.threads, true));
    assert stored.threads[p.threads] == RefreshDue(id);
    assert ChunksOf(stored.db, id) == p.rows[idx := row];
  }

  lemma RunFour(sha: Sha256, s: System, actions: seq<Action>)
    requires |actions| >= 4
    ensures var two := Step(sha, Step(sha, s, actions[0]), actions[1]);
      Run(sha, s, actions) == Run(sha, Step(sha, Step(sha, two, actions[2]), actions[3]), actions[4..])
  {
    hide Step;
    assert actions[1..][1..] == actions[2..] && actions[2..][1..] == actions[3..] && actions[3..][1..] == actions[4..];
    var two := Step(sha, Step(sha, s, actions[0]), actions[1]);
    assert Run(sha, s, actions) == Run(sha, Step(sha, s, actions[0]), actions[1..]);
    assert Run(sha, Step(sha, s, actions[0]), actions[1..]) == Run(sha, two, actions[2..]);
    assert Run(sha, two, actions[2..]) == Run(sha, Step(sha, two, actions[2]), actions[3..]);
  }

  lemma {:induction false} AllUploads(sha: Sha256, s: System, id: ArchiveId, m: Manifest, begun: int, p: Phase,
                                      rows: map<nat, ChunkRow>, sends: seq<Send>, sent: set<nat>)
    requires At(s, id, m, begun, p) && p.rows == Restricted(rows, sent) && !p.finalized && p.last == p.now
    requires forall q :: q in sends ==>
      q.idx in rows && q.idx < m.totalChunks && Sized(rows[q.idx]) && q.pause < DEFAULT_EXPIRY
    requires p.now + Elapsed(sends) < begun + MAX_LIFETIME
    ensures var now := p.now + Elapsed(sends);
      At(Run(sha, s, Uploads(id, rows, sends, p.threads)), id, m, begun,
         p.(threads := p.threads + |sends|, now := now, last := now, rows := Restricted(rows, sent + Sent(sends))))
    decreases |sends|
  {
    hide At, Step;
    if sends == [] {
      assert sent + Sent(sends) == sent;
    } else {
      var q, actions := sends[0], Uploads(id, rows, sends, p.threads);
      assert q in sends;
      OneUpload(sha, s, id, m, begun, p, q.pause, q.idx, rows[q.idx]);
      assert Restricted(rows, sent)[q.idx := rows[q.idx]] == Restricted(rows, sent + {q.idx});
      RunFour(sha, s, actions);
      assert actions[4..] == Uploads(id, rows, sends[1..], p.threads + 1);
      var next := Step(sha, Step(sha, Step(sha, Step(sha, s, actions[0]), actions[1]), actions[2]), actions[3]);
      var now := p.now + q.pause;
      var after := p.(threads := p.threads + 1, now := now, last := now, rows := Restricted(rows, sent + {q.idx}));
      AllUploads(sha, next, id, m, begun, after, rows, sends[1..], sent + {q.idx});
      assert sent + {q.idx} + Sent(sends[1..]) == sent + Sent(sends);
    }
  }

  /** Some turns of one handler. */
  function Turned(sha: Sha256, s: System, t: nat, turns: nat): System {
    if turns == 0 then s else Step(sha, Turned(sha, s, t, turns - 1), Advance(t, true))
  }

  /** A finalize after a pause. */
  function Finalizing(sha: Sha256, s: System, id: ArchiveId, pause: nat): System {
    Step(sha, Step(sha, s, Tick(pause)), Finalize(id))
  }

  /** One statement of a finalize. */
  lemma FinalizeTurn(sha: Sha256, s: System, id: ArchiveId, m: Manifest, begun: int, p: Phase, t: nat)
    requires At(s, id, m, begun, p) && t < |s.threads| && Delivers(sha, m, p.rows)
    ensures |Step(sha, s, Advance(t, true)).threads| == |s.threads|
    ensures var next := Step(sha, s, Advance(t, true));
      match s.threads[t]
      case FinalizeRead(_, _) => s.threads[t] == FinalizeRead(id, m) ==>
        At(next, id, m, begun, p) && next.threads[t] == FinalizeListed(id, m, p.rows)
      case FinalizeListed(_, _, _) => s.threads[t] == FinalizeListed(id, m, p.rows) ==>
        At(next, id, m, begun, p.(finalized := true)) && next.threads[t] == FinalizeMarked(id)
      case FinalizeMarked(k) => k == id && p.state == Uploading ==>
        At(next, id, m, begun, p.(state := Uploaded)) && next.threads[t] == FinalizeUploaded(id)
      case FinalizeUploaded(k) => k == id && p.state == Uploaded ==>
        At(next, id, m, begun, p.(state := Available)) && next.threads[t] == RefreshDue(id)
      case RefreshDue(k) => k == id ==> At(next, id, m, begun, p.(last := p.now))
      case _ => true
  {
    hide Delivers;
  }

  lemma FinalizeStarts(sha: Sha256, s: System, id: ArchiveId, m: Manifest, begun: int, p: Phase, pause: nat)
    requires At(s, id, m, begun, p) && !p.finalized && InTime(p, pause, begun)
    ensures var read := Finalizing(sha, s, id, pause);
      && At(read, id, m, begun, p.(threads := p.threads + 1, now := p.now + pause))
      && p.threads < |read.threads| && read.threads[p.threads] == FinalizeRead(id, m)
  {
  }

  lemma FinalizeSteps(sha: Sha256, s: System, id: ArchiveId, m: Manifest, begun: int, p: Phase, pause: nat)
    requires At(s, id, m, begun, p) && !p.finalized && p.state == Uploading && InTime(p, pause, begun)
    requires Delivers(sha, m, p.rows)
    ensures var read, t := Finalizing(sha, s, id, pause), p.threads;
      var done := p.(threads := t + 1, now := p.now + pause, finalized := true);
      && At(Turned(sha, read, t, 2), id, m, begun, done)
      && At(Turned(sha, read, t, 3), id, m, begun, done.(state := Uploaded))
      && At(Turned(sha, read, t, 4), id, m, begun, done.(state := Available))
      && At(Turned(sha, read, t, 5), id, m, begun, done.(state := Available, last := done.now))
  {
    hide At, Step, Delivers, Finalizing;
    var read, t := Finalizing(sha, s, id, pause), p.threads;
    FinalizeStarts(sha, s, id, m, begun, p, pause);
    var q := p.(threads := t + 1, now := p.now + pause);
    FinalizeTurn(sha, read, id, m, begun, q, t);
    assert Turned(sha, read, t, 1) == Step(sha, read, Advance(t, true));
    FinalizeTurn(sha, Turned(sha, read, t, 1), id, m, begun, q, t);
    FinalizeTurn(sha, Turned(sha, read, t, 2), id, m, begun, q.(finalized := true), t);
    FinalizeTurn(sha, Turned(sha, read, t, 3), id, m, begun, q.(finalized := true, state := Uploaded), t);
    FinalizeTurn(sha, Turned(sha, read, t, 4), id, m, begun, q.(finalized := true, state := Available), t);
  }

  lemma AckStep(sha: Sha256, s: System, id: ArchiveId, m: Manifest, begun: int, p: Phase, pause: nat)
    requires At(s, id, m, begun, p) && p.state == Available && InTime(p, pause, begun)
    ensures var acked := Step(sha, Step(sha, Step(sha, s, Tick(pause)), Ack(id)), Advance(p.threads, true));
      && At(acked, id, m, begun, p.(threads := p.threads + 1, now := p.now + pause, state := Acknowledged))
      && id in GcEligible(acked.db, acked.now) && id !in ActiveOf(acked.db, m.user)
  {
    assert Step(sha, Step(sha, s, Tick(pause)), Ack(id)).threads == s.threads + [AckChecked(id)];
  }

  /** From any state of any run with room in the user's quota, for every manifest with rows that deliver it,
      uploads of these rows in any order, repeats included, and pauses shorter than the sliding expiry
      within the hard deadline: init, uploads, finalize and ack take the archive through all five states,
      with exactly these rows and its expiry sliding along. */
  lemma TransferCompletes(sha: Sha256, before: seq<Action>, id: ArchiveId, m: Manifest, rows: map<nat, ChunkRow>,
                          sends: seq<Send>, finalizePause: nat, ackPause: nat, quota: nat)
    returns (created: System, uploading: System, sent: System, uploaded: System, available: System, acked: System)
    requires var s := Run(sha, START, before); id !in s.used && |ActiveOf(s.db, m.user)| < quota
    requires InitAccepts(m) && Delivers(sha, m, rows) && rows.Keys == Sent(sends)
    requires forall i :: i in rows ==> i < m.totalChunks && Sized(rows[i])
    requires forall q :: q in sends ==> q.pause < DEFAULT_EXPIRY
    requires finalizePause < DEFAULT_EXPIRY && ackPause < DEFAULT_EXPIRY
    requires Elapsed(sends) + finalizePause + ackPause < MAX_LIFETIME
    ensures var s := Run(sha, START, before);
      var t, begun := |s.threads|, s.now;
      && created == Step(sha, Step(sha, s, Init(id, m, quota)), Advance(t, true))
      && At(created, id, m, begun, Phase(t + 1, begun, begun, false, Created, map[]))
      && uploading == Step(sha, created, Advance(t, true))
      && At(uploading, id, m, begun, Phase(t + 1, begun, begun, false, Uploading, map[]))
      && AllSent(rows, sends)
      && sent == Run(sha, uploading, Uploads(id, rows, sends, t + 1))
      && var now := begun + Elapsed(sends);
      && At(sent, id, m, begun, Phase(t + 1 + |sends|, now, now, false, Uploading, rows))
    ensures var begun, t, last := Run(sha, START, before).now, |sent.threads|, sent.now;
      var now := last + finalizePause;
      && uploaded == Turned(sha, Finalizing(sha, sent, id, finalizePause), t, 3)
      && At(uploaded, id, m, begun, Phase(t + 1, now, last, true, Uploaded, rows))
      && available == Turned(sha, Finalizing(sha, sent, id, finalizePause), t, 5)
      && At(available, id, m, begun, Phase(t + 1, now, now, true, Available, rows))
      && acked == Step(sha, Step(sha, Step(sha, available, Tick(ackPause)), Ack(id)), Advance(t + 1, true))
      && At(acked, id, m, begun, Phase(t + 2, now + ackPause, now, true, Acknowledged, rows))
    ensures id in GcEligible(acked.db, acked.now) && id !in ActiveOf(acked.db, m.user)
  {
    hide Run, Step, At, Inv, ActiveOf, GcEligible, Delivers, Turned;
    StartKeeps(sha);
    RunKeeps(sha, START, before);
    var s := Run(sha, START, before);
    created, uploading, sent := InitAndUploads(sha, s, id, m, rows, sends, quota);
    var now := s.now + Elapsed(sends);
    var p := Phase(|s.threads| + 1 + |sends|, now, now, false, Uploading, rows);
    uploaded, available, acked := FinalizeAndAck(sha, sent, id, m, s.now, p, finalizePause, ackPause);
  }

  predicate AllSent(rows: map<nat, ChunkRow>, sends: seq<Send>) { forall q :: q in sends ==> q.idx in rows }

  lemma InitAndUploads(sha: Sha256, s: System, id: ArchiveId, m: Manifest, rows: map<nat, ChunkRow>,
                       sends: seq<Send>, quota: nat) returns (created: System, uploading: System, sent: System)
    requires Inv(sha, s) && id !in s.used && |ActiveOf(s.db, m.user)| < quota
    requires InitAccepts(m) && rows.Keys == Sent(sends) && Elapsed(sends) < MAX_LIFETIME
    requires forall i :: i in rows ==> i < m.totalChunks && Sized(rows[i])
    requires forall q :: q in sends ==> q.pause < DEFAULT_EXPIRY
    ensures created == Step(sha, Step(sha, s, Init(id, m, quota)), Advance(|s.threads|, true))
    ensures At(created, id, m, s.now, Phase(|s.threads| + 1, s.now, s.now, false, Created, map[]))
    ensures uploading == Step(sha, created, Advance(|s.threads|, true))
    ensures At(uploading, id, m, s.now, Phase(|s.threads| + 1, s.now, s.now, false, Uploading, map[]))
    ensures AllSent(rows, sends) && sent == Run(sha, uploading, Uploads(id, rows, sends, |s.threads| + 1))
    ensures var now := s.now + Elapsed(sends);
      && At(sent, id, m, s.now, Phase(|s.threads| + 1 + |sends|, now, now, false, Uploading, rows))
      && |sent.threads| == |s.threads| + 1 + |sends| && sent.now == now
  {
    hide Run, Step, Inv, ActiveOf;
    var t := |s.threads|;
    InitCreates(sha, s, id, m, quota);
    created := Step(sha, Step(sha, s, Init(id, m, quota)), Advance(t, true));
    uploading := Step(sha, created, Advance(t, true));
    forall q | q in sends ensures q.idx in rows {
      assert q.idx in Sent(sends);
    }
    assert Restricted(rows, {}) == map[] && Restricted(rows, {} + Sent(sends)) == rows;
    var p := Phase(t + 1, s.now, s.now, false, Uploading, map[]);
    AllUploads(sha, uploading, id, m, s.now, p, rows, sends, {});
    sent := Run(sha, uploading, Uploads(id, rows, sends, t + 1));
  }

  lemma FinalizeAndAck(sha: Sha256, sent: System, id: ArchiveId, m: Manifest, begun: int, p: Phase,
                       finalizePause: nat, ackPause: nat)
    returns (uploaded: System, available: System, acked: System)
    requires At(sent, id, m, begun, p) && Delivers(sha, m, p.rows) && !p.finalized && p.state == Uploading
    requires p.last == p.now && finalizePause < DEFAULT_EXPIRY && ackPause < DEFAULT_EXPIRY
    requires p.now + finalizePause + ackPause < begun + MAX_LIFETIME
    ensures var t, now := p.threads, p.now + finalizePause;
      && uploaded == Turned(sha, Finalizing(sha, sent, id, finalizePause), t, 3)
      && At(uploaded, id, m, begun, Phase(t + 1, now, p.last, true, Uploaded, p.rows))
      && available == Turned(sha, Finalizing(sha, sent, id, finalizePause), t, 5)
      && At(available, id, m, begun, Phase(t + 1, now, now, true, Available, p.rows))
      && acked == Step(sha, Step(sha, Step(sha, available, Tick(ackPause)), Ack(id)), Advance(t + 1, true))
      && At(acked, id, m, begun, Phase(t + 2, now + ackPause, now, true, Acknowledged, p.rows))
    ensures id in GcEligible(acked.db, acked.now) && id !in ActiveOf(acked.db, m.user)
  {
    hide Step, At, ActiveOf, GcEligible, Delivers, Turned, Finalizing;
    FinalizeSteps(sha, sent, id, m, begun, p, finalizePause);
    var t, now := p.threads, p.now + finalizePause;
    uploaded := Turned(sha, Finalizing(sha, sent, id, finalizePause), t, 3);
    available := Turned(sha, Finalizing(sha, sent, id, finalizePause), t, 5);
    AckStep(sha, available, id, m, begun, Phase(t + 1, now, now, true, Available, p.rows), ackPause);
    acked := Step(sha, Step(sha, Step(sha, available, Tick(ackPause)), Ack(id)), Advance(t + 1, true));
  }
}
