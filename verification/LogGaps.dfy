/** What a restart does not repair: exactly when the reloaded leaves match the fringe, and what follows
    from one head or one row that was not stored. */
module LogGaps {
  import opened Basics
  import opened Hashing
  import opened Rfc6962
  import opened Fringe
  import opened Audit
  import opened Commitment
  import opened Merkle
  import opened FringeCodec
  import opened TransparencyService
  import opened LogRuns
  import opened LogRestarts
  import opened LogProofs

  const LANDS := Luck(true, true, true, true)
  const NO_HEAD := Luck(true, true, true, false)
  const NO_ROW := Luck(true, true, false, false)

  // ----- when a restart is faithful -----

  /** Every entry under the head has its row at its own index. */
  ghost predicate Covered(h: Hasher, w: World, n: nat)
    requires n <= |w.mem| && n <= WORD
  {
    forall k :: 0 <= k < n ==> k in w.log.store.rows && w.log.store.rows[k].leafHash == h.leaf(w.mem[k])
  }

  /** No entry under the head shares its leaf hash with a row of another index, or hashes to zero. */
  ghost predicate LoggedOnce(h: Hasher, w: World, n: nat)
    requires n <= |w.mem|
  {
    && (forall k, j :: 0 <= k < n && j in w.log.store.rows && j != k ==>
          w.log.store.rows[j].leafHash != h.leaf(w.mem[k]))
    && (forall k :: 0 <= k < n ==> h.leaf(w.mem[k]) != ZERO_DIGEST)
  }

  lemma {:induction false} AscendingPrefix(keys: set<uint64>, m: nat, n: nat)
    requires m <= n <= WORD && forall k: uint64 :: k < m ==> k in keys
    ensures |Ascending(keys, n)| >= m && (n == m ==> |Ascending(keys, n)| == m)
    ensures forall k :: 0 <= k < m ==> Ascending(keys, n)[k] == k
    decreases n
  {
    if n > m {
      AscendingPrefix(keys, m, n - 1);
    } else if n > 0 {
      AscendingPrefix(keys, m - 1, n - 1);
    }
  }

  /** In any state a run can reach, with n the size of the latest head: the restart recovers leaves that
      match the fringe when every entry under that head has its own row, and, if leaf hashes are
      distinct and not zero, only then. */
  lemma RestartIsFaithfulIff(h: Hasher, w: World, b: nat)
    requires Commits(h, w, b) && WellShaped(w.log.tree)
    ensures var n := LatestSize(w.log.store.heads);
      && n <= |w.mem|
      && (Covered(h, w, n) ==> Faithful(h, Step(h, w, Restart)))
      && (LoggedOnce(h, w, n) ==> (Faithful(h, Step(h, w, Restart)) <==> Covered(h, w, n)))
  {
    RestartTruncates(h, w, b);
    var n, rows := LatestSize(w.log.store.heads), w.log.store.rows;
    if w.log.store.heads != map[] {
      RestartReloads(h, w);
      hide Step, Commits;
      if Covered(h, w, n) {
        CoveredReloads(h, w, n);
      }
      if LoggedOnce(h, w, n) && Padded(OrderedHashes(rows), n) == LeafHashes(h, w.mem[..n]) {
        ReloadsCovered(h, w, n);
      }
    }
  }

  /** So a row missing under a stored head is beyond repair: it stays missing in every continuation, and no
      restart then recovers matching leaves. */
  lemma MissingRowIsNeverRepaired(h: Hasher, events: seq<Event>, more: seq<Event>, n: uint64, k: nat)
    requires |events| + |more| < WORD - 1
    requires n in Run(h, events).log.store.heads && k < n && k !in Run(h, events).log.store.rows
    ensures var w := Run(h, events + more); var latest := LatestSize(w.log.store.heads);
      && k < latest <= |w.mem| && k !in w.log.store.rows && WellShaped(w.log.tree)
      && (LoggedOnce(h, w, latest) ==> !Faithful(h, Step(h, w, Restart)))
  {
    hide Commits, WellShaped, Step, Faithful, LoggedOnce;
    StoredHeadsStay(h, events, more);
    var w, b := Run(h, events + more), |events + more|;
    CommitsIsWellShaped(h, w, b);
    RestartTruncates(h, w, b);
    RestartIsFaithfulIff(h, w, b);
  }

  lemma CoveredReloads(h: Hasher, w: World, n: nat)
    requires n <= |w.mem| && n <= WORD && Covered(h, w, n)
    ensures Padded(OrderedHashes(w.log.store.rows), n) == LeafHashes(h, w.mem[..n])
  {
    AscendingPrefix(w.log.store.rows.Keys, n, WORD);
  }

  lemma ReloadsCovered(h: Hasher, w: World, n: nat)
    requires n <= |w.mem| && n <= WORD && LoggedOnce(h, w, n)
    requires Padded(OrderedHashes(w.log.store.rows), n) == LeafHashes(h, w.mem[..n])
    ensures Covered(h, w, n)
  {
    var rows := w.log.store.rows;
    AscendingKeys(rows.Keys, WORD);
    var order := Ascending(rows.Keys, WORD);
    forall k | 0 <= k < n ensures k in rows && rows[k].leafHash == h.leaf(w.mem[k]) {
      assert Padded(OrderedHashes(rows), n)[k] == LeafHashes(h, w.mem[..n])[k] == h.leaf(w.mem[k]);
      assert k < |order| && order[k] in order;
    }
  }

  lemma RestartReloads(h: Hasher, w: World)
    requires WellShaped(w.log.tree) && w.log.store.heads != map[]
    ensures Step(h, w, Restart).log.tree.leaves == OrderedHashes(w.log.store.rows)
  {
  }

  // ----- a lost head -----

  lemma DurableLatest(h: Hasher, w: World, b: nat)
    requires Commits(h, w, b) && Durable(h, w)
    ensures LatestSize(w.log.store.heads) == |w.mem|
  {
    hide FringeOf, HeadIsRight, LeafHashes;
  }

  /** After any run whose writes all landed: one entry whose head is not stored, then a restart, then
      another append. The new row is always refused, since the lost entry's row holds its index, and
      the proofs in memory stay faithful exactly when the log was empty or the two entries have one
      leaf hash. The source calls this gap safe (service.go:155-156). */
  lemma OneEntryGap(h: Hasher, events: seq<Event>, lost: Entry, next: Entry)
    requires |events| + 3 < WORD - 1 && AlwaysLands(events)
    ensures var w, back := Run(h, events), Run(h, events + [Append(lost, NO_HEAD)] + [Restart]);
      && back.mem == w.mem && !RowLands(back.log, LANDS)
      && (Faithful(h, Run(h, events + [Append(lost, NO_HEAD)] + [Restart] + [Append(next, LANDS)])) <==>
            w.mem == [] || h.leaf(lost.data) == h.leaf(next.data))
  {
    hide Commits, WellShaped, Step, Faithful, Durable, AlwaysLands, InOrder;
    var w := Run(h, events);
    var gap := RunSnoc(h, events, Append(lost, NO_HEAD));
    var back := RunSnoc(h, events + [Append(lost, NO_HEAD)], Restart);
    var after := RunSnoc(h, events + [Append(lost, NO_HEAD)] + [Restart], Append(next, LANDS));
    LandedRunsAreDurable(h, events);
    GapState(h, w, lost, |events|);
    NextAppendIsFaithfulIff(h, back, next, LANDS, |events| + 2);
  }

  /** The answer to the lost entry and any answer after the next append carry two roots for one size:
      they agree when the two entries are the same bytes, and otherwise only through a named collision. */
  lemma TwoRootsForOneSizeIff(h: Hasher, events: seq<Event>, lost: Entry, next: Entry)
    requires |events| + 3 < WORD - 1 && AlwaysLands(events)
    ensures var w, gap := Run(h, events), Run(h, events + [Append(lost, NO_HEAD)]);
      var later := Run(h, events + [Append(lost, NO_HEAD)] + [Restart] + [Append(next, LANDS)]);
      && gap.log.tree.size == later.log.tree.size == |w.mem| + 1
      && gap.log.tree.fringe != [] && later.log.tree.fringe != []
      && var same := RootOf(h, gap.log.tree) == RootOf(h, later.log.tree);
      && (lost.data == next.data ==> same)
      && (same ==>
            || lost.data == next.data
            || IsCollision(h, RootCollision(h, w.mem + [lost.data], w.mem + [next.data])))
  {
    hide Commits, WellShaped, Step, Durable, AlwaysLands, InOrder, RootOf, IsCollision, RootCollision;
    var w, b := Run(h, events), |events|;
    var gap := RunSnoc(h, events, Append(lost, NO_HEAD));
    var back := RunSnoc(h, events + [Append(lost, NO_HEAD)], Restart);
    var later := RunSnoc(h, events + [Append(lost, NO_HEAD)] + [Restart], Append(next, LANDS));
    LandedRunsAreDurable(h, events);
    GapState(h, w, lost, b);
    Sized(h, gap, b + 1);
    Sized(h, later, b + 3);
    AppendedMem(h, w, lost, NO_HEAD);
    AppendedMem(h, back, next, LANDS);
    CommittedRoot(h, gap, b + 1);
    CommittedRoot(h, later, b + 3);
    if RootOf(h, gap.log.tree) == RootOf(h, later.log.tree) {
      RootCommits(h, gap.mem, later.mem);
      assert gap.mem[|w.mem|] == lost.data && later.mem[|w.mem|] == next.data;
    }
  }

  lemma AppendedMem(h: Hasher, w: World, entry: Entry, luck: Luck)
    requires WellShaped(w.log.tree) && luck.userSigOk
    ensures Step(h, w, Append(entry, luck)).mem == w.mem + [entry.data]
  {
  }

  /** The root served in a reachable state is the RFC 6962 head of what the tree has committed to. */
  lemma CommittedRoot(h: Hasher, w: World, b: nat)
    requires Commits(h, w, b) && w.mem != []
    ensures w.log.tree.fringe != [] && RootOf(h, w.log.tree) == Mth(h, LeafHashes(h, w.mem))
  {
    hide Mth, FringeOf, HeadIsRight, LeafHashes;
    FoldIsMth(h, LeafHashes(h, w.mem));
  }

  /** The log then forks, after any run whose writes all landed. The entry whose head was lost is
      acknowledged and keeps its row, but from the second append after the restart on, the stored head
      commits to the refused entry in its place. */
  lemma AcknowledgedEntryIsDropped(h: Hasher, events: seq<Event>, lost: Entry, next: Entry, last: Entry)
    requires |events| + 5 < WORD - 1 && AlwaysLands(events)
    ensures var w := Run(h, events);
      var after := Run(h, events + [Append(lost, NO_HEAD)] + [Restart] + [Append(next, LANDS)] + [Append(last, LANDS)]);
      RowLands(w.log, NO_HEAD) && Forked(h, w, after, lost, next, last)
  {
    hide Commits, WellShaped, Step, Durable, Forked, RowLands, AlwaysLands;
    var w := Run(h, events);
    var gap := RunSnoc(h, events, Append(lost, NO_HEAD));
    var back := RunSnoc(h, events + [Append(lost, NO_HEAD)], Restart);
    var refused := RunSnoc(h, events + [Append(lost, NO_HEAD)] + [Restart], Append(next, LANDS));
    var after := RunSnoc(h, events + [Append(lost, NO_HEAD)] + [Restart] + [Append(next, LANDS)], Append(last, LANDS));
    LandedRunsAreDurable(h, events);
    GapForks(h, w, gap, back, refused, after, lost, next, last, |events|);
  }

  /** The head two entries on from w leaves lost out, though lost has the row of its index. */
  ghost predicate Forked(h: Hasher, w: World, after: World, lost: Entry, next: Entry, last: Entry) {
    var n := |w.mem|;
    && n + 2 < WORD && n + 2 in after.saved && n + 2 in after.log.store.heads
    && after.saved[n + 2] == w.mem + [next.data, last.data]
    && HeadIsRight(h, after.log.store.heads[n + 2], after.saved[n + 2])
    && n in after.log.store.rows && after.log.store.rows[n].entry.data == lost.data
  }

  lemma GapForks(h: Hasher, w: World, gap: World, back: World, refused: World, after: World,
                 lost: Entry, next: Entry, last: Entry, b: nat)
    requires Commits(h, w, b) && Durable(h, w) && WellShaped(w.log.tree) && b + 5 < WORD - 1
    requires gap == Step(h, w, Append(lost, NO_HEAD)) && Commits(h, gap, b + 1) && WellShaped(gap.log.tree)
    requires back == Step(h, gap, Restart) && Commits(h, back, b + 2) && WellShaped(back.log.tree)
    requires refused == Step(h, back, Append(next, LANDS)) && Commits(h, refused, b + 3) && WellShaped(refused.log.tree)
    requires after == Step(h, refused, Append(last, LANDS)) && Commits(h, after, b + 4)
    ensures RowLands(w.log, NO_HEAD) && Forked(h, w, after, lost, next, last)
  {
    hide Commits, WellShaped, Step, Durable, InOrder, HeadIsRight, RowLands, Logged, NoGaps;
    GapState(h, w, lost, b);
    Acknowledged(h, w);
    RefusedAppend(h, back, next, b + 2);
    LandedAppend(h, refused, last, b + 3);
    assert w.mem + [next.data] + [last.data] == w.mem + [next.data, last.data];
    RowOf(h, back, |w.mem|);
  }

  lemma Acknowledged(h: Hasher, w: World)
    requires Durable(h, w)
    ensures RowLands(w.log, NO_HEAD) && |w.mem| < WORD
  {
  }

  /** An append whose index is taken grows the tree and stores nothing. */
  lemma RefusedAppend(h: Hasher, w: World, entry: Entry, b: nat)
    requires WellShaped(w.log.tree) && InOrder(h, w) && Commits(h, w, b) && |w.log.store.rows| == |w.mem| + 1
    ensures var after := Step(h, w, Append(entry, LANDS));
      after.log.store == w.log.store && after.mem == w.mem + [entry.data] && after.saved == w.saved
      && after.log.tree.size == |after.mem| && RowLands(after.log, LANDS)
  {
    hide FringeOf, LeafHashes, Popcount, Carry, TrailingOnes, HeadIsRight, Logged;
    assert (|w.mem| + 1) % WORD == |w.mem| + 1;
  }

  lemma LandedAppend(h: Hasher, w: World, entry: Entry, b: nat)
    requires WellShaped(w.log.tree) && RowLands(w.log, LANDS) && Commits(h, w, b) && b + 1 < WORD - 1
    requires Commits(h, Step(h, w, Append(entry, LANDS)), b + 1)
    ensures var n, after := |w.mem| + 1, Step(h, w, Append(entry, LANDS));
      && after.saved.Keys == after.log.store.heads.Keys && n in after.saved && after.saved[n] == w.mem + [entry.data]
      && HeadIsRight(h, after.log.store.heads[n], after.saved[n])
      && forall i :: i in w.log.store.rows && i < |w.mem| ==>
           i in after.log.store.rows && after.log.store.rows[i] == w.log.store.rows[i]
  {
    hide FringeOf, LeafHashes, Popcount, Carry, TrailingOnes, HeadIsRight, RootOf, ToBytes;
    assert (|w.mem| + 1) % WORD == |w.mem| + 1;
  }

  lemma GapState(h: Hasher, w: World, lost: Entry, b: nat)
    requires Commits(h, w, b) && Durable(h, w) && WellShaped(w.log.tree) && b + 3 < WORD - 1
    requires WellShaped(Step(h, w, Append(lost, NO_HEAD)).log.tree)
    requires Commits(h, Step(h, w, Append(lost, NO_HEAD)), b + 1)
    ensures var back := Step(h, Step(h, w, Append(lost, NO_HEAD)), Restart);
      && InOrder(h, back) && back.mem == w.mem && |back.log.store.rows| == |w.mem| + 1
      && Logged(back.log.store.rows)[|w.mem|] == lost.data
  {
    hide FringeOf, HeadIsRight, LeafHashes, Popcount, Carry, TrailingOnes;
    var gap := Step(h, w, Append(lost, NO_HEAD));
    DurableLatest(h, w, b);
    LandedRowStaysInOrder(h, w, lost, NO_HEAD, b);
    RestartStaysInOrder(h, gap, b + 1);
    NextRowLogged(w.log.store.rows, |w.mem|, Row(lost, h.leaf(lost.data)));
    assert w.mem[..|w.mem|] == w.mem;
  }

  // ----- more appends after a failure -----

  /** Complete appends, one after the other. */
  function Appends(more: seq<Entry>): seq<Event> {
    if more == [] then [] else Appends(more[..|more| - 1]) + [Append(more[|more| - 1], LANDS)]
  }

  function Datas(more: seq<Entry>): (d: seq<Bytes>)
    ensures |d| == |more|
  {
    seq(|more|, k requires 0 <= k < |more| => more[k].data)
  }

  lemma {:induction false} AppendsLength(more: seq<Entry>)
    ensures |Appends(more)| == |more|
  {
    if more != [] {
      AppendsLength(more[..|more| - 1]);
    }
  }

  lemma DatasSnoc(more: seq<Entry>, e: Entry)
    ensures Datas(more + [e]) == Datas(more) + [e.data]
  {
  }

  /** A list equals itself shifted by one only if it is constant. */
  lemma {:induction false} Chain(x: Digest, ys: seq<Digest>, j: nat)
    requires j < |ys| && forall i :: 0 <= i < |ys| ==> ys[i] == ([x] + ys)[i]
    ensures ys[j] == x
  {
    if j > 0 {
      Chain(x, ys, j - 1);
      assert ([x] + ys)[j] == ys[j - 1];
    }
  }

  lemma Cancel(d: seq<Digest>, l: seq<Digest>, r: seq<Digest>)
    ensures d + l == d + r <==> l == r
  {
    assert (d + l)[|d|..] == l && (d + r)[|d|..] == r;
  }

  lemma ShiftedSame(d: seq<Digest>, x: Digest, ys: seq<Digest>)
    ensures (d + [x] + ys)[..|d| + |ys|] == d + ys <==> forall j :: 0 <= j < |ys| ==> ys[j] == x
  {
    var shifted := ([x] + ys)[..|ys|];
    assert (d + [x] + ys)[..|d| + |ys|] == d + shifted;
    Cancel(d, shifted, ys);
    if shifted == ys {
      assert forall i :: 0 <= i < |ys| ==> ys[i] == shifted[i] == ([x] + ys)[i];
      forall j | 0 <= j < |ys| ensures ys[j] == x {
        Chain(x, ys, j);
      }
    }
  }

  // The acknowledged entry's own proof.

  /** After the gap and the restart: the tree commits to the new entries, its leaves still to the lost
      one before them (unless the log was empty), and the lost one keeps its row. */
  ghost predicate Behind(h: Hasher, w: World, before: World, lost: Entry, more: seq<Entry>) {
    var d, n := LeafHashes(h, before.mem), |before.mem|;
    && w.mem == before.mem + Datas(more) && w.log.tree.size == |w.mem|
    && w.log.tree.leaves == (if n == 0 then [] else d + [h.leaf(lost.data)]) + LeafHashes(h, Datas(more))
    && n in w.log.store.rows && w.log.store.rows[n] == Row(lost, h.leaf(lost.data))
  }

  lemma BehindStep(h: Hasher, w: World, before: World, lost: Entry, more: seq<Entry>, e: Entry, b: nat)
    requires Behind(h, w, before, lost, more) && Commits(h, w, b) && WellShaped(w.log.tree) && b + 1 < WORD - 1
    ensures Behind(h, Step(h, w, Append(e, LANDS)), before, lost, more + [e])
  {
    hide FringeOf, LeafHashes, Popcount, Carry, TrailingOnes, HeadIsRight, RootOf, ToBytes;
    assert (|w.mem| + 1) % WORD == |w.mem| + 1;
    DatasSnoc(more, e);
    LeafHashesSnoc(h, Datas(more), e.data);
    var after := Step(h, w, Append(e, LANDS));
    assert after.mem == before.mem + Datas(more + [e]);
    var loaded := if |before.mem| == 0 then [] else LeafHashes(h, before.mem) + [h.leaf(lost.data)];
    assert after.log.tree.leaves == loaded + LeafHashes(h, Datas(more)) + [h.leaf(e.data)]
        == loaded + LeafHashes(h, Datas(more + [e]));
  }

  lemma GapIsBehind(h: Hasher, events: seq<Event>, lost: Entry)
    requires |events| + 3 < WORD - 1 && AlwaysLands(events)
    ensures Behind(h, Run(h, events + [Append(lost, NO_HEAD)] + [Restart]), Run(h, events), lost, [])
  {
    hide Commits, WellShaped, Step, Durable, AlwaysLands, LeafHashes, InOrder;
    var w := Run(h, events);
    var gap := RunSnoc(h, events, Append(lost, NO_HEAD));
    var back := RunSnoc(h, events + [Append(lost, NO_HEAD)], Restart);
    LandedRunsAreDurable(h, events);
    GapState(h, w, lost, |events|);
    GapRow(h, w, lost);
    Sized(h, w, |events|);
    BackLeaves(h, w, back, lost, |events| + 2);
  }

  lemma Sized(h: Hasher, w: World, b: nat)
    requires Commits(h, w, b)
    ensures |w.mem| <= b && w.log.tree.size == |w.mem|
  {
  }

  lemma GapRow(h: Hasher, w: World, lost: Entry)
    requires Durable(h, w) && WellShaped(w.log.tree) && WellShaped(Step(h, w, Append(lost, NO_HEAD)).log.tree)
    ensures var rows := Step(h, Step(h, w, Append(lost, NO_HEAD)), Restart).log.store.rows;
      |w.mem| in rows && rows[|w.mem|] == Row(lost, h.leaf(lost.data))
      && rows == w.log.store.rows[|w.mem| := Row(lost, h.leaf(lost.data))]
  {
    hide FringeOf, LeafHashes, Popcount, Carry, TrailingOnes, HeadIsRight, RootOf, ToBytes;
  }

  lemma BackLeaves(h: Hasher, w: World, back: World, lost: Entry, b: nat)
    requires Durable(h, w) && InOrder(h, back) && Commits(h, back, b) && back.mem == w.mem
    requires back.log.store.rows == w.log.store.rows[|w.mem| := Row(lost, h.leaf(lost.data))] && |w.mem| + 1 < WORD
    ensures back.log.tree.leaves + LeafHashes(h, Datas([]))
         == (if w.mem == [] then [] else LeafHashes(h, w.mem) + [h.leaf(lost.data)]) + LeafHashes(h, Datas([]))
    ensures back.mem == w.mem + Datas([]) && back.log.tree.size == |back.mem|
    ensures LeafHashes(h, Datas([])) == [] && back.log.tree.leaves + [] == back.log.tree.leaves
  {
    hide FringeOf, HeadIsRight;
    assert Logged(w.log.store.rows) == w.mem;
    NextRowLogged(w.log.store.rows, |w.mem|, Row(lost, h.leaf(lost.data)));
    LeafHashesSnoc(h, w.mem, lost.data);
  }

  lemma {:induction false} AppendsStayBehind(h: Hasher, events: seq<Event>, lost: Entry, more: seq<Entry>)
    returns (after: World)
    requires |events| + 3 + |more| < WORD - 1 && AlwaysLands(events)
    ensures |Appends(more)| == |more|
    ensures after == Run(h, events + [Append(lost, NO_HEAD)] + [Restart] + Appends(more))
    ensures Behind(h, after, Run(h, events), lost, more) && Commits(h, after, |events| + 2 + |more|)
    ensures WellShaped(after.log.tree)
    decreases |more|
  {
    hide Commits, WellShaped, Step, Behind, AlwaysLands;
    var start := events + [Append(lost, NO_HEAD)] + [Restart];
    AppendsLength(more);
    if more == [] {
      assert start + [] == start;
      GapIsBehind(h, events, lost);
      after := RunSnoc(h, events + [Append(lost, NO_HEAD)], Restart);
    } else {
      var less, e := more[..|more| - 1], more[|more| - 1];
      AppendsLength(less);
      var w := AppendsStayBehind(h, events, lost, less);
      after := RunSnoc(h, start + Appends(less), Append(e, LANDS));
      assert start + Appends(less) + [Append(e, LANDS)] == start + Appends(more);
      BehindStep(h, w, Run(h, events), lost, less, e, |events| + 2 + |less|);
      assert less + [e] == more;
    }
  }

  /** After any number of appends behind the gap, the proof the service hands out for the acknowledged
      entry verifies when all the new entries have its leaf hash, and otherwise only through a named
      collision. On an empty log only the first new entry matters. */
  lemma AcknowledgedProofVerifiesIff(h: Hasher, events: seq<Event>, lost: Entry, more: seq<Entry>)
    requires |events| + 3 + |more| < WORD - 1 && AlwaysLands(events) && more != []
    ensures |Appends(more)| == |more|
    ensures var w, after := Run(h, events), Run(h, events + [Append(lost, NO_HEAD)] + [Restart] + Appends(more));
      var t, n, x, ys := after.log.tree, |w.mem|, h.leaf(lost.data), LeafHashes(h, Datas(more));
      && n < t.size && t.fringe != [] && n in after.log.store.rows && after.log.store.rows[n].entry.data == lost.data
      && var path := ProofOf(h, t, n).value;
      var verifies := Verifies(h, lost.data, n, t.size, path, RootOf(h, t));
      var same := if n == 0 then x == ys[0] else forall j :: 0 <= j < |ys| ==> ys[j] == x;
      var collision := if n == 0 then WalkCollision(h, x, 0, ys, path)
        else DigestCollision(h, Padded(t.leaves, t.size), LeafHashes(h, after.mem));
      && (same ==> verifies) && (verifies ==> same || IsCollision(h, collision))
  {
    hide Commits, WellShaped, Step, AlwaysLands, Behind;
    var after := AppendsStayBehind(h, events, lost, more);
    var w, b := Run(h, events), |events| + 2 + |more|;
    if w.mem == [] {
      FirstProof(h, after, w, lost, more, b);
    } else {
      LaterProof(h, after, w, lost, more, b);
    }
  }

  lemma FirstProof(h: Hasher, after: World, w: World, lost: Entry, more: seq<Entry>, b: nat)
    requires Behind(h, after, w, lost, more) && Commits(h, after, b) && w.mem == [] && more != []
    ensures var t, x, ys := after.log.tree, h.leaf(lost.data), LeafHashes(h, Datas(more));
      && 0 < t.size && t.fringe != [] && 0 in after.log.store.rows && after.log.store.rows[0].entry.data == lost.data
      && var path := ProofOf(h, t, 0).value;
      var verifies := Verifies(h, lost.data, 0, t.size, path, RootOf(h, t));
      && (x == ys[0] ==> verifies) && (verifies ==> x == ys[0] || IsCollision(h, WalkCollision(h, x, 0, ys, path)))
  {
    hide FringeOf, HeadIsRight, Path, Mth, WalkCollision, IsCollision, LeafHashes, Recompute;
    CommitsIsWellShaped(h, after, b);
    var t, x, ys := after.log.tree, h.leaf(lost.data), LeafHashes(h, Datas(more));
    assert [] + ys == ys && w.mem + Datas(more) == Datas(more);
    assert Padded(t.leaves, t.size) == ys;
    FoldIsMth(h, ys);
    HonestPathRecomputes(h, ys, 0);
    var path := Path(h, 0, ys);
    if Recompute(h, x, 0, |ys|, path) == Some(Mth(h, ys)) && !IsCollision(h, WalkCollision(h, x, 0, ys, path)) {
      OnlyHonestPathRecomputes(h, ys, 0, x, path);
    }
  }

  lemma LaterProof(h: Hasher, after: World, w: World, lost: Entry, more: seq<Entry>, b: nat)
    requires Behind(h, after, w, lost, more) && Commits(h, after, b) && w.mem != [] && more != []
    ensures var t, n, x, ys := after.log.tree, |w.mem|, h.leaf(lost.data), LeafHashes(h, Datas(more));
      && n < t.size && t.fringe != [] && n in after.log.store.rows && after.log.store.rows[n].entry.data == lost.data
      && var verifies := Verifies(h, lost.data, n, t.size, ProofOf(h, t, n).value, RootOf(h, t));
      var same := forall j :: 0 <= j < |ys| ==> ys[j] == x;
      && (same ==> verifies)
      && (verifies ==> same || IsCollision(h, DigestCollision(h, Padded(t.leaves, t.size), LeafHashes(h, after.mem))))
  {
    CommitsIsWellShaped(h, after, b);
    var t, n, d, x, ys := after.log.tree, |w.mem|, LeafHashes(h, w.mem), h.leaf(lost.data), LeafHashes(h, Datas(more));
    assert Padded(t.leaves, t.size) == (d + [x] + ys)[..|d| + |ys|];
    assert LeafHashes(h, after.mem) == d + ys;
    assert Padded(t.leaves, t.size)[n] == x;
    hide Commits, Behind, Padded, LeafHashes, IsCollision, DigestCollision, RootOf, Verifies;
    ShiftedSame(d, x, ys);
    ServedProofVerifiesIff(h, after, b, n);
  }

  // ----- a lost row -----

  /** A row that was not stored does no harm if the process restarts at once. */
  lemma LostRowAloneIsHarmless(h: Hasher, events: seq<Event>, lost: Entry)
    requires |events| + 2 < WORD - 1 && AlwaysLands(events)
    ensures Run(h, events + [Append(lost, NO_ROW)] + [Restart]) == Run(h, events)
  {
    hide Commits, WellShaped, Durable, AlwaysLands, Step;
    var w := Run(h, events);
    var hole := RunSnoc(h, events, Append(lost, NO_ROW));
    var back := RunSnoc(h, events + [Append(lost, NO_ROW)], Restart);
    LandedRunsAreDurable(h, events);
    DurableRestart(h, w, |events|);
    SameRestart(h, w, hole, lost);
  }

  lemma SameRestart(h: Hasher, w: World, hole: World, lost: Entry)
    requires WellShaped(w.log.tree) && hole == Step(h, w, Append(lost, NO_ROW)) && WellShaped(hole.log.tree)
    ensures Step(h, hole, Restart) == Step(h, w, Restart)
  {
  }

  lemma {:induction false} AscendingSnoc(keys: set<uint64>, k: uint64, n: nat)
    requires n <= WORD && forall j :: j in keys ==> j < k
    ensures Ascending(keys + {k}, n) == Ascending(keys, n) + if k < n then [k] else []
  {
    if n > 0 {
      AscendingSnoc(keys, k, n - 1);
    }
  }

  lemma OrderedSnoc(rows: map<uint64, Row>, k: uint64, row: Row)
    requires forall j :: j in rows ==> j < k
    ensures OrderedHashes(rows[k := row]) == OrderedHashes(rows) + [row.leafHash]
  {
    AscendingSnoc(rows.Keys, k, WORD);
    AscendingKeys(rows.Keys, WORD);
    assert rows[k := row].Keys == rows.Keys + {k};
    var order := Ascending(rows.Keys, WORD);
    assert forall i :: 0 <= i < |order| ==> order[i] in order;
  }

  /** The tables after a lost row and complete appends. */
  ghost predicate Hole(h: Hasher, w: World, before: World, lost: Entry, more: seq<Entry>) {
    && w.mem == before.mem + [lost.data] + Datas(more) && w.log.tree.size == |w.mem|
    && OrderedHashes(w.log.store.rows) == LeafHashes(h, before.mem) + LeafHashes(h, Datas(more))
    && (forall j :: j in w.log.store.rows ==> j < |w.mem|)
    && (more != [] ==> |w.mem| in w.log.store.heads)
    && (forall j :: j in w.log.store.heads ==> j <= |w.mem|)
  }

  lemma HoleStarts(h: Hasher, w: World, lost: Entry, b: nat)
    requires Commits(h, w, b) && Durable(h, w) && WellShaped(w.log.tree) && b + 1 < WORD - 1
    ensures Hole(h, Step(h, w, Append(lost, NO_ROW)), w, lost, [])
  {
    var after := Step(h, w, Append(lost, NO_ROW));
    NothingStored(h, w, lost, b);
    CommittedTables(h, w, b);
    hide Commits, Step, WellShaped;
    DurableRows(h, w);
    hide Durable, OrderedHashes;
    assert Datas([]) == [] && LeafHashes(h, []) == [] by { EmptyHashes(h); }
    hide LeafHashes;
    assert after.mem == w.mem + [lost.data] + [];
  }

  lemma NothingStored(h: Hasher, w: World, lost: Entry, b: nat)
    requires Commits(h, w, b) && WellShaped(w.log.tree) && b + 1 < WORD - 1
    ensures var after := Step(h, w, Append(lost, NO_ROW));
      after.mem == w.mem + [lost.data] && after.log.tree.size == |w.mem| + 1 && after.log.store == w.log.store
  {
    hide FringeOf, Popcount, Carry, TrailingOnes, HeadIsRight, RootOf, ToBytes, LeafHashes;
    assert (|w.mem| + 1) % WORD == |w.mem| + 1;
  }

  lemma CommittedTables(h: Hasher, w: World, b: nat)
    requires Commits(h, w, b)
    ensures forall j :: j in w.log.store.heads ==> j <= |w.mem|
    ensures forall i :: i in w.log.store.rows ==>
      w.log.store.rows[i].leafHash == h.leaf(w.log.store.rows[i].entry.data)
  {
    hide FringeOf, HeadIsRight, LeafHashes;
    assert forall j :: j in w.log.store.heads ==> j in w.saved;
  }

  lemma DurableRows(h: Hasher, w: World)
    requires Durable(h, w)
    requires forall i :: i in w.log.store.rows ==>
      w.log.store.rows[i].leafHash == h.leaf(w.log.store.rows[i].entry.data)
    ensures OrderedHashes(w.log.store.rows) == LeafHashes(h, w.mem) + []
    ensures forall j :: j in w.log.store.rows ==> j < |w.mem|
  {
    var rows := w.log.store.rows;
    AscendingNoGaps(rows.Keys, |rows|, WORD);
    assert Logged(rows)[..|w.mem|] == Logged(rows);
  }

  lemma HoleStep(h: Hasher, w: World, before: World, lost: Entry, more: seq<Entry>, e: Entry, b: nat)
    requires Hole(h, w, before, lost, more) && Commits(h, w, b) && WellShaped(w.log.tree) && b + 1 < WORD - 1
    ensures Hole(h, Step(h, w, Append(e, LANDS)), before, lost, more + [e])
  {
    hide FringeOf, LeafHashes, Popcount, Carry, TrailingOnes, HeadIsRight, RootOf, ToBytes, OrderedHashes;
    assert (|w.mem| + 1) % WORD == |w.mem| + 1;
    DatasSnoc(more, e);
    LeafHashesSnoc(h, Datas(more), e.data);
    OrderedSnoc(w.log.store.rows, |w.mem|, Row(e, h.leaf(e.data)));
    var after := Step(h, w, Append(e, LANDS));
    assert after.mem == before.mem + [lost.data] + Datas(more + [e]);
    assert OrderedHashes(after.log.store.rows) == LeafHashes(h, before.mem) + LeafHashes(h, Datas(more + [e]));
  }

  lemma {:induction false} AppendsKeepHole(h: Hasher, events: seq<Event>, lost: Entry, more: seq<Entry>)
    returns (after: World)
    requires |events| + 2 + |more| < WORD - 1 && AlwaysLands(events)
    ensures |Appends(more)| == |more|
    ensures after == Run(h, events + [Append(lost, NO_ROW)] + Appends(more))
    ensures Hole(h, after, Run(h, events), lost, more) && Commits(h, after, |events| + 1 + |more|)
    ensures WellShaped(after.log.tree)
    decreases |more|
  {
    hide Commits, WellShaped, Step, Hole, AlwaysLands, Durable;
    var start := events + [Append(lost, NO_ROW)];
    AppendsLength(more);
    if more == [] {
      assert start + [] == start;
      after := RunSnoc(h, events, Append(lost, NO_ROW));
      LandedRunsAreDurable(h, events);
      HoleStarts(h, Run(h, events), lost, |events|);
    } else {
      var less, e := more[..|more| - 1], more[|more| - 1];
      AppendsLength(less);
      var w := AppendsKeepHole(h, events, lost, less);
      after := RunSnoc(h, start + Appends(less), Append(e, LANDS));
      assert start + Appends(less) + [Append(e, LANDS)] == start + Appends(more);
      HoleStep(h, w, Run(h, events), lost, less, e, |events| + 1 + |less|);
      assert less + [e] == more;
    }
  }

  /** One row that was not stored, any number of complete appends, then a restart: the leaf hashes reload
      shifted by one and end in a zero hash, so the recovered tree is faithful exactly when no append
      followed the lost one, or all of them and the lost one hash to zero. */
  lemma LostRowIsRepairedIff(h: Hasher, events: seq<Event>, lost: Entry, more: seq<Entry>)
    requires |events| + 3 + |more| < WORD - 1 && AlwaysLands(events)
    ensures |Appends(more)| == |more|
    ensures var back := Run(h, events + [Append(lost, NO_ROW)] + Appends(more) + [Restart]);
      var ys := LeafHashes(h, Datas(more));
      && back.mem == Run(h, events).mem + (if more == [] then [] else [lost.data] + Datas(more))
      && (Faithful(h, back) <==>
            more == [] || (h.leaf(lost.data) == ZERO_DIGEST && forall j :: 0 <= j < |ys| ==> ys[j] == ZERO_DIGEST))
  {
    hide Commits, WellShaped, Durable, AlwaysLands, Step, Hole, LeafHashes;
    AppendsLength(more);
    var w := Run(h, events);
    if more == [] {
      LostRowAloneIsHarmless(h, events, lost);
      assert events + [Append(lost, NO_ROW)] + [] == events + [Append(lost, NO_ROW)];
      LandedRunsAreDurable(h, events);
      DurableIsFaithful(h, w);
    } else {
      var full := AppendsKeepHole(h, events, lost, more);
      var back := RunSnoc(h, events + [Append(lost, NO_ROW)] + Appends(more), Restart);
      HoleReloads(h, full, back, w, lost, more, |events| + 1 + |more|);
    }
  }

  lemma DurableIsFaithful(h: Hasher, w: World)
    requires Durable(h, w)
    ensures Faithful(h, w)
  {
  }

  lemma HoleReloads(h: Hasher, full: World, back: World, w: World, lost: Entry, more: seq<Entry>, b: nat)
    requires Hole(h, full, w, lost, more) && Commits(h, full, b) && WellShaped(full.log.tree) && more != []
    requires back == Step(h, full, Restart)
    ensures var ys := LeafHashes(h, Datas(more));
      && back.mem == full.mem == w.mem + ([lost.data] + Datas(more))
      && (Faithful(h, back) <==> h.leaf(lost.data) == ZERO_DIGEST && forall j :: 0 <= j < |ys| ==> ys[j] == ZERO_DIGEST)
  {
    hide Commits, Step, LeafHashes, OrderedHashes, Padded, WellShaped;
    var d, x, ys := LeafHashes(h, w.mem), h.leaf(lost.data), LeafHashes(h, Datas(more));
    RestartTruncates(h, full, b);
    RestartReloads(h, full);
    HoleTables(h, full, w, lost, more);
    HoleHashes(h, w.mem, lost.data, Datas(more));
    assert |d| + |ys| + 1 == |full.mem|;
    hide Hole, Datas;
    assert d + ys + [ZERO_DIGEST] == Padded(d + ys, |d| + |ys| + 1) by { PadOne(d + ys); }
    ShiftedTail(d, x, ys, ZERO_DIGEST);
  }

  lemma HoleTables(h: Hasher, full: World, w: World, lost: Entry, more: seq<Entry>)
    requires Hole(h, full, w, lost, more) && more != []
    ensures LatestSize(full.log.store.heads) == |full.mem| && full.mem[..|full.mem|] == full.mem
    ensures full.mem == w.mem + [lost.data] + Datas(more) == w.mem + ([lost.data] + Datas(more))
    ensures OrderedHashes(full.log.store.rows) == LeafHashes(h, w.mem) + LeafHashes(h, Datas(more))
  {
    hide OrderedHashes, LeafHashes;
  }

  lemma PadOne(d: seq<Digest>)
    ensures Padded(d, |d| + 1) == d + [ZERO_DIGEST]
  {
  }

  lemma HoleHashes(h: Hasher, mem: seq<Bytes>, lost: Bytes, more: seq<Bytes>)
    ensures LeafHashes(h, mem + [lost] + more) == LeafHashes(h, mem) + [h.leaf(lost)] + LeafHashes(h, more)
  {
  }

  lemma ShiftedTail(d: seq<Digest>, x: Digest, ys: seq<Digest>, z: Digest)
    ensures d + ys + [z] == d + [x] + ys <==> x == z && forall j :: 0 <= j < |ys| ==> ys[j] == z
  {
    var l, r := ys + [z], [x] + ys;
    assert d + ys + [z] == d + l && d + [x] + ys == d + r;
    Cancel(d, l, r);
    if l == r {
      assert forall i :: 0 <= i < |ys| ==> ys[i] == l[i] == r[i];
      forall j | 0 <= j < |ys| ensures ys[j] == x {
        Chain(x, ys, j);
      }
      assert l[|ys|] == z;
      assert r[|ys|] == if ys == [] then x else ys[|ys| - 1];
    }
  }
}
