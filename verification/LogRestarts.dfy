/** What a restart recovers: exactly when the recovered tree keeps handing out good proofs. */
module LogRestarts {
  import opened Hashing
  import opened Rfc6962
  import opened Fringe
  import opened Audit
  import opened Merkle
  import opened FringeCodec
  import opened TransparencyService
  import opened LogRuns

  /** The entries logged in the table, when its indices are 0, 1, 2, ... without gaps. */
  ghost predicate NoGaps(rows: map<uint64, Row>) {
    |rows| < WORD && forall k: uint64 :: k in rows <==> k < |rows|
  }

  function Logged(rows: map<uint64, Row>): (entries: seq<Bytes>)
    requires NoGaps(rows)
    ensures |entries| == |rows|
  {
    seq(|rows|, i requires 0 <= i < |rows| => rows[i].entry.data)
  }

  lemma {:induction false} AscendingNoGaps(keys: set<uint64>, m: nat, n: nat)
    requires m <= n <= WORD && forall k: uint64 :: k in keys <==> k < m
    ensures |Ascending(keys, n)| == m && forall i :: 0 <= i < m ==> Ascending(keys, n)[i] == i
    decreases n
  {
    if n > m {
      AscendingNoGaps(keys, m, n - 1);
    } else if n > 0 {
      AscendingNoGaps(keys - {n - 1}, m - 1, n - 1);
      AscendingSame(keys, keys - {n - 1}, n - 1);
    }
  }

  lemma {:induction false} AscendingSame(a: set<uint64>, b: set<uint64>, n: nat)
    requires n <= WORD && forall k: uint64 :: k < n ==> (k in a <==> k in b)
    ensures Ascending(a, n) == Ascending(b, n)
  {
    if n > 0 {
      AscendingSame(a, b, n - 1);
    }
  }

  /** The state of a run in which no row insert failed: rows are gap-free, the tree's entries are the
      first of them, and the stored leaves are all of them (none, if no head was ever stored). */
  ghost predicate InOrder(h: Hasher, w: World) {
    var rows := w.log.store.rows;
    && NoGaps(rows) && |w.mem| <= |rows| && w.mem == Logged(rows)[..|w.mem|]
    && w.log.tree.leaves == if w.mem == [] then [] else LeafHashes(h, Logged(rows))
  }

  /** Every append that got past its user signature reached and landed its row insert. */
  ghost predicate RowsAlwaysLand(h: Hasher, events: seq<Event>)
    requires |events| < WORD - 1
    decreases |events|
  {
    events == [] ||
    var before, e := events[..|events| - 1], events[|events| - 1];
    RowsAlwaysLand(h, before) &&
    (e.Append? && e.luck.userSigOk ==> RowLands(Run(h, before).log, e.luck))
  }

  lemma NextRowFits(rows: map<uint64, Row>, i: uint64, row: Row)
    requires NoGaps(rows) && i == |rows| && |rows| + 1 < WORD
    ensures NoGaps(rows[i := row]) && |rows[i := row]| == |rows| + 1
  {
    var grown := rows[i := row];
    assert i !in rows;
    assert |grown| == |rows| + 1;
    assert forall k :: k in grown <==> k in rows || k == i;
  }

  lemma NextRowLogged(rows: map<uint64, Row>, i: uint64, row: Row)
    requires NoGaps(rows) && i == |rows| && |rows| + 1 < WORD
    ensures NoGaps(rows[i := row]) && |rows[i := row]| == |rows| + 1
    ensures Logged(rows[i := row]) == Logged(rows) + [row.entry.data]
  {
    NextRowFits(rows, i, row);
    var longer := Logged(rows) + [row.entry.data];
    forall k | 0 <= k < |longer| ensures Logged(rows[i := row])[k] == longer[k] {
      assert k in rows[i := row];
    }
  }

  lemma LeafHashesSnoc(h: Hasher, entries: seq<Bytes>, data: Bytes)
    ensures LeafHashes(h, entries + [data]) == LeafHashes(h, entries) + [h.leaf(data)]
  {
  }

  lemma LandedRowStaysInOrder(h: Hasher, w: World, entry: Entry, luck: Luck, b: nat)
    requires Commits(h, w, b) && InOrder(h, w) && WellShaped(w.log.tree) && RowLands(w.log, luck)
    ensures InOrder(h, Step(h, w, Append(entry, luck)))
    ensures |w.mem| == |w.log.store.rows|
  {
    hide FringeOf, Carry, Popcount, TrailingOnes, HeadIsRight, LeafHashes, RootOf, ToBytes;
    var rows := w.log.store.rows;
    assert w.log.tree.size == |rows|;
    NextRowLogged(rows, |rows|, Row(entry, h.leaf(entry.data)));
    LeafHashesSnoc(h, Logged(rows), entry.data);
    assert Logged(rows)[..|rows|] == Logged(rows);
    EmptyHashes(h);
  }

  lemma EmptyHashes(h: Hasher)
    ensures LeafHashes(h, []) == []
  {
  }

  lemma RestartStaysInOrder(h: Hasher, w: World, b: nat)
    requires Commits(h, w, b) && InOrder(h, w) && WellShaped(w.log.tree)
    ensures InOrder(h, Step(h, w, Restart))
  {
    hide FringeOf, FromBytes, HeadIsRight;
    var rows, heads := w.log.store.rows, w.log.store.heads;
    if heads != map[] {
      var n := LatestSize(heads);
      AscendingNoGaps(rows.Keys, |rows|, WORD);
      assert OrderedHashes(rows) == LeafHashes(h, Logged(rows));
      assert w.mem[..n] == Logged(rows)[..n];
    } else {
      assert LatestSize(heads) !in w.saved;
    }
  }

  /** Runs whose row inserts never fail stay in order, whatever happens to heads and processes. */
  lemma {:induction false} LandedRunsStayInOrder(h: Hasher, events: seq<Event>)
    requires |events| < WORD - 1 && RowsAlwaysLand(h, events)
    ensures InOrder(h, Run(h, events))
    decreases |events|
  {
    hide Commits, InOrder;
    if events == [] {
      EmptyIsInOrder(h);
    } else {
      var before, e := events[..|events| - 1], events[|events| - 1];
      var w := Run(h, before);
      LandedRunsStayInOrder(h, before);
      CommitsIsWellShaped(h, w, |before|);
      match e
      case Restart => RestartStaysInOrder(h, w, |before|);
      case Append(entry, luck) =>
        if luck.userSigOk {
          LandedRowStaysInOrder(h, w, entry, luck, |before|);
        }
    }
  }

  lemma EmptyIsInOrder(h: Hasher)
    ensures InOrder(h, START)
  {
  }

  /** So in such a run every proof the service hands out verifies, restarts included. */
  lemma LandedRunsServeGoodProofs(h: Hasher, events: seq<Event>, i: nat)
    requires |events| < WORD - 1 && RowsAlwaysLand(h, events) && i < |Run(h, events).mem|
    ensures Run(h, events).log.tree.fringe != [] && ProofVerifies(h, Run(h, events), i)
  {
    hide RowsAlwaysLand, HeadIsRight, FringeOf, ProofVerifies, Popcount;
    var w := Run(h, events);
    CommitsIsWellShaped(h, w, |events|);
    LandedRunsStayInOrder(h, events);
    assert Padded(w.log.tree.leaves, |w.mem|) == LeafHashes(h, w.mem);
    ProofsVerifyIffFaithful(h, w, |events|);
  }

  /** The append after a restart. With m rows and a tree of n: the row insert lands exactly when
      m == n and no step fails; and the tree in memory stays faithful exactly when m == n, or n == 0
      (no head was ever stored, so no stale leaves were loaded), or the orphaned row at index n has
      the new entry's leaf hash. */
  lemma NextAppendIsFaithfulIff(h: Hasher, w: World, entry: Entry, luck: Luck, b: nat)
    requires Commits(h, w, b) && InOrder(h, w) && WellShaped(w.log.tree) && luck.userSigOk && b + 1 < WORD - 1
    ensures var rows, n := w.log.store.rows, |w.mem|;
      && (RowLands(w.log, luck) <==> luck.signOk && luck.rowOk && |rows| == n)
      && (Faithful(h, Step(h, w, Append(entry, luck))) <==>
            |rows| == n || n == 0 || h.leaf(Logged(rows)[n]) == h.leaf(entry.data))
  {
    hide FringeOf, Carry, Popcount, TrailingOnes, HeadIsRight;
    var rows, n, leaf := w.log.store.rows, |w.mem|, h.leaf(entry.data);
    var w' := Step(h, w, Append(entry, luck));
    assert (n + 1) % WORD == n + 1;
    var kept := w.log.tree.leaves + [leaf];
    assert w'.log.tree.leaves == kept && w'.log.tree.size == n + 1 == |LeafHashes(h, w'.mem)|;
    assert LeafHashes(h, w'.mem) == LeafHashes(h, w.mem) + [leaf];
    assert Padded(kept, n + 1) == kept[..n + 1];
    assert LeafHashes(h, w.mem) == kept[..n];
    assert kept[..n + 1] == kept[..n] + [kept[n]];
  }

  // ----- restarts nobody notices -----

  ghost predicate AlwaysLands(events: seq<Event>) {
    forall e :: e in events && e.Append? && e.luck.userSigOk ==> e.luck.signOk && e.luck.rowOk && e.luck.headOk
  }

  /** Everything in memory can be rebuilt from the tables. */
  ghost predicate Durable(h: Hasher, w: World) {
    && InOrder(h, w) && |w.mem| == |w.log.store.rows| == w.log.tree.size
    && w.log.tree.leaves == LeafHashes(h, w.mem)
    && (w.mem == [] ==> w.log.store.heads == map[] && w.log.tree.fringe == [])
    && (w.mem != [] ==> |w.mem| in w.saved)
  }

  lemma DurableRestart(h: Hasher, w: World, b: nat)
    requires Commits(h, w, b) && Durable(h, w) && WellShaped(w.log.tree)
    ensures Step(h, w, Restart) == w
  {
    hide FringeOf, ToBytes, FromBytes, Mth, Popcount;
    var rows, heads := w.log.store.rows, w.log.store.heads;
    if w.mem != [] {
      var n := LatestSize(heads);
      assert n == |w.mem| && w.mem[..n] == w.mem;
      assert Logged(rows)[..n] == Logged(rows);
      AscendingNoGaps(rows.Keys, |rows|, WORD);
      assert OrderedHashes(rows) == LeafHashes(h, w.mem);
      FromBytesInvertsToBytes(FringeOf(h, LeafHashes(h, w.mem)));
    }
  }

  lemma DurableAppend(h: Hasher, w: World, entry: Entry, luck: Luck, b: nat)
    requires Commits(h, w, b) && Durable(h, w) && WellShaped(w.log.tree) && b + 1 < WORD - 1
    requires luck.userSigOk && luck.signOk && luck.rowOk && luck.headOk
    ensures Durable(h, Step(h, w, Append(entry, luck)))
  {
    hide FringeOf, Carry, Popcount, TrailingOnes, HeadIsRight, LeafHashes, RootOf, ToBytes, Logged;
    assert (|w.mem| + 1) % WORD == |w.mem| + 1;
    LandedRowStaysInOrder(h, w, entry, luck, b);
    NextRowLogged(w.log.store.rows, |w.mem|, Row(entry, h.leaf(entry.data)));
    LeafHashesSnoc(h, w.mem, entry.data);
  }

  lemma {:induction false} LandedRunsAreDurable(h: Hasher, events: seq<Event>)
    requires |events| < WORD - 1 && AlwaysLands(events)
    ensures Durable(h, Run(h, events))
    decreases |events|
  {
    hide Commits, Durable, Step;
    if events == [] {
      EmptyIsDurable(h);
    } else {
      var before, e := events[..|events| - 1], events[|events| - 1];
      assert e in events;
      var w := Run(h, before);
      LandedRunsAreDurable(h, before);
      CommitsIsWellShaped(h, w, |before|);
      match e
      case Restart => DurableRestart(h, w, |before|);
      case Append(entry, luck) =>
        if luck.userSigOk {
          DurableAppend(h, w, entry, luck, |before|);
        } else {
          assert Step(h, w, e) == w by { RejectedAppend(h, w, entry, luck); }
        }
    }
  }

  lemma RejectedAppend(h: Hasher, w: World, entry: Entry, luck: Luck)
    requires WellShaped(w.log.tree) && !luck.userSigOk
    ensures Step(h, w, Append(entry, luck)) == w
  {
  }

  lemma EmptyIsDurable(h: Hasher)
    ensures Durable(h, START)
  {
  }

  /** Recovery bisimulation: after a run whose writes all landed, a restart at any point changes
      nothing, now or after any further common events. */
  lemma {:induction false} RestartIsInvisible(h: Hasher, events: seq<Event>, more: seq<Event>)
    requires |events| + 1 + |more| < WORD - 1 && AlwaysLands(events)
    ensures Run(h, events + [Restart] + more) == Run(h, events + more)
    decreases |more|
  {
    hide Commits, AlwaysLands, Step;
    if more == [] {
      LandedRunsAreDurable(h, events);
      CommitsIsWellShaped(h, Run(h, events), |events|);
      DurableRestart(h, Run(h, events), |events|);
      assert (events + [Restart])[..|events|] == events;
      assert events + [Restart] + [] == events + [Restart] && events + [] == events;
    } else {
      var less := more[..|more| - 1];
      RestartIsInvisible(h, events, less);
      assert (events + [Restart] + more)[..|events| + |more|] == events + [Restart] + less;
      assert (events + more)[..|events| + |more| - 1] == events + less;
    }
  }
}
