/** Whole runs of the transparency log: appends with arbitrary failures, and restarts anywhere. */
module LogRuns {
  import opened Hashing
  import opened Rfc6962
  import opened Fringe
  import opened Audit
  import opened Commitment
  import opened Merkle
  import opened FringeCodec
  import opened TransparencyService

  /** A crash between two steps of AppendEntry is an Append whose remaining steps fail, then Restart. */
  datatype Event = Append(entry: Entry, luck: Luck) | Restart

  /** The log's state with its history: what the tree in memory has appended, and what it had
      appended when each stored head was written. */
  datatype World = World(log: LogState, mem: seq<Bytes>, saved: map<uint64, seq<Bytes>>)

  const START := World(LogState(EMPTY_TREE, Store(map[], map[])), [], map[])

  ghost predicate HeadIsRight(h: Hasher, head: Head, entries: seq<Bytes>) {
    var d := LeafHashes(h, entries);
    entries != [] && head == Head(Mth(h, d), ToBytes(FringeOf(h, d)))
  }

  /** What every run keeps: the fringe commits to a list of appended entries, every stored head is
      the RFC 6962 head of a prefix of that list, and b bounds the sizes. */
  ghost predicate Commits(h: Hasher, w: World, b: nat) {
    && |w.mem| <= b < WORD - 1
    && w.log.tree.size == |w.mem|
    && w.log.tree.fringe == FringeOf(h, LeafHashes(h, w.mem))
    && w.saved.Keys == w.log.store.heads.Keys
    && (forall n :: n in w.saved ==>
          0 < n <= |w.mem| && w.saved[n] == w.mem[..n] && HeadIsRight(h, w.log.store.heads[n], w.saved[n]))
    && (forall i :: i in w.log.store.rows ==>
          w.log.store.rows[i].leafHash == h.leaf(w.log.store.rows[i].entry.data))
  }

  lemma CommitsIsWellShaped(h: Hasher, w: World, b: nat)
    requires Commits(h, w, b)
    ensures WellShaped(w.log.tree) && (w.log.tree.size > 0 ==> w.log.tree.fringe != [])
  {
    hide LeafHashes, FringeOf;
    FringeLength(h, LeafHashes(h, w.mem));
    if w.mem != [] {
      FoldIsMth(h, LeafHashes(h, w.mem));
    }
  }

  function Step(h: Hasher, w: World, e: Event): World
    requires WellShaped(w.log.tree)
  {
    match e
    case Append(entry, luck) =>
      var log := AppendStep(h, w.log, entry, luck);
      var mem := if luck.userSigOk then w.mem + [entry.data] else w.mem;
      var saved := if RowLands(w.log, luck) && luck.headOk then w.saved[log.tree.size := mem] else w.saved;
      World(log, mem, saved)
    case Restart =>
      var n := LatestSize(w.log.store.heads);
      World(LogState(Recovered(w.log.store), w.log.store), if n in w.saved then w.saved[n] else [], w.saved)
  }

  lemma AppendCommits(h: Hasher, w: World, entry: Entry, luck: Luck, b: nat)
    requires Commits(h, w, b) && b + 1 < WORD - 1 && WellShaped(w.log.tree)
    ensures Commits(h, Step(h, w, Append(entry, luck)), b + 1)
  {
    hide FringeOf, Carry, Mth, ToBytes, Popcount, TrailingOnes, Fold;
    if luck.userSigOk {
      var d, leaf := LeafHashes(h, w.mem), h.leaf(entry.data);
      var mem := w.mem + [entry.data];
      assert LeafHashes(h, mem) == d + [leaf];
      CarryIsFringe(h, d, leaf);
      FoldIsMth(h, d + [leaf]);
      assert (|w.mem| + 1) % WORD == |w.mem| + 1;
      assert mem[..|mem|] == mem;
      assert forall n :: n in w.saved ==> mem[..n] == w.mem[..n];
    }
  }

  lemma RestartCommits(h: Hasher, w: World, b: nat)
    requires Commits(h, w, b) && WellShaped(w.log.tree)
    ensures Commits(h, Step(h, w, Restart), b)
  {
    hide FringeOf, Mth, ToBytes, FromBytes, Popcount, LeafHashes;
    var heads := w.log.store.heads;
    var n := LatestSize(heads);
    if heads == map[] {
      assert n !in w.saved;
      EmptyFringe(h);
    } else {
      var d := LeafHashes(h, w.saved[n]);
      assert HeadIsRight(h, heads[n], w.saved[n]);
      FromBytesInvertsToBytes(FringeOf(h, d));
      assert forall k :: k in w.saved ==> w.mem[..n][..k] == w.mem[..k];
    }
  }

  lemma EmptyFringe(h: Hasher)
    ensures LeafHashes(h, []) == [] && FringeOf(h, []) == []
  {
  }

  /** The world after a run from the empty log. */
  ghost function Run(h: Hasher, events: seq<Event>): (w: World)
    requires |events| < WORD - 1
    ensures Commits(h, w, |events|)
    decreases |events|
  {
    if events == [] then
      EmptyFringe(h);
      START
    else
      var w := Run(h, events[..|events| - 1]);
      CommitsIsWellShaped(h, w, |events| - 1);
      StepCommits(h, w, events[|events| - 1], |events| - 1);
      Step(h, w, events[|events| - 1])
  }

  /** One event of a run keeps what runs keep. */
  lemma StepCommits(h: Hasher, w: World, e: Event, b: nat)
    requires Commits(h, w, b) && b + 1 < WORD - 1 && WellShaped(w.log.tree)
    ensures Commits(h, Step(h, w, e), b + 1)
  {
    hide Commits, Step;
    match e
    case Append(entry, luck) => AppendCommits(h, w, entry, luck, b);
    case Restart =>
      RestartCommits(h, w, b);
      CommitsWeaken(h, Step(h, w, Restart), b);
  }

  lemma RunSnoc(h: Hasher, events: seq<Event>, e: Event) returns (after: World)
    requires |events| + 1 < WORD - 1
    ensures WellShaped(Run(h, events).log.tree)
    ensures after == Run(h, events + [e]) == Step(h, Run(h, events), e) && WellShaped(after.log.tree)
    ensures Commits(h, after, |events| + 1)
  {
    hide Commits, WellShaped, Step;
    CommitsIsWellShaped(h, Run(h, events), |events|);
    after := Run(h, events + [e]);
    assert (events + [e])[..|events|] == events;
    CommitsIsWellShaped(h, after, |events| + 1);
  }

  lemma CommitsWeaken(h: Hasher, w: World, b: nat)
    requires Commits(h, w, b) && b + 1 < WORD - 1
    ensures Commits(h, w, b + 1)
  {
  }

  /** Stored heads never fork: whatever failed and however often the process restarted, a smaller
      head is the RFC 6962 head of a prefix of what a larger one commits to. */
  lemma StoredHeadsNeverFork(h: Hasher, events: seq<Event>, m: uint64, n: uint64)
    requires |events| < WORD - 1
    requires m in Run(h, events).log.store.heads && n in Run(h, events).log.store.heads && m <= n
    ensures var w := Run(h, events);
      && |w.saved[n]| == n && HeadIsRight(h, w.log.store.heads[n], w.saved[n])
      && HeadIsRight(h, w.log.store.heads[m], w.saved[n][..m])
  {
    hide HeadIsRight;
    var w := Run(h, events);
    assert w.mem[..n][..m] == w.mem[..m];
  }

  /** One event keeps every stored head as it is, and fills no row missing under one of them. */
  lemma StepKeepsHeads(h: Hasher, w: World, e: Event, b: nat)
    requires Commits(h, w, b) && WellShaped(w.log.tree) && b + 1 < WORD - 1
    ensures var store, after := w.log.store, Step(h, w, e).log.store;
      && (forall n :: n in store.heads ==> n in after.heads && after.heads[n] == store.heads[n])
      && (forall n, k :: n in store.heads && k < n && k !in store.rows ==> k !in after.rows)
  {
    hide FringeOf, Carry, Mth, ToBytes, FromBytes, Popcount, TrailingOnes, Fold, LeafHashes, HeadIsRight, RootOf;
    assert (|w.mem| + 1) % WORD == |w.mem| + 1;
    assert forall n :: n in w.log.store.heads ==> n in w.saved;
  }

  /** The head insert is an upsert, yet no continuation of a run ever changes or removes a stored head;
      and a row missing under a stored head stays missing for good. */
  lemma {:induction false} StoredHeadsStay(h: Hasher, events: seq<Event>, more: seq<Event>)
    requires |events| + |more| < WORD - 1
    ensures var store, after := Run(h, events).log.store, Run(h, events + more).log.store;
      && (forall n :: n in store.heads ==> n in after.heads && after.heads[n] == store.heads[n])
      && (forall n, k :: n in store.heads && k < n && k !in store.rows ==> k !in after.rows)
    decreases |more|
  {
    hide Commits, WellShaped, Step;
    if more == [] {
      assert events + more == events;
    } else {
      var less, e := more[..|more| - 1], more[|more| - 1];
      StoredHeadsStay(h, events, less);
      assert events + less + [e] == events + more;
      var after := RunSnoc(h, events + less, e);
      StepKeepsHeads(h, Run(h, events + less), e, |events + less|);
    }
  }

  /** A restart forgets exactly the entries appended after the latest stored head. */
  lemma RestartTruncates(h: Hasher, w: World, b: nat)
    requires Commits(h, w, b) && WellShaped(w.log.tree)
    ensures var n := LatestSize(w.log.store.heads);
      n <= |w.mem| && Step(h, w, Restart).mem == w.mem[..n] && Step(h, w, Restart).log.tree.size == n
  {
    hide HeadIsRight, FringeOf, LeafHashes, FromBytes;
  }

  // ----- when the proofs handed out are good -----

  /** The stored leaf hashes, as Proof uses them, are those of the appended entries. */
  ghost predicate Faithful(h: Hasher, w: World) {
    Padded(w.log.tree.leaves, w.log.tree.size) == LeafHashes(h, w.mem)
  }

  ghost predicate ProofVerifies(h: Hasher, w: World, i: nat)
    requires i < |w.mem| == w.log.tree.size && w.log.tree.fringe != []
  {
    Verifies(h, w.mem[i], i, |w.mem|, ProofOf(h, w.log.tree, i).value, RootOf(h, w.log.tree))
  }

  /** The colliding node inputs behind two equally long leaf lists with one Merkle Tree Hash. */
  function DigestCollision(h: Hasher, d: seq<Digest>, e: seq<Digest>): Pair
    requires |d| == |e| > 0
    decreases |d|
  {
    if |d| == 1 then NO_PAIR else
      var k := Split(|d|);
      var top := Pair(NodeInput(Mth(h, d[..k]), Mth(h, d[k..])), NodeInput(Mth(h, e[..k]), Mth(h, e[k..])));
      if IsCollision(h, top) then top
      else if d[..k] != e[..k] then DigestCollision(h, d[..k], e[..k])
      else DigestCollision(h, d[k..], e[k..])
  }

  lemma {:induction false} MthFixesLeaves(h: Hasher, d: seq<Digest>, e: seq<Digest>)
    requires |d| == |e| > 0 && Mth(h, d) == Mth(h, e)
    ensures d == e || IsCollision(h, DigestCollision(h, d, e))
    decreases |d|
  {
    hide Mth;
    if |d| == 1 {
      SingleLeaf(h, d);
      SingleLeaf(h, e);
    } else {
      var k := Split(|d|);
      MthUnfold(h, d, k);
      MthUnfold(h, e, k);
      if Mth(h, d[..k]) == Mth(h, e[..k]) && Mth(h, d[k..]) == Mth(h, e[k..]) {
        if d[..k] != e[..k] {
          MthFixesLeaves(h, d[..k], e[..k]);
        } else {
          MthFixesLeaves(h, d[k..], e[k..]);
          assert d == d[..k] + d[k..] && e == e[..k] + e[k..];
        }
      }
    }
  }

  lemma MthUnfold(h: Hasher, d: seq<Digest>, k: nat)
    requires |d| > 1 && k == Split(|d|)
    ensures Mth(h, d) == h.node(Mth(h, d[..k]), Mth(h, d[k..]))
  {
  }

  /** The first leaf's path ends with the right half's hash, the split leaf's with the left half's. */
  lemma TwoPathsFixLeaves(h: Hasher, d: seq<Digest>, e: seq<Digest>)
    requires |d| == |e| > 1
    requires Path(h, 0, d) == Path(h, 0, e) && Path(h, Split(|d|), d) == Path(h, Split(|d|), e)
    ensures d == e || IsCollision(h, DigestCollision(h, d, e))
  {
    var k := Split(|d|);
    LastOfPath(h, d, 0);
    LastOfPath(h, e, 0);
    LastOfPath(h, d, k);
    LastOfPath(h, e, k);
    hide Path;
    MthFixesLeaves(h, d, e);
  }

  lemma LastOfPath(h: Hasher, d: seq<Digest>, m: nat)
    requires m < |d| && |d| > 1
    ensures var k, p := Split(|d|), Path(h, m, d);
      p != [] && p[|p| - 1] == if m < k then Mth(h, d[k..]) else Mth(h, d[..k])
  {
  }

  /** The collision behind proofs that verify although the stored leaves are wrong. */
  function UnfaithfulCollision(h: Hasher, mem: seq<Bytes>, d: seq<Digest>): Pair
    requires |mem| == |d| > 1
  {
    var k := Split(|mem|);
    var c0, ck := Forgery(h, mem, mem[0], 0, Path(h, 0, d)), Forgery(h, mem, mem[k], k, Path(h, k, d));
    if IsCollision(h, c0) then c0 else if IsCollision(h, ck) then ck
    else DigestCollision(h, d, LeafHashes(h, mem))
  }

  /** In every state of every run: all proofs verify when the stored leaves are faithful (or there is
      one leaf, whose path is empty); and if the proofs of just two leaves verify, the stored leaves
      are faithful, or a collision is exhibited. */
  lemma ProofsVerifyIffFaithful(h: Hasher, w: World, b: nat)
    requires Commits(h, w, b) && w.mem != [] && w.log.tree.fringe != []
    ensures Faithful(h, w) || |w.mem| == 1 ==> forall i :: 0 <= i < |w.mem| ==> ProofVerifies(h, w, i)
    ensures |w.mem| > 1 && ProofVerifies(h, w, 0) && ProofVerifies(h, w, Split(|w.mem|)) ==>
      || Faithful(h, w)
      || IsCollision(h, UnfaithfulCollision(h, w.mem, Padded(w.log.tree.leaves, w.log.tree.size)))
  {
    hide Path, Mth, FringeOf, Forgery, Verifies, IsCollision, LeafHashes, HeadIsRight, DigestCollision;
    var d, honest := Padded(w.log.tree.leaves, w.log.tree.size), LeafHashes(h, w.mem);
    FoldIsMth(h, honest);
    forall i | 0 <= i < |w.mem|
      ensures Path(h, i, d) == Path(h, i, honest) ==> ProofVerifies(h, w, i)
    {
      AcceptsExactlyTheHonestProof(h, w.mem, w.mem[i], i, Path(h, i, honest));
    }
    if |w.mem| == 1 {
      SingleLeaf(h, d);
      SingleLeaf(h, honest);
    } else {
      var k := Split(|w.mem|);
      AcceptsExactlyTheHonestProof(h, w.mem, w.mem[0], 0, Path(h, 0, d));
      AcceptsExactlyTheHonestProof(h, w.mem, w.mem[k], k, Path(h, k, d));
      if Path(h, 0, d) == Path(h, 0, honest) && Path(h, k, d) == Path(h, k, honest) {
        TwoPathsFixLeaves(h, d, honest);
      }
    }
  }
}
