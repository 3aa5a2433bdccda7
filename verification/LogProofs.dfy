/** The proofs the service hands out, checked as a client checks them: against the entry in the row, the
    size and the root of the very same answer. */
module LogProofs {
  import opened Hashing
  import opened Rfc6962
  import opened Fringe
  import opened Audit
  import opened Merkle
  import opened TransparencyService
  import opened LogRuns
  import opened LogRestarts

  /** What a client does with a proof of the entry it asked about. */
  predicate Proves(h: Hasher, data: Bytes, p: InclusionProof) {
    Verifies(h, data, p.leafIndex, p.treeSize, p.auditPath, p.root)
  }

  /** GetProof leaves out exactly the entries the tree does not reach. */
  lemma {:induction false} ProofsForCover(h: Hasher, t: TreeState, entries: seq<uint64>)
    requires t.size > 0 ==> t.fringe != []
    ensures var proofs := ProofsFor(h, t, entries);
      && (forall p :: p in proofs ==>
            && p.leafIndex in entries && p.leafIndex < t.size == p.treeSize
            && p.auditPath == ProofOf(h, t, p.leafIndex).value && p.root == RootOf(h, t))
      && (forall i :: i in entries && i < t.size ==> exists p :: p in proofs && p.leafIndex == i)
  {
    hide RootOf, Padded;
    if entries != [] {
      var before, i := entries[..|entries| - 1], entries[|entries| - 1];
      ProofsForCover(h, t, before);
      assert entries == before + [i];
      if i < t.size {
        var proofs := ProofsFor(h, t, entries);
        assert proofs[|proofs| - 1].leafIndex == i && proofs[|proofs| - 1] in proofs;
        assert forall p :: p in ProofsFor(h, t, before) ==> p in proofs;
      }
    }
  }

  /** In any state a run reaches: where the tree's leaf at i is the row's, the served proof of the row
      verifies exactly when the leaves' tree head is the root; so it does when the leaves match the
      fringe, and otherwise only through a named collision. */
  lemma ServedProofVerifiesIff(h: Hasher, w: World, b: nat, i: uint64)
    requires Commits(h, w, b) && i < |w.mem| && i in w.log.store.rows && w.log.tree.fringe != []
    requires Padded(w.log.tree.leaves, w.log.tree.size)[i] == w.log.store.rows[i].leafHash
    ensures var t, leaves := w.log.tree, Padded(w.log.tree.leaves, w.log.tree.size);
      var verifies := Verifies(h, w.log.store.rows[i].entry.data, i, t.size, ProofOf(h, t, i).value, RootOf(h, t));
      && (verifies <==> Mth(h, leaves) == Mth(h, LeafHashes(h, w.mem)))
      && (Faithful(h, w) ==> verifies)
      && (verifies ==> Faithful(h, w) || IsCollision(h, DigestCollision(h, leaves, LeafHashes(h, w.mem))))
  {
    hide Mth, Path, FringeOf, Padded, DigestCollision, HeadIsRight, IsCollision;
    var leaves := Padded(w.log.tree.leaves, w.log.tree.size);
    FoldIsMth(h, LeafHashes(h, w.mem));
    HonestPathRecomputes(h, leaves, i);
    if Mth(h, leaves) == Mth(h, LeafHashes(h, w.mem)) {
      MthFixesLeaves(h, leaves, LeafHashes(h, w.mem));
    }
  }

  lemma LandedRowVerifies(h: Hasher, events: seq<Event>, i: uint64)
    requires |events| < WORD - 1 && RowsAlwaysLand(h, events) && i < |Run(h, events).mem|
    ensures var w := Run(h, events);
      && i in w.log.store.rows && w.log.tree.fringe != [] && w.mem[i] == w.log.store.rows[i].entry.data
      && Verifies(h, w.mem[i], i, w.log.tree.size, ProofOf(h, w.log.tree, i).value, RootOf(h, w.log.tree))
  {
    hide RowsAlwaysLand, Verifies, RootOf, Padded;
    LandedRunsStayInOrder(h, events);
    LandedRunsServeGoodProofs(h, events, i);
    RowOf(h, Run(h, events), i);
  }

  lemma RowOf(h: Hasher, w: World, i: nat)
    requires InOrder(h, w) && i < |w.log.store.rows|
    ensures i < WORD && i in w.log.store.rows && w.log.store.rows[i].entry.data == Logged(w.log.store.rows)[i]
  {
  }

  /** In every run whose row inserts land, restarts and lost heads included, GetProof answers every key
      with proofs that verify for the stored entries, one for each entry of the key the tree reaches. */
  lemma ServedProofsVerify(h: Hasher, events: seq<Event>, pubKey: Bytes)
    requires |events| < WORD - 1 && RowsAlwaysLand(h, events)
    ensures var s := Run(h, events).log; var rows, entries := s.store.rows, EntriesOf(s.store.rows, pubKey);
      && (s.tree.size > 0 ==> s.tree.fringe != [])
      && (forall p :: p in ProofsFor(h, s.tree, entries) ==>
            && p.leafIndex in rows && rows[p.leafIndex].entry.pubKey == pubKey
            && Proves(h, rows[p.leafIndex].entry.data, p))
      && (forall i :: i in rows && rows[i].entry.pubKey == pubKey && i < s.tree.size ==>
            exists p :: p in ProofsFor(h, s.tree, entries) && p.leafIndex == i)
      && (forall j, k :: 0 <= j < k < |entries| ==> entries[j] < entries[k])
      && InStep(entries, ProofsFor(h, s.tree, entries), s.tree.size)
  {
    hide RowsAlwaysLand, Verifies, RootOf, ProofOf, EntriesOf, ProofsFor, HeadIsRight;
    var w := Run(h, events);
    CommitsIsWellShaped(h, w, |events|);
    var rows, entries := w.log.store.rows, EntriesOf(w.log.store.rows, pubKey);
    ProofsForCover(h, w.log.tree, entries);
    EntriesOfAre(rows, pubKey);
    ProofsInStep(h, w.log.tree, entries);
    forall p | p in ProofsFor(h, w.log.tree, entries)
      ensures p.leafIndex in rows && rows[p.leafIndex].entry.pubKey == pubKey
      ensures Proves(h, rows[p.leafIndex].entry.data, p)
    {
      LandedRowVerifies(h, events, p.leafIndex);
    }
  }

  /** And AppendEntry's answer verifies at once for the entry it acknowledges. */
  lemma ReceiptsVerify(h: Hasher, events: seq<Event>, entry: Entry, luck: Luck)
    requires |events| + 1 < WORD - 1 && RowsAlwaysLand(h, events) && RowLands(Run(h, events).log, luck)
    ensures var t, i := Run(h, events + [Append(entry, luck)]).log.tree, Run(h, events).log.tree.size;
      && t.fringe != [] && i < WORD
      && var r := Receipt(h, t, i);
      && r.leafIndex == i && r.treeSize == i + 1
      && Verifies(h, entry.data, r.leafIndex, r.treeSize, r.auditPath, r.root)
  {
    hide Verifies, RootOf, ProofOf, Commits, HeadIsRight;
    var longer := events + [Append(entry, luck)];
    assert longer[..|events|] == events;
    var w := Run(h, events);
    var after := RunSnoc(h, events, Append(entry, luck));
    AppendedData(h, w, entry, luck, |events|);
    LandedRowVerifies(h, longer, |w.mem|);
    assert ProofOf(h, after.log.tree, |w.mem|).Some? by { ProofExists(h, after.log.tree, |w.mem|); }
  }

  lemma ProofExists(h: Hasher, t: TreeState, i: nat)
    requires i < t.size
    ensures ProofOf(h, t, i).Some?
  {
  }

  lemma AppendedData(h: Hasher, w: World, entry: Entry, luck: Luck, b: nat)
    requires Commits(h, w, b) && WellShaped(w.log.tree) && RowLands(w.log, luck) && b + 1 < WORD - 1
    ensures var after := Step(h, w, Append(entry, luck));
      && w.log.tree.size == |w.mem| && after.mem == w.mem + [entry.data] && after.log.tree.size == |w.mem| + 1
  {
    hide FringeOf, LeafHashes, Popcount, Carry, TrailingOnes, HeadIsRight, RootOf;
    assert (|w.mem| + 1) % WORD == |w.mem| + 1;
  }
}
