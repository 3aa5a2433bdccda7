/** TransparencyService over its two tables, with every store and signing failure as an input. */
module TransparencyService {
  import opened Basics
  import opened Hashing
  import opened Audit
  import opened Merkle
  import opened FringeCodec

  datatype Entry = Entry(pubKey: Bytes, data: Bytes)

  /** transparency_log_entries, keyed by leaf_index: the column is UNIQUE. */
  datatype Row = Row(entry: Entry, leafHash: Digest)

  /** transparency_tree_heads, keyed by tree_size. */
  datatype Head = Head(root: Digest, fringe: Bytes)

  datatype Store = Store(rows: map<uint64, Row>, heads: map<uint64, Head>)

  datatype LogState = LogState(tree: TreeState, store: Store)

  /** Which of AppendEntry's fallible steps succeed in one call. */
  datatype Luck = Luck(userSigOk: bool, signOk: bool, rowOk: bool, headOk: bool)

  datatype AppendResult = AppendResult(leafIndex: uint64, treeSize: uint64, auditPath: seq<Digest>, root: Digest)

  datatype InclusionProof = InclusionProof(leafIndex: uint64, treeSize: uint64, auditPath: seq<Digest>, root: Digest)

  /** Keys below n in ascending order: ORDER BY leaf_index ASC. */
  function Ascending(keys: set<uint64>, n: nat): seq<uint64>
    requires n <= WORD
  {
    if n == 0 then [] else Ascending(keys, n - 1) + if n - 1 in keys then [n - 1] else []
  }

  lemma {:induction false} AscendingKeys(keys: set<uint64>, n: nat)
    requires n <= WORD
    ensures var a := Ascending(keys, n);
      && (forall k: uint64 :: k in a <==> k in keys && k < n)
      && (forall i, j :: 0 <= i < j < |a| ==> a[i] < a[j])
  {
    if n > 0 {
      AscendingKeys(keys, n - 1);
      var before := Ascending(keys, n - 1);
      assert forall i :: 0 <= i < |before| ==> before[i] in before;
    }
  }

  function OrderedHashes(rows: map<uint64, Row>): seq<Digest> {
    AscendingKeys(rows.Keys, WORD);
    var order := Ascending(rows.Keys, WORD);
    seq(|order|, i requires 0 <= i < |order| => assert order[i] in order; rows[order[i]].leafHash)
  }

  /** The head with the largest tree_size. */
  function LatestSize(heads: map<uint64, Head>): (n: uint64)
    ensures heads == map[] ==> n == 0
    ensures heads != map[] ==> n in heads && forall k :: k in heads ==> k <= n
  {
    AscendingKeys(heads.Keys, WORD);
    var order := Ascending(heads.Keys, WORD);
    if order == [] then
      assert forall k :: k in heads ==> k in order;
      0
    else
      assert order[|order| - 1] in order;
      assert forall k :: k in heads ==> k in order;
      order[|order| - 1]
  }

  function Recovered(store: Store): TreeState {
    if store.heads == map[] then EMPTY_TREE
    else
      var n := LatestSize(store.heads);
      TreeState(OrderedHashes(store.rows), FromBytes(store.heads[n].fringe), n)
  }

  /** The row insert lands only when nothing failed before it and its leaf_index is unused. */
  predicate RowLands(s: LogState, luck: Luck) {
    luck.userSigOk && luck.signOk && luck.rowOk && s.tree.size !in s.store.rows
  }

  /** AppendEntry: the tree grows before anything is stored and keeps the entry whatever fails later. */
  function AppendStep(h: Hasher, s: LogState, entry: Entry, luck: Luck): LogState
    requires WellShaped(s.tree)
  {
    if !luck.userSigOk then s else
      var t := Appended(h, s.tree, h.leaf(entry.data));
      if !RowLands(s, luck) then s.(tree := t) else
        var rows := s.store.rows[s.tree.size := Row(entry, h.leaf(entry.data))];
        var heads := if luck.headOk then s.store.heads[t.size := Head(RootOf(h, t), ToBytes(t.fringe))]
                     else s.store.heads;
        LogState(t, Store(rows, heads))
  }

  /** The answer for the entry at index i of a tree. */
  function Receipt(h: Hasher, t: TreeState, i: uint64): AppendResult
    requires t.size > 0 ==> t.fringe != []
  {
    AppendResult(i, t.size, ProofOf(h, t, i).GetOr([]), RootOf(h, t))
  }

  class Service {
    const h: Hasher
    var tree: MerkleTree
    var rows: map<uint64, Row>
    var heads: map<uint64, Head>

    ghost function View(): LogState
      reads this, tree
    {
      LogState(tree.View(), Store(rows, heads))
    }

    /** NewTransparencyService: a fresh tree, then RecoverFromDB. A failed read returns an error and
        no service, so only the successful start is a constructor. */
    constructor (h: Hasher, rows: map<uint64, Row>, heads: map<uint64, Head>)
      ensures this.h == h == tree.h && fresh(tree)
      ensures View() == LogState(Recovered(Store(rows, heads)), Store(rows, heads))
    {
      this.h, this.rows, this.heads := h, rows, heads;
      tree := new MerkleTree(h);
      new;
      if heads != map[] {
        var n := LatestSize(heads);
        var fringe := FringeFromBytes(heads[n].fringe);
        tree := new MerkleTree.FromFringe(h, fringe, n);
        tree.SetLeaves(OrderedHashes(rows));
      }
    }

    method AppendEntry(entry: Entry, luck: Luck) returns (result: Option<AppendResult>)
      requires tree.h == h && WellShaped(tree.View())
      modifies this`rows, this`heads, tree
      ensures tree == old(tree) && View() == AppendStep(h, old(View()), entry, luck)
      ensures result.Some? <==> RowLands(old(View()), luck)
      ensures result.Some? ==>
        result.value == Receipt(h, View().tree, old(tree.size))
    {
      if !luck.userSigOk {
        return None;
      }
      var leafIndex, _ := tree.Append(entry.data);
      var root := tree.Root();
      var treeSize := tree.size;
      var proof := tree.Proof(leafIndex);
      var auditPath := proof.GetOr([]);
      if !luck.signOk {
        return None;
      }
      if !luck.rowOk || leafIndex in rows {
        return None;
      }
      rows := rows[leafIndex := Row(entry, h.leaf(entry.data))];
      var fringeBytes := FringeToBytes(tree.fringe);
      if luck.headOk {
        heads := heads[treeSize := Head(root, fringeBytes[..])];
      }
      return Some(AppendResult(leafIndex, treeSize, auditPath, root));
    }

    /** GetProof with no append running between its critical sections. Every row of the key is answered
        once, in log order; the k-th proof belongs to the k-th entry, and only entries past the end of the
        tree go without. */
    method GetProof(pubKey: Bytes) returns (entries: seq<uint64>, proofs: seq<InclusionProof>)
      requires tree.h == h && (tree.size > 0 ==> tree.fringe != [])
      ensures entries == EntriesOf(rows, pubKey)
      ensures forall i: uint64 :: i in entries <==> i in rows && rows[i].entry.pubKey == pubKey
      ensures forall j, k :: 0 <= j < k < |entries| ==> entries[j] < entries[k]
      ensures proofs == ProofsFor(h, tree.View(), entries)
      ensures InStep(entries, proofs, tree.size)
    {
      hide EntriesOf, InStep, RootOf, ProofOf;
      entries := EntriesOf(rows, pubKey);
      var root := tree.Root();
      var treeSize := tree.size;
      proofs := [];
      for i := 0 to |entries|
        invariant proofs == ProofsFor(h, tree.View(), entries[..i])
      {
        var path := tree.Proof(entries[i]);
        assert entries[..i + 1][..i] == entries[..i];
        if path.None? {
          continue;
        }
        proofs := proofs + [InclusionProof(entries[i], treeSize, path.value, root)];
      }
      assert entries[..|entries|] == entries;
      EntriesOfAre(rows, pubKey);
      ProofsInStep(h, tree.View(), entries);
    }
  }

  /** SELECT ... WHERE user_pub_key = $1 ORDER BY leaf_index ASC. */
  function EntriesOf(rows: map<uint64, Row>, pubKey: Bytes): seq<uint64> {
    var mine := set k | k in rows && rows[k].entry.pubKey == pubKey;
    Ascending(mine, WORD)
  }

  /** Indices past the end of the tree are skipped; the others carry the tree's own root and size. */
  function ProofsFor(h: Hasher, t: TreeState, entries: seq<uint64>): seq<InclusionProof>
    requires t.size > 0 ==> t.fringe != []
  {
    if entries == [] then [] else
      var before, i := ProofsFor(h, t, entries[..|entries| - 1]), entries[|entries| - 1];
      match ProofOf(h, t, i)
      case None => before
      case Some(path) => before + [InclusionProof(i, t.size, path, RootOf(h, t))]
  }

  /** Each row of the key once, in ascending order. */
  lemma EntriesOfAre(rows: map<uint64, Row>, pubKey: Bytes)
    ensures forall i: uint64 :: i in EntriesOf(rows, pubKey) <==> i in rows && rows[i].entry.pubKey == pubKey
    ensures forall j, k :: 0 <= j < k < |EntriesOf(rows, pubKey)| ==>
      EntriesOf(rows, pubKey)[j] < EntriesOf(rows, pubKey)[k]
  {
    var mine := set k | k in rows && rows[k].entry.pubKey == pubKey;
    AscendingKeys(mine, WORD);
  }

  /** One proof per entry below the size, in the entries' order; the entries without one come last. */
  predicate InStep(entries: seq<uint64>, proofs: seq<InclusionProof>, size: nat) {
    && |proofs| <= |entries|
    && (forall k :: 0 <= k < |proofs| ==> proofs[k].leafIndex == entries[k] < size)
    && (forall k :: |proofs| <= k < |entries| ==> entries[k] >= size)
  }

  lemma {:induction false} ProofsInStep(h: Hasher, t: TreeState, entries: seq<uint64>)
    requires t.size > 0 ==> t.fringe != []
    requires forall j, k :: 0 <= j < k < |entries| ==> entries[j] < entries[k]
    ensures InStep(entries, ProofsFor(h, t, entries), t.size)
  {
    hide RootOf, Padded;
    if entries != [] {
      ProofsInStep(h, t, entries[..|entries| - 1]);
    }
  }
}
