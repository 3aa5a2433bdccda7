/** MerkleTree of internal/transparency/tree.go: two representations of one list of leaf hashes,
    updated in place by loops, proved against the recursive definitions. */
module Merkle {
  import opened Basics
  import opened Hashing
  import opened Rfc6962
  import opened Levels
  import opened Fringe
  import opened Audit

  type uint64 = n: nat | n < WORD

  /** The three fields of a tree as a value. */
  datatype TreeState = TreeState(leaves: seq<Digest>, fringe: seq<Digest>, size: uint64)

  const EMPTY_TREE := TreeState([], [], 0)

  /** The fringe has one entry per binary digit one of the size, as Append and Root need. */
  predicate WellShaped(t: TreeState) { |t.fringe| == Popcount(t.size) }

  /** buildTree's copy into a slice of the given size: cut off, or padded with zero hashes. */
  function Padded(leaves: seq<Digest>, size: nat): (d: seq<Digest>)
    ensures |d| == size
  {
    if size <= |leaves| then leaves[..size] else leaves + seq(size - |leaves|, _ => ZERO_DIGEST)
  }

  lemma {:induction false} CarryLength(h: Hasher, fringe: seq<Digest>, carry: Digest, n: nat)
    requires |fringe| >= TrailingOnes(n)
    ensures |Carry(h, fringe, carry, n)| == |fringe| + 1 - TrailingOnes(n)
    decreases n
  {
    if n % 2 == 1 {
      CarryLength(h, fringe[..|fringe| - 1], h.node(fringe[|fringe| - 1], carry), n / 2);
    }
  }

  function Appended(h: Hasher, t: TreeState, leaf: Digest): (r: TreeState)
    requires WellShaped(t)
    ensures r.fringe != []
  {
    TrailingOnesFit(t.size);
    CarryLength(h, t.fringe, leaf, t.size);
    TreeState(t.leaves + [leaf], Carry(h, t.fringe, leaf, t.size), (t.size + 1) % WORD)
  }

  /** The zero hash for an empty tree, not RFC 6962's hash of the empty string. */
  function RootOf(h: Hasher, t: TreeState): Digest
    requires t.size > 0 ==> t.fringe != []
  {
    if t.size == 0 then ZERO_DIGEST else Fold(h, t.fringe)
  }

  /** RFC 6962's audit path over the stored leaves, or None past the end. */
  function ProofOf(h: Hasher, t: TreeState, i: nat): Option<seq<Digest>> {
    if i >= t.size then None else Some(Path(h, i, Padded(t.leaves, t.size)))
  }

  lemma AppendedIsWellShaped(h: Hasher, t: TreeState, leaf: Digest)
    requires WellShaped(t) && t.size < WORD - 1
    ensures WellShaped(Appended(h, t, leaf))
  {
    hide Carry, Popcount, TrailingOnes;
    TrailingOnesFit(t.size);
    CarryLength(h, t.fringe, leaf, t.size);
    assert (t.size + 1) % WORD == t.size + 1;
  }

  lemma {:induction false} ZerosAreZero(n: nat)
    ensures forall k :: 0 <= k < n ==> Zeros(n)[k] == 0
  {
    if n > 0 {
      ZerosAreZero(n - 1);
    }
  }

  class MerkleTree {
    const h: Hasher
    var leaves: seq<Digest>
    var fringe: seq<Digest>
    var size: uint64

    function View(): TreeState reads this { TreeState(leaves, fringe, size) }

    constructor (h: Hasher)
      ensures this.h == h && View() == EMPTY_TREE
    {
      this.h := h;
      leaves, fringe, size := [], [], 0;
    }

    constructor FromFringe(h: Hasher, fringe: seq<Digest>, size: uint64)
      ensures this.h == h && View() == TreeState([], fringe, size)
    {
      this.h := h;
      this.leaves, this.fringe, this.size := [], fringe, size;
    }

    method SetLeaves(hashes: seq<Digest>)
      modifies this`leaves
      ensures View() == old(View()).(leaves := hashes)
    {
      leaves := hashes;
    }

    /** Returns the new leaf's index; calls counts the NodeHash calls of the carry loop. */
    method Append(leafData: Bytes) returns (idx: uint64, ghost calls: nat)
      requires WellShaped(View())
      modifies this`leaves, this`fringe, this`size
      ensures idx == old(size)
      ensures View() == Appended(h, old(View()), h.leaf(leafData))
      ensures fringe != []
      ensures idx < WORD - 1 ==> WellShaped(View())
      ensures calls == TrailingOnes(idx)
    {
      idx := size;
      var carry := h.leaf(leafData);
      leaves := leaves + [carry];
      calls := 0;
      TrailingOnesFit(size);
      if size < WORD - 1 {
        AppendedIsWellShaped(h, old(View()), carry);
      }
      ghost var goal := Appended(h, old(View()), carry);
      ghost var grown := goal.fringe;
      assert goal.leaves == leaves && goal.size == (size + 1) % WORD;
      var n: nat := idx;
      while n > 0 && n % 2 == 1
        invariant leaves == goal.leaves && size == old(size)
        invariant |fringe| >= TrailingOnes(n)
        invariant Carry(h, fringe, carry, n) == grown
        invariant calls + TrailingOnes(n) == TrailingOnes(idx)
      {
        carry := h.node(fringe[|fringe| - 1], carry);
        fringe := fringe[..|fringe| - 1];
        n := n / 2;
        calls := calls + 1;
      }
      fringe := fringe + [carry];
      size := (size + 1) % WORD;
    }

    method Root() returns (root: Digest)
      requires size > 0 ==> fringe != []
      ensures root == RootOf(h, View())
      ensures size == 0 ==> forall k :: 0 <= k < 32 ==> root.bytes[k] == 0
    {
      ZerosAreZero(DIGEST_LENGTH);
      if size == 0 {
        return ZERO_DIGEST;
      }
      if |fringe| == 1 {
        return fringe[0];
      }
      root := fringe[|fringe| - 1];
      var i := |fringe| - 2;
      while i >= 0
        invariant -1 <= i < |fringe| - 1
        invariant root == Fold(h, fringe[i + 1..])
        decreases i
      {
        assert fringe[i..][1..] == fringe[i + 1..];
        root := h.node(fringe[i], root);
        i := i - 1;
      }
      assert fringe[0..] == fringe;
    }

    method Proof(leafIndex: uint64) returns (path: Option<seq<Digest>>)
      ensures path == ProofOf(h, View(), leafIndex)
    {
      hide Next, Path, Padded, Mth;
      if leafIndex >= size {
        return None;
      }
      ghost var d := Padded(leaves, size);
      var levels := BuildTree(h, leaves, size);
      var auditPath := [];
      var idx: nat := leafIndex;
      var level := 0;
      assert levels[0..] == levels;
      while level < |levels| - 1
        invariant 0 <= level < |levels|
        invariant levels[level] != [] && idx < |levels[level]|
        invariant levels[level..] == Rows(h, levels[level])
        invariant auditPath + LevelPath(h, idx, levels[level]) == LevelPath(h, leafIndex, d)
      {
        var row := levels[level];
        RowsStep(h, row, levels, level);
        assert auditPath + LevelPath(h, idx, row)
            == (auditPath + Sibling(row, idx)) + LevelPath(h, idx / 2, Next(h, row));
        ghost var extended := auditPath + Sibling(row, idx);
        if idx % 2 == 0 {
          if idx + 1 < |row| {
            auditPath := auditPath + [row[idx + 1]];
          }
        } else {
          auditPath := auditPath + [row[idx - 1]];
        }
        assert auditPath == extended;
        idx := idx / 2;
        level := level + 1;
      }
      LastRow(h, levels[level], idx);
      assert levels[level..] == [levels[level]];
      LevelPathIsPath(h, leafIndex, d);
      assert auditPath + [] == auditPath;
      path := Some(auditPath);
    }
  }

  lemma LastRow(h: Hasher, row: seq<Digest>, idx: nat)
    requires idx < |row|
    ensures |Rows(h, row)| == 1 ==> LevelPath(h, idx, row) == []
  {
  }

  lemma RowsStep(h: Hasher, row: seq<Digest>, levels: seq<seq<Digest>>, level: nat)
    requires level + 1 < |levels| && row == levels[level] != []
    requires levels[level..] == Rows(h, row)
    ensures |row| > 1 && levels[level + 1] == Next(h, row)
    ensures levels[level + 1..] == Rows(h, Next(h, row))
  {
    assert levels[level..][1..] == levels[level + 1..];
    assert levels[level..][1] == levels[level + 1];
  }

  /** All rows of the tree, from the padded leaves to the root. */
  method BuildTree(h: Hasher, leaves: seq<Digest>, size: uint64) returns (levels: seq<seq<Digest>>)
    ensures size == 0 ==> levels == []
    ensures size > 0 ==> levels == Rows(h, Padded(leaves, size))
    ensures size > 0 ==> levels[|levels| - 1] == [Mth(h, Padded(leaves, size))]
    ensures size > 0 ==> |levels| == TreeDepth(size) + 1
  {
    hide Mth, Path, Padded, TreeDepth, Next;
    if size == 0 {
      return [];
    }
    var current := Padded(leaves, size);
    RowsTop(h, current);
    ShapeByDepth(h, current, 0);
    levels := [current];
    ghost var done := [];
    while |current| > 1
      invariant current != [] && levels == done + [current]
      invariant done + Rows(h, current) == Rows(h, Padded(leaves, size))
      decreases |current|
    {
      var next := NextRow(h, current);
      assert done + ([current] + Rows(h, next)) == (done + [current]) + Rows(h, next);
      done := levels;
      levels := levels + [next];
      current := next;
    }
  }

  /** The inner loop of buildTree. */
  method NextRow(h: Hasher, current: seq<Digest>) returns (next: seq<Digest>)
    ensures next == Next(h, current)
  {
    next := [];
    var i := 0;
    while i + 1 < |current|
      invariant 0 <= i <= |current| && i % 2 == 0
      invariant next == Next(h, current[..i])
    {
      NextAppend(h, current[..i], [current[i], current[i + 1]]);
      assert current[..i + 2] == current[..i] + [current[i], current[i + 1]];
      next := next + [h.node(current[i], current[i + 1])];
      i := i + 2;
    }
    NextAppend(h, current[..i], current[i..]);
    assert current == current[..i] + current[i..];
    if |current| % 2 == 1 {
      next := next + [current[|current| - 1]];
    }
  }

  method VerifyProof(h: Hasher, leafData: Bytes, leafIndex: uint64, treeSize: uint64,
                     auditPath: seq<Digest>, expectedRoot: Digest) returns (ok: bool)
    ensures ok <==> Verifies(h, leafData, leafIndex, treeSize, auditPath, expectedRoot)
  {
    hide HalfWord;
    if leafIndex >= treeSize {
      return false;
    }
    var current, idx, pathIdx, n := h.leaf(leafData), leafIndex, 0, treeSize;
    assert auditPath[0..] == auditPath;
    while n > 1
      invariant 0 <= pathIdx <= |auditPath|
      invariant Recompute(h, h.leaf(leafData), leafIndex, treeSize, auditPath)
             == Recompute(h, current, idx, n, auditPath[pathIdx..])
      decreases n
    {
      assert pathIdx < |auditPath| ==> auditPath[pathIdx..][1..] == auditPath[pathIdx + 1..];
      if idx % 2 == 0 {
        if idx + 1 < n {
          if pathIdx >= |auditPath| {
            return false;
          }
          current := h.node(current, auditPath[pathIdx]);
          pathIdx := pathIdx + 1;
        }
      } else {
        if pathIdx >= |auditPath| {
          return false;
        }
        current := h.node(auditPath[pathIdx], current);
        pathIdx := pathIdx + 1;
      }
      idx := idx / 2;
      n := HalfWord(n);
    }
    ok := pathIdx == |auditPath| && current == expectedRoot;
  }

  // ----- the tree built by a list of appends -----

  function TreeOf(h: Hasher, entries: seq<Bytes>): (t: TreeState)
    requires |entries| < WORD
  {
    TreeState(LeafHashes(h, entries), FringeOf(h, LeafHashes(h, entries)), |entries|)
  }

  /** Appending one entry to the tree of a list gives the tree of the longer list; in particular
      both representations keep describing the same leaves. */
  lemma AppendedIsTreeOf(h: Hasher, entries: seq<Bytes>, data: Bytes)
    requires |entries| < WORD - 1
    ensures WellShaped(TreeOf(h, entries)) && WellShaped(TreeOf(h, entries + [data]))
    ensures Appended(h, TreeOf(h, entries), h.leaf(data)) == TreeOf(h, entries + [data])
  {
    hide FringeOf, Carry, Popcount, TrailingOnes;
    var d := LeafHashes(h, entries);
    CarryIsFringe(h, d, h.leaf(data));
    FringeLength(h, d + [h.leaf(data)]);
    assert LeafHashes(h, entries + [data]) == d + [h.leaf(data)];
  }

  /** The incremental root and the level-by-level rebuild agree with each other and with RFC 6962. */
  lemma RootIsMth(h: Hasher, entries: seq<Bytes>)
    requires 0 < |entries| < WORD
    ensures WellShaped(TreeOf(h, entries)) && TreeOf(h, entries).fringe != []
    ensures var d := LeafHashes(h, entries); var rows := Rows(h, d);
      RootOf(h, TreeOf(h, entries)) == Mth(h, d) && rows[|rows| - 1] == [Mth(h, d)]
  {
    hide FringeOf, Mth, Rows, Fold, Popcount;
    var d := LeafHashes(h, entries);
    FringeLength(h, d);
    FoldIsMth(h, d);
    RowsTop(h, d);
  }

  /** Every proof the tree hands out verifies against its own root and size, unless the size is the
      largest uint64. */
  lemma ProofsVerify(h: Hasher, entries: seq<Bytes>, i: nat)
    requires i < |entries| < WORD
    ensures var t := TreeOf(h, entries);
      && t.fringe != [] && ProofOf(h, t, i).Some?
      && (Verifies(h, entries[i], i, t.size, ProofOf(h, t, i).value, RootOf(h, t)) <==> t.size < WORD - 1)
  {
    hide Mth, Path, RootOf, Verifies, FringeOf;
    RootIsMth(h, entries);
    HonestProofAcceptedIff(h, entries, i);
    var d := LeafHashes(h, entries);
    assert Padded(d, |d|) == d;
  }
}
