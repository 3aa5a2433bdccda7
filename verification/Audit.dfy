/** VerifyProof's walk over index and size: when it accepts, and what acceptance proves. */
module Audit {
  import opened Basics
  import opened Hashing
  import opened Rfc6962
  import opened Levels
  import opened Fringe

  /** uint64 arithmetic wraps at 2^64. */
  const WORD := 0x1_0000_0000_0000_0000

  /** (n + 1) / 2 on a uint64: the addition wraps for the largest word. */
  function HalfWord(n: nat): (r: nat)
    requires n < WORD
    ensures r < WORD && (n > 1 ==> r < n)
  {
    ((n + 1) % WORD) / 2
  }

  lemma HalfWordIsHalf(n: nat)
    requires n < WORD - 1
    ensures HalfWord(n) == Half(n) && Half(n) < WORD - 1
  {
  }

  /** One round of VerifyProof's loop: the parent node and the unread path, or None when the path
      has run out. A promoted node reads nothing. */
  function Climb(h: Hasher, current: Digest, idx: nat, n: nat, path: seq<Digest>): Option<(Digest, seq<Digest>)> {
    if idx % 2 == 0 && idx + 1 >= n then Some((current, path))
    else if path == [] then None
    else Some((if idx % 2 == 0 then h.node(current, path[0]) else h.node(path[0], current), path[1..]))
  }

  /** The root recomputed from a node at position idx of a row of n, or None when the path has too
      few or too many entries. */
  function Recompute(h: Hasher, current: Digest, idx: nat, n: nat, path: seq<Digest>): Option<Digest>
    requires n < WORD
    decreases n
  {
    if n <= 1 then
      if path == [] then Some(current) else None
    else
      match Climb(h, current, idx, n, path)
      case None => None
      case Some((up, rest)) => Recompute(h, up, idx / 2, HalfWord(n), rest)
  }

  predicate Verifies(h: Hasher, data: Bytes, idx: nat, n: nat, path: seq<Digest>, root: Digest)
    requires n < WORD
  {
    idx < n && Recompute(h, h.leaf(data), idx, n, path) == Some(root)
  }

  lemma HonestClimb(h: Hasher, d: seq<Digest>, m: nat, rest: seq<Digest>)
    requires m < |d|
    ensures m / 2 < Half(|d|)
    ensures Climb(h, d[m], m, |d|, Sibling(d, m) + rest) == Some((Next(h, d)[m / 2], rest))
  {
    hide Next;
    NextAt(h, d, m / 2);
    var s := Sibling(d, m);
    if s == [] {
      assert s + rest == rest;
    } else {
      assert (s + rest)[0] == s[0] && (s + rest)[1..] == rest;
    }
  }

  /** Completeness of the walk: RFC 6962's path leads from a leaf hash to the Merkle Tree Hash. */
  lemma {:induction false} HonestPathRecomputes(h: Hasher, d: seq<Digest>, m: nat)
    requires m < |d| < WORD - 1
    ensures Recompute(h, d[m], m, |d|, Path(h, m, d)) == Some(Mth(h, d))
    decreases |d|
  {
    hide Next, Mth, Path, Sibling, Climb, HalfWord;
    if |d| == 1 {
      SingleLeaf(h, d);
    } else {
      PathNext(h, m, d);
      MthNext(h, d);
      HalfWordIsHalf(|d|);
      HonestClimb(h, d, m, Path(h, m / 2, Next(h, d)));
      HonestPathRecomputes(h, Next(h, d), m / 2);
    }
  }

  lemma SingleLeaf(h: Hasher, d: seq<Digest>)
    requires |d| == 1
    ensures Mth(h, d) == d[0] && Path(h, 0, d) == []
  {
  }

  /** The claimed and the real inputs of one NodeHash call on the way up. */
  function ClimbPair(d: seq<Digest>, current: Digest, idx: nat, path: seq<Digest>): Pair
    requires idx < |d|
  {
    var i := 2 * (idx / 2);
    if i + 1 >= |d| || path == [] then Pair(LeafInput([]), LeafInput([]))
    else if idx % 2 == 0 then Pair(NodeInput(current, path[0]), NodeInput(d[i], d[i + 1]))
    else Pair(NodeInput(path[0], current), NodeInput(d[i], d[i + 1]))
  }

  /** The two node inputs that collide when a path other than the honest one reaches the root:
      walks the path and the real rows together and returns the level where they part. */
  function WalkCollision(h: Hasher, current: Digest, idx: nat, d: seq<Digest>, path: seq<Digest>): Pair
    requires idx < |d|
    decreases |d|
  {
    var here := ClimbPair(d, current, idx, path);
    if |d| == 1 || IsCollision(h, here) then here else
      match Climb(h, current, idx, |d|, path)
      case None => here
      case Some((up, rest)) => WalkCollision(h, up, idx / 2, Next(h, d), rest)
  }

  /** Reaching the real parent means having started from the real node and its real sibling. */
  lemma OnlyHonestClimb(h: Hasher, d: seq<Digest>, idx: nat, current: Digest, path: seq<Digest>, rest: seq<Digest>)
    requires idx < |d|
    requires Climb(h, current, idx, |d|, path) == Some((Next(h, d)[idx / 2], rest))
    requires !IsCollision(h, ClimbPair(d, current, idx, path))
    ensures current == d[idx] && path == Sibling(d, idx) + rest
  {
    hide Next;
    NextAt(h, d, idx / 2);
    assert idx % 2 == 0 ==> 2 * (idx / 2) == idx;
    assert idx % 2 == 1 ==> 2 * (idx / 2) == idx - 1;
    if idx % 2 == 0 && idx + 1 >= |d| {
      assert [] + rest == rest;
    } else {
      assert path == [path[0]] + path[1..];
    }
  }

  /** Soundness of the walk: reaching the real root from anything but the real node and the real
      path exhibits a collision. */
  lemma {:induction false} OnlyHonestPathRecomputes(h: Hasher, d: seq<Digest>, idx: nat, current: Digest,
                                                    path: seq<Digest>)
    requires idx < |d| < WORD - 1
    requires Recompute(h, current, idx, |d|, path) == Some(Mth(h, d))
    requires !IsCollision(h, WalkCollision(h, current, idx, d, path))
    ensures current == d[idx] && path == Path(h, idx, d)
    decreases |d|
  {
    hide Next, Mth, Path, Sibling, Climb, HalfWord, ClimbPair, IsCollision;
    if |d| == 1 {
      SingleLeaf(h, d);
    } else {
      var (up, rest) := Climb(h, current, idx, |d|, path).value;
      HalfWordIsHalf(|d|);
      MthNext(h, d);
      PathNext(h, idx, d);
      OnlyHonestPathRecomputes(h, Next(h, d), idx / 2, up, rest);
      OnlyHonestClimb(h, d, idx, current, path, rest);
    }
  }

  // ----- leaf data -----

  function LeafHashes(h: Hasher, entries: seq<Bytes>): (d: seq<Digest>)
    ensures |d| == |entries|
  {
    seq(|entries|, i requires 0 <= i < |entries| => h.leaf(entries[i]))
  }

  /** The hash inputs that collide when VerifyProof accepts something other than the log's own
      entry and path. */
  function Forgery(h: Hasher, entries: seq<Bytes>, data: Bytes, idx: nat, path: seq<Digest>): Pair
    requires idx < |entries|
  {
    var leaves := Pair(LeafInput(data), LeafInput(entries[idx]));
    if IsCollision(h, leaves) then leaves
    else WalkCollision(h, h.leaf(data), idx, LeafHashes(h, entries), path)
  }

  /** VerifyProof accepts exactly the entry at that index with its RFC 6962 audit path; anything
      else it accepts is a collision. */
  lemma AcceptsExactlyTheHonestProof(h: Hasher, entries: seq<Bytes>, data: Bytes, idx: nat, path: seq<Digest>)
    requires 0 < |entries| < WORD - 1
    ensures var d := LeafHashes(h, entries);
      && (idx < |entries| && data == entries[idx] && path == Path(h, idx, d)
          ==> Verifies(h, data, idx, |entries|, path, Mth(h, d)))
      && (Verifies(h, data, idx, |entries|, path, Mth(h, d)) ==>
          || (data == entries[idx] && path == Path(h, idx, d))
          || IsCollision(h, Forgery(h, entries, data, idx, path)))
  {
    hide Recompute, WalkCollision, Path, Mth;
    var d := LeafHashes(h, entries);
    if idx < |entries| {
      HonestPathRecomputes(h, d, idx);
      if Verifies(h, data, idx, |entries|, path, Mth(h, d)) && !IsCollision(h, Forgery(h, entries, data, idx, path)) {
        OnlyHonestPathRecomputes(h, d, idx, h.leaf(data), path);
      }
    }
  }

  // ----- the largest tree size -----

  lemma LongPath(h: Hasher, d: seq<Digest>, m: nat)
    requires m < |d| && |d| > 2 && Half(|d|) % 2 == 0 && Half(Half(|d|)) % 2 == 0
    ensures |Path(h, m, d)| >= 2
  {
    hide Next, Path;
    PathNext(h, m, d);
    PathNext(h, m / 2, Next(h, d));
    PathNext(h, m / 2 / 2, Next(h, Next(h, d)));
  }

  lemma WrappedWalk(h: Hasher, current: Digest, idx: nat, path: seq<Digest>)
    requires |path| >= 2
    ensures Recompute(h, current, idx, WORD - 1, path) == None
  {
    assert HalfWord(WORD - 1) == 0;
  }

  /** n + 1 wraps for the largest uint64, which ends the walk after one level: every honest proof
      for a tree of 2^64 - 1 leaves is refused, and no honest proof for a smaller tree is. */
  lemma HonestProofAcceptedIff(h: Hasher, entries: seq<Bytes>, idx: nat)
    requires idx < |entries| < WORD
    ensures var d := LeafHashes(h, entries);
      Verifies(h, entries[idx], idx, |entries|, Path(h, idx, d), Mth(h, d)) <==> |entries| != WORD - 1
  {
    hide Path, Mth;
    var d := LeafHashes(h, entries);
    if |entries| == WORD - 1 {
      LongPath(h, d, idx);
      WrappedWalk(h, h.leaf(entries[idx]), idx, Path(h, idx, d));
    } else {
      HonestPathRecomputes(h, d, idx);
    }
  }

  // ----- path and tree shape -----

  function BitLength(n: nat): nat { if n == 0 then 0 else 1 + BitLength(n / 2) }

  /** treeDepth: bits.Len64(size - 1), and 0 for at most one leaf. */
  function TreeDepth(n: nat): nat { if n <= 1 then 0 else BitLength(n - 1) }

  lemma DepthHalves(n: nat)
    requires n > 1
    ensures TreeDepth(n) == 1 + TreeDepth(Half(n))
  {
    assert (n - 1) / 2 == Half(n) - 1;
  }

  // ----- the claimed size -----

  /** The sides the walk takes, leaf first: true where the node is a left child with a sibling. */
  function Turns(idx: nat, n: nat): seq<bool>
    requires n < WORD
    decreases n
  {
    if n <= 1 then []
    else (if idx % 2 == 0 && idx + 1 >= n then [] else [idx % 2 == 0]) + Turns(idx / 2, HalfWord(n))
  }

  function TakeTurns(h: Hasher, current: Digest, turns: seq<bool>, path: seq<Digest>): Option<Digest>
    decreases |turns|
  {
    if turns == [] then (if path == [] then Some(current) else None)
    else if path == [] then None
    else TakeTurns(h, if turns[0] then h.node(current, path[0]) else h.node(path[0], current), turns[1..], path[1..])
  }

  /** Index and size enter the walk through its turns alone. */
  lemma {:induction false} RecomputeTakesTurns(h: Hasher, current: Digest, idx: nat, n: nat, path: seq<Digest>)
    requires n < WORD
    ensures Recompute(h, current, idx, n, path) == TakeTurns(h, current, Turns(idx, n), path)
    decreases n
  {
    if n > 1 {
      var later := Turns(idx / 2, HalfWord(n));
      match Climb(h, current, idx, n, path)
      case None => assert path == [];
      case Some((up, rest)) =>
        RecomputeTakesTurns(h, up, idx / 2, HalfWord(n), rest);
        assert [] + later == later && ([true] + later)[1..] == later && ([false] + later)[1..] == later;
    }
  }

  lemma {:induction false} TurnsUsePath(h: Hasher, current: Digest, turns: seq<bool>, path: seq<Digest>)
    ensures TakeTurns(h, current, turns, path).Some? <==> |path| == |turns|
    decreases |turns|
  {
    if turns != [] && path != [] {
      var up := if turns[0] then h.node(current, path[0]) else h.node(path[0], current);
      TurnsUsePath(h, up, turns[1..], path[1..]);
    }
  }

  /** The verifier does not bind the claimed size. A proof accepted under one size is accepted under
      every other size with the same turns for its index, and under none with another number of turns. */
  lemma AcceptedClaimedSizes(h: Hasher, data: Bytes, idx: nat, n: nat, claimed: nat, path: seq<Digest>, root: Digest)
    requires n < WORD && idx < claimed < WORD && Verifies(h, data, idx, n, path, root)
    ensures Turns(idx, claimed) == Turns(idx, n) ==> Verifies(h, data, idx, claimed, path, root)
    ensures Verifies(h, data, idx, claimed, path, root) ==> |Turns(idx, claimed)| == |Turns(idx, n)|
  {
    RecomputeTakesTurns(h, h.leaf(data), idx, n, path);
    RecomputeTakesTurns(h, h.leaf(data), idx, claimed, path);
    TurnsUsePath(h, h.leaf(data), Turns(idx, n), path);
    TurnsUsePath(h, h.leaf(data), Turns(idx, claimed), path);
  }

  /** For the first leaf that is every size of the same depth. */
  lemma {:induction false} FirstLeafTurns(n: nat)
    requires 0 < n < WORD - 1
    ensures |Turns(0, n)| == TreeDepth(n) && forall k :: 0 <= k < |Turns(0, n)| ==> Turns(0, n)[k]
    decreases n
  {
    if n > 1 {
      HalfWordIsHalf(n);
      DepthHalves(n);
      FirstLeafTurns(Half(n));
    }
  }

  /** buildTree has treeDepth + 1 rows and no audit path is longer than treeDepth. */
  lemma {:induction false} ShapeByDepth(h: Hasher, d: seq<Digest>, m: nat)
    requires m < |d|
    ensures |Rows(h, d)| == TreeDepth(|d|) + 1
    ensures |Path(h, m, d)| <= TreeDepth(|d|)
    decreases |d|
  {
    hide Next, Path;
    if |d| == 1 {
      SingleLeaf(h, d);
    } else {
      DepthHalves(|d|);
      PathNext(h, m, d);
      ShapeByDepth(h, Next(h, d), m / 2);
    }
  }

  // ----- append-only stability -----

  function Pow2(e: nat): (p: nat)
    ensures p >= 1
  {
    if e == 0 then 1 else 2 * Pow2(e - 1)
  }

  /** lo is a multiple of 2^e. */
  predicate Aligned(lo: nat, e: nat) {
    e == 0 || (lo % 2 == 0 && Aligned(lo / 2, e - 1))
  }

  /** Inside a complete aligned block of 2^e leaves the path starts with the block's own path. */
  lemma {:induction false} BlockPath(h: Hasher, d: seq<Digest>, e: nat, lo: nat, m: nat)
    requires Aligned(lo, e) && lo <= m < lo + Pow2(e) <= |d|
    ensures e <= |Path(h, m, d)|
    ensures Path(h, m, d)[..e] == Path(h, m - lo, d[lo..lo + Pow2(e)])
    decreases e
  {
    hide Next, Path, Sibling;
    var block := d[lo..lo + Pow2(e)];
    if e == 0 {
      SingleLeaf(h, block);
    } else {
      BlockHalves(e, lo, m);
      hide Aligned, Pow2;
      NextBlock(h, d, lo / 2, lo / 2 + Pow2(e - 1));
      PathNext(h, m, d);
      PathNext(h, m - lo, block);
      BlockPath(h, Next(h, d), e - 1, lo / 2, m / 2);
      SiblingInBlock(d, lo, Pow2(e - 1), m);
      hide Pow2;
      OneMore(Sibling(d, m), Path(h, m / 2, Next(h, d)), Path(h, m / 2 - lo / 2, Next(h, block)), e - 1);
    }
  }

  lemma OneMore<T>(s: seq<T>, q: seq<T>, r: seq<T>, n: nat)
    requires |s| == 1 && n <= |q| && q[..n] == r
    ensures (s + q)[..n + 1] == s + r
  {
  }

  lemma BlockHalves(e: nat, lo: nat, m: nat)
    requires e > 0 && Aligned(lo, e) && lo <= m < lo + Pow2(e)
    ensures lo % 2 == 0 && Pow2(e) == 2 * Pow2(e - 1) && Aligned(lo / 2, e - 1)
    ensures lo / 2 <= m / 2 < lo / 2 + Pow2(e - 1) && (m - lo) / 2 == m / 2 - lo / 2
  {
  }

  lemma SiblingInBlock(d: seq<Digest>, lo: nat, half: nat, m: nat)
    requires lo % 2 == 0 && lo <= m < lo + 2 * half <= |d|
    ensures Sibling(d[lo..lo + 2 * half], m - lo) == Sibling(d, m) && |Sibling(d, m)| == 1
  {
    var other := if m % 2 == 0 then m + 1 else m - 1;
    assert other < lo + 2 * half && d[lo..lo + 2 * half][other - lo] == d[other];
  }

  lemma NextBlock(h: Hasher, d: seq<Digest>, lo: nat, hi: nat)
    requires lo <= hi && 2 * hi <= |d|
    ensures Next(h, d)[lo..hi] == Next(h, d[2 * lo..2 * hi])
  {
    hide Next;
    NextTakeDrop(h, d, hi);
    NextTakeDrop(h, d[..2 * hi], lo);
    assert Next(h, d)[lo..hi] == Next(h, d)[..hi][lo..];
    assert d[2 * lo..2 * hi] == d[..2 * hi][2 * lo..];
  }

  /** Once leaf m lies in a complete aligned block of 2^e leaves, the first e entries of its audit
      path never change again, whatever is appended. */
  lemma AuditPathPrefixIsStable(h: Hasher, d: seq<Digest>, more: seq<Digest>, e: nat, lo: nat, m: nat)
    requires Aligned(lo, e) && lo <= m < lo + Pow2(e) <= |d|
    ensures e <= |Path(h, m, d)| && e <= |Path(h, m, d + more)|
    ensures Path(h, m, d + more)[..e] == Path(h, m, d)[..e]
  {
    hide Path, Pow2, Aligned;
    BlockPath(h, d, e, lo, m);
    BlockPath(h, d + more, e, lo, m);
    assert (d + more)[lo..lo + Pow2(e)] == d[lo..lo + Pow2(e)];
  }

  /** The odd last leaf of n, a perfect subtree by itself. */
  predicate Alone(n: nat, m: nat) { n % 2 == 1 && m == n - 1 }

  lemma HalvesFit(n: nat, m: nat)
    requires m < n && !Alone(n, m)
    ensures m / 2 < n / 2 < n
  {
  }

  /** The maximal perfect subtree of an n-leaf tree that holds leaf m: its first leaf and height. */
  function FringeBlock(n: nat, m: nat): (nat, nat)
    requires m < n
    decreases n
  {
    if Alone(n, m) then (m, 0)
    else
      HalvesFit(n, m);
      var up := FringeBlock(n / 2, m / 2);
      (2 * up.0, up.1 + 1)
  }

  lemma {:induction false} FringeBlockHolds(n: nat, m: nat)
    requires m < n
    ensures var (lo, e) := FringeBlock(n, m);
      0 <= lo && 0 <= e && Aligned(lo, e) && lo <= m < lo + Pow2(e) <= n
    decreases n
  {
    if !Alone(n, m) {
      HalvesFit(n, m);
      FringeBlockHolds(n / 2, m / 2);
      assert 2 * FringeBlock(n / 2, m / 2).0 / 2 == FringeBlock(n / 2, m / 2).0;
    }
  }

  /** Every leaf lies in such a subtree, and the fringe holds that subtree's hash. */
  lemma {:induction false} FringeCoversLeaves(h: Hasher, d: seq<Digest>, m: nat)
    requires m < |d|
    ensures var (lo, e) := FringeBlock(|d|, m);
      && 0 <= lo && 0 <= e && Aligned(lo, e) && lo <= m < lo + Pow2(e) <= |d|
      && Mth(h, d[lo..lo + Pow2(e)]) in FringeOf(h, d)
    decreases |d|
  {
    hide Next, Mth, FringeOf, Aligned, Pairs, Pow2, FringeBlock;
    FringeBlockHolds(|d|, m);
    if Alone(|d|, m) {
      assert FringeBlock(|d|, m) == (m, 0) && Pow2(0) == 1 by { LastFringeBlock(|d|); }
      FringeHoldsLast(h, d);
    } else {
      HalvesFit(|d|, m);
      FringeBlockUp(|d|, m);
      FringeBlockHolds(|d| / 2, m / 2);
      FringeCoversLeaves(h, Next(h, Pairs(d)), m / 2);
      var (lo, e) := FringeBlock(|d| / 2, m / 2);
      TwicePow2(e);
      FringeLifts(h, d, lo, Pow2(e));
    }
  }

  lemma LastFringeBlock(n: nat)
    requires n % 2 == 1
    ensures FringeBlock(n, n - 1) == (n - 1, 0) && Pow2(0) == 1
  {
  }

  lemma FringeBlockUp(n: nat, m: nat)
    requires m < n && !Alone(n, m) && m / 2 < n / 2
    ensures FringeBlock(n, m) == (2 * FringeBlock(n / 2, m / 2).0, FringeBlock(n / 2, m / 2).1 + 1)
  {
    hide Alone;
  }

  lemma TwicePow2(e: nat)
    ensures Pow2(e + 1) == 2 * Pow2(e)
  {
  }

  /** An odd last leaf is a fringe entry of its own. */
  lemma FringeHoldsLast(h: Hasher, d: seq<Digest>)
    requires |d| % 2 == 1
    ensures Mth(h, d[|d| - 1..|d|]) in FringeOf(h, d)
  {
    hide Next, Mth, FringeOf;
    FringeByDigits(h, d);
    assert Odd(d) == [d[|d| - 1]] && d[|d| - 1..|d|] == [d[|d| - 1]];
    SingleLeaf(h, d[|d| - 1..|d|]);
  }

  /** A block in the fringe one level up is a block of twice the width in the fringe. */
  lemma FringeLifts(h: Hasher, d: seq<Digest>, lo: nat, w: nat)
    requires 0 < w && lo + w <= |d| / 2
    requires Mth(h, Next(h, Pairs(d))[lo..lo + w]) in FringeOf(h, Next(h, Pairs(d)))
    ensures Mth(h, d[2 * lo..2 * lo + 2 * w]) in FringeOf(h, d)
  {
    hide Next, Mth, FringeOf;
    FringeByDigits(h, d);
    PairedBlock(h, d, lo, w);
  }

  lemma PairedBlock(h: Hasher, d: seq<Digest>, lo: nat, w: nat)
    requires 0 < w && lo + w <= |d| / 2
    ensures Mth(h, Next(h, Pairs(d))[lo..lo + w]) == Mth(h, d[2 * lo..2 * lo + 2 * w])
  {
    hide Next, Mth;
    NextBlock(h, Pairs(d), lo, lo + w);
    assert Pairs(d)[2 * lo..2 * (lo + w)] == d[2 * lo..2 * lo + 2 * w];
    MthNext(h, d[2 * lo..2 * lo + 2 * w]);
  }

  /** Append-only stability: with leaf m in a fringe subtree of height e, the first e entries of its
      audit path are the same at every later size. */
  lemma FringePathIsStable(h: Hasher, d: seq<Digest>, more: seq<Digest>, m: nat)
    requires m < |d|
    ensures var e := FringeBlock(|d|, m).1;
      && 0 <= e <= |Path(h, m, d)| && e <= |Path(h, m, d + more)|
      && Path(h, m, d + more)[..e] == Path(h, m, d)[..e]
  {
    hide Path, FringeBlock, Aligned, Pow2;
    FringeCoversLeaves(h, d, m);
    var (lo, e) := FringeBlock(|d|, m);
    AuditPathPrefixIsStable(h, d, more, e, lo, m);
  }
}
