/** What a root commits to: different logs with one root, and one path for two sizes, exhibit a
    collision of the hash. */
module Commitment {
  import opened Hashing
  import opened Rfc6962
  import opened Levels
  import opened Audit

  const NO_PAIR := Pair(LeafInput([]), LeafInput([]))

  /** Top node input of a tree: the leaf itself, or the two subtree hashes. */
  function TopInput(h: Hasher, a: seq<Bytes>): Preimage
    requires a != []
  {
    if |a| == 1 then LeafInput(a[0]) else
      var k := Split(|a|);
      NodeInput(Mth(h, LeafHashes(h, a[..k])), Mth(h, LeafHashes(h, a[k..])))
  }

  lemma TopInputIsMth(h: Hasher, a: seq<Bytes>)
    requires a != []
    ensures Evaluate(h, TopInput(h, a)) == Mth(h, LeafHashes(h, a))
  {
    if |a| > 1 {
      var k := Split(|a|);
      assert LeafHashes(h, a)[..k] == LeafHashes(h, a[..k]);
      assert LeafHashes(h, a)[k..] == LeafHashes(h, a[k..]);
    }
  }

  /** The colliding hash inputs behind two different logs with one root. */
  function RootCollision(h: Hasher, a: seq<Bytes>, b: seq<Bytes>): Pair
    requires a != [] && b != []
    decreases |a|
  {
    var top := Pair(TopInput(h, a), TopInput(h, b));
    if IsCollision(h, top) || |a| == 1 || |b| == 1 then top else
      var j, k := Split(|a|), Split(|b|);
      if a[..j] != b[..k] then RootCollision(h, a[..j], b[..k])
      else RootCollision(h, a[j..], b[k..])
  }

  /** A root commits to the whole log, its length included. */
  lemma {:induction false} RootCommits(h: Hasher, a: seq<Bytes>, b: seq<Bytes>)
    requires a != [] && b != []
    requires Mth(h, LeafHashes(h, a)) == Mth(h, LeafHashes(h, b))
    ensures a == b || IsCollision(h, RootCollision(h, a, b))
    decreases |a|
  {
    hide Mth, LeafHashes;
    TopInputIsMth(h, a);
    TopInputIsMth(h, b);
    if !IsCollision(h, Pair(TopInput(h, a), TopInput(h, b))) && |a| > 1 && |b| > 1 {
      var j, k := Split(|a|), Split(|b|);
      if a[..j] != b[..k] {
        RootCommits(h, a[..j], b[..k]);
      } else {
        RootCommits(h, a[j..], b[k..]);
        assert a == a[..j] + a[j..] && b == b[..k] + b[k..];
      }
    }
  }

  // ----- proofs that race with an append -----

  /** In a perfect tree every path has full length. */
  lemma {:induction false} PerfectPathLength(h: Hasher, d: seq<Digest>, m: nat)
    requires m < |d| && IsPowerOfTwo(|d|)
    ensures |Path(h, m, d)| == TreeDepth(|d|)
    decreases |d|
  {
    hide Next, Path;
    if |d| == 1 {
      SingleLeaf(h, d);
    } else {
      DepthHalves(|d|);
      PathNext(h, m, d);
      PerfectPathLength(h, Next(h, d), m / 2);
    }
  }

  lemma {:induction false} DepthMonotone(m: nat, n: nat)
    requires m <= n
    ensures TreeDepth(m) <= TreeDepth(n)
  {
    if m > 1 {
      DepthHalves(m);
      DepthHalves(n);
      DepthMonotone(Half(m), Half(n));
    }
  }

  /** Growing a tree past its split point makes every path longer. */
  lemma OutgrownPathIsLonger(h: Hasher, d: seq<Digest>, later: seq<Digest>, m: nat)
    requires m < |d| < |later|
    requires |d| == 1 || Split(|d|) != Split(|later|)
    ensures |Path(h, m, d)| < |Path(h, m, later)|
  {
    hide TreeDepth;
    var k := Split(|later|);
    SplitIsLargestPowerOfTwo(|later|);
    if |d| > 1 {
      SplitIsLargestPowerOfTwo(|d|);
    }
    assert |d| <= k;
    ShapeByDepth(h, d, m);
    DepthMonotone(|d|, k);
    PerfectPathLength(h, later[..k], m);
  }

  /** The collision behind one audit path that serves a log and a longer version of it. */
  function StaleCollision(h: Hasher, a: seq<Bytes>, more: seq<Bytes>, m: nat): Pair
    requires m < |a|
    decreases |a|
  {
    if |a| == 1 || more == [] then NO_PAIR else
      var k := Split(|a|);
      if m < k then RootCollision(h, a[k..], a[k..] + more)
      else StaleCollision(h, a[k..], more, m - k)
  }

  /** An audit path is good for one tree size only. */
  lemma {:induction false} PathFixesSize(h: Hasher, a: seq<Bytes>, more: seq<Bytes>, m: nat)
    requires m < |a| && more != []
    requires Path(h, m, LeafHashes(h, a)) == Path(h, m, LeafHashes(h, a + more))
    ensures IsCollision(h, StaleCollision(h, a, more, m))
    decreases |a|
  {
    hide Mth, LeafHashes, IsCollision;
    var d, later := LeafHashes(h, a), LeafHashes(h, a + more);
    if |a| == 1 || Split(|a|) != Split(|a + more|) {
      OutgrownPathIsLonger(h, d, later, m);
    } else {
      var k := Split(|a|);
      LeafHashesSplit(h, a, more, k);
      assert Path(h, m, d)[|Path(h, m, d)| - 1] == Path(h, m, later)[|Path(h, m, d)| - 1];
      if m < k {
        RootCommits(h, a[k..], a[k..] + more);
      } else {
        assert Path(h, m, d)[..|Path(h, m, d)| - 1] == Path(h, m - k, d[k..]);
        assert Path(h, m, later)[..|Path(h, m, d)| - 1] == Path(h, m - k, later[k..]);
        PathFixesSize(h, a[k..], more, m - k);
      }
    }
  }

  lemma LeafHashesSplit(h: Hasher, a: seq<Bytes>, more: seq<Bytes>, k: nat)
    requires k <= |a|
    ensures LeafHashes(h, a)[k..] == LeafHashes(h, a[k..])
    ensures LeafHashes(h, a + more)[k..] == LeafHashes(h, a[k..] + more)
  {
  }

  function RaceCollision(h: Hasher, a: seq<Bytes>, more: seq<Bytes>, m: nat): Pair
    requires m < |a|
  {
    var path := Path(h, m, LeafHashes(h, a + more));
    var forged := Forgery(h, a, a[m], m, path);
    if IsCollision(h, forged) then forged else StaleCollision(h, a, more, m)
  }

  /** GetProof reads root and size in one critical section and each path in another. The response
      verifies when no append ran in between; when one did, a response that verifies all the same
      is a collision. */
  lemma RacedProofVerifies(h: Hasher, a: seq<Bytes>, more: seq<Bytes>, m: nat)
    requires m < |a| < WORD - 1
    ensures var sent := Verifies(h, a[m], m, |a|, Path(h, m, LeafHashes(h, a + more)), Mth(h, LeafHashes(h, a)));
      && (more == [] ==> sent)
      && (sent ==> more == [] || IsCollision(h, RaceCollision(h, a, more, m)))
  {
    hide Path, Mth, LeafHashes, Forgery, StaleCollision, Verifies;
    var path := Path(h, m, LeafHashes(h, a + more));
    assert a + [] == a;
    AcceptsExactlyTheHonestProof(h, a, a[m], m, path);
    if more != [] && path == Path(h, m, LeafHashes(h, a)) {
      PathFixesSize(h, a, more, m);
    }
  }
}
