/** The level-by-level view used by buildTree, Proof and VerifyProof, and its agreement with the
    recursive definitions of RFC 6962. */
module Levels {
  import opened Hashing
  import opened Rfc6962

  function Half(n: nat): nat { (n + 1) / 2 }

  /** One round of buildTree's loop: hash adjacent pairs, promote an odd last node unchanged. */
  function Next(h: Hasher, d: seq<Digest>): (r: seq<Digest>)
    ensures |r| == Half(|d|)
  {
    if |d| <= 1 then d else [h.node(d[0], d[1])] + Next(h, d[2..])
  }

  lemma {:induction false} NextAppend(h: Hasher, a: seq<Digest>, b: seq<Digest>)
    requires |a| % 2 == 0
    ensures Next(h, a + b) == Next(h, a) + Next(h, b)
  {
    if a == [] {
      assert a + b == b;
    } else {
      NextAppend(h, a[2..], b);
      assert (a + b)[2..] == a[2..] + b;
    }
  }

  /** What sits at index i of the next row. */
  lemma {:induction false} NextAt(h: Hasher, d: seq<Digest>, i: nat)
    requires 2 * i < |d|
    ensures Next(h, d)[i] == if 2 * i + 1 < |d| then h.node(d[2 * i], d[2 * i + 1]) else d[2 * i]
  {
    if i > 0 {
      NextAt(h, d[2..], i - 1);
    }
  }

  /** All rows, leaves first; the last row is the single root. */
  function Rows(h: Hasher, d: seq<Digest>): (rows: seq<seq<Digest>>)
    requires |d| > 0
    ensures |rows| > 0 && rows[0] == d
    decreases |d|
  {
    if |d| == 1 then [d] else [d] + Rows(h, Next(h, d))
  }

  /** The audit-path entries contributed by one row: the sibling, or nothing for a promoted node. */
  function Sibling(d: seq<Digest>, m: nat): seq<Digest>
    requires m < |d|
  {
    if m % 2 == 1 then [d[m - 1]] else if m + 1 < |d| then [d[m + 1]] else []
  }

  function LevelPath(h: Hasher, m: nat, d: seq<Digest>): seq<Digest>
    requires m < |d|
    decreases |d|
  {
    if |d| == 1 then [] else Sibling(d, m) + LevelPath(h, m / 2, Next(h, d))
  }

  lemma NextTakeDrop(h: Hasher, d: seq<Digest>, k: nat)
    requires 2 * k <= |d|
    ensures Next(h, d)[..k] == Next(h, d[..2 * k])
    ensures Next(h, d)[k..] == Next(h, d[2 * k..])
  {
    NextAppend(h, d[..2 * k], d[2 * k..]);
    assert d[..2 * k] + d[2 * k..] == d;
  }

  /** Halving a tree respects RFC 6962's split point. */
  lemma NextSplit(h: Hasher, d: seq<Digest>, k: nat)
    requires |d| > 2 && k == Split(Half(|d|))
    ensures Split(|d|) == 2 * k
    ensures Next(h, d)[..k] == Next(h, d[..2 * k])
    ensures Next(h, d)[k..] == Next(h, d[2 * k..])
  {
    hide Next;
    NextTakeDrop(h, d, k);
  }

  /** One round of pairing leaves the Merkle Tree Hash unchanged. */
  lemma {:induction false} MthNext(h: Hasher, d: seq<Digest>)
    requires |d| > 0
    ensures Mth(h, Next(h, d)) == Mth(h, d)
    decreases |d|
  {
    if |d| == 2 {
      assert d[..1] == [d[0]] && d[1..] == [d[1]];
    } else if |d| > 2 {
      var k := Split(Half(|d|));
      NextSplit(h, d, k);
      MthNext(h, d[..2 * k]);
      MthNext(h, d[2 * k..]);
    }
  }

  /** If the subtree holding m loses its first entries s when d shrinks to up, so does the tree. */
  lemma PathLeft(h: Hasher, m: nat, d: seq<Digest>, q: nat, up: seq<Digest>, k: nat, s: seq<Digest>)
    requires |d| >= 2 && m < Split(|d|) && |up| >= 2 && k == Split(|up|) && q < k
    requires Mth(h, up[k..]) == Mth(h, d[Split(|d|)..])
    requires Path(h, m, d[..Split(|d|)]) == s + Path(h, q, up[..k])
    ensures Path(h, m, d) == s + Path(h, q, up)
  {
    hide Mth, Split;
    var top := [Mth(h, up[k..])];
    assert (s + Path(h, q, up[..k])) + top == s + (Path(h, q, up[..k]) + top);
  }

  lemma PathRight(h: Hasher, m: nat, d: seq<Digest>, q: nat, up: seq<Digest>, j: nat, i: nat, s: seq<Digest>)
    requires |d| >= 2 && m == Split(|d|) + j < |d| && |up| >= 2 && q == Split(|up|) + i < |up|
    requires Mth(h, up[..Split(|up|)]) == Mth(h, d[..Split(|d|)])
    requires Path(h, j, d[Split(|d|)..]) == s + Path(h, i, up[Split(|up|)..])
    ensures Path(h, m, d) == s + Path(h, q, up)
  {
    hide Mth, Split;
    var top := [Mth(h, up[..Split(|up|)])];
    var below := Path(h, i, up[Split(|up|)..]);
    assert (s + below) + top == s + (below + top);
  }

  lemma SiblingLeft(d: seq<Digest>, m: nat, k: nat)
    requires m < 2 * k <= |d|
    ensures Sibling(d[..2 * k], m) == Sibling(d, m)
  {
  }

  lemma SiblingRight(d: seq<Digest>, m: nat, k: nat)
    requires 2 * k <= m < |d|
    ensures Sibling(d[2 * k..], m - 2 * k) == Sibling(d, m)
  {
  }

  lemma PathNextPair(h: Hasher, m: nat, d: seq<Digest>)
    requires m < |d| <= 2
    ensures Path(h, m, d) == Sibling(d, m) + Path(h, m / 2, Next(h, d))
  {
    if |d| == 2 {
      assert d[..1] == [d[0]] && d[1..] == [d[1]];
    }
  }

  /** One round of pairing removes exactly the first audit-path entry. */
  lemma {:induction false} PathNext(h: Hasher, m: nat, d: seq<Digest>)
    requires m < |d|
    ensures Path(h, m, d) == Sibling(d, m) + Path(h, m / 2, Next(h, d))
    decreases |d|
  {
    if |d| <= 2 {
      PathNextPair(h, m, d);
    } else if m < Split(|d|) {
      PathNextLeft(h, m, d, Split(Half(|d|)));
    } else {
      PathNextRight(h, m, d, Split(Half(|d|)), m - Split(|d|));
    }
  }

  lemma {:induction false} PathNextLeft(h: Hasher, m: nat, d: seq<Digest>, k: nat)
    requires |d| > 2 && k == Split(Half(|d|)) && m < 2 * k
    ensures Path(h, m, d) == Sibling(d, m) + Path(h, m / 2, Next(h, d))
    decreases |d|, 0
  {
    hide Next, Mth, Path, Sibling;
    var up := Next(h, d);
    NextSplit(h, d, k);
    assert Mth(h, up[k..]) == Mth(h, d[2 * k..]) by { MthNext(h, d[2 * k..]); }
    assert Path(h, m, d[..2 * k]) == Sibling(d, m) + Path(h, m / 2, up[..k]) by {
      PathNext(h, m, d[..2 * k]);
      SiblingLeft(d, m, k);
    }
    PathLeft(h, m, d, m / 2, up, k, Sibling(d, m));
  }

  lemma {:induction false} PathNextRight(h: Hasher, m: nat, d: seq<Digest>, k: nat, j: nat)
    requires |d| > 2 && k == Split(Half(|d|)) && 2 * k + j == m < |d|
    ensures Path(h, m, d) == Sibling(d, m) + Path(h, m / 2, Next(h, d))
    decreases |d|, 0
  {
    hide Next, Mth, Path, Sibling;
    var up := Next(h, d);
    NextSplit(h, d, k);
    assert Mth(h, up[..k]) == Mth(h, d[..2 * k]) by { MthNext(h, d[..2 * k]); }
    assert Path(h, j, d[2 * k..]) == Sibling(d, m) + Path(h, j / 2, up[k..]) by {
      PathNext(h, j, d[2 * k..]);
      SiblingRight(d, m, k);
    }
    PathRight(h, m, d, m / 2, up, j, j / 2, Sibling(d, m));
  }

  /** buildTree's last row is the Merkle Tree Hash. */
  lemma {:induction false} RowsTop(h: Hasher, d: seq<Digest>)
    requires |d| > 0
    ensures var rows := Rows(h, d); rows[|rows| - 1] == [Mth(h, d)]
    decreases |d|
  {
    if |d| > 1 {
      MthNext(h, d);
      RowsTop(h, Next(h, d));
    }
  }

  /** Proof's row walk yields RFC 6962's audit path. */
  lemma {:induction false} LevelPathIsPath(h: Hasher, m: nat, d: seq<Digest>)
    requires m < |d|
    ensures LevelPath(h, m, d) == Path(h, m, d)
    decreases |d|
  {
    if |d| > 1 {
      PathNext(h, m, d);
      LevelPathIsPath(h, m / 2, Next(h, d));
    }
  }
}
