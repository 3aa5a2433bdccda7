/** The right-edge fringe kept by Append: what it holds, how a carry extends it, and why folding it
    right to left is the Merkle Tree Hash. */
module Fringe {
  import opened Hashing
  import opened Rfc6962
  import opened Levels

  /** The Merkle Tree Hashes of the maximal perfect subtrees, largest first: one per binary digit of |d|. */
  function FringeOf(h: Hasher, d: seq<Digest>): seq<Digest>
    decreases |d|
  {
    if d == [] then [] else
      var p := Split(|d| + 1);
      [Mth(h, d[..p])] + FringeOf(h, d[p..])
  }

  function Popcount(n: nat): nat { if n == 0 then 0 else n % 2 + Popcount(n / 2) }

  function TrailingOnes(n: nat): nat { if n % 2 == 0 then 0 else 1 + TrailingOnes(n / 2) }

  /** Append's carry loop: merge with the last fringe entry once per trailing one digit of n. */
  function Carry(h: Hasher, fringe: seq<Digest>, carry: Digest, n: nat): seq<Digest>
    requires |fringe| >= TrailingOnes(n)
    decreases n
  {
    if n % 2 == 0 then fringe + [carry]
    else Carry(h, fringe[..|fringe| - 1], h.node(fringe[|fringe| - 1], carry), n / 2)
  }

  /** Root's right-to-left fold. */
  function Fold(h: Hasher, fringe: seq<Digest>): Digest
    requires |fringe| > 0
  {
    if |fringe| == 1 then fringe[0] else h.node(fringe[0], Fold(h, fringe[1..]))
  }

  /** The binary digit of weight one: the last leaf when |d| is odd. */
  function Odd(d: seq<Digest>): seq<Digest> { d[2 * (|d| / 2)..] }

  function Pairs(d: seq<Digest>): (r: seq<Digest>)
    ensures |r| == 2 * (|d| / 2)
  {
    d[..2 * (|d| / 2)]
  }

  lemma FringeHead(h: Hasher, d: seq<Digest>, up: seq<Digest>, odd: seq<Digest>)
    requires d != [] && up != []
    requires Mth(h, up[..Split(|up| + 1)]) == Mth(h, d[..Split(|d| + 1)])
    requires FringeOf(h, d[Split(|d| + 1)..]) == FringeOf(h, up[Split(|up| + 1)..]) + odd
    ensures FringeOf(h, d) == FringeOf(h, up) + odd
  {
    hide Mth, Split;
  }

  lemma FringeShort(h: Hasher, d: seq<Digest>)
    requires |d| < 2
    ensures FringeOf(h, d) == FringeOf(h, Next(h, Pairs(d))) + Odd(d)
  {
    assert |d| == 1 ==> d[..1] == d && d[1..] == [];
  }

  lemma {:induction false} FringeByDigits(h: Hasher, d: seq<Digest>)
    ensures FringeOf(h, d) == FringeOf(h, Next(h, Pairs(d))) + Odd(d)
    decreases |d|
  {
    hide Next, Mth, FringeOf, Odd;
    if |d| < 2 {
      FringeShort(h, d);
    } else {
      var k, up := Split(|d| / 2 + 1), Next(h, Pairs(d));
      assert Half(|d| + 1) == |d| / 2 + 1 && Split(|d| + 1) == 2 * k;
      PairsDrop(h, d, k);
      MthNext(h, d[..2 * k]);
      FringeByDigits(h, d[2 * k..]);
      FringeHead(h, d, up, Odd(d));
    }
  }

  lemma PairsDrop(h: Hasher, d: seq<Digest>, k: nat)
    requires 2 * k <= |d|
    ensures Next(h, Pairs(d))[..k] == Next(h, d[..2 * k])
    ensures Next(h, Pairs(d))[k..] == Next(h, Pairs(d[2 * k..]))
    ensures Odd(d[2 * k..]) == Odd(d)
  {
    hide Next;
    NextTakeDrop(h, Pairs(d), k);
    assert 2 * ((|d| - 2 * k) / 2) == 2 * (|d| / 2) - 2 * k;
    assert Pairs(d)[..2 * k] == d[..2 * k];
    assert Pairs(d)[2 * k..] == Pairs(d[2 * k..]);
  }

  lemma {:induction false} FringeLength(h: Hasher, d: seq<Digest>)
    ensures |FringeOf(h, d)| == Popcount(|d|)
    decreases |d|
  {
    hide Next;
    if d != [] {
      FringeByDigits(h, d);
      FringeLength(h, Next(h, Pairs(d)));
    }
  }

  lemma {:induction false} TrailingOnesFit(n: nat)
    ensures TrailingOnes(n) <= Popcount(n)
    ensures Popcount(n + 1) == Popcount(n) + 1 - TrailingOnes(n)
  {
    if n % 2 == 1 {
      TrailingOnesFit(n / 2);
      assert (n + 1) / 2 == n / 2 + 1;
    }
  }

  lemma PairsSnocEven(d: seq<Digest>, x: Digest)
    requires |d| % 2 == 0
    ensures Odd(d) == [] && Odd(d + [x]) == [x] && Pairs(d + [x]) == Pairs(d)
  {
  }

  lemma PairsSnoc(h: Hasher, d: seq<Digest>, x: Digest)
    requires |d| % 2 == 1
    ensures Odd(d) == [d[|d| - 1]] && Odd(d + [x]) == []
    ensures Next(h, Pairs(d + [x])) == Next(h, Pairs(d)) + [h.node(d[|d| - 1], x)]
  {
    NextAppend(h, Pairs(d), [d[|d| - 1], x]);
    assert Pairs(d + [x]) == Pairs(d) + [d[|d| - 1], x];
  }

  /** The carry loop extends the fringe of d to the fringe of d plus one leaf. */
  lemma {:induction false} CarryIsFringe(h: Hasher, d: seq<Digest>, x: Digest)
    ensures |FringeOf(h, d)| == Popcount(|d|) >= TrailingOnes(|d|)
    ensures Carry(h, FringeOf(h, d), x, |d|) == FringeOf(h, d + [x])
    decreases |d|
  {
    hide Next, Mth, FringeOf, Popcount;
    FringeLength(h, d);
    TrailingOnesFit(|d|);
    FringeByDigits(h, d);
    FringeByDigits(h, d + [x]);
    var up := Next(h, Pairs(d));
    if |d| % 2 == 0 {
      PairsSnocEven(d, x);
    } else {
      PairsSnoc(h, d, x);
      CarryIsFringe(h, up, h.node(d[|d| - 1], x));
      assert FringeOf(h, d)[..|FringeOf(h, d)| - 1] == FringeOf(h, up);
    }
  }

  lemma {:induction false} SplitSucc(n: nat)
    requires n >= 2
    ensures Split(n + 1) == n || Split(n + 1) == Split(n)
  {
    if n > 2 {
      if n % 2 == 0 {
        assert (n + 1) / 2 == n / 2 && (n + 1 + 1) / 2 == n / 2 + 1;
        SplitSucc(n / 2);
      } else {
        assert (n + 1 + 1) / 2 == (n + 1) / 2;
      }
    }
  }

  /** Folding the fringe yields the Merkle Tree Hash of all leaves. */
  lemma {:induction false} FoldIsMth(h: Hasher, d: seq<Digest>)
    requires d != []
    ensures FringeOf(h, d) != [] && Fold(h, FringeOf(h, d)) == Mth(h, d)
    decreases |d|
  {
    var p := Split(|d| + 1);
    if p == |d| {
      assert d[..p] == d && d[p..] == [];
    } else {
      SplitSucc(|d|);
      FoldIsMth(h, d[p..]);
      assert FringeOf(h, d)[1..] == FringeOf(h, d[p..]);
    }
  }

  /** NodeHash calls made by the first n appends. */
  function AppendCost(n: nat): nat {
    if n == 0 then 0 else AppendCost(n - 1) + TrailingOnes(n - 1)
  }

  lemma {:induction false} AppendCostIsLinear(n: nat)
    ensures AppendCost(n) + Popcount(n) == n
  {
    if n > 0 {
      AppendCostIsLinear(n - 1);
      TrailingOnesFit(n - 1);
    }
  }
}
