/** Reference definitions: the Merkle Tree Hash and audit paths of RFC 6962, sections 2.1 and
    2.1.1, over a list of leaf hashes. Nothing in the program computes them this way. */
module Rfc6962 {
  import opened Hashing

  predicate IsPowerOfTwo(p: nat) {
    p == 1 || (p > 1 && p % 2 == 0 && IsPowerOfTwo(p / 2))
  }

  /** The largest power of two smaller than n (see SplitIsLargestPowerOfTwo). */
  function Split(n: nat): (k: nat)
    requires n >= 2
    ensures 1 <= k < n <= 2 * k
  {
    if n == 2 then 1 else 2 * Split((n + 1) / 2)
  }

  lemma {:induction false} SplitIsLargestPowerOfTwo(n: nat)
    requires n >= 2
    ensures IsPowerOfTwo(Split(n))
    ensures forall p: nat :: IsPowerOfTwo(p) && p < n ==> p <= Split(n)
  {
    if n > 2 {
      SplitIsLargestPowerOfTwo((n + 1) / 2);
      forall p: nat | IsPowerOfTwo(p) && p < n ensures p <= Split(n) {
        if p > 1 {
          assert IsPowerOfTwo(p / 2) && p / 2 < (n + 1) / 2;
        }
      }
    }
  }

  /** MTH(D[n]) of section 2.1. */
  function Mth(h: Hasher, d: seq<Digest>): Digest
    requires |d| > 0
    decreases |d|
  {
    if |d| == 1 then d[0] else
      var k := Split(|d|);
      h.node(Mth(h, d[..k]), Mth(h, d[k..]))
  }

  /** PATH(m, D[n]) of section 2.1.1. */
  function Path(h: Hasher, m: nat, d: seq<Digest>): seq<Digest>
    requires m < |d|
    decreases |d|
  {
    if |d| == 1 then [] else
      var k := Split(|d|);
      if m < k then Path(h, m, d[..k]) + [Mth(h, d[k..])]
      else Path(h, m - k, d[k..]) + [Mth(h, d[..k])]
  }
}
