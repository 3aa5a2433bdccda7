/** Digests and the two domain-separated hash calls of internal/transparency/tree.go.
    SHA-256 itself is a parameter: every result holds for every function from bytes to digests. */
module Hashing {

  newtype byte = x: int | 0 <= x < 256

  type Bytes = seq<byte>

  const DIGEST_LENGTH := 32

  function Zeros(n: nat): (b: Bytes)
    ensures |b| == n
  {
    if n == 0 then [] else [0] + Zeros(n - 1)
  }

  type Bytes32 = s: Bytes | |s| == DIGEST_LENGTH witness Zeros(DIGEST_LENGTH)

  datatype Digest = Digest(bytes: Bytes32)

  const ZERO_DIGEST := Digest(Zeros(DIGEST_LENGTH))

  type Sha256 = Bytes -> Digest

  /** The pair (LeafHash, NodeHash). */
  datatype Hasher = Hasher(leaf: Bytes -> Digest, node: (Digest, Digest) -> Digest)

  /** LeafHash(data) = SHA-256(0x00 || data) and NodeHash(l, r) = SHA-256(0x01 || l || r). */
  function PrefixedHasher(sha: Sha256): Hasher {
    Hasher(data => sha([0] + data), (l: Digest, r: Digest) => sha([1] + l.bytes + r.bytes))
  }

  /** What was fed to one of the two hash calls. */
  datatype Preimage = LeafInput(data: Bytes) | NodeInput(left: Digest, right: Digest)

  function Evaluate(h: Hasher, p: Preimage): Digest {
    match p
    case LeafInput(data) => h.leaf(data)
    case NodeInput(l, r) => h.node(l, r)
  }

  /** Two different hash inputs with one digest. */
  datatype Pair = Pair(fst: Preimage, snd: Preimage)

  predicate IsCollision(h: Hasher, c: Pair) {
    c.fst != c.snd && Evaluate(h, c.fst) == Evaluate(h, c.snd)
  }

  function Encode(p: Preimage): Bytes {
    match p
    case LeafInput(data) => [0] + data
    case NodeInput(l, r) => [1] + l.bytes + r.bytes
  }

  /** Reads an encoded hash input back; the prefix byte says which of the two calls it fed. */
  function Decode(b: Bytes): Preimage {
    if |b| == 1 + 2 * DIGEST_LENGTH && b[0] == 1
    then NodeInput(Digest(b[1..1 + DIGEST_LENGTH]), Digest(b[1 + DIGEST_LENGTH..]))
    else LeafInput(if |b| > 0 then b[1..] else b)
  }

  lemma DecodeEncode(p: Preimage)
    ensures Decode(Encode(p)) == p
  {
    var b := Encode(p);
    match p
    case LeafInput(data) => assert b[1..] == data;
    case NodeInput(l, r) =>
      assert b[1..1 + DIGEST_LENGTH] == l.bytes;
      assert b[1 + DIGEST_LENGTH..] == r.bytes;
  }

  /** The prefixes separate leaves from nodes and node inputs have a fixed length, so a collision
      between hash calls is a collision of SHA-256 itself. */
  lemma CollisionBreaksSha(sha: Sha256, c: Pair)
    requires IsCollision(PrefixedHasher(sha), c)
    ensures Encode(c.fst) != Encode(c.snd)
    ensures sha(Encode(c.fst)) == sha(Encode(c.snd))
  {
    DecodeEncode(c.fst);
    DecodeEncode(c.snd);
  }
}
