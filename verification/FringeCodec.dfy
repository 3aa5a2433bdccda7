/** fringeToBytes and fringeFromBytes: the flat byte form in which a tree head stores its fringe. */
module FringeCodec {
  import opened Hashing

  function ToBytes(fringe: seq<Digest>): (b: Bytes)
    ensures |b| == |fringe| * DIGEST_LENGTH
  {
    if fringe == [] then [] else fringe[0].bytes + ToBytes(fringe[1..])
  }

  /** A length that is no multiple of 32 yields no fringe at all. */
  function FromBytes(b: Bytes): (fringe: seq<Digest>)
    decreases |b|
  {
    if |b| % DIGEST_LENGTH != 0 || |b| == 0 then []
    else [Digest(b[..DIGEST_LENGTH])] + FromBytes(b[DIGEST_LENGTH..])
  }

  /** Whatever fringe is stored is the fringe recovered. */
  lemma {:induction false} FromBytesInvertsToBytes(fringe: seq<Digest>)
    ensures FromBytes(ToBytes(fringe)) == fringe
  {
    if fringe != [] {
      var b := ToBytes(fringe);
      FromBytesInvertsToBytes(fringe[1..]);
      assert b[..DIGEST_LENGTH] == fringe[0].bytes && b[DIGEST_LENGTH..] == ToBytes(fringe[1..]);
    }
  }

  /** And whatever well-sized column is read decodes to a fringe with exactly those bytes. */
  lemma {:induction false} ToBytesInvertsFromBytes(b: Bytes)
    ensures ToBytes(FromBytes(b)) == b <==> |b| % DIGEST_LENGTH == 0
    decreases |b|
  {
    if |b| % DIGEST_LENGTH == 0 && |b| > 0 {
      ToBytesInvertsFromBytes(b[DIGEST_LENGTH..]);
      assert FromBytes(b)[1..] == FromBytes(b[DIGEST_LENGTH..]);
      assert b == b[..DIGEST_LENGTH] + b[DIGEST_LENGTH..];
    } else if |b| > 0 {
      assert |ToBytes([])| == 0;
    }
  }

  lemma {:induction false} ToBytesSnoc(fringe: seq<Digest>, x: Digest)
    ensures ToBytes(fringe + [x]) == ToBytes(fringe) + x.bytes
  {
    if fringe == [] {
      assert fringe + [x] == [x];
    } else {
      assert (fringe + [x])[1..] == fringe[1..] + [x];
      ToBytesSnoc(fringe[1..], x);
    }
  }

  lemma {:induction false} FromBytesSnoc(b: Bytes, x: Digest)
    requires |b| % DIGEST_LENGTH == 0
    ensures FromBytes(b + x.bytes) == FromBytes(b) + [x]
    decreases |b|
  {
    if b == [] {
      assert b + x.bytes == x.bytes;
      assert x.bytes[..DIGEST_LENGTH] == x.bytes;
    } else {
      FromBytesSnoc(b[DIGEST_LENGTH..], x);
      assert (b + x.bytes)[DIGEST_LENGTH..] == b[DIGEST_LENGTH..] + x.bytes;
      assert (b + x.bytes)[..DIGEST_LENGTH] == b[..DIGEST_LENGTH];
    }
  }

  method FringeToBytes(fringe: seq<Digest>) returns (out: array<byte>)
    ensures fresh(out) && out[..] == ToBytes(fringe)
  {
    out := new byte[|fringe| * DIGEST_LENGTH];
    assert out[..0] == [];
    for i := 0 to |fringe|
      invariant out[..i * DIGEST_LENGTH] == ToBytes(fringe[..i])
    {
      var lo := i * DIGEST_LENGTH;
      ghost var before := out[..lo];
      forall j | 0 <= j < DIGEST_LENGTH {
        out[lo + j] := fringe[i].bytes[j];
      }
      assert out[..lo + DIGEST_LENGTH] == before + fringe[i].bytes;
      ToBytesSnoc(fringe[..i], fringe[i]);
      assert fringe[..i + 1] == fringe[..i] + [fringe[i]];
    }
    assert out[..|fringe| * DIGEST_LENGTH] == out[..] && fringe[..|fringe|] == fringe;
  }

  method FringeFromBytes(b: Bytes) returns (fringe: seq<Digest>)
    ensures fringe == FromBytes(b)
  {
    fringe := [];
    if |b| % DIGEST_LENGTH != 0 || |b| == 0 {
      return;
    }
    var i := 0;
    while i < |b| / DIGEST_LENGTH
      invariant 0 <= i <= |b| / DIGEST_LENGTH
      invariant fringe == FromBytes(b[..i * DIGEST_LENGTH])
    {
      var x := Digest(b[i * DIGEST_LENGTH..(i + 1) * DIGEST_LENGTH]);
      FromBytesSnoc(b[..i * DIGEST_LENGTH], x);
      assert b[..(i + 1) * DIGEST_LENGTH] == b[..i * DIGEST_LENGTH] + x.bytes;
      fringe := fringe + [x];
      i := i + 1;
    }
    assert b[..i * DIGEST_LENGTH] == b;
  }
}
