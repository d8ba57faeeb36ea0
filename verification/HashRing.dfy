/** The token ring: partitions by the greatest token at or below a hash. The binary search
    refines a linear scan. */
module HashRing {
  import opened Words
  import opened WireFormat

  datatype Token = Token(hash: int, partition: int)

  ghost predicate Ascending(ring: seq<Token>) { forall i, j :: 0 <= i < j < |ring| ==> ring[i].hash < ring[j].hash }

  /** The partition of the last token, in ring order, that is not above the hash. */
  ghost function Owner(ring: seq<Token>, hash: int): int
    requires |ring| > 0 && ring[0].hash <= hash
  {
    var n := |ring| - 1;
    if n == 0 || ring[n].hash <= hash then ring[n].partition else Owner(ring[..n], hash)
  }

  /** The scan stops at token `k` if it is not above the hash and all later ones are. */
  lemma {:induction false} OwnerIs(ring: seq<Token>, hash: int, k: nat)
    requires |ring| > 0 && ring[0].hash <= hash && k < |ring| && ring[k].hash <= hash
    requires forall i :: k < i < |ring| ==> ring[i].hash > hash
    ensures Owner(ring, hash) == ring[k].partition
  {
    var n := |ring| - 1;
    if k < n { OwnerIs(ring[..n], hash, k); }
  }

  /** With ascending tokens that token is the greatest not above the hash. */
  lemma {:induction false} OwnerIsGreatest(ring: seq<Token>, hash: int) returns (k: nat)
    requires Ascending(ring) && |ring| > 0 && ring[0].hash <= hash
    ensures k < |ring| && Owner(ring, hash) == ring[k].partition && ring[k].hash <= hash
    ensures forall i :: 0 <= i < |ring| && ring[i].hash <= hash ==> ring[i].hash <= ring[k].hash
  {
    var n := |ring| - 1;
    if n == 0 || ring[n].hash <= hash {
      k := n;
      assert forall i :: 0 <= i < n ==> ring[i].hash < ring[n].hash;
    } else {
      k := OwnerIsGreatest(ring[..n], hash);
      assert forall i :: 0 <= i < n ==> ring[i] == ring[..n][i];
    }
  }

  function EncodeToken(t: Token): (s: seq<Byte>)
    ensures |s| == 8
  {
    EncodeInt(4, t.hash) + EncodeInt(4, t.partition)
  }

  function EncodeRing(ring: seq<Token>): seq<Byte> { EncodeInt(4, |ring|) + Concat(EncodeToken, ring) }

  lemma {:induction false} TokenAt(ring: seq<Token>, i: nat)
    requires i < |ring|
    ensures |Concat(EncodeToken, ring)| == 8 * |ring|
    ensures Concat(EncodeToken, ring)[8 * i..8 * i + 8] == EncodeToken(ring[i])
  {
    hide EncodeToken;
    var rest := Concat(EncodeToken, ring[1..]);
    if |ring| == 1 {
      assert rest == [];
    } else {
      var j := if i == 0 then 0 else i - 1;
      TokenAt(ring[1..], j);
      var all := Concat(EncodeToken, ring);
      if i > 0 { assert all[8 * i..8 * i + 8] == rest[8 * j..8 * j + 8]; }
    }
  }

  class ElasticHashinator {
    const tokens: array<int>
    const tokenCount: nat
    ghost const ring: seq<Token>

    ghost predicate Valid()
      reads tokens
    {
      && tokenCount == |ring| && tokens.Length == 2 * tokenCount
      && forall i :: 0 <= i < tokenCount ==> tokens[2 * i] == ring[i].hash && tokens[2 * i + 1] == ring[i].partition
    }

    /** Reads a serialized ring back. */
    constructor (bytes: seq<Byte>, ghost theRing: seq<Token>)
      requires bytes == EncodeRing(theRing) && Fits(4, |theRing|)
      requires forall i :: 0 <= i < |theRing| ==> Fits(4, theRing[i].hash) && Fits(4, theRing[i].partition)
      ensures Valid() && ring == theRing
    {
      hide EncodeInt, DecodeInt, Fits;
      IntRoundTrip(4, |theRing|);
      assert bytes[0..4] == EncodeInt(4, |theRing|);
      var count := DecodeInt(bytes[0..4]);
      tokenCount := count;
      tokens := new int[2 * count];
      ring := theRing;
      new;
      for i := 0 to count
        invariant forall k :: 0 <= k < i ==> tokens[2 * k] == ring[k].hash && tokens[2 * k + 1] == ring[k].partition
      {
        TokenBytes(bytes, theRing, i);
        tokens[2 * i] := DecodeInt(bytes[8 * i + 4..8 * i + 8]);
        tokens[2 * i + 1] := DecodeInt(bytes[8 * i + 8..8 * i + 12]);
      }
    }

    /** The middle index stays in 32 bits, and the answer is that of the linear scan. */
    method PartitionForToken(hash: int) returns (partition: int)
      requires Valid() && Ascending(ring) && 0 < tokenCount <= 0x4000_0000 && ring[0].hash <= hash
      ensures partition == Owner(ring, hash)
    {
      hide Owner;
      var min, max := 0, tokenCount - 1;
      while min <= max
        invariant 0 <= min <= tokenCount && -1 <= max < tokenCount && min <= max + 1
        invariant forall i :: 0 <= i < min ==> ring[i].hash < hash
        invariant forall i :: max < i < tokenCount ==> ring[i].hash > hash
        decreases max - min
      {
        assert min + max <= 0x7fff_ffff;
        var mid := (min + max) / 2;
        var midval := tokens[2 * mid];
        if midval < hash {
          min := mid + 1;
        } else if midval > hash {
          max := mid - 1;
        } else {
          OwnerIs(ring, hash, mid);
          return tokens[2 * mid + 1];
        }
      }
      OwnerIs(ring, hash, min - 1);
      return tokens[2 * (min - 1) + 1];
    }
  }

  lemma TokenBytes(bytes: seq<Byte>, ring: seq<Token>, i: nat)
    requires bytes == EncodeRing(ring) && i < |ring| && Fits(4, ring[i].hash) && Fits(4, ring[i].partition)
    ensures 8 * i + 12 <= |bytes|
    ensures DecodeInt(bytes[8 * i + 4..8 * i + 8]) == ring[i].hash
    ensures DecodeInt(bytes[8 * i + 8..8 * i + 12]) == ring[i].partition
  {
    hide EncodeInt, DecodeInt, Fits, Concat;
    TokenAt(ring, i);
    IntRoundTrip(4, ring[i].hash);
    IntRoundTrip(4, ring[i].partition);
    var body, t := Concat(EncodeToken, ring), EncodeToken(ring[i]);
    assert bytes[8 * i + 4..8 * i + 8] == body[8 * i..8 * i + 4];
    assert bytes[8 * i + 8..8 * i + 12] == body[8 * i + 4..8 * i + 8];
    assert body[8 * i..8 * i + 4] == body[8 * i..8 * i + 8][..4] == t[..4] == EncodeInt(4, ring[i].hash);
    assert body[8 * i + 4..8 * i + 8] == body[8 * i..8 * i + 8][4..] == t[4..] == EncodeInt(4, ring[i].partition);
  }
}
