/** Fixed-width little-endian integers. */
module LittleEndian {
  import opened Crc32c
  import opened Division

  /** The low `width` bytes of `n`, least significant first. */
  function Encode(n: nat, width: nat): (b: seq<byte>)
    ensures |b| == width
    decreases width
  {
    if width == 0 then [] else [(n % 256) as byte] + Encode(n / 256, width - 1)
  }

  /** The number `b` spells. */
  function Decode(b: seq<byte>): nat {
    if b == [] then 0 else b[0] as nat + 256 * Decode(b[1..])
  }

  /** One more than the largest number of `width` bytes. */
  function Limit(width: nat): (p: nat)
    ensures p > 0
  {
    if width == 0 then 1 else 256 * Limit(width - 1)
  }

  lemma {:induction false} DecodeEncode(n: nat, width: nat)
    requires n < Limit(width)
    ensures Decode(Encode(n, width)) == n
    decreases width
  {
    if width != 0 {
      DecodeEncode(n / 256, width - 1);
      assert Encode(n, width)[1..] == Encode(n / 256, width - 1);
    }
  }

  /** Byte `k` has weight 256 to the `k`: the least significant one comes first. */
  lemma {:induction false} EncodeAt(n: nat, width: nat, k: nat)
    requires k < width
    ensures Encode(n, width)[k] as nat == n / Limit(k) % 256
    decreases width
  {
    if k > 0 {
      EncodeAt(n / 256, width - 1, k - 1);
      DivideTwice(n, 256, Limit(k - 1));
    }
  }

  lemma {:induction false} EncodeDecode(b: seq<byte>)
    ensures Encode(Decode(b), |b|) == b
  {
    if b != [] {
      EncodeDecode(b[1..]);
      assert Decode(b) % 256 == b[0] as nat && Decode(b) / 256 == Decode(b[1..]);
      assert b == [b[0]] + b[1..];
    }
  }

  lemma {:induction false} DecodeIsBounded(b: seq<byte>)
    ensures Decode(b) < Limit(|b|)
  {
    if b != [] {
      DecodeIsBounded(b[1..]);
    }
  }

  lemma {:induction false} DecodeZeros(b: seq<byte>)
    requires forall i :: 0 <= i < |b| ==> b[i] == 0
    ensures Decode(b) == 0
  {
    if b != [] {
      DecodeZeros(b[1..]);
    }
  }
}
