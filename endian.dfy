/**
  The pure decoding step behind the reader's fixed-width integer getters:
  `width` bytes taken from the device are turned into an unsigned number,
  least significant byte first (little-endian) or last (big-endian).
*/
module Endian {
  import opened Common

  function Pow256(n: nat): (p: nat)
    ensures p >= 1
  {
    if n == 0 then 1 else 0x100 * Pow256(n - 1)
  }

  /** The unsigned value of `bs`, least significant byte first. */
  function DecodeLE(bs: seq<Byte>): nat
  {
    if bs == [] then 0 else bs[0] + 0x100 * DecodeLE(bs[1..])
  }

  /** The unsigned value of `bs`, most significant byte first. */
  function DecodeBE(bs: seq<Byte>): nat
  {
    if bs == [] then 0 else DecodeBE(bs[..|bs| - 1]) * 0x100 + bs[|bs| - 1]
  }

  /** Decoding honouring a runtime byte-order flag. */
  function Decode(bs: seq<Byte>, littleEndian: bool): nat
  {
    if littleEndian then DecodeLE(bs) else DecodeBE(bs)
  }

  function Reverse(bs: seq<Byte>): (r: seq<Byte>)
    ensures |r| == |bs|
  {
    if bs == [] then [] else [bs[|bs| - 1]] + Reverse(bs[..|bs| - 1])
  }

  /** The `n` bytes of `v` in little-endian order (reference encoder for the round trips). */
  function EncodeLE(v: nat, n: nat): (bs: seq<Byte>)
    ensures |bs| == n
  {
    if n == 0 then [] else [v % 0x100] + EncodeLE(v / 0x100, n - 1)
  }

  /** The `n` bytes of `v` in big-endian order. */
  function EncodeBE(v: nat, n: nat): (bs: seq<Byte>)
    ensures |bs| == n
  {
    Reverse(EncodeLE(v, n))
  }

  lemma {:induction false} ReverseAt(bs: seq<Byte>, k: nat)
    requires k < |bs|
    ensures Reverse(bs)[k] == bs[|bs| - 1 - k]
  {
    if k > 0 {
      ReverseAt(bs[..|bs| - 1], k - 1);
    }
  }

  lemma {:induction false} ReverseInvolutive(bs: seq<Byte>)
    ensures Reverse(Reverse(bs)) == bs
  {
    var r := Reverse(Reverse(bs));
    forall k | 0 <= k < |bs| ensures r[k] == bs[k] {
      ReverseAt(Reverse(bs), k);
      ReverseAt(bs, |bs| - 1 - k);
    }
  }

  /** A value decoded from `n` bytes fits in `n` bytes: 2, 4 and 8 bytes give 16-, 32- and 64-bit values. */
  lemma {:induction false} DecodeLEBound(bs: seq<Byte>)
    ensures DecodeLE(bs) < Pow256(|bs|)
  {
    if bs != [] {
      DecodeLEBound(bs[1..]);
    }
  }

  /** The same bytes read big-endian give the value of the reversed bytes read little-endian. */
  lemma {:induction false} BigEndianIsReversedLittleEndian(bs: seq<Byte>)
    ensures DecodeBE(bs) == DecodeLE(Reverse(bs))
  {
    if bs != [] {
      BigEndianIsReversedLittleEndian(bs[..|bs| - 1]);
      assert Reverse(bs)[1..] == Reverse(bs[..|bs| - 1]);
    }
  }

  lemma DecodeBEBound(bs: seq<Byte>)
    ensures DecodeBE(bs) < Pow256(|bs|)
  {
    BigEndianIsReversedLittleEndian(bs);
    DecodeLEBound(Reverse(bs));
  }

  /** Little-endian encoding followed by little-endian decoding gives the value back. */
  lemma {:induction false} DecodeEncodeLE(v: nat, n: nat)
    requires v < Pow256(n)
    ensures DecodeLE(EncodeLE(v, n)) == v
  {
    if n > 0 {
      DecodeEncodeLE(v / 0x100, n - 1);
    }
  }

  /** Big-endian encoding followed by big-endian decoding gives the value back. */
  lemma DecodeEncodeBE(v: nat, n: nat)
    requires v < Pow256(n)
    ensures DecodeBE(EncodeBE(v, n)) == v
  {
    BigEndianIsReversedLittleEndian(EncodeBE(v, n));
    ReverseInvolutive(EncodeLE(v, n));
    DecodeEncodeLE(v, n);
  }

  /** The converse direction: the same bytes read little-endian give the reversed bytes read big-endian. */
  lemma LittleEndianIsReversedBigEndian(bs: seq<Byte>)
    ensures DecodeLE(bs) == DecodeBE(Reverse(bs))
  {
    BigEndianIsReversedLittleEndian(Reverse(bs));
    ReverseInvolutive(bs);
  }
}
