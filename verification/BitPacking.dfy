/** Bytes to bits and back, most significant bit first: the counter-driven loops of the
    modem and interleaver programs.
 */
module BitPacking {
  import opened Words

  /** The bytes whose bits are `s`; the inverse of `FrameBits` on whole bytes. */
  function BytesOf(s: seq<bool>): (bytes: seq<Byte>)
    requires |s| % 8 == 0
    ensures |bytes| == |s| / 8
  {
    seq(|s| / 8, k requires 0 <= k < |s| / 8 => ByteOf(s[8 * k..8 * k + 8]))
  }

  function ByteOf(s: seq<bool>): Byte
    requires |s| == 8
  {
    [s[7], s[6], s[5], s[4], s[3], s[2], s[1], s[0]]
  }

  lemma BitsOfBytes(s: seq<bool>)
    requires |s| % 8 == 0
    ensures FrameBits(BytesOf(s)) == s
  {
  }

  lemma BytesOfBits(bytes: seq<Byte>)
    ensures BytesOf(FrameBits(bytes)) == bytes
  {
    BitsOfBytes(FrameBits(bytes));
    FrameBitsInjective(BytesOf(FrameBits(bytes)), bytes);
  }

  /** `bits[i] = (packed[byte] >> bit) & 1`, with `bit` counting down from 7. */
  method UnpackBits(packed: array<Byte>, bits: array<bool>)
    requires bits.Length == 8 * packed.Length
    modifies bits
    ensures bits[..] == FrameBits(packed[..])
  {
    var bit, byte := 7, 0;
    for i := 0 to bits.Length
      invariant 0 <= bit <= 7 && i == 8 * byte + (7 - bit)
      invariant forall k :: 0 <= k < i ==> bits[k] == FrameBit(packed[..], k)
    {
      bits[i] := LowBits(Shr(packed[byte], bit), 1)[0];
      BitGot(packed[..], byte, bit);
      bit := bit - 1;
      if bit < 0 {
        bit, byte := 7, byte + 1;
      }
    }
    assert byte == packed.Length;
  }

  lemma BitGot(bytes: seq<Byte>, byte: nat, bit: nat)
    requires byte < |bytes| && bit <= 7
    ensures LowBits(Shr(bytes[byte], bit), 1)[0] == FrameBit(bytes, 8 * byte + (7 - bit))
  {
    var k := 8 * byte + (7 - bit);
    assert k / 8 == byte && k % 8 == 7 - bit;
    assert Shr(bytes[byte], bit)[0] == Bit(bytes[byte], bit);
  }

  /** `packed[byte] |= bits[i] << bit` over cleared bytes, with `bit` counting down from 7. */
  method PackBits(bits: array<bool>, packed: array<Byte>)
    requires bits.Length == 8 * packed.Length
    modifies packed
    ensures FrameBits(packed[..]) == bits[..]
  {
    for i := 0 to packed.Length
      invariant forall k :: 0 <= k < i ==> packed[k] == Zeros(8)
    {
      packed[i] := Zeros(8);
    }
    var bit, byte := 7, 0;
    for i := 0 to bits.Length
      invariant 0 <= bit <= 7 && i == 8 * byte + (7 - bit)
      invariant forall k :: 0 <= k < bits.Length ==> FrameBit(packed[..], k) == (k < i && bits[k])
    {
      ghost var before := packed[..];
      packed[byte] := Or(packed[byte], Shl(Cast([bits[i]], 8), bit));
      forall k | 0 <= k < bits.Length ensures FrameBit(packed[..], k) == (k < i + 1 && bits[k]) {
        BitSet(before, byte, bit, bits[i], k);
      }
      bit := bit - 1;
      if bit < 0 {
        bit, byte := 7, byte + 1;
      }
    }
    assert byte == packed.Length;
  }

  lemma BitSet(before: seq<Byte>, byte: nat, bit: nat, b: bool, k: nat)
    requires byte < |before| && bit <= 7 && k < 8 * |before|
    ensures FrameBit(before[byte := Or(before[byte], Shl(Cast([b], 8), bit))], k)
         == (FrameBit(before, k) || (k == 8 * byte + (7 - bit) && b))
  {
  }
}
