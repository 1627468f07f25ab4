/** `pack` and `unpack`: a bit field is written into a byte string in Gray code, most
    significant bit first, in byte-sized slices, and read back.
 */
module FieldCodec {
  import opened Words

  // ----- Gray code

  /** `w ^ (w >> k)` */
  function ShiftXor(w: Word, k: nat): (r: Word)
    ensures |r| == |w|
  {
    Xor(w, Shr(w, k))
  }

  function Gray(w: Word): (r: Word)
    ensures |r| == |w|
  {
    Xor(Shr(w, 1), w)
  }

  /** The four folding steps at the end of `unpack`. */
  function GrayDecode(w: Word): (r: Word)
    ensures |r| == |w|
  {
    ShiftXor(ShiftXor(ShiftXor(ShiftXor(w, 8), 4), 2), 1)
  }

  lemma ShiftXorAt(w: Word, k: nat, i: nat)
    ensures Bit(ShiftXor(w, k), i) == (Bit(w, i) != Bit(w, i + k))
  {
  }

  lemma ShiftXorCommutes(w: Word, a: nat, b: nat)
    ensures ShiftXor(ShiftXor(w, a), b) == ShiftXor(ShiftXor(w, b), a)
  {
    forall i | 0 <= i < |w| ensures ShiftXor(ShiftXor(w, a), b)[i] == ShiftXor(ShiftXor(w, b), a)[i] {
      ShiftXorAt(ShiftXor(w, a), b, i);
      ShiftXorAt(ShiftXor(w, b), a, i);
      ShiftXorAt(w, a, i);
      ShiftXorAt(w, b, i);
      ShiftXorAt(w, a, i + b);
      ShiftXorAt(w, b, i + a);
      assert i + a + b == i + b + a;
    }
  }

  /** Over GF(2) the square of `1 + x^k` is `1 + x^(2k)`. */
  lemma ShiftXorSquared(w: Word, k: nat)
    ensures ShiftXor(ShiftXor(w, k), k) == ShiftXor(w, 2 * k)
  {
    forall i | 0 <= i < |w| ensures ShiftXor(ShiftXor(w, k), k)[i] == ShiftXor(w, 2 * k)[i] {
      ShiftXorAt(ShiftXor(w, k), k, i);
      ShiftXorAt(w, k, i);
      ShiftXorAt(w, k, i + k);
      ShiftXorAt(w, 2 * k, i);
      assert i + k + k == i + 2 * k;
    }
  }

  /** Decoding after encoding folds the word onto itself shifted by sixteen places. */
  lemma GrayDecodeGray(w: Word)
    ensures GrayDecode(Gray(w)) == ShiftXor(w, 16)
  {
    assert Gray(w) == ShiftXor(w, 1);
    calc {
      ShiftXor(ShiftXor(ShiftXor(ShiftXor(ShiftXor(w, 1), 8), 4), 2), 1);
      { ShiftXorCommutes(ShiftXor(ShiftXor(ShiftXor(w, 1), 8), 4), 2, 1);
        ShiftXorCommutes(ShiftXor(ShiftXor(w, 1), 8), 4, 1);
        ShiftXorCommutes(ShiftXor(w, 1), 8, 1); }
      ShiftXor(ShiftXor(ShiftXor(ShiftXor(ShiftXor(w, 1), 1), 8), 4), 2);
      { ShiftXorSquared(w, 1); }
      ShiftXor(ShiftXor(ShiftXor(ShiftXor(w, 2), 8), 4), 2);
      { ShiftXorCommutes(ShiftXor(ShiftXor(w, 2), 8), 4, 2);
        ShiftXorCommutes(ShiftXor(w, 2), 8, 2); }
      ShiftXor(ShiftXor(ShiftXor(ShiftXor(w, 2), 2), 8), 4);
      { ShiftXorSquared(w, 2); ShiftXorCommutes(ShiftXor(w, 4), 8, 4); }
      ShiftXor(ShiftXor(ShiftXor(w, 4), 4), 8);
      { ShiftXorSquared(w, 4); ShiftXorSquared(w, 8); }
      ShiftXor(w, 16);
    }
  }

  /** The four steps undo Gray coding exactly for the words below `2^16`: twice what the
      comment in the source claims, and no more. */
  lemma GrayRoundTrip(w: Word)
    ensures GrayDecode(Gray(w)) == w <==> Fits(w, 16)
  {
    GrayDecodeGray(w);
    hide Gray, GrayDecode;
    if Fits(w, 16) { FoldOfLow(w); }
    if ShiftXor(w, 16) == w { FoldIsLow(w); }
  }

  lemma FoldOfLow(w: Word)
    requires Fits(w, 16)
    ensures ShiftXor(w, 16) == w
  {
    hide ShiftXor;
    forall i | 0 <= i < |w| ensures ShiftXor(w, 16)[i] == w[i] {
      ShiftXorAt(w, 16, i);
      assert !Bit(w, i + 16);
    }
  }

  lemma FoldIsLow(w: Word)
    requires ShiftXor(w, 16) == w
    ensures Fits(w, 16)
  {
    hide ShiftXor;
    forall i | 16 <= i < |w| ensures !w[i] {
      ShiftXorAt(w, 16, i - 16);
      assert Bit(w, i - 16) == (Bit(w, i - 16) != Bit(w, i));
    }
  }

  // ----- the bit string of one field

  /** The `width` low bits of `w`, most significant first. */
  function MsbFirst(w: Word, width: nat): (s: seq<bool>)
    requires width <= |w|
    ensures |s| == width
  {
    seq(width, t requires 0 <= t < width => w[width - 1 - t])
  }

  /** The inverse: a 32-bit word from at most 32 bits, most significant first. */
  function FromMsbFirst(s: seq<bool>): (w: Word)
    ensures |w| == INT_BITS
  {
    seq(INT_BITS, i requires 0 <= i < INT_BITS => i < |s| && s[|s| - 1 - i])
  }

  function FieldBits(value: nat, width: nat): (s: seq<bool>)
    requires width <= INT_BITS
    ensures |s| == width
  {
    MsbFirst(Gray(FromNat(value, INT_BITS)), width)
  }

  lemma FieldBitIs(value: nat, width: nat, t: nat)
    requires t < width <= INT_BITS
    ensures var i, w := width - 1 - t, FromNat(value, INT_BITS);
      FieldBits(value, width)[t] == (Bit(w, i + 1) != w[i])
  {
    hide FromNat;
  }

  /** The binary digits of a number that fits its width, and the zero above them. */
  lemma DigitOf(value: nat, i: nat)
    requires i < INT_BITS || (i == INT_BITS && value < Pow2(i))
    ensures Bit(FromNat(value, INT_BITS), i) <==> (value / Pow2(i)) % 2 == 1
  {
    hide FromNat, Pow2;
    if i < INT_BITS { BitIsDigit(value, INT_BITS, i); }
  }

  /** In numbers: bit `t` of the field of `value` says whether two neighbouring binary digits of
      `value` differ, from the top digit down. */
  lemma FieldBitAt(value: nat, width: nat, t: nat)
    requires t < width <= INT_BITS && value < Pow2(width)
    ensures FieldBits(value, width)[t] <==>
      (value / Pow2(width - 1 - t)) % 2 != (value / Pow2(width - t)) % 2
  {
    hide *;
    FieldBitIs(value, width, t);
    DigitOf(value, width - 1 - t);
    DigitOf(value, width - t);
    assert FromNat(value, INT_BITS)[width - 1 - t] == Bit(FromNat(value, INT_BITS), width - 1 - t) by {
      BitOfWord(FromNat(value, INT_BITS), width - 1 - t);
    }
  }

  lemma BitOfWord(w: Word, i: nat)
    requires i < |w|
    ensures Bit(w, i) == w[i]
  {
  }

  /** The number `unpack` reads off the bit string of a field. */
  function FieldValue(s: seq<bool>): nat {
    ToNat(GrayDecode(FromMsbFirst(s)))
  }

  lemma BitsBackToWord(w: Word, width: nat)
    requires |w| == INT_BITS && width <= INT_BITS && Fits(w, width)
    ensures FromMsbFirst(MsbFirst(w, width)) == w
  {
  }

  /** A field survives `pack` followed by `unpack` if and only if it is below `2^16`. */
  lemma FieldRoundTrip(value: nat, width: nat)
    requires width <= INT_BITS && value < Pow2(width)
    ensures FieldValue(FieldBits(value, width)) == value <==> value < Pow2(16)
  {
    var w := FromNat(value, INT_BITS);
    Pow2Monotone(width, INT_BITS);
    FitsWidth(value, INT_BITS, width);
    GrayFits(w, width);
    BitsBackToWord(Gray(w), width);
    WordRoundTrip(value);
  }

  lemma GrayFits(w: Word, width: nat)
    requires Fits(w, width)
    ensures Fits(Gray(w), width)
  {
    forall i | width <= i < |w| ensures !Gray(w)[i] {
      assert !w[i] && !Bit(w, i + 1);
    }
  }

  lemma WordRoundTrip(value: nat)
    requires value < Pow2(INT_BITS)
    ensures ToNat(GrayDecode(Gray(FromNat(value, INT_BITS)))) == value <==> value < Pow2(16)
  {
    var w := FromNat(value, INT_BITS);
    var back := GrayDecode(Gray(w));
    FitsWidth(value, INT_BITS, 16);
    GrayRoundTrip(w);
    FromNatToNat(value, INT_BITS);
    ToNatFromNat(back);
  }

  lemma {:induction false} Pow2Monotone(a: nat, b: nat)
    requires a <= b
    ensures Pow2(a) <= Pow2(b)
    decreases b
  {
    if a < b { Pow2Monotone(a, b - 1); }
  }

  /** A width above sixteen is where the round trip first breaks: `2^16` does not survive. */
  lemma SeventeenBitFieldIsLost()
    ensures FieldValue(FieldBits(65536, 17)) != 65536
  {
    assert Pow2(16) == 65536 && Pow2(17) == 131072 by {
      assert Pow2(4) == 16; assert Pow2(8) == 256; assert Pow2(12) == 4096;
    }
    FieldRoundTrip(65536, 17);
  }

  // ----- the loops

  /** `after` is `before` with the first `done` bits of the code ORed in at `bitIndex`. */
  ghost predicate Written(before: seq<Byte>, after: seq<Byte>, bitIndex: nat, code: seq<bool>, done: nat)
    requires done <= |code|
  {
    |after| == |before| &&
    forall k :: 0 <= k < 8 * |before| ==>
      FrameBit(after, k) == (FrameBit(before, k) || (bitIndex <= k < bitIndex + done && code[k - bitIndex]))
  }

  /** The byte that one pass of the loop in `pack` ORs in. */
  function WriteSlice(gray: Word, width: nat, bitsLeft: nat, sliceWidth: nat): Byte
    requires sliceWidth <= bitsLeft && sliceWidth <= width
  {
    Cast(Shl(Shr(gray, width - sliceWidth), bitsLeft - sliceWidth), 8)
  }

  /** That byte holds the next `sliceWidth` bits of the code at their places, and nothing else. */
  lemma SliceWritten(gray: Word, fieldWidth: nat, bitIndex: nat, bI: nat, width: nat,
                     bitsLeft: nat, sliceWidth: nat, k: nat)
    requires |gray| == INT_BITS && fieldWidth <= INT_BITS && Fits(gray, fieldWidth)
    requires bitIndex <= bI && bI + width == bitIndex + fieldWidth && 1 <= width
    requires bI == bitIndex || bI % 8 == 0
    requires bitsLeft == 8 - bI % 8
    requires sliceWidth == if bitsLeft < width then bitsLeft else width
    requires k / 8 == bI / 8
    ensures WriteSlice(gray, width, bitsLeft, sliceWidth)[7 - k % 8]
         == (bI <= k < bI + sliceWidth && MsbFirst(gray, fieldWidth)[k - bitIndex])
  {
    var p := 7 - k % 8;
    assert p == bitsLeft - 1 - (k - bI);
    if p >= bitsLeft - sliceWidth {
      var i := p - (bitsLeft - sliceWidth) + (width - sliceWidth);
      assert i == width - 1 - (k - bI);
      assert WriteSlice(gray, width, bitsLeft, sliceWidth)[p] == Bit(gray, i);
    }
  }

  lemma SliceAdded(before: seq<Byte>, now: seq<Byte>, after: seq<Byte>, gray: Word, fieldWidth: nat,
                   bitIndex: nat, bI: nat, width: nat, bitsLeft: nat, sliceWidth: nat)
    requires |gray| == INT_BITS && fieldWidth <= INT_BITS && Fits(gray, fieldWidth)
    requires bitIndex <= bI && bI + width == bitIndex + fieldWidth <= 8 * |before| && 1 <= width
    requires bI == bitIndex || bI % 8 == 0
    requires bitsLeft == 8 - bI % 8
    requires sliceWidth == if bitsLeft < width then bitsLeft else width
    requires Written(before, now, bitIndex, MsbFirst(gray, fieldWidth), bI - bitIndex)
    requires after == now[bI / 8 := Or(now[bI / 8], WriteSlice(gray, width, bitsLeft, sliceWidth))]
    ensures Written(before, after, bitIndex, MsbFirst(gray, fieldWidth), bI + sliceWidth - bitIndex)
  {
    var code := MsbFirst(gray, fieldWidth);
    forall k | 0 <= k < 8 * |before|
      ensures FrameBit(after, k) == (FrameBit(before, k) || (bitIndex <= k < bI + sliceWidth && code[k - bitIndex]))
    {
      assert FrameBit(now, k) == (FrameBit(before, k) || (bitIndex <= k < bI && code[k - bitIndex]));
      if k / 8 == bI / 8 {
        SliceWritten(gray, fieldWidth, bitIndex, bI, width, bitsLeft, sliceWidth, k);
      } else {
        assert after[k / 8] == now[k / 8];
        assert !(bI <= k < bI + sliceWidth);
      }
    }
  }

  /** ORs the Gray code of `field` into `bits` at `bitIndex`, slice by slice. */
  method Pack(bits: array<Byte>, bitIndex: nat, field: Word, fieldWidth: nat) returns (next: nat)
    requires |field| == INT_BITS && 1 <= fieldWidth <= INT_BITS && Fits(field, fieldWidth)
    requires bitIndex + fieldWidth <= 8 * bits.Length
    modifies bits
    ensures next == bitIndex + fieldWidth
    ensures Written(old(bits[..]), bits[..], bitIndex, MsbFirst(Gray(field), fieldWidth), fieldWidth)
  {
    var gray := Xor(Shr(field, 1), field);
    GrayFits(field, fieldWidth);
    var bI, width := bitIndex, fieldWidth;
    while true
      invariant bI + width == bitIndex + fieldWidth && 1 <= width
      invariant bI == bitIndex || bI % 8 == 0
      invariant Written(old(bits[..]), bits[..], bitIndex, MsbFirst(gray, fieldWidth), bI - bitIndex)
      decreases width
    {
      var bitsLeft := 8 - bI % 8;
      var sliceWidth := if bitsLeft < width then bitsLeft else width;
      ghost var now := bits[..];
      bits[bI / 8] := Or(bits[bI / 8], WriteSlice(gray, width, bitsLeft, sliceWidth));
      SliceAdded(old(bits[..]), now, bits[..], gray, fieldWidth, bitIndex, bI, width, bitsLeft, sliceWidth);
      bI := bI + sliceWidth;
      width := width - sliceWidth;
      if width == 0 { break; }
    }
    next := bI;
  }

  /** The bits of `field` at `width` and above are those already read from the frame. */
  ghost predicate ReadSoFar(field: Word, bytes: seq<Byte>, bitIndex: nat, fieldWidth: nat, width: nat)
    requires bitIndex + fieldWidth <= 8 * |bytes|
  {
    |field| == INT_BITS &&
    forall i :: 0 <= i < INT_BITS ==>
      field[i] == (width <= i < fieldWidth && FrameBit(bytes, bitIndex + fieldWidth - 1 - i))
  }

  /** One pass of the loop in `unpack`. */
  function ReadSlice(b: Byte, width: nat, bitsLeft: nat, sliceWidth: nat): (r: Word)
    requires sliceWidth <= bitsLeft && sliceWidth <= width
    ensures |r| == INT_BITS
  {
    Shl(LowBits(Shr(Cast(b, INT_BITS), bitsLeft - sliceWidth), sliceWidth), width - sliceWidth)
  }

  lemma ReadSliceAt(b: Byte, width: nat, bitsLeft: nat, sliceWidth: nat, i: nat)
    requires sliceWidth <= bitsLeft <= 8 && sliceWidth <= width
    requires width - sliceWidth <= i < width && i < INT_BITS
    ensures ReadSlice(b, width, bitsLeft, sliceWidth)[i] == b[i - width + bitsLeft]
  {
    var c := Cast(b, INT_BITS);
    var d := Shr(c, bitsLeft - sliceWidth);
    var p := i - (width - sliceWidth);
    var q := i - width + bitsLeft;
    assert d[p] == Bit(c, p + (bitsLeft - sliceWidth));
    assert p + (bitsLeft - sliceWidth) == q;
    assert c[q] == b[q];
    assert LowBits(d, sliceWidth)[p] == d[p];
  }

  lemma SliceRead(field: Word, bytes: seq<Byte>, bitIndex: nat, fieldWidth: nat, width: nat, bI: nat,
                  bitsLeft: nat, sliceWidth: nat)
    requires bitIndex + fieldWidth <= 8 * |bytes| && fieldWidth <= INT_BITS
    requires bI + width == bitIndex + fieldWidth && 1 <= width <= fieldWidth
    requires bitsLeft == 8 - bI % 8
    requires sliceWidth == if bitsLeft < width then bitsLeft else width
    requires ReadSoFar(field, bytes, bitIndex, fieldWidth, width)
    ensures ReadSoFar(Or(field, ReadSlice(bytes[bI / 8], width, bitsLeft, sliceWidth)),
                      bytes, bitIndex, fieldWidth, width - sliceWidth)
  {
    var b := bytes[bI / 8];
    var r := ReadSlice(b, width, bitsLeft, sliceWidth);
    forall i | 0 <= i < INT_BITS
      ensures Or(field, r)[i] == (width - sliceWidth <= i < fieldWidth
                                  && FrameBit(bytes, bitIndex + fieldWidth - 1 - i))
    {
      if width - sliceWidth <= i < width {
        var k := bI + (width - 1 - i);
        assert k / 8 == bI / 8 && k % 8 == bI % 8 + (width - 1 - i);
        ReadSliceAt(b, width, bitsLeft, sliceWidth, i);
      }
    }
  }

  /** The loop of `unpack`: collects `fieldWidth` bits at `bitIndex`, slice by slice. */
  method ReadField(bits: array<Byte>, bitIndex: nat, fieldWidth: nat) returns (field: Word, next: nat)
    requires 1 <= fieldWidth <= INT_BITS && bitIndex + fieldWidth <= 8 * bits.Length
    ensures next == bitIndex + fieldWidth
    ensures field == FromMsbFirst(FrameBits(bits[..])[bitIndex..next])
  {
    field := Zeros(INT_BITS);
    var bI, width := bitIndex, fieldWidth;
    while true
      invariant bI + width == bitIndex + fieldWidth && 1 <= width
      invariant ReadSoFar(field, bits[..], bitIndex, fieldWidth, width)
      decreases width
    {
      var bitsLeft := 8 - bI % 8;
      var sliceWidth := if bitsLeft < width then bitsLeft else width;
      SliceRead(field, bits[..], bitIndex, fieldWidth, width, bI, bitsLeft, sliceWidth);
      field := Or(field, ReadSlice(bits[bI / 8], width, bitsLeft, sliceWidth));
      bI := bI + sliceWidth;
      width := width - sliceWidth;
      if width == 0 { break; }
    }
    next := bI;
    AllRead(field, bits[..], bitIndex, fieldWidth);
  }

  /** Reads back `fieldWidth` bits at `bitIndex` and undoes the Gray code. */
  method Unpack(bits: array<Byte>, bitIndex: nat, fieldWidth: nat) returns (value: nat, next: nat)
    requires 1 <= fieldWidth <= INT_BITS && bitIndex + fieldWidth <= 8 * bits.Length
    ensures next == bitIndex + fieldWidth
    ensures value == FieldValue(FrameBits(bits[..])[bitIndex..next])
  {
    var t;
    t, next := ReadField(bits, bitIndex, fieldWidth);
    t := ShiftXor(t, 8);
    t := ShiftXor(t, 4);
    t := ShiftXor(t, 2);
    t := ShiftXor(t, 1);
    value := ToNat(t);
  }

  lemma AllRead(field: Word, bytes: seq<Byte>, bitIndex: nat, fieldWidth: nat)
    requires bitIndex + fieldWidth <= 8 * |bytes| && fieldWidth <= INT_BITS
    requires ReadSoFar(field, bytes, bitIndex, fieldWidth, 0)
    ensures field == FromMsbFirst(FrameBits(bytes)[bitIndex..bitIndex + fieldWidth])
  {
  }
}
