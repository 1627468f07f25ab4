/** The six bit layouts of codec2: what each encoder packs, in what order, and what the
    decoder of the same mode unpacks.

    Speech analysis and synthesis are outside the model: a `Frame` holds the quantiser
    indexes the analysis hands to `pack`, and the decoder returns the ones it hands on.
 */
module FrameLayout {
  import opened Words
  import opened FieldCodec

  datatype Mode = M3200 | M2400 | M1600 | M1400 | M1300 | M1200

  const WO_BITS: nat := 7
  const E_BITS: nat := 5
  const WO_E_BITS: nat := 8

  const LSP_SCALAR_INDEXES: nat := 10
  const LSPD_SCALAR_INDEXES: nat := 10
  const LSP_PRED_VQ_INDEXES: nat := 3

  /** `log2m` of the scalar LSP codebooks. */
  function LspBits(i: nat): (w: nat)
    ensures 1 <= w <= 9
  {
    if i < 7 then 4 else if i < 9 then 3 else 2
  }

  /** `log2m` of the delta LSP codebooks. */
  function LspdBits(i: nat): (w: nat)
    ensures 1 <= w <= 9
  {
    5
  }

  /** `log2m` of the predictive LSP codebooks: nine bits, one more than `unpack` documents. */
  function LspPredVqBits(i: nat): (w: nat)
    ensures 1 <= w <= 9
  {
    9
  }

  function BitsPerFrame(mode: Mode): nat {
    match mode
    case M3200 => 64
    case M2400 => 48
    case M1600 => 64
    case M1400 => 56
    case M1300 => 52
    case M1200 => 48
  }

  function SamplesPerFrame(mode: Mode): nat {
    match mode
    case M3200 => 160
    case M2400 => 160
    case _ => 320
  }

  function BytesPerFrame(mode: Mode): nat {
    (BitsPerFrame(mode) + 7) / 8
  }

  /** The quantiser indexes of one frame. `v0..v3` are voicing bits; `wo1`, `e1` belong to the
      second 10 ms frame and `wo3`, `e3` to the fourth. */
  datatype Frame =
    | F3200(v0: nat, v1: nat, wo1: nat, e1: nat, lspd: seq<nat>)
    | F2400(v0: nat, v1: nat, woe1: nat, lsp: seq<nat>)
    | F1600(v0: nat, v1: nat, wo1: nat, e1: nat, v2: nat, v3: nat, wo3: nat, e3: nat, lsp: seq<nat>)
    | F1400(v0: nat, v1: nat, woe1: nat, v2: nat, v3: nat, woe3: nat, lsp: seq<nat>)
    | F1300(v0: nat, v1: nat, v2: nat, v3: nat, wo3: nat, e3: nat, lsp: seq<nat>)
    | F1200(v0: nat, v1: nat, woe1: nat, v2: nat, v3: nat, woe3: nat, lspvq: seq<nat>)
  {
    function Mode(): Mode {
      match this
      case F3200(_, _, _, _, _) => M3200
      case F2400(_, _, _, _) => M2400
      case F1600(_, _, _, _, _, _, _, _, _) => M1600
      case F1400(_, _, _, _, _, _, _) => M1400
      case F1300(_, _, _, _, _, _, _) => M1300
      case F1200(_, _, _, _, _, _, _) => M1200
    }

    /** The LSP indexes, which end every frame. */
    function Lsps(): seq<nat> {
      match this
      case F3200(_, _, _, _, lspd) => lspd
      case F2400(_, _, _, lsp) => lsp
      case F1600(_, _, _, _, _, _, _, _, lsp) => lsp
      case F1400(_, _, _, _, _, _, lsp) => lsp
      case F1300(_, _, _, _, _, _, lsp) => lsp
      case F1200(_, _, _, _, _, _, lspvq) => lspvq
    }

    /** The index in place `i` of the bit allocation table. */
    function Field(i: nat): nat
      requires i < FieldCount(Mode()) && |Lsps()| == LspCount(Mode())
    {
      match this
      case F3200(v0, v1, wo1, e1, lspd) =>
        if i == 0 then v0 else if i == 1 then v1 else if i == 2 then wo1 else if i == 3 then e1 else lspd[i - 4]
      case F2400(v0, v1, woe1, lsp) =>
        if i == 0 then v0 else if i == 1 then v1 else if i == 2 then woe1 else lsp[i - 3]
      case F1600(v0, v1, wo1, e1, v2, v3, wo3, e3, lsp) =>
        if i == 0 then v0 else if i == 1 then v1 else if i == 2 then wo1 else if i == 3 then e1
        else if i == 4 then v2 else if i == 5 then v3 else if i == 6 then wo3 else if i == 7 then e3 else lsp[i - 8]
      case F1400(v0, v1, woe1, v2, v3, woe3, lsp) =>
        if i == 0 then v0 else if i == 1 then v1 else if i == 2 then woe1
        else if i == 3 then v2 else if i == 4 then v3 else if i == 5 then woe3 else lsp[i - 6]
      case F1300(v0, v1, v2, v3, wo3, e3, lsp) =>
        if i == 0 then v0 else if i == 1 then v1 else if i == 2 then v2 else if i == 3 then v3
        else if i == 4 then wo3 else if i == 5 then e3 else lsp[i - 6]
      case F1200(v0, v1, woe1, v2, v3, woe3, lspvq) =>
        if i == 0 then v0 else if i == 1 then v1 else if i == 2 then woe1
        else if i == 3 then v2 else if i == 4 then v3 else if i == 5 then woe3 else lspvq[i - 6]
    }

    /** Every index fits the width its table gives it. */
    predicate Valid() {
      && |Lsps()| == LspCount(Mode())
      && forall i :: 0 <= i < FieldCount(Mode()) ==> Field(i) < Pow2(Width(Mode(), i))
    }
  }

  // ----- the bit allocation tables

  function LspCount(mode: Mode): nat {
    match mode
    case M3200 => LSPD_SCALAR_INDEXES
    case M1200 => LSP_PRED_VQ_INDEXES
    case _ => LSP_SCALAR_INDEXES
  }

  /** The number of fields ahead of the LSPs. */
  function HeadCount(mode: Mode): nat {
    match mode
    case M3200 => 4
    case M2400 => 3
    case M1600 => 8
    case M1400 => 6
    case M1300 => 6
    case M1200 => 6
  }

  /** Fields per frame, spare bits left out. */
  function FieldCount(mode: Mode): nat {
    HeadCount(mode) + LspCount(mode)
  }

  function LspWidth(mode: Mode, i: nat): (w: nat)
    ensures 1 <= w <= 9
  {
    match mode
    case M3200 => LspdBits(i)
    case M1200 => LspPredVqBits(i)
    case _ => LspBits(i)
  }

  /** The width of field `i`. */
  function Width(mode: Mode, i: nat): (w: nat)
    requires i < FieldCount(mode)
    ensures 1 <= w <= 9
  {
    if i >= HeadCount(mode) then LspWidth(mode, i - HeadCount(mode))
    else
      match mode
      case M3200 => if i < 2 then 1 else if i == 2 then WO_BITS else E_BITS
      case M2400 => if i < 2 then 1 else WO_E_BITS
      case M1600 => if i % 4 < 2 then 1 else if i % 4 == 2 then WO_BITS else E_BITS
      case M1400 => if i % 3 < 2 then 1 else WO_E_BITS
      case M1300 => if i < 4 then 1 else if i == 4 then WO_BITS else E_BITS
      case M1200 => if i % 3 < 2 then 1 else WO_E_BITS
  }

  /** Spare bits, always sent as zero and never read. */
  function SpareBits(mode: Mode): nat {
    match mode
    case M2400 => 2
    case M1200 => 1
    case _ => 0
  }

  // ----- the bit string of a frame

  /** The bit at which field `n` starts. */
  function Offset(mode: Mode, n: nat): nat
    requires n <= FieldCount(mode)
  {
    if n == 0 then 0 else Offset(mode, n - 1) + Width(mode, n - 1)
  }

  /** The Gray codes of the first `n` fields, one after another. */
  function Stream(f: Frame, n: nat): (s: seq<bool>)
    requires n <= FieldCount(f.Mode()) && |f.Lsps()| == LspCount(f.Mode())
    ensures |s| == Offset(f.Mode(), n)
  {
    if n == 0 then [] else Stream(f, n - 1) + FieldBits(f.Field(n - 1), Width(f.Mode(), n - 1))
  }

  lemma {:induction false} OffsetMonotone(mode: Mode, i: nat, n: nat)
    requires i <= n <= FieldCount(mode)
    ensures Offset(mode, i) <= Offset(mode, n)
    decreases n
  {
    if i < n { OffsetMonotone(mode, i, n - 1); }
  }

  /** The bit at which the LSPs of a frame start. */
  function LspsStart(mode: Mode): nat {
    match mode
    case M3200 => 14
    case M2400 => 10
    case M1600 => 28
    case M1400 => 20
    case M1300 => 16
    case M1200 => 20
  }

  /** The bit at which LSP index `i` starts, counted from the first. */
  function LspStart(mode: Mode, i: nat): nat {
    match mode
    case M3200 => 5 * i
    case M1200 => 9 * i
    case _ => if i <= 7 then 4 * i else if i == 8 then 31 else if i == 9 then 34 else 36
  }

  /** The bit at which field `i` ahead of the LSPs starts. */
  function HeadStart(mode: Mode, i: nat): nat {
    match mode
    case M3200 => if i <= 2 then i else 9
    case M2400 => i
    case M1600 =>
      if i <= 2 then i else if i == 3 then 9 else if i <= 6 then 10 + i else 23
    case M1400 => if i <= 2 then i else 7 + i
    case M1300 => if i <= 4 then i else 11
    case M1200 => if i <= 2 then i else 7 + i
  }

  /** The bit at which field `i` starts. */
  function Start(mode: Mode, i: nat): nat {
    if i < HeadCount(mode) then HeadStart(mode, i) else LspsStart(mode) + LspStart(mode, i - HeadCount(mode))
  }

  lemma StartStep(mode: Mode, i: nat)
    requires i < FieldCount(mode)
    ensures Start(mode, 0) == 0 && Start(mode, i + 1) == Start(mode, i) + Width(mode, i)
  {
  }

  lemma {:induction false} OffsetIsStart(mode: Mode, i: nat)
    requires i <= FieldCount(mode)
    ensures Offset(mode, i) == Start(mode, i)
  {
    hide Start, Width;
    if i > 0 {
      OffsetIsStart(mode, i - 1);
      StartStep(mode, i - 1);
    } else {
      StartStep(mode, 0);
    }
  }

  /** The fields and the spare bits fill the frame in every mode: the assertion that ends
      every encoder. */
  lemma FieldsFillFrame(mode: Mode)
    ensures Offset(mode, FieldCount(mode)) + SpareBits(mode) == BitsPerFrame(mode) <= 8 * BytesPerFrame(mode)
  {
    hide Offset, Width;
    OffsetIsStart(mode, FieldCount(mode));
  }

  /** Field `i` is found between its offset and the next. */
  lemma {:induction false} StreamAt(f: Frame, n: nat, i: nat)
    requires i < n <= FieldCount(f.Mode()) && |f.Lsps()| == LspCount(f.Mode())
    ensures Offset(f.Mode(), i) <= Offset(f.Mode(), i + 1) <= Offset(f.Mode(), n)
    ensures Stream(f, n)[Offset(f.Mode(), i)..Offset(f.Mode(), i + 1)] == FieldBits(f.Field(i), Width(f.Mode(), i))
    decreases n
  {
    hide FieldBits, Width, FieldCount, Offset, Frame.Field;
    OffsetMonotone(f.Mode(), i, i + 1);
    OffsetMonotone(f.Mode(), i + 1, n);
    OffsetMonotone(f.Mode(), n - 1, n);
    var head, tail := Stream(f, n - 1), FieldBits(f.Field(n - 1), Width(f.Mode(), n - 1));
    assert Stream(f, n) == head + tail;
    if i < n - 1 {
      StreamAt(f, n - 1, i);
      SliceOfHead(head, tail, Offset(f.Mode(), i), Offset(f.Mode(), i + 1));
    } else {
      SliceOfTail(head, tail);
      assert |head| == Offset(f.Mode(), i) && |head + tail| == Offset(f.Mode(), n);
    }
  }

  lemma SliceOfTail(a: seq<bool>, b: seq<bool>)
    ensures (a + b)[|a|..|a + b|] == b
  {
  }

  lemma SliceOfHead(a: seq<bool>, b: seq<bool>, i: nat, j: nat)
    requires i <= j <= |a|
    ensures (a + b)[i..j] == a[i..j]
  {
  }

  /** The buffer holds the first `n` fields of `f` and then only zeros. */
  ghost predicate Holds(bytes: seq<Byte>, f: Frame, n: nat) {
    && f.Valid() && n <= FieldCount(f.Mode())
    && |bytes| == BytesPerFrame(f.Mode())
    && Offset(f.Mode(), n) <= 8 * |bytes|
    && FrameBits(bytes) == Stream(f, n) + Zeros(8 * |bytes| - Offset(f.Mode(), n))
  }

  /** What `unpack` yields for field `i` of a received frame. */
  function FieldAt(bytes: seq<Byte>, mode: Mode, i: nat): nat
    requires i < FieldCount(mode) && Offset(mode, i + 1) <= 8 * |bytes|
  {
    OffsetMonotone(mode, i, i + 1);
    FieldValue(FrameBits(bytes)[Offset(mode, i)..Offset(mode, i + 1)])
  }

  lemma BitsRecovered(bytes: seq<Byte>, f: Frame, i: nat)
    requires i < FieldCount(f.Mode()) && Holds(bytes, f, FieldCount(f.Mode()))
    ensures Offset(f.Mode(), i) <= Offset(f.Mode(), i + 1) <= 8 * |bytes|
    ensures FrameBits(bytes)[Offset(f.Mode(), i)..Offset(f.Mode(), i + 1)] == FieldBits(f.Field(i), Width(f.Mode(), i))
  {
    hide FieldBits, FrameBits, Width, Offset;
    StreamAt(f, FieldCount(f.Mode()), i);
    var s := Stream(f, FieldCount(f.Mode()));
    var a, b := Offset(f.Mode(), i), Offset(f.Mode(), i + 1);
    assert FrameBits(bytes)[a..b] == s[a..b];
  }

  /** A frame that holds valid fields gives every one of them back. */
  lemma FieldRecovered(bytes: seq<Byte>, f: Frame, i: nat)
    requires i < FieldCount(f.Mode()) && Holds(bytes, f, FieldCount(f.Mode()))
    ensures Offset(f.Mode(), i + 1) <= 8 * |bytes| && FieldAt(bytes, f.Mode(), i) == f.Field(i)
  {
    hide *;
    BitsRecovered(bytes, f, i);
    FieldInRange(bytes, f, i);
    FieldAtIs(bytes, f.Mode(), i);
    ValueRecovered(f.Field(i), Width(f.Mode(), i));
  }

  lemma FieldInRange(bytes: seq<Byte>, f: Frame, i: nat)
    requires i < FieldCount(f.Mode()) && Holds(bytes, f, FieldCount(f.Mode()))
    ensures |f.Lsps()| == LspCount(f.Mode()) && f.Field(i) < Pow2(Width(f.Mode(), i))
  {
    hide Frame.Field, Width, Stream, FrameBits, Offset;
  }

  lemma FieldAtIs(bytes: seq<Byte>, mode: Mode, i: nat)
    requires i < FieldCount(mode) && Offset(mode, i) <= Offset(mode, i + 1) <= 8 * |bytes|
    ensures FieldAt(bytes, mode, i) == FieldValue(FrameBits(bytes)[Offset(mode, i)..Offset(mode, i + 1)])
  {
    hide FieldValue, FrameBits, Offset;
  }

  lemma ValueRecovered(value: nat, width: nat)
    requires width <= 16 && value < Pow2(width)
    ensures FieldValue(FieldBits(value, width)) == value
  {
    hide FieldBits, FieldValue;
    Pow2Monotone(width, 16);
    Pow2Monotone(16, INT_BITS);
    FieldRoundTrip(value, width);
  }

  lemma BitsAppended(before: seq<Byte>, after: seq<Byte>, s: seq<bool>, code: seq<bool>)
    requires |s| + |code| <= 8 * |before|
    requires FrameBits(before) == s + Zeros(8 * |before| - |s|)
    requires Written(before, after, |s|, code, |code|)
    ensures |after| == |before|
    ensures FrameBits(after) == s + code + Zeros(8 * |after| - |s| - |code|)
  {
    var was := s + Zeros(8 * |before| - |s|);
    var want := s + code + Zeros(8 * |after| - |s| - |code|);
    forall k | 0 <= k < 8 * |after| ensures FrameBit(after, k) == want[k] {
      assert FrameBits(before)[k] == FrameBit(before, k);
      assert was[k] == (k < |s| && s[k]);
    }
  }

  lemma FieldAppended(before: seq<Byte>, after: seq<Byte>, f: Frame, n: nat)
    requires n < FieldCount(f.Mode()) && Holds(before, f, n) && Offset(f.Mode(), n + 1) <= 8 * |before|
    requires Written(before, after, Offset(f.Mode(), n), FieldBits(f.Field(n), Width(f.Mode(), n)), Width(f.Mode(), n))
    ensures Holds(after, f, n + 1)
  {
    hide FieldBits, FrameBits, Width, Written;
    BitsAppended(before, after, Stream(f, n), FieldBits(f.Field(n), Width(f.Mode(), n)));
  }

  // ----- the encoders

  /** `memset(bits, 0, n)` */
  method Clear(bits: array<Byte>, ghost f: Frame)
    requires f.Valid() && bits.Length == BytesPerFrame(f.Mode())
    modifies bits
    ensures Offset(f.Mode(), 0) == 0 && Holds(bits[..], f, 0)
  {
    for i := 0 to bits.Length
      invariant forall k :: 0 <= k < i ==> bits[k] == Zeros(8)
    {
      bits[i] := Zeros(8);
    }
    assert FrameBits(bits[..]) == Zeros(8 * bits.Length);
  }

  /** A call of `pack` that adds field `n` to a frame under construction. */
  method PackNext(bits: array<Byte>, nbit: nat, value: nat, width: nat, ghost f: Frame,
                  ghost n: nat) returns (next: nat)
    requires n < FieldCount(f.Mode()) && Holds(bits[..], f, n)
    requires nbit == Offset(f.Mode(), n) && value == f.Field(n) && width == Width(f.Mode(), n)
    modifies bits
    ensures next == Offset(f.Mode(), n + 1) && Holds(bits[..], f, n + 1)
  {
    FieldFits(bits[..], f, n);
    FieldsFillFrame(f.Mode());
    FieldBitsAre(value, width);
    hide *;
    OffsetMonotone(f.Mode(), n + 1, FieldCount(f.Mode()));
    var w := FromNat(value, INT_BITS);
    next := Pack(bits, nbit, w, width);
    FieldAppended(old(bits[..]), bits[..], f, n);
  }

  lemma FieldBitsAre(value: nat, width: nat)
    requires width <= INT_BITS
    ensures FieldBits(value, width) == MsbFirst(Gray(FromNat(value, INT_BITS)), width)
  {
  }

  /** The field to be added next fits its width, and the frame has room for it. */
  lemma FieldFits(bytes: seq<Byte>, f: Frame, n: nat)
    requires n < FieldCount(f.Mode()) && Holds(bytes, f, n)
    ensures |bytes| == BytesPerFrame(f.Mode()) && Offset(f.Mode(), n + 1) == Offset(f.Mode(), n) + Width(f.Mode(), n)
    ensures Fits(FromNat(f.Field(n), INT_BITS), Width(f.Mode(), n))
  {
    var value, width := f.Field(n), Width(f.Mode(), n);
    assert value < Pow2(width);
    hide Holds, Frame.Field, FromNat, Fits, Pow2;
    Pow2Monotone(width, INT_BITS);
    FitsWidth(value, INT_BITS, width);
  }

  /** `pack` of a zero spare field of one or two bits. */
  method PackSpare(bits: array<Byte>, nbit: nat, width: nat) returns (next: nat)
    requires 1 <= width <= 2 && nbit + width <= 8 * bits.Length
    modifies bits
    ensures next == nbit + width && FrameBits(bits[..]) == old(FrameBits(bits[..])) && bits[..] == old(bits[..])
  {
    var zero := Zeros(INT_BITS);
    next := Pack(bits, nbit, zero, width);
    forall k | 0 <= k < 8 * bits.Length ensures FrameBits(bits[..])[k] == old(FrameBits(bits[..]))[k] {
      assert FrameBit(bits[..], k) == old(FrameBit(bits[..], k));
    }
    FrameBitsInjective(old(bits[..]), bits[..]);
  }

  method Encode3200(f: Frame, bits: array<Byte>)
    requires f.F3200? && f.Valid() && bits.Length == BytesPerFrame(M3200)
    modifies bits
    ensures Holds(bits[..], f, FieldCount(M3200))
  {
    hide Holds, Offset;
    var nbit := 0;
    Clear(bits, f);
    nbit := PackNext(bits, nbit, f.v0, 1, f, 0);
    nbit := PackNext(bits, nbit, f.v1, 1, f, 1);
    nbit := PackNext(bits, nbit, f.wo1, WO_BITS, f, 2);
    nbit := PackNext(bits, nbit, f.e1, E_BITS, f, 3);
    for i := 0 to LSPD_SCALAR_INDEXES
      invariant nbit == Offset(M3200, 4 + i) && Holds(bits[..], f, 4 + i)
    {
      nbit := PackNext(bits, nbit, f.lspd[i], LspdBits(i), f, 4 + i);
    }
    FieldsFillFrame(M3200);
    assert nbit == BitsPerFrame(M3200);
  }

  method Encode2400(f: Frame, bits: array<Byte>)
    requires f.F2400? && f.Valid() && bits.Length == BytesPerFrame(M2400)
    modifies bits
    ensures Holds(bits[..], f, FieldCount(M2400))
  {
    hide Holds, Offset;
    var nbit := 0;
    Clear(bits, f);
    nbit := PackNext(bits, nbit, f.v0, 1, f, 0);
    nbit := PackNext(bits, nbit, f.v1, 1, f, 1);
    nbit := PackNext(bits, nbit, f.woe1, WO_E_BITS, f, 2);
    for i := 0 to LSP_SCALAR_INDEXES
      invariant nbit == Offset(M2400, 3 + i) && Holds(bits[..], f, 3 + i)
    {
      nbit := PackNext(bits, nbit, f.lsp[i], LspBits(i), f, 3 + i);
    }
    FieldsFillFrame(M2400);
    nbit := PackSpare(bits, nbit, 2);
    assert nbit == BitsPerFrame(M2400);
  }

  method Encode1600(f: Frame, bits: array<Byte>)
    requires f.F1600? && f.Valid() && bits.Length == BytesPerFrame(M1600)
    modifies bits
    ensures Holds(bits[..], f, FieldCount(M1600))
  {
    hide Holds, Offset;
    var nbit := 0;
    Clear(bits, f);
    nbit := PackNext(bits, nbit, f.v0, 1, f, 0);
    nbit := PackNext(bits, nbit, f.v1, 1, f, 1);
    nbit := PackNext(bits, nbit, f.wo1, WO_BITS, f, 2);
    nbit := PackNext(bits, nbit, f.e1, E_BITS, f, 3);
    nbit := PackNext(bits, nbit, f.v2, 1, f, 4);
    nbit := PackNext(bits, nbit, f.v3, 1, f, 5);
    nbit := PackNext(bits, nbit, f.wo3, WO_BITS, f, 6);
    nbit := PackNext(bits, nbit, f.e3, E_BITS, f, 7);
    for i := 0 to LSP_SCALAR_INDEXES
      invariant nbit == Offset(M1600, 8 + i) && Holds(bits[..], f, 8 + i)
    {
      nbit := PackNext(bits, nbit, f.lsp[i], LspBits(i), f, 8 + i);
    }
    FieldsFillFrame(M1600);
    assert nbit == BitsPerFrame(M1600);
  }

  method Encode1400(f: Frame, bits: array<Byte>)
    requires f.F1400? && f.Valid() && bits.Length == BytesPerFrame(M1400)
    modifies bits
    ensures Holds(bits[..], f, FieldCount(M1400))
  {
    hide Holds, Offset;
    var nbit := 0;
    Clear(bits, f);
    nbit := PackNext(bits, nbit, f.v0, 1, f, 0);
    nbit := PackNext(bits, nbit, f.v1, 1, f, 1);
    nbit := PackNext(bits, nbit, f.woe1, WO_E_BITS, f, 2);
    nbit := PackNext(bits, nbit, f.v2, 1, f, 3);
    nbit := PackNext(bits, nbit, f.v3, 1, f, 4);
    nbit := PackNext(bits, nbit, f.woe3, WO_E_BITS, f, 5);
    for i := 0 to LSP_SCALAR_INDEXES
      invariant nbit == Offset(M1400, 6 + i) && Holds(bits[..], f, 6 + i)
    {
      nbit := PackNext(bits, nbit, f.lsp[i], LspBits(i), f, 6 + i);
    }
    FieldsFillFrame(M1400);
    assert nbit == BitsPerFrame(M1400);
  }

  method Encode1300(f: Frame, bits: array<Byte>)
    requires f.F1300? && f.Valid() && bits.Length == BytesPerFrame(M1300)
    modifies bits
    ensures Holds(bits[..], f, FieldCount(M1300))
  {
    hide Holds, Offset;
    var nbit := 0;
    Clear(bits, f);
    nbit := PackNext(bits, nbit, f.v0, 1, f, 0);
    nbit := PackNext(bits, nbit, f.v1, 1, f, 1);
    nbit := PackNext(bits, nbit, f.v2, 1, f, 2);
    nbit := PackNext(bits, nbit, f.v3, 1, f, 3);
    nbit := PackNext(bits, nbit, f.wo3, WO_BITS, f, 4);
    nbit := PackNext(bits, nbit, f.e3, E_BITS, f, 5);
    for i := 0 to LSP_SCALAR_INDEXES
      invariant nbit == Offset(M1300, 6 + i) && Holds(bits[..], f, 6 + i)
    {
      nbit := PackNext(bits, nbit, f.lsp[i], LspBits(i), f, 6 + i);
    }
    FieldsFillFrame(M1300);
    assert nbit == BitsPerFrame(M1300);
  }

  method Encode1200(f: Frame, bits: array<Byte>)
    requires f.F1200? && f.Valid() && bits.Length == BytesPerFrame(M1200)
    modifies bits
    ensures Holds(bits[..], f, FieldCount(M1200))
  {
    hide Holds, Offset;
    var nbit := 0;
    Clear(bits, f);
    nbit := PackNext(bits, nbit, f.v0, 1, f, 0);
    nbit := PackNext(bits, nbit, f.v1, 1, f, 1);
    nbit := PackNext(bits, nbit, f.woe1, WO_E_BITS, f, 2);
    nbit := PackNext(bits, nbit, f.v2, 1, f, 3);
    nbit := PackNext(bits, nbit, f.v3, 1, f, 4);
    nbit := PackNext(bits, nbit, f.woe3, WO_E_BITS, f, 5);
    for i := 0 to LSP_PRED_VQ_INDEXES
      invariant nbit == Offset(M1200, 6 + i) && Holds(bits[..], f, 6 + i)
    {
      nbit := PackNext(bits, nbit, f.lspvq[i], LspPredVqBits(i), f, 6 + i);
    }
    FieldsFillFrame(M1200);
    nbit := PackSpare(bits, nbit, 1);
    assert nbit == BitsPerFrame(M1200);
  }

  // ----- the decoders

  ghost predicate ReadAs(bytes: seq<Byte>, mode: Mode, i: nat, value: nat) {
    i < FieldCount(mode) && Offset(mode, i + 1) <= 8 * |bytes| && value == FieldAt(bytes, mode, i)
  }

  /** `f` is what the decoder of its mode reads from `bytes`. */
  ghost predicate Received(f: Frame, bytes: seq<Byte>) {
    && |f.Lsps()| == LspCount(f.Mode())
    && forall i :: 0 <= i < FieldCount(f.Mode()) ==> ReadAs(bytes, f.Mode(), i, f.Field(i))
  }

  /** A call of `unpack` that reads field `n`. */
  method UnpackNext(bits: array<Byte>, nbit: nat, width: nat, mode: Mode, ghost n: nat) returns (value: nat, next: nat)
    requires n < FieldCount(mode) && bits.Length == BytesPerFrame(mode)
    requires nbit == Offset(mode, n) && width == Width(mode, n)
    ensures next == Offset(mode, n + 1) && ReadAs(bits[..], mode, n, value)
  {
    hide FieldValue, FrameBits, Width;
    FieldsFillFrame(mode);
    OffsetMonotone(mode, n + 1, FieldCount(mode));
    value, next := Unpack(bits, nbit, width);
  }

  method Decode3200(bits: array<Byte>) returns (f: Frame)
    requires bits.Length == BytesPerFrame(M3200)
    ensures f.F3200? && Received(f, bits[..])
  {
    hide ReadAs, Offset;
    var v0, v1, wo1, e1;
    var nbit := 0;
    StreamStart(M3200);
    v0, nbit := UnpackNext(bits, nbit, 1, M3200, 0);
    v1, nbit := UnpackNext(bits, nbit, 1, M3200, 1);
    wo1, nbit := UnpackNext(bits, nbit, WO_BITS, M3200, 2);
    e1, nbit := UnpackNext(bits, nbit, E_BITS, M3200, 3);
    var lspd := [];
    for i := 0 to LSPD_SCALAR_INDEXES
      invariant |lspd| == i && nbit == Offset(M3200, 4 + i)
      invariant forall k :: 0 <= k < i ==> ReadAs(bits[..], M3200, 4 + k, lspd[k])
    {
      var value;
      value, nbit := UnpackNext(bits, nbit, LspdBits(i), M3200, 4 + i);
      lspd := lspd + [value];
    }
    f := F3200(v0, v1, wo1, e1, lspd);
    forall i | 4 <= i < FieldCount(M3200) ensures ReadAs(bits[..], M3200, i, f.Field(i)) {
      assert ReadAs(bits[..], M3200, 4 + (i - 4), lspd[i - 4]);
    }
  }

  method Decode2400(bits: array<Byte>) returns (f: Frame)
    requires bits.Length == BytesPerFrame(M2400)
    ensures f.F2400? && Received(f, bits[..])
  {
    hide ReadAs, Offset;
    var v0, v1, woe1;
    var nbit := 0;
    StreamStart(M2400);
    v0, nbit := UnpackNext(bits, nbit, 1, M2400, 0);
    v1, nbit := UnpackNext(bits, nbit, 1, M2400, 1);
    woe1, nbit := UnpackNext(bits, nbit, WO_E_BITS, M2400, 2);
    var lsp := [];
    for i := 0 to LSP_SCALAR_INDEXES
      invariant |lsp| == i && nbit == Offset(M2400, 3 + i)
      invariant forall k :: 0 <= k < i ==> ReadAs(bits[..], M2400, 3 + k, lsp[k])
    {
      var value;
      value, nbit := UnpackNext(bits, nbit, LspBits(i), M2400, 3 + i);
      lsp := lsp + [value];
    }
    f := F2400(v0, v1, woe1, lsp);
    forall i | 3 <= i < FieldCount(M2400) ensures ReadAs(bits[..], M2400, i, f.Field(i)) {
      assert ReadAs(bits[..], M2400, 3 + (i - 3), lsp[i - 3]);
    }
  }

  method Decode1600(bits: array<Byte>) returns (f: Frame)
    requires bits.Length == BytesPerFrame(M1600)
    ensures f.F1600? && Received(f, bits[..])
  {
    hide ReadAs, Offset;
    var v0, v1, wo1, e1, v2, v3, wo3, e3;
    var nbit := 0;
    StreamStart(M1600);
    v0, nbit := UnpackNext(bits, nbit, 1, M1600, 0);
    v1, nbit := UnpackNext(bits, nbit, 1, M1600, 1);
    wo1, nbit := UnpackNext(bits, nbit, WO_BITS, M1600, 2);
    e1, nbit := UnpackNext(bits, nbit, E_BITS, M1600, 3);
    v2, nbit := UnpackNext(bits, nbit, 1, M1600, 4);
    v3, nbit := UnpackNext(bits, nbit, 1, M1600, 5);
    wo3, nbit := UnpackNext(bits, nbit, WO_BITS, M1600, 6);
    e3, nbit := UnpackNext(bits, nbit, E_BITS, M1600, 7);
    var lsp := [];
    for i := 0 to LSP_SCALAR_INDEXES
      invariant |lsp| == i && nbit == Offset(M1600, 8 + i)
      invariant forall k :: 0 <= k < i ==> ReadAs(bits[..], M1600, 8 + k, lsp[k])
    {
      var value;
      value, nbit := UnpackNext(bits, nbit, LspBits(i), M1600, 8 + i);
      lsp := lsp + [value];
    }
    f := F1600(v0, v1, wo1, e1, v2, v3, wo3, e3, lsp);
    forall i | 8 <= i < FieldCount(M1600) ensures ReadAs(bits[..], M1600, i, f.Field(i)) {
      assert ReadAs(bits[..], M1600, 8 + (i - 8), lsp[i - 8]);
    }
  }

  method Decode1400(bits: array<Byte>) returns (f: Frame)
    requires bits.Length == BytesPerFrame(M1400)
    ensures f.F1400? && Received(f, bits[..])
  {
    hide ReadAs, Offset;
    var v0, v1, woe1, v2, v3, woe3;
    var nbit := 0;
    StreamStart(M1400);
    v0, nbit := UnpackNext(bits, nbit, 1, M1400, 0);
    v1, nbit := UnpackNext(bits, nbit, 1, M1400, 1);
    woe1, nbit := UnpackNext(bits, nbit, WO_E_BITS, M1400, 2);
    v2, nbit := UnpackNext(bits, nbit, 1, M1400, 3);
    v3, nbit := UnpackNext(bits, nbit, 1, M1400, 4);
    woe3, nbit := UnpackNext(bits, nbit, WO_E_BITS, M1400, 5);
    var lsp := [];
    for i := 0 to LSP_SCALAR_INDEXES
      invariant |lsp| == i && nbit == Offset(M1400, 6 + i)
      invariant forall k :: 0 <= k < i ==> ReadAs(bits[..], M1400, 6 + k, lsp[k])
    {
      var value;
      value, nbit := UnpackNext(bits, nbit, LspBits(i), M1400, 6 + i);
      lsp := lsp + [value];
    }
    f := F1400(v0, v1, woe1, v2, v3, woe3, lsp);
    forall i | 6 <= i < FieldCount(M1400) ensures ReadAs(bits[..], M1400, i, f.Field(i)) {
      assert ReadAs(bits[..], M1400, 6 + (i - 6), lsp[i - 6]);
    }
  }

  method Decode1300(bits: array<Byte>) returns (f: Frame)
    requires bits.Length == BytesPerFrame(M1300)
    ensures f.F1300? && Received(f, bits[..])
  {
    hide ReadAs, Offset;
    var v0, v1, v2, v3, wo3, e3;
    var nbit := 0;
    StreamStart(M1300);
    v0, nbit := UnpackNext(bits, nbit, 1, M1300, 0);
    v1, nbit := UnpackNext(bits, nbit, 1, M1300, 1);
    v2, nbit := UnpackNext(bits, nbit, 1, M1300, 2);
    v3, nbit := UnpackNext(bits, nbit, 1, M1300, 3);
    wo3, nbit := UnpackNext(bits, nbit, WO_BITS, M1300, 4);
    e3, nbit := UnpackNext(bits, nbit, E_BITS, M1300, 5);
    var lsp := [];
    for i := 0 to LSP_SCALAR_INDEXES
      invariant |lsp| == i && nbit == Offset(M1300, 6 + i)
      invariant forall k :: 0 <= k < i ==> ReadAs(bits[..], M1300, 6 + k, lsp[k])
    {
      var value;
      value, nbit := UnpackNext(bits, nbit, LspBits(i), M1300, 6 + i);
      lsp := lsp + [value];
    }
    f := F1300(v0, v1, v2, v3, wo3, e3, lsp);
    forall i | 6 <= i < FieldCount(M1300) ensures ReadAs(bits[..], M1300, i, f.Field(i)) {
      assert ReadAs(bits[..], M1300, 6 + (i - 6), lsp[i - 6]);
    }
  }

  method Decode1200(bits: array<Byte>) returns (f: Frame)
    requires bits.Length == BytesPerFrame(M1200)
    ensures f.F1200? && Received(f, bits[..])
  {
    hide ReadAs, Offset;
    var v0, v1, woe1, v2, v3, woe3;
    var nbit := 0;
    StreamStart(M1200);
    v0, nbit := UnpackNext(bits, nbit, 1, M1200, 0);
    v1, nbit := UnpackNext(bits, nbit, 1, M1200, 1);
    woe1, nbit := UnpackNext(bits, nbit, WO_E_BITS, M1200, 2);
    v2, nbit := UnpackNext(bits, nbit, 1, M1200, 3);
    v3, nbit := UnpackNext(bits, nbit, 1, M1200, 4);
    woe3, nbit := UnpackNext(bits, nbit, WO_E_BITS, M1200, 5);
    var lspvq := [];
    for i := 0 to LSP_PRED_VQ_INDEXES
      invariant |lspvq| == i && nbit == Offset(M1200, 6 + i)
      invariant forall k :: 0 <= k < i ==> ReadAs(bits[..], M1200, 6 + k, lspvq[k])
    {
      var value;
      value, nbit := UnpackNext(bits, nbit, LspPredVqBits(i), M1200, 6 + i);
      lspvq := lspvq + [value];
    }
    f := F1200(v0, v1, woe1, v2, v3, woe3, lspvq);
    forall i | 6 <= i < FieldCount(M1200) ensures ReadAs(bits[..], M1200, i, f.Field(i)) {
      assert ReadAs(bits[..], M1200, 6 + (i - 6), lspvq[i - 6]);
    }
  }

  lemma StreamStart(mode: Mode)
    ensures Offset(mode, 0) == 0
  {
  }

  // ----- encoder against decoder

  /** A frame packed by an encoder and read by the decoder of its mode comes back unchanged. */
  lemma FrameRecovered(f: Frame, g: Frame, bytes: seq<Byte>)
    requires Holds(bytes, f, FieldCount(f.Mode()))
    requires g.Mode() == f.Mode() && Received(g, bytes)
    ensures g == f
  {
    hide FieldAt, Stream, FrameBits, Frame.Field, Width;
    forall i | 0 <= i < FieldCount(f.Mode()) ensures g.Field(i) == f.Field(i) {
      FieldRecovered(bytes, f, i);
      assert ReadAs(bytes, f.Mode(), i, g.Field(i));
    }
    SameFields(f, g);
  }

  lemma SameFields(f: Frame, g: Frame)
    requires f.Mode() == g.Mode() && |f.Lsps()| == LspCount(f.Mode()) == |g.Lsps()|
    requires forall i :: 0 <= i < FieldCount(f.Mode()) ==> f.Field(i) == g.Field(i)
    ensures f == g
  {
    forall i | 0 <= i < LspCount(f.Mode()) ensures f.Lsps()[i] == g.Lsps()[i] {
      assert f.Field(HeadCount(f.Mode()) + i) == g.Field(HeadCount(f.Mode()) + i);
    }
    assert f.Lsps() == g.Lsps();
    assert f.Field(0) == g.Field(0) && f.Field(1) == g.Field(1) && f.Field(2) == g.Field(2);
    if f.F3200? {
      assert f.Field(3) == g.Field(3);
    } else if !f.F2400? {
      assert f.Field(3) == g.Field(3) && f.Field(4) == g.Field(4) && f.Field(5) == g.Field(5);
      if f.F1600? {
        assert f.Field(6) == g.Field(6) && f.Field(7) == g.Field(7);
      }
    }
  }

  /** Spare and padding bits stay zero. */
  lemma PaddingIsZero(bytes: seq<Byte>, f: Frame, k: nat)
    requires Holds(bytes, f, FieldCount(f.Mode()))
    requires BitsPerFrame(f.Mode()) - SpareBits(f.Mode()) <= k < 8 * |bytes|
    ensures !FrameBit(bytes, k)
  {
    hide FrameBits, Stream, Width, FieldCount, FrameBit;
    FieldsFillFrame(f.Mode());
    BitAfter(bytes, Stream(f, FieldCount(f.Mode())), k);
  }

  lemma BitAfter(bytes: seq<Byte>, s: seq<bool>, k: nat)
    requires |s| <= k < 8 * |bytes| && FrameBits(bytes) == s + Zeros(8 * |bytes| - |s|)
    ensures !FrameBit(bytes, k)
  {
    assert FrameBits(bytes)[k] == FrameBit(bytes, k);
    assert (s + Zeros(8 * |bytes| - |s|))[k] == Zeros(8 * |bytes| - |s|)[k - |s|];
  }

  /** Encoding and decoding dispatched on the mode, as `codec2_encode` and `codec2_decode` do. */
  method RoundTrip(f: Frame) returns (g: Frame)
    requires f.Valid()
    ensures g == f
  {
    hide Holds, Received;
    var bits := new Byte[BytesPerFrame(f.Mode())](_ => Zeros(8));
    match f.Mode() {
      case M3200 => Encode3200(f, bits); g := Decode3200(bits);
      case M2400 => Encode2400(f, bits); g := Decode2400(bits);
      case M1600 => Encode1600(f, bits); g := Decode1600(bits);
      case M1400 => Encode1400(f, bits); g := Decode1400(bits);
      case M1300 => Encode1300(f, bits); g := Decode1300(bits);
      case M1200 => Encode1200(f, bits); g := Decode1200(bits);
    }
    FrameRecovered(f, g, bits[..]);
  }

  // ----- the place of every field, in numbers

  /** The two ends of the channel. */
  datatype End = Sent | Read

  /** Sent, the bits `from` to `to` are the Gray code of `value`, its top bit first; read,
      `value` is what `unpack` makes of them. */
  ghost predicate At(end: End, s: seq<bool>, from: nat, to: nat, value: nat) {
    && from <= to <= |s| && to - from <= INT_BITS
    && match end
       case Sent => s[from..to] == FieldBits(value, to - from)
       case Read => value == FieldValue(s[from..to])
  }

  /** An encoder leaves `bytes` for `f`, or the decoder makes `f` of `bytes`. */
  ghost predicate Carries(end: End, bytes: seq<Byte>, f: Frame) {
    match end
    case Sent => Holds(bytes, f, FieldCount(f.Mode()))
    case Read => Received(f, bytes)
  }

  /** Field `i` occupies the bits `from` to `to` at both ends. */
  lemma FieldPlaced(end: End, bytes: seq<Byte>, f: Frame, i: nat, from: nat, to: nat)
    requires Carries(end, bytes, f)
    requires |f.Lsps()| == LspCount(f.Mode()) && i < FieldCount(f.Mode())
    requires from == Start(f.Mode(), i) && to == Start(f.Mode(), i + 1)
    ensures At(end, FrameBits(bytes), from, to, f.Field(i))
  {
    hide Holds, Received, FieldBits, FieldValue, FrameBits, Width, Offset, Start, FieldAt;
    OffsetIsStart(f.Mode(), i);
    OffsetIsStart(f.Mode(), i + 1);
    NextOffset(f.Mode(), i);
    if end.Sent? {
      BitsRecovered(bytes, f, i);
    } else {
      FieldReceived(bytes, f, i);
      FieldAtIs(bytes, f.Mode(), i);
    }
  }

  lemma NextOffset(mode: Mode, i: nat)
    requires i < FieldCount(mode)
    ensures Offset(mode, i + 1) == Offset(mode, i) + Width(mode, i)
  {
  }

  lemma FieldReceived(bytes: seq<Byte>, f: Frame, i: nat)
    requires Received(f, bytes) && i < FieldCount(f.Mode())
    ensures Offset(f.Mode(), i + 1) <= 8 * |bytes| && f.Field(i) == FieldAt(bytes, f.Mode(), i)
  {
    hide FieldAt, Frame.Field, Offset;
    assert ReadAs(bytes, f.Mode(), i, f.Field(i));
  }

  /** The ten scalar LSP indexes from bit `base` on: seven of four bits, two of three, one of
      two. */
  lemma ScalarLspsPlaced(end: End, bytes: seq<Byte>, f: Frame, base: nat)
    requires Carries(end, bytes, f) && !f.F3200? && !f.F1200? && |f.Lsps()| == 10 && base == LspsStart(f.Mode())
    ensures var s, lsp := FrameBits(bytes), f.Lsps();
      && (forall i :: 0 <= i < 7 ==> At(end, s, base + 4 * i, base + 4 + 4 * i, lsp[i]))
      && At(end, s, base + 28, base + 31, lsp[7]) && At(end, s, base + 31, base + 34, lsp[8])
      && At(end, s, base + 34, base + 36, lsp[9])
  {
    hide Carries, FrameBits, At, Start;
    forall i | 0 <= i < 7 ensures At(end, FrameBits(bytes), base + 4 * i, base + 4 + 4 * i, f.Lsps()[i]) {
      LspPlaced(end, bytes, f, i, base + 4 * i, base + 4 + 4 * i);
    }
    LspPlaced(end, bytes, f, 7, base + 28, base + 31);
    LspPlaced(end, bytes, f, 8, base + 31, base + 34);
    LspPlaced(end, bytes, f, 9, base + 34, base + 36);
  }

  lemma LspPlaced(end: End, bytes: seq<Byte>, f: Frame, i: nat, from: nat, to: nat)
    requires Carries(end, bytes, f) && |f.Lsps()| == LspCount(f.Mode()) && i < LspCount(f.Mode())
    requires from == LspsStart(f.Mode()) + LspStart(f.Mode(), i)
    requires to == LspsStart(f.Mode()) + LspStart(f.Mode(), i + 1)
    ensures At(end, FrameBits(bytes), from, to, f.Lsps()[i])
  {
    LspField(f, i);
    hide Carries, FrameBits, At, LspStart, Frame.Field, Frame.Lsps;
    FieldPlaced(end, bytes, f, HeadCount(f.Mode()) + i, from, to);
  }

  lemma LspField(f: Frame, i: nat)
    requires |f.Lsps()| == LspCount(f.Mode()) && i < LspCount(f.Mode())
    ensures f.Field(HeadCount(f.Mode()) + i) == f.Lsps()[i]
  {
  }

  /** The whole layout of a mode, in numbers: both ends put and look for each index between the
      same two bits. */
  lemma Places3200(end: End, bytes: seq<Byte>, f: Frame)
    requires f.F3200? && |bytes| == 8 && |f.lspd| == 10 && Carries(end, bytes, f)
    ensures var s := FrameBits(bytes);
      && At(end, s, 0, 1, f.v0) && At(end, s, 1, 2, f.v1) && At(end, s, 2, 9, f.wo1) && At(end, s, 9, 14, f.e1)
      && (forall i :: 0 <= i < 10 ==> At(end, s, 14 + 5 * i, 19 + 5 * i, f.lspd[i]))
  {
    hide Carries, FrameBits, At;
    FieldPlaced(end, bytes, f, 0, 0, 1);
    FieldPlaced(end, bytes, f, 1, 1, 2);
    FieldPlaced(end, bytes, f, 2, 2, 9);
    FieldPlaced(end, bytes, f, 3, 9, 14);
    forall i | 0 <= i < 10
      ensures At(end, FrameBits(bytes), 14 + 5 * i, 19 + 5 * i, f.lspd[i])
    {
      LspPlaced(end, bytes, f, i, 14 + 5 * i, 19 + 5 * i);
    }
  }

  lemma Places2400(end: End, bytes: seq<Byte>, f: Frame)
    requires f.F2400? && |bytes| == 6 && |f.lsp| == 10 && Carries(end, bytes, f)
    ensures var s := FrameBits(bytes);
      && At(end, s, 0, 1, f.v0) && At(end, s, 1, 2, f.v1) && At(end, s, 2, 10, f.woe1)
      && (forall i :: 0 <= i < 7 ==> At(end, s, 10 + 4 * i, 14 + 4 * i, f.lsp[i]))
      && At(end, s, 38, 41, f.lsp[7]) && At(end, s, 41, 44, f.lsp[8]) && At(end, s, 44, 46, f.lsp[9])
  {
    hide Carries, FrameBits, At;
    FieldPlaced(end, bytes, f, 0, 0, 1);
    FieldPlaced(end, bytes, f, 1, 1, 2);
    FieldPlaced(end, bytes, f, 2, 2, 10);
    ScalarLspsPlaced(end, bytes, f, 10);
  }

  lemma Places1600(end: End, bytes: seq<Byte>, f: Frame)
    requires f.F1600? && |bytes| == 8 && |f.lsp| == 10 && Carries(end, bytes, f)
    ensures var s := FrameBits(bytes);
      && At(end, s, 0, 1, f.v0) && At(end, s, 1, 2, f.v1) && At(end, s, 2, 9, f.wo1) && At(end, s, 9, 14, f.e1)
      && At(end, s, 14, 15, f.v2) && At(end, s, 15, 16, f.v3) && At(end, s, 16, 23, f.wo3) && At(end, s, 23, 28, f.e3)
      && (forall i :: 0 <= i < 7 ==> At(end, s, 28 + 4 * i, 32 + 4 * i, f.lsp[i]))
      && At(end, s, 56, 59, f.lsp[7]) && At(end, s, 59, 62, f.lsp[8]) && At(end, s, 62, 64, f.lsp[9])
  {
    hide Carries, FrameBits, At;
    FieldPlaced(end, bytes, f, 0, 0, 1);
    FieldPlaced(end, bytes, f, 1, 1, 2);
    FieldPlaced(end, bytes, f, 2, 2, 9);
    FieldPlaced(end, bytes, f, 3, 9, 14);
    FieldPlaced(end, bytes, f, 4, 14, 15);
    FieldPlaced(end, bytes, f, 5, 15, 16);
    FieldPlaced(end, bytes, f, 6, 16, 23);
    FieldPlaced(end, bytes, f, 7, 23, 28);
    ScalarLspsPlaced(end, bytes, f, 28);
  }

  lemma Places1400(end: End, bytes: seq<Byte>, f: Frame)
    requires f.F1400? && |bytes| == 7 && |f.lsp| == 10 && Carries(end, bytes, f)
    ensures var s := FrameBits(bytes);
      && At(end, s, 0, 1, f.v0) && At(end, s, 1, 2, f.v1) && At(end, s, 2, 10, f.woe1) && At(end, s, 10, 11, f.v2)
      && At(end, s, 11, 12, f.v3) && At(end, s, 12, 20, f.woe3)
      && (forall i :: 0 <= i < 7 ==> At(end, s, 20 + 4 * i, 24 + 4 * i, f.lsp[i]))
      && At(end, s, 48, 51, f.lsp[7]) && At(end, s, 51, 54, f.lsp[8]) && At(end, s, 54, 56, f.lsp[9])
  {
    hide Carries, FrameBits, At;
    FieldPlaced(end, bytes, f, 0, 0, 1);
    FieldPlaced(end, bytes, f, 1, 1, 2);
    FieldPlaced(end, bytes, f, 2, 2, 10);
    FieldPlaced(end, bytes, f, 3, 10, 11);
    FieldPlaced(end, bytes, f, 4, 11, 12);
    FieldPlaced(end, bytes, f, 5, 12, 20);
    ScalarLspsPlaced(end, bytes, f, 20);
  }

  lemma Places1300(end: End, bytes: seq<Byte>, f: Frame)
    requires f.F1300? && |bytes| == 7 && |f.lsp| == 10 && Carries(end, bytes, f)
    ensures var s := FrameBits(bytes);
      && At(end, s, 0, 1, f.v0) && At(end, s, 1, 2, f.v1) && At(end, s, 2, 3, f.v2) && At(end, s, 3, 4, f.v3)
      && At(end, s, 4, 11, f.wo3) && At(end, s, 11, 16, f.e3)
      && (forall i :: 0 <= i < 7 ==> At(end, s, 16 + 4 * i, 20 + 4 * i, f.lsp[i]))
      && At(end, s, 44, 47, f.lsp[7]) && At(end, s, 47, 50, f.lsp[8]) && At(end, s, 50, 52, f.lsp[9])
  {
    hide Carries, FrameBits, At;
    FieldPlaced(end, bytes, f, 0, 0, 1);
    FieldPlaced(end, bytes, f, 1, 1, 2);
    FieldPlaced(end, bytes, f, 2, 2, 3);
    FieldPlaced(end, bytes, f, 3, 3, 4);
    FieldPlaced(end, bytes, f, 4, 4, 11);
    FieldPlaced(end, bytes, f, 5, 11, 16);
    ScalarLspsPlaced(end, bytes, f, 16);
  }

  lemma Places1200(end: End, bytes: seq<Byte>, f: Frame)
    requires f.F1200? && |bytes| == 6 && |f.lspvq| == 3 && Carries(end, bytes, f)
    ensures var s := FrameBits(bytes);
      && At(end, s, 0, 1, f.v0) && At(end, s, 1, 2, f.v1) && At(end, s, 2, 10, f.woe1) && At(end, s, 10, 11, f.v2)
      && At(end, s, 11, 12, f.v3) && At(end, s, 12, 20, f.woe3)
      && (forall i :: 0 <= i < 3 ==> At(end, s, 20 + 9 * i, 29 + 9 * i, f.lspvq[i]))
  {
    hide Carries, FrameBits, At;
    FieldPlaced(end, bytes, f, 0, 0, 1);
    FieldPlaced(end, bytes, f, 1, 1, 2);
    FieldPlaced(end, bytes, f, 2, 2, 10);
    FieldPlaced(end, bytes, f, 3, 10, 11);
    FieldPlaced(end, bytes, f, 4, 11, 12);
    FieldPlaced(end, bytes, f, 5, 12, 20);
    forall i | 0 <= i < 3
      ensures At(end, FrameBits(bytes), 20 + 9 * i, 29 + 9 * i, f.lspvq[i])
    {
      LspPlaced(end, bytes, f, i, 20 + 9 * i, 29 + 9 * i);
    }
  }

  /** Every mode is named after its bit rate, at 8000 samples a second. */
  lemma ModeIsBitRate(mode: Mode)
    ensures var rate := match mode
        case M3200 => 3200
        case M2400 => 2400
        case M1600 => 1600
        case M1400 => 1400
        case M1300 => 1300
        case M1200 => 1200;
      8000 * BitsPerFrame(mode) == rate * SamplesPerFrame(mode)
  {
  }

  // ----- the spare voicing bit

  /** `codec2_get_spare_bit_index`; `-1` where the mode has no such bit. */
  function SpareBitIndex(mode: Mode): int {
    match mode
    case M1300 => 2
    case M1400 => 10
    case M1600 => 15
    case _ => -1
  }

  /** The place of the third voicing bit among the fields. */
  function ThirdVoicingField(mode: Mode): nat
    requires mode.M1600? || mode.M1400? || mode.M1300?
  {
    match mode
    case M1600 => 4
    case M1400 => 3
    case _ => 2
  }

  /** The index names the third voicing bit in the 1300 and 1400 bit/s modes; in the 1600
      bit/s mode, whose pitch field is seven bits wide, it names the fourth. */
  lemma SpareBitIsThirdVoicingBit(mode: Mode)
    requires mode.M1600? || mode.M1400? || mode.M1300?
    ensures SpareBitIndex(mode) == Offset(mode, ThirdVoicingField(mode)) <==> mode != M1600
    ensures SpareBitIndex(M1600) == Offset(M1600, ThirdVoicingField(M1600) + 1)
  {
    assert Offset(M1600, 4) == 14 && Offset(M1600, 5) == 15;
    assert Offset(M1400, 3) == 10;
    assert Offset(M1300, 2) == 2;
  }
}
