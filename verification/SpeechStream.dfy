/** The state a codec carries from frame to frame: the sliding window of speech under
    analysis, and the block loops that feed a whole buffer through the codec.
 */
module SpeechStream {
  import opened FrameLayout

  // ----- the analysis window

  const M: nat := 320
  const N: nat := 80

  function Ones(n: nat): (s: seq<real>)
    ensures |s| == n
  {
    seq(n, _ => 1.0)
  }

  /** The last `M` samples of `M` ones followed by all speech so far. */
  function Window(speech: seq<real>): (w: seq<real>)
    ensures |w| == M
  {
    (Ones(M) + speech)[|speech|..]
  }

  class Analysis {
    const sn: array<real>
    ghost var speech: seq<real>  // everything analysed so far

    ghost predicate Valid()
      reads this, sn
    {
      sn.Length == M && sn[..] == Window(speech)
    }

    constructor ()
      ensures Valid() && speech == [] && fresh(sn)
      ensures sn.Length == 320 && forall k :: 0 <= k < 320 ==> sn[k] == 1.0
    {
      sn := new real[M](_ => 1.0);
      speech := [];
      new;
      assert sn[..] == Ones(M) + [];
    }

    /** The two copying loops at the head of `analyse_one_frame`. */
    method AnalyseOneFrame(frame: seq<real>)
      requires Valid() && |frame| == N
      modifies this, sn
      ensures Valid() && speech == old(speech) + frame
    {
      ghost var was := sn[..];
      for i := 0 to M - N
        invariant speech == old(speech)
        invariant forall k :: 0 <= k < i ==> sn[k] == was[k + N]
        invariant forall k :: i <= k < M ==> sn[k] == was[k]
      {
        sn[i] := sn[i + N];
      }
      assert sn[..M - N] == was[N..];
      for i := 0 to N
        invariant speech == old(speech)
        invariant sn[..M - N] == was[N..] && sn[M - N..M - N + i] == frame[..i]
      {
        sn[i + M - N] := frame[i];
      }
      speech := speech + frame;
      Slide(old(speech), frame);
      assert sn[..] == was[N..] + frame;
    }
  }

  lemma Slide(speech: seq<real>, frame: seq<real>)
    requires |frame| == N
    ensures Window(speech + frame) == Window(speech)[N..] + frame
  {
  }

  /** Place `k` holds the sample spoken `M - k` samples ago, or 1 if nothing was yet. */
  lemma WindowAt(speech: seq<real>, k: nat)
    requires k < M
    ensures Window(speech)[k] == if k + |speech| < M then 1.0 else speech[k + |speech| - M]
  {
  }

  /** Once four frames are in, the window is the last four frames and the ones are gone. */
  lemma WindowIsLastFrames(speech: seq<real>)
    requires |speech| >= M
    ensures Window(speech) == speech[|speech| - M..]
  {
  }

  // ----- the block loops

  type Octet = x: int | 0 <= x < 256

  /** The codec as an abstract step: its state and the bytes of one block in, its new state
      and the bytes of one block out. */
  type Step<!S> = (S, seq<Octet>) -> (S, seq<Octet>)

  ghost predicate BlockSized<S(!new)>(step: Step<S>, inSize: nat, outSize: nat) {
    forall s, b :: |b| == inSize ==> |step(s, b).1| == outSize
  }

  /** Feeding `n` blocks one after another. */
  function Blocks<S>(step: Step<S>, s: S, input: seq<Octet>, size: nat, n: nat): (S, seq<Octet>)
    requires n * size <= |input|
  {
    if n == 0 then (s, [])
    else
      BlockBound(n, size);
      var (t, out) := Blocks(step, s, input, size, n - 1);
      var (u, block) := step(t, input[(n - 1) * size..n * size]);
      (u, out + block)
  }

  lemma BlockBound(n: nat, size: nat)
    requires n > 0
    ensures 0 <= (n - 1) * size <= n * size && n * size == (n - 1) * size + size
  {
  }

  /** Only the blocks fed matter. */
  lemma {:induction false} BlocksLocal<S(!new)>(step: Step<S>, s: S, a: seq<Octet>, b: seq<Octet>, size: nat, n: nat)
    requires n * size <= |a| && n * size <= |b| && a[..n * size] == b[..n * size]
    ensures Blocks(step, s, a, size, n) == Blocks(step, s, b, size, n)
  {
    if n > 0 {
      BlockBound(n, size);
      var lo, hi := (n - 1) * size, n * size;
      assert a[..lo] == a[..hi][..lo] == b[..hi][..lo] == b[..lo];
      assert a[lo..hi] == a[..hi][lo..hi] == b[..hi][lo..hi] == b[lo..hi];
      BlocksLocal(step, s, a, b, size, n - 1);
    }
  }

  /** Feeding `a + b` blocks in one call is feeding `a` and then the other `b`. */
  lemma {:induction false} BlocksSplit<S(!new)>(step: Step<S>, s: S, input: seq<Octet>, size: nat, a: nat, b: nat)
    requires (a + b) * size <= |input|
    ensures a * size <= |input| && b * size <= |input[a * size..]|
    ensures var first := Blocks(step, s, input, size, a);
      var second := Blocks(step, first.0, input[a * size..], size, b);
      Blocks(step, s, input, size, a + b) == (second.0, first.1 + second.1)
    decreases b
  {
    Products(a, b, size);
    if b > 0 {
      BlockBound(b, size);
      BlockBound(a + b, size);
      Products(a, b - 1, size);
      BlocksSplit(step, s, input, size, a, b - 1);
      assert a + b - 1 == a + (b - 1);
      SliceOfRest(input, a * size, (b - 1) * size, b * size);
      var first := Blocks(step, s, input, size, a);
      var second := Blocks(step, first.0, input[a * size..], size, b - 1);
      var block := step(second.0, input[a * size..][(b - 1) * size..b * size]).1;
      assert first.1 + second.1 + block == first.1 + (second.1 + block);
      OneMoreBlock(step, s, input, size, a + b);
    } else {
      var first := Blocks(step, s, input, size, a);
      assert first.1 + [] == first.1;
    }
  }

  /** The same for two inputs, each with a buffer of its own, and the two put together. */
  lemma BlocksAppend<S(!new)>(step: Step<S>, s: S, x: seq<Octet>, y: seq<Octet>, size: nat, a: nat, b: nat)
    requires |x| == a * size && |y| == b * size
    ensures (a + b) * size == |x + y|
    ensures var first := Blocks(step, s, x, size, a);
      var second := Blocks(step, first.0, y, size, b);
      Blocks(step, s, x + y, size, a + b) == (second.0, first.1 + second.1)
  {
    Products(a, b, size);
    BlocksSplit(step, s, x + y, size, a, b);
    assert (x + y)[..a * size] == x[..a * size] && (x + y)[a * size..] == y;
    BlocksLocal(step, s, x + y, x, size, a);
  }

  /** One block is one step. */
  lemma OneBlock<S(!new)>(step: Step<S>, s: S, block: seq<Octet>)
    ensures Blocks(step, s, block, |block|, 1) == step(s, block)
  {
    OneMoreBlock(step, s, block, |block|, 1);
    var lo, hi := 0 * |block|, 1 * |block|;
    assert lo == 0 && hi == |block| && block[lo..hi] == block;
    assert [] + step(s, block).1 == step(s, block).1;
  }

  lemma OneMoreBlock<S(!new)>(step: Step<S>, s: S, input: seq<Octet>, size: nat, n: nat)
    requires n > 0 && n * size <= |input|
    ensures (n - 1) * size <= n * size
    ensures var before := Blocks(step, s, input, size, n - 1);
      var last := step(before.0, input[(n - 1) * size..n * size]);
      Blocks(step, s, input, size, n) == (last.0, before.1 + last.1)
  {
  }

  lemma Products(a: nat, b: nat, size: nat)
    ensures (a + b) * size == a * size + b * size && a * size >= 0 && b * size >= 0
  {
  }

  lemma SliceOfRest(s: seq<Octet>, from: nat, lo: nat, hi: nat)
    requires lo <= hi && from + hi <= |s|
    ensures s[from + lo..from + hi] == s[from..][lo..hi]
  {
  }

  /** How a call ends: refused with a code, or done with the size returned. */
  datatype Outcome = Refused(code: int) | Done(size: int)

  /** `data_size % block` and `data_size / block` of C, which truncate towards zero. */
  function TruncMod(a: int, b: nat): int
    requires b > 0
  {
    if a >= 0 then a % b else -((-a) % b)
  }

  function TruncDiv(a: int, b: nat): int
    requires b > 0
  {
    if a >= 0 then a / b else -((-a) / b)
  }

  /** The checks both entry points make before they touch a buffer. */
  function Check(dataSize: int, inLength: nat, outLength: nat, inBlock: nat, outBlock: nat): Outcome
    requires inBlock > 0
  {
    if dataSize > inLength then Refused(-1)
    else if TruncMod(dataSize, inBlock) != 0 then Refused(-2)
    else if outLength < outBlock * TruncDiv(dataSize, inBlock) then Refused(-3)
    else Done(outBlock * TruncDiv(dataSize, inBlock))
  }

  /** A data size that passes the checks is a whole number of blocks that fits both buffers. */
  lemma CheckedSizes(dataSize: int, inLength: nat, outLength: nat, inBlock: nat, outBlock: nat)
    requires inBlock > 0 && dataSize >= 0 && Check(dataSize, inLength, outLength, inBlock, outBlock).Done?
    ensures var n := dataSize / inBlock;
      n >= 0 && n * inBlock == dataSize <= inLength && n * outBlock <= outLength
  {
  }

  /** `dataSize` is `k` blocks. */
  predicate IsBlocks(dataSize: int, block: nat, k: int) {
    dataSize == k * block
  }

  lemma TruncWhole(dataSize: int, block: nat, k: int)
    requires block > 0
    ensures IsBlocks(dataSize, block, k) ==> TruncMod(dataSize, block) == 0 && TruncDiv(dataSize, block) == k
    ensures TruncMod(dataSize, block) == 0 ==> IsBlocks(dataSize, block, TruncDiv(dataSize, block))
  {
    if IsBlocks(dataSize, block, k) {
      if k >= 0 {
        WholeQuotient(k, block);
      } else {
        WholeQuotient(-k, block);
        assert -dataSize == -k * block && 0 < -dataSize by { UpTo(1, -k, block); }
      }
    }
    if dataSize >= 0 { Quotient(dataSize, block); } else { Quotient(-dataSize, block); }
  }

  /** The three refusals, in their order, and what is accepted: at most what the input holds, a
      whole number of blocks, and no more than the output takes. */
  lemma CheckExactly(dataSize: int, inLength: nat, outLength: nat, inBlock: nat, outBlock: nat, size: int)
    requires inBlock > 0
    ensures var r := Check(dataSize, inLength, outLength, inBlock, outBlock);
      && (r == Refused(-1) <==> dataSize > inLength)
      && (r == Refused(-2) <==> dataSize <= inLength && !exists k :: IsBlocks(dataSize, inBlock, k))
      && (r == Refused(-3) <==>
            dataSize <= inLength && exists k :: IsBlocks(dataSize, inBlock, k) && outLength < outBlock * k)
      && (r == Done(size) <==>
            dataSize <= inLength && exists k :: IsBlocks(dataSize, inBlock, k) && size == outBlock * k <= outLength)
  {
    hide TruncMod, TruncDiv, IsBlocks;
    forall k
      ensures IsBlocks(dataSize, inBlock, k) ==> TruncMod(dataSize, inBlock) == 0 && TruncDiv(dataSize, inBlock) == k
    {
      TruncWhole(dataSize, inBlock, k);
    }
    TruncWhole(dataSize, inBlock, 0);
  }

  /** `Codec2_encode` and `Codec2_decode` differ only in the step and the block sizes. */
  method Transcode<S(!new)>(step: Step<S>, s: S, dataSize: int, input: seq<Octet>, output: array<Octet>,
                     inBlock: nat, outBlock: nat)
    returns (r: int, newS: S)
    requires inBlock > 0 && BlockSized(step, inBlock, outBlock)
    modifies output
    ensures match Check(dataSize, |input|, output.Length, inBlock, outBlock)
      case Refused(code) => r == code && newS == s && output[..] == old(output[..])
      case Done(size) =>
        && r == size
        && (dataSize < 0 ==> newS == s && output[..] == old(output[..]))
        && (dataSize >= 0 ==>
              && 0 <= dataSize / inBlock && dataSize / inBlock * inBlock <= |input| && 0 <= size <= output.Length
              && (newS, output[..size]) == Blocks(step, s, input, inBlock, dataSize / inBlock)
              && output[size..] == old(output[size..]))
  {
    newS := s;
    if dataSize > |input| {
      return -1, s;
    }
    if TruncMod(dataSize, inBlock) != 0 {
      return -2, s;
    }
    var blockCount := TruncDiv(dataSize, inBlock);
    if output.Length < outBlock * blockCount {
      return -3, s;
    }
    if dataSize >= 0 {
      CheckedSizes(dataSize, |input|, output.Length, inBlock, outBlock);
      newS := RunBlocks(step, s, input, output, inBlock, outBlock, blockCount);
    }
    r := outBlock * blockCount;
  }

  /** Quotients and sizes of two accepted calls and of the one on both inputs together. */
  lemma SizesAdd(x: nat, y: nat, inBlock: nat, outBlock: nat)
    requires inBlock > 0 && x % inBlock == 0 && y % inBlock == 0
    ensures (x + y) % inBlock == 0 && (x + y) / inBlock == x / inBlock + y / inBlock
    ensures x == x / inBlock * inBlock && y == y / inBlock * inBlock
    ensures outBlock * ((x + y) / inBlock) == outBlock * (x / inBlock) + outBlock * (y / inBlock)
  {
    var a, b := x / inBlock, y / inBlock;
    Quotient(x, inBlock);
    Quotient(y, inBlock);
    Products(a, b, inBlock);
    WholeQuotient(a + b, inBlock);
    Products(a, b, outBlock);
    assert x + y == (a + b) * inBlock;
  }

  lemma Quotient(x: nat, n: nat)
    requires n > 0
    ensures x / n >= 0 && x == x / n * n + x % n
  {
  }

  lemma WholeQuotient(a: nat, n: nat)
    requires n > 0
    ensures (a * n) % n == 0 && (a * n) / n == a
  {
    Quotient(a * n, n);
    var q, r := a * n / n, a * n % n;
    assert (a - q) * n == r;
    if a - q >= 1 { UpTo(1, a - q, n); }
    if a - q <= -1 { UpTo(1, q - a, n); }
  }

  /** Two calls, on `x` and then on `y`, against one call on both: the one call is accepted
      whenever the two are and its buffer holds what they return; then it returns the sum of
      their sizes, leaves the codec in the same state and writes the same bytes. */
  method TwoCallsAgainstOne<S(!new)>(step: Step<S>, s: S, x: seq<Octet>, y: seq<Octet>, outX: array<Octet>,
                              outY: array<Octet>, out: array<Octet>, inBlock: nat, outBlock: nat)
    returns (rx: int, ry: int, r: int, twice: S, once: S)
    requires inBlock > 0 && BlockSized(step, inBlock, outBlock)
    requires outX != outY && outX != out && outY != out
    modifies outX, outY, out
    ensures rx >= 0 && ry >= 0 && rx + ry <= out.Length ==> r >= 0
    ensures rx >= 0 && ry >= 0 && r >= 0 ==>
      && r == rx + ry && rx <= outX.Length && ry <= outY.Length && r <= out.Length
      && once == twice && out[..r] == outX[..rx] + outY[..ry]
  {
    hide Blocks;
    rx, twice := Transcode(step, s, |x|, x, outX, inBlock, outBlock);
    ghost var middle := twice;
    ry, twice := Transcode(step, twice, |y|, y, outY, inBlock, outBlock);
    r, once := Transcode(step, s, |x + y|, x + y, out, inBlock, outBlock);
    if rx >= 0 && ry >= 0 {
      SizesAdd(|x|, |y|, inBlock, outBlock);
      BlocksAppend(step, s, x, y, inBlock, |x| / inBlock, |y| / inBlock);
    }
  }

  /** The loop over the blocks. */
  method RunBlocks<S(!new)>(step: Step<S>, s: S, input: seq<Octet>, output: array<Octet>, inBlock: nat,
                     outBlock: nat, count: nat)
    returns (newS: S)
    requires BlockSized(step, inBlock, outBlock) && count * inBlock <= |input| && count * outBlock <= output.Length
    modifies output
    ensures (newS, output[..count * outBlock]) == Blocks(step, s, input, inBlock, count)
    ensures output[count * outBlock..] == old(output[count * outBlock..])
  {
    newS := s;
    for i := 0 to count
      invariant i * inBlock <= count * inBlock && i * outBlock <= count * outBlock
      invariant (newS, output[..i * outBlock]) == Blocks(step, s, input, inBlock, i)
      invariant output[i * outBlock..] == old(output[i * outBlock..])
    {
      BlockBound(i + 1, inBlock);
      BlockBound(i + 1, outBlock);
      UpTo(i + 1, count, inBlock);
      UpTo(i + 1, count, outBlock);
      var (next, block) := step(newS, input[i * inBlock..(i + 1) * inBlock]);
      newS := next;
      var lo, hi := i * outBlock, (i + 1) * outBlock;
      CopyBlock(output, lo, block);
    }
  }

  lemma UpTo(i: nat, n: nat, size: nat)
    requires i <= n
    ensures i * size <= n * size
  {
  }

  method CopyBlock(output: array<Octet>, from: nat, block: seq<Octet>)
    requires from + |block| <= output.Length
    modifies output
    ensures output[..from + |block|] == old(output[..from]) + block
    ensures output[from + |block|..] == old(output[from + |block|..])
  {
    for k := 0 to |block|
      invariant forall j :: 0 <= j < output.Length ==>
        output[j] == (if from <= j < from + k then block[j - from] else old(output[j]))
    {
      output[from + k] := block[k];
    }
  }

  /** Whole blocks of speech pass the encoder's checks, and what it returns is a size that
      passes the decoder's, into a buffer as large as the speech was. */
  lemma EncodedSizeDecodes(mode: Mode, blocks: nat)
    ensures BytesPerFrame(mode) > 0 && SamplesPerFrame(mode) > 0
    ensures var speech, coded := 2 * SamplesPerFrame(mode), BytesPerFrame(mode);
      && Check(speech * blocks, speech * blocks, coded * blocks, speech, coded) == Done(coded * blocks)
      && Check(coded * blocks, coded * blocks, speech * blocks, coded, speech) == Done(speech * blocks)
  {
    match mode
    case M3200 => WholeSpeech(blocks); EightBytes(blocks);
    case M2400 => WholeSpeech(blocks); SixBytes(blocks);
    case M1600 => WholeSpeech(blocks); EightBytes(blocks);
    case M1400 => WholeSpeech(blocks); SevenBytes(blocks);
    case M1300 => WholeSpeech(blocks); SevenBytes(blocks);
    case M1200 => WholeSpeech(blocks); SixBytes(blocks);
  }

  lemma WholeSpeech(blocks: nat)
    ensures (320 * blocks) % 320 == 0 && (320 * blocks) / 320 == blocks
    ensures (640 * blocks) % 640 == 0 && (640 * blocks) / 640 == blocks
  {
  }

  lemma EightBytes(blocks: nat)
    ensures (8 * blocks) % 8 == 0 && (8 * blocks) / 8 == blocks
  {
  }

  lemma SevenBytes(blocks: nat)
    ensures (7 * blocks) % 7 == 0 && (7 * blocks) / 7 == blocks
  {
  }

  lemma SixBytes(blocks: nat)
    ensures (6 * blocks) % 6 == 0 && (6 * blocks) / 6 == blocks
  {
  }
}
