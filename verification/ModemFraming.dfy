/** Codec frames over the modem: the sender splits each codec frame into two modem frames,
    and the receiver, whose one bit of pairing state is never initialised, finds the pairs
    again from the reliable sync bit.
 */
module ModemFraming {
  import opened Words
  import opened BitPacking
  import opened Dqpsk

  // ----- pairing: the loop of the demodulator

  /** The pairing state: the variable `sync`, the first half of `codec_bits`, and the bytes
      written so far. */
  datatype Pairing = Pairing(sync: int, half: seq<bool>, out: seq<Byte>)

  /** The bytes of a codec frame from its two halves. */
  function Join(a: seq<bool>, b: seq<bool>): seq<Byte>
    requires |a| == |b| && |a| % 4 == 0
  {
    BytesOf(a + b)
  }

  /** One modem frame of `n` bits. */
  function Pair(p: Pairing, frame: seq<bool>, reliable: bool): (q: Pairing)
    requires |frame| % 4 == 0 && |p.half| == |frame|
    ensures |q.half| == |frame|
  {
    if (if reliable then 1 else p.sync) == 0 then Pairing(1, frame, p.out)
    else Pairing(0, p.half, p.out + Join(p.half, frame))
  }

  /** A frame is stored as a first half exactly when none is waiting and the sync bit is not
      reliable; otherwise the bytes written are the bits of the half that waits and of the frame. */
  lemma PairExactly(p: Pairing, frame: seq<bool>, reliable: bool)
    requires |frame| % 4 == 0 && |p.half| == |frame|
    ensures var q := Pair(p, frame, reliable);
      if p.sync == 0 && !reliable then q.sync == 1 && q.half == frame && q.out == p.out
      else
        && q.sync == 0 && q.half == p.half && p.out <= q.out
        && FrameBits(q.out[|p.out|..]) == p.half + frame
  {
    hide FrameBits, BytesOf;
    BitsOfBytes(p.half + frame);
    var q := Pair(p, frame, reliable);
    if !(p.sync == 0 && !reliable) {
      assert q.out[|p.out|..] == Join(p.half, frame);
    }
  }

  class Demodulator {
    const n: nat  // bits per modem frame
    const codecBits: array<bool>
    const packedBits: array<Byte>
    var sync: int
    var out: seq<Byte>

    ghost predicate Valid() {
      n % 4 == 0 && codecBits.Length == 2 * n && 8 * packedBits.Length == 2 * n
    }

    ghost function View(): Pairing
      reads this, codecBits
      requires Valid()
    {
      Pairing(sync, codecBits[..n], out)
    }

    /** `sync` and the buffers start with any content. */
    constructor (n: nat, sync: int)
      requires n % 4 == 0
      ensures Valid() && this.n == n && this.sync == sync && out == []
      ensures fresh(codecBits) && fresh(packedBits)
    {
      this.n, this.sync, out := n, sync, [];
      codecBits, packedBits := new bool[2 * n], new Byte[n / 4](_ => Zeros(8));
    }

    /** One pass of the loop: store a first half, or complete a codec frame and write it. */
    method Receive(rxBits: seq<bool>, reliable: bool)
      requires Valid() && |rxBits| == n
      modifies this, codecBits, packedBits
      ensures View() == Pair(old(View()), rxBits, reliable)
    {
      if reliable {
        sync := 1;
      }
      if sync == 0 {
        CopyInto(codecBits, 0, rxBits);
        sync := 1;
        assert codecBits[..n] == rxBits;
      } else {
        CopyInto(codecBits, n, rxBits);
        PackBits(codecBits, packedBits);
        assert codecBits[..] == old(codecBits[..n]) + rxBits;
        BytesOfBits(packedBits[..]);
        out := out + packedBits[..];
        sync := 0;
        assert codecBits[..n] == old(codecBits[..n]);
      }
    }
  }

  /** `memcpy(&a[from], s, ...)` */
  method CopyInto(a: array<bool>, from: nat, s: seq<bool>)
    requires from + |s| <= a.Length
    modifies a
    ensures a[..] == old(a[..from]) + s + old(a[from + |s|..])
  {
    for i := 0 to |s|
      invariant forall k :: 0 <= k < a.Length ==> a[k] == (if from <= k < from + i then s[k - from] else old(a[k]))
    {
      a[from + i] := s[i];
    }
  }

  // ----- runs of the pairing

  ghost predicate Frames(frames: seq<seq<bool>>, n: nat) {
    forall j :: 0 <= j < |frames| ==> |frames[j]| == n
  }

  /** The state after the first `k` frames. */
  function PairRun(p: Pairing, frames: seq<seq<bool>>, reliable: seq<bool>, n: nat, k: nat): (q: Pairing)
    requires |p.half| == n && n % 4 == 0 && |frames| == |reliable| && k <= |frames|
    requires forall j :: 0 <= j < |frames| ==> |frames[j]| == n
    ensures |q.half| == n
  {
    if k == 0 then p else Pair(PairRun(p, frames, reliable, n, k - 1), frames[k - 1], reliable[k - 1])
  }

  /** The main loop of the demodulator over any frames and any reliable sync bits. */
  method ReceiveAll(d: Demodulator, frames: seq<seq<bool>>, reliable: seq<bool>)
    requires d.Valid() && |frames| == |reliable| && Frames(frames, d.n)
    modifies d, d.codecBits, d.packedBits
    ensures d.View() == PairRun(old(d.View()), frames, reliable, d.n, |frames|)
  {
    hide Pair;
    for j := 0 to |frames|
      invariant d.View() == PairRun(old(d.View()), frames, reliable, d.n, j)
    {
      d.Receive(frames[j], reliable[j]);
    }
  }

  /** The bytes of `count` pairs of consecutive frames from frame `from` on. */
  function PairBytes(frames: seq<seq<bool>>, n: nat, from: nat, count: nat): seq<Byte>
    requires n % 4 == 0 && from + 2 * count <= |frames|
    requires forall j :: 0 <= j < |frames| ==> |frames[j]| == n
  {
    if count == 0 then []
    else
      var j := from + 2 * (count - 1);
      PairBytes(frames, n, from, count - 1) + Join(frames[j], frames[j + 1])
  }

  /** A reliable sync bit comes with frame `k`, and later ones keep its parity. */
  ghost predicate LockedAt(reliable: seq<bool>, k: nat) {
    && k < |reliable| && reliable[k]
    && forall j :: k < j < |reliable| && reliable[j] ==> (j - k) % 2 == 0
  }

  /** From the lock on, whatever the state before it, every second frame completes a codec
      frame out of itself and the frame before; the frames between only store. */
  lemma {:induction false} LockedPairs(p: Pairing, frames: seq<seq<bool>>, reliable: seq<bool>, n: nat, k: nat, i: nat)
    requires |p.half| == n && n % 4 == 0 && |frames| == |reliable| && Frames(frames, n)
    requires LockedAt(reliable, k) && k + 1 + 2 * i <= |frames|
    ensures var q := PairRun(p, frames, reliable, n, k + 1 + 2 * i);
      q.sync == 0 && q.out == PairRun(p, frames, reliable, n, k + 1).out + PairBytes(frames, n, k + 1, i)
    ensures k + 2 + 2 * i <= |frames| ==>
      var q, r := PairRun(p, frames, reliable, n, k + 1 + 2 * i), PairRun(p, frames, reliable, n, k + 2 + 2 * i);
      r == Pairing(1, frames[k + 1 + 2 * i], q.out)
    decreases i
  {
    hide Join;
    if i > 0 {
      LockedPairs(p, frames, reliable, n, k, i - 1);
      var j := k + 1 + 2 * (i - 1);
      assert PairRun(p, frames, reliable, n, j + 2)
          == Pair(PairRun(p, frames, reliable, n, j + 1), frames[j + 1], reliable[j + 1]);
    }
    if k + 2 + 2 * i <= |frames| {
      var m := k + 1 + 2 * i;
      assert (m - k) % 2 == 1;
      assert !reliable[m];
      assert PairRun(p, frames, reliable, n, m + 1) == Pair(PairRun(p, frames, reliable, n, m), frames[m], reliable[m]);
    }
  }

  // ----- the sync word

  const NSYNC_MEM: nat := 6
  const SYNC_UW: seq<int> := [1, -1, 1, -1, 1, -1]

  /** The last six sync bits as levels, zero where none has come yet. */
  predicate SyncMemory(mem: seq<int>) {
    |mem| == NSYNC_MEM && forall i :: 0 <= i < NSYNC_MEM ==> -1 <= mem[i] <= 1
  }

  function PushSync(mem: seq<int>, bit: bool): (r: seq<int>)
    requires SyncMemory(mem)
    ensures SyncMemory(r)
  {
    mem[1..] + [if bit then -1 else 1]
  }

  function Correlation(mem: seq<int>, n: nat): int
    requires SyncMemory(mem) && n <= NSYNC_MEM
  {
    if n == 0 then 0 else Correlation(mem, n - 1) + mem[n - 1] * SYNC_UW[n - 1]
  }

  lemma {:induction false} CorrelationBound(mem: seq<int>, n: nat)
    requires SyncMemory(mem) && n <= NSYNC_MEM
    ensures Correlation(mem, n) <= n
    ensures Correlation(mem, n) == n as int <==> forall i :: 0 <= i < n ==> mem[i] == SYNC_UW[i]
  {
    if n > 0 {
      CorrelationBound(mem, n - 1);
      assert SYNC_UW[n - 1] == 1 || SYNC_UW[n - 1] == -1;
      assert SYNC_UW[n - 1] == 1 ==> mem[n - 1] * SYNC_UW[n - 1] == mem[n - 1];
      assert SYNC_UW[n - 1] == -1 ==> mem[n - 1] * SYNC_UW[n - 1] == -mem[n - 1];
    }
  }

  /** The correlation is full exactly when the memory is the unique word. */
  lemma FullCorrelation(mem: seq<int>)
    requires SyncMemory(mem)
    ensures Correlation(mem, NSYNC_MEM) == NSYNC_MEM as int <==> mem == SYNC_UW
  {
    CorrelationBound(mem, NSYNC_MEM);
  }

  /** The part of the frequency state machine that tells a reliable sync bit. */
  method ReliableSync(syncMem: array<int>, syncBit: bool) returns (reliable: bool)
    requires syncMem.Length == NSYNC_MEM && SyncMemory(syncMem[..])
    modifies syncMem
    ensures syncMem[..] == PushSync(old(syncMem[..]), syncBit)
    ensures reliable <==> syncMem[..] == SYNC_UW
  {
    for i := 0 to NSYNC_MEM - 1
      invariant forall k :: 0 <= k < NSYNC_MEM ==> syncMem[k] == (if k < i then old(syncMem[k + 1]) else old(syncMem[k]))
    {
      syncMem[i] := syncMem[i + 1];
    }
    syncMem[NSYNC_MEM - 1] := 1 - 2 * (if syncBit then 1 else 0);
    assert syncMem[..] == PushSync(old(syncMem[..]), syncBit);
    var corr := 0;
    for i := 0 to NSYNC_MEM
      invariant corr == Correlation(syncMem[..], i)
    {
      corr := corr + syncMem[i] * SYNC_UW[i];
    }
    FullCorrelation(syncMem[..]);
    reliable := corr == NSYNC_MEM as int;
  }

  /** The memory after `k` sync bits, starting cleared. */
  function SyncAfter(bits: seq<bool>, k: nat): (mem: seq<int>)
    requires k <= |bits|
    ensures SyncMemory(mem)
  {
    if k == 0 then [0, 0, 0, 0, 0, 0] else PushSync(SyncAfter(bits, k - 1), bits[k - 1])
  }

  /** Whether frame `j` comes with a reliable sync bit. */
  predicate ReliableAt(bits: seq<bool>, j: nat)
    requires j < |bits|
  {
    SyncAfter(bits, j + 1) == SYNC_UW
  }

  /** Place `i` of the memory after `k` bits: the bit that has moved there, if any has. */
  lemma {:induction false} SyncEntry(bits: seq<bool>, k: nat, i: nat)
    requires k <= |bits| && i < NSYNC_MEM
    ensures SyncAfter(bits, k)[i] ==
      if k + i < NSYNC_MEM then 0 else if bits[k + i - NSYNC_MEM] then -1 else 1
  {
    if k > 0 && i < NSYNC_MEM - 1 {
      SyncEntry(bits, k - 1, i + 1);
    }
  }

  /** The last six sync bits alternate and end in a one. */
  predicate Alternating(bits: seq<bool>, j: nat)
    requires 5 <= j < |bits|
  {
    bits[j] && !bits[j - 1] && bits[j - 2] && !bits[j - 3] && bits[j - 4] && !bits[j - 5]
  }

  /** A sync bit is reliable if and only if six have come and the last six alternate and end
      in a one. */
  lemma ReliableExactly(bits: seq<bool>, j: nat)
    requires j < |bits|
    ensures ReliableAt(bits, j) <==> j >= 5 && Alternating(bits, j)
  {
    hide SyncAfter;
    var mem := SyncAfter(bits, j + 1);
    forall i | 0 <= i < NSYNC_MEM
      ensures mem[i] == if j + 1 + i < NSYNC_MEM then 0 else if bits[j + 1 + i - NSYNC_MEM] then -1 else 1
    {
      SyncEntry(bits, j + 1, i);
    }
    if j >= 5 && Alternating(bits, j) {
      assert forall i :: 0 <= i < NSYNC_MEM ==> mem[i] == SYNC_UW[i];
    }
    if mem == SYNC_UW {
      assert mem[0] == 1 && mem[1] == -1 && mem[2] == 1 && mem[3] == -1 && mem[4] == 1 && mem[5] == -1;
    }
  }

  // ----- the sender

  /** The modem frames of a sequence of codec frames: a first and a second half of each. */
  function Split(blocks: seq<seq<Byte>>, n: nat, j: nat): (frame: seq<bool>)
    requires n % 4 == 0 && j < 2 * |blocks| && forall b :: 0 <= b < |blocks| ==> 8 * |blocks[b]| == 2 * n
    ensures |frame| == n
  {
    var bits := FrameBits(blocks[j / 2]);
    if j % 2 == 0 then bits[..n] else bits[n..]
  }

  class Modulator {
    const nc: nat
    const legacy: bool
    var prev: seq<Comp>
    var pilot: bool

    ghost predicate Valid()
      reads this
    {
      |prev| == nc + 1
    }

    constructor (nc: nat, legacy: bool)
      ensures Valid() && this.nc == nc && this.legacy == legacy && !pilot
      ensures prev == seq(nc + 1, _ => ONE)
    {
      this.nc, this.legacy, pilot := nc, legacy, false;
      prev := seq(nc + 1, _ => ONE);
    }

    /** `fdmdv_mod` up to the symbols: sends one modem frame, returns the next pilot bit. */
    method Mod(txBits: seq<bool>) returns (syncBit: bool)
      requires Valid() && |txBits| == 2 * nc
      modifies this
      ensures Valid() && prev == SymbolFrame(old(prev), txBits, old(pilot), legacy)
      ensures syncBit == pilot == !old(pilot)
    {
      var tx := new Comp[nc + 1](_ => ONE);
      pilot := BitsToSymbols(tx, prev, txBits, pilot, legacy);
      prev := tx[..];
      syncBit := pilot;
    }

    /** One codec frame: unpack, then an even and an odd modem frame. The assertions on the
        sync bit are those of the source. */
    method Send(packed: array<Byte>) returns (first: seq<Comp>, second: seq<Comp>)
      requires Valid() && !pilot && 8 * packed.Length == 4 * nc
      modifies this
      ensures Valid() && !pilot && prev == second
      ensures first == SymbolFrame(old(prev), FrameBits(packed[..])[..2 * nc], false, legacy)
      ensures second == SymbolFrame(first, FrameBits(packed[..])[2 * nc..], true, legacy)
    {
      var bits := new bool[8 * packed.Length];
      UnpackBits(packed, bits);
      var syncBit := Mod(bits[..2 * nc]);
      assert syncBit;
      first := prev;
      assert bits[..2 * nc] == FrameBits(packed[..])[..2 * nc] && bits[2 * nc..] == FrameBits(packed[..])[2 * nc..];
      syncBit := Mod(bits[2 * nc..]);
      assert !syncBit;
      second := prev;
    }
  }

  // ----- end to end

  /** A link: the codec frames sent, the gain of every carrier, and the receiver's constants. */
  datatype Link = Link(blocks: seq<seq<Byte>>, nc: nat, gains: seq<Comp>, legacy: bool, normOf: Comp -> real, turn: Comp)

  ghost predicate ValidLink(l: Link) {
    && (2 * l.nc) % 4 == 0 && |l.gains| == l.nc + 1 && NonZero(l.gains) && GoodNorm(l.normOf) && FirstQuadrant(l.turn)
    && forall b :: 0 <= b < |l.blocks| ==> 8 * |l.blocks[b]| == 2 * (2 * l.nc)
  }

  /** The symbols on the carriers after `j` modem frames. */
  ghost function Sent(l: Link, j: nat): (r: seq<Comp>)
    requires ValidLink(l) && j <= 2 * |l.blocks|
    ensures |r| == l.nc + 1 && NonZero(r)
  {
    if j == 0 then seq(l.nc + 1, _ => ONE)
    else
      SymbolsNonZero(Sent(l, j - 1), Split(l.blocks, 2 * l.nc, j - 1), (j - 1) % 2 == 1, l.legacy);
      SymbolFrame(Sent(l, j - 1), Split(l.blocks, 2 * l.nc, j - 1), (j - 1) % 2 == 1, l.legacy)
  }

  /** What the receiver compares frame `j` with: the frame before, or its initial symbols. */
  ghost function Reference(l: Link, j: nat): (r: seq<Comp>)
    requires ValidLink(l) && j <= 2 * |l.blocks|
    ensures |r| == l.nc + 1
  {
    if j == 0 then seq(l.nc + 1, _ => ONE) else Channel(l.gains, Sent(l, j))
  }

  ghost function ReceivedFrame(l: Link, j: nat): (r: seq<bool>)
    requires ValidLink(l) && j < 2 * |l.blocks|
    ensures |r| == 2 * l.nc
  {
    FrameBitsOf(Channel(l.gains, Sent(l, j + 1)), Reference(l, j), l.normOf, l.turn, l.legacy)
  }

  ghost function ReceivedSync(l: Link, j: nat): bool
    requires ValidLink(l) && j < 2 * |l.blocks|
  {
    SyncBitOf(Channel(l.gains, Sent(l, j + 1)), Reference(l, j), l.normOf)
  }

  /** From the second modem frame on, bits and sync bits arrive as sent. */
  lemma ArrivesAsSent(l: Link, j: nat)
    requires ValidLink(l) && 1 <= j < 2 * |l.blocks|
    ensures ReceivedFrame(l, j) == Split(l.blocks, 2 * l.nc, j)
    ensures ReceivedSync(l, j) <==> j % 2 == 1
  {
    hide FrameBitsOf, SyncBitOf, Channel, SymbolFrame, Split;
    FrameRoundTrip(l.gains, Sent(l, j), Split(l.blocks, 2 * l.nc, j), j % 2 == 1, l.legacy, l.normOf, l.turn);
  }

  ghost function AllFrames(l: Link): (r: seq<seq<bool>>)
    requires ValidLink(l)
    ensures |r| == 2 * |l.blocks| && Frames(r, 2 * l.nc)
  {
    seq(2 * |l.blocks|, j requires 0 <= j < 2 * |l.blocks| => ReceivedFrame(l, j))
  }

  ghost function AllSync(l: Link): (r: seq<bool>)
    requires ValidLink(l)
    ensures |r| == 2 * |l.blocks|
  {
    seq(2 * |l.blocks|, j requires 0 <= j < 2 * |l.blocks| => ReceivedSync(l, j))
  }

  ghost function AllReliable(l: Link): (r: seq<bool>)
    requires ValidLink(l)
    ensures |r| == 2 * |l.blocks|
  {
    seq(2 * |l.blocks|, j requires 0 <= j < 2 * |l.blocks| => ReliableAt(AllSync(l), j))
  }

  /** The receiver locks by the fourth codec frame and marks second halves only. */
  lemma LocksOnSecondHalf(l: Link)
    requires ValidLink(l) && |l.blocks| >= 4
    ensures LockedAt(AllReliable(l), 7)
  {
    hide ReceivedSync, ReliableAt;
    var bits := AllSync(l);
    forall j | 1 <= j < |bits| ensures bits[j] <==> j % 2 == 1 { ArrivesAsSent(l, j); }
    ReliableExactly(bits, 7);
    forall j | 7 < j < |bits| && ReliableAt(bits, j) ensures (j - 7) % 2 == 0 {
      ReliableExactly(bits, j);
    }
  }

  function Concat(blocks: seq<seq<Byte>>): seq<Byte> {
    if blocks == [] then [] else Concat(blocks[..|blocks| - 1]) + blocks[|blocks| - 1]
  }

  lemma ConcatAppend(blocks: seq<seq<Byte>>, last: seq<Byte>)
    ensures Concat(blocks + [last]) == Concat(blocks) + last
  {
  }

  lemma FrameAt(l: Link, j: nat)
    requires ValidLink(l) && j < 2 * |l.blocks|
    ensures AllFrames(l)[j] == ReceivedFrame(l, j)
  {
  }

  /** Both halves of codec frame `b` arrive, and together they are the frame. */
  lemma PairIsBlock(l: Link, b: nat)
    requires ValidLink(l) && 1 <= b < |l.blocks|
    ensures Join(ReceivedFrame(l, 2 * b), ReceivedFrame(l, 2 * b + 1)) == l.blocks[b]
  {
    hide ReceivedFrame, Join, FrameBits, Split;
    ArrivesAsSent(l, 2 * b);
    ArrivesAsSent(l, 2 * b + 1);
    HalvesAreBlock(l.blocks, 2 * l.nc, b);
  }

  lemma {:induction false} PairsAreBlocks(l: Link, count: nat)
    requires ValidLink(l) && 4 + count <= |l.blocks|
    ensures PairBytes(AllFrames(l), 2 * l.nc, 8, count) == Concat(l.blocks[4..4 + count])
  {
    hide AllFrames, Join, ValidLink, ReceivedFrame;
    LinkSize(l);
    if count > 0 {
      hide Concat, Frames;
      PairsAreBlocks(l, count - 1);
      var b := 3 + count;
      FrameAt(l, 2 * b);
      FrameAt(l, 2 * b + 1);
      PairIsBlock(l, b);
      assert 8 + 2 * (count - 1) == 2 * b;
      assert l.blocks[4..4 + count] == l.blocks[4..4 + (count - 1)] + [l.blocks[b]];
      ConcatAppend(l.blocks[4..4 + (count - 1)], l.blocks[b]);
    }
  }

  lemma HalvesAreBlock(blocks: seq<seq<Byte>>, n: nat, b: nat)
    requires n % 4 == 0 && b < |blocks| && forall b :: 0 <= b < |blocks| ==> 8 * |blocks[b]| == 2 * n
    ensures Join(Split(blocks, n, 2 * b), Split(blocks, n, 2 * b + 1)) == blocks[b]
  {
    SplitEven(blocks, n, b);
    JoinHalves(blocks[b], n);
  }

  lemma SplitEven(blocks: seq<seq<Byte>>, n: nat, b: nat)
    requires n % 4 == 0 && b < |blocks| && forall b :: 0 <= b < |blocks| ==> 8 * |blocks[b]| == 2 * n
    ensures Split(blocks, n, 2 * b) == FrameBits(blocks[b])[..n]
    ensures Split(blocks, n, 2 * b + 1) == FrameBits(blocks[b])[n..]
  {
    hide FrameBits;
    assert (2 * b) / 2 == b == (2 * b + 1) / 2 && (2 * b) % 2 == 0 && (2 * b + 1) % 2 == 1;
  }

  lemma JoinHalves(block: seq<Byte>, n: nat)
    requires n % 4 == 0 && 8 * |block| == 2 * n
    ensures Join(FrameBits(block)[..n], FrameBits(block)[n..]) == block
  {
    hide BytesOf, FrameBits;
    assert FrameBits(block)[..n] + FrameBits(block)[n..] == FrameBits(block);
    BytesOfBits(block);
  }

  lemma LinkSize(l: Link)
    requires ValidLink(l)
    ensures (2 * l.nc) % 4 == 0
  {
  }

  /** End to end: whatever the receiver's pairing state at the start, the carrier gains, the
      bit mapping and the codec frames sent, everything written after the first eight modem
      frames is the codec frames from the fifth on, complete and in order. */
  lemma BytesArriveAfterLock(l: Link, p: Pairing)
    requires ValidLink(l) && |l.blocks| >= 4 && |p.half| == 2 * l.nc
    ensures var start := PairRun(p, AllFrames(l), AllReliable(l), 2 * l.nc, 8);
      var end := PairRun(p, AllFrames(l), AllReliable(l), 2 * l.nc, 2 * |l.blocks|);
      end.out == start.out + Concat(l.blocks[4..])
  {
    hide LockedAt, AllFrames, AllReliable, Concat, PairRun, PairBytes, ValidLink;
    LinkSize(l);
    var count := |l.blocks| - 4;
    assert 7 + 1 + 2 * count == 2 * |l.blocks|;
    LocksOnSecondHalf(l);
    LockedPairs(p, AllFrames(l), AllReliable(l), 2 * l.nc, 7, count);
    PairsAreBlocks(l, count);
    assert l.blocks[4..4 + count] == l.blocks[4..];
  }
}
