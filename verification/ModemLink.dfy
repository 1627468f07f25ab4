/** Sender and receiver run against one another, frame by frame: the modulator's main loop, a
    channel of constant gains, and the demodulator's main loop.
 */
module ModemLink {
  import opened Words
  import opened Dqpsk
  import opened ModemFraming

  /** The receiver after `j` modem frames of a link: its pairing, its reference symbols and its
      sync memory. */
  ghost predicate ReceivedUpTo(l: Link, start: Pairing, j: nat, now: Pairing, prevRx: seq<Comp>, syncMem: seq<int>)
    requires ValidLink(l) && |start.half| == 2 * l.nc && j <= 2 * |l.blocks|
  {
    && now == PairRun(start, AllFrames(l), AllReliable(l), 2 * l.nc, j)
    && prevRx == Reference(l, j)
    && syncMem == SyncAfter(AllSync(l), j)
  }

  lemma StartOfLink(l: Link, start: Pairing)
    requires ValidLink(l) && |start.half| == 2 * l.nc
    ensures ReceivedUpTo(l, start, 0, start, seq(l.nc + 1, _ => ONE), [0, 0, 0, 0, 0, 0])
    ensures Sent(l, 0) == seq(l.nc + 1, _ => ONE)
  {
    hide AllFrames, AllReliable, AllSync;
  }

  lemma NextPairing(p: Pairing, frames: seq<seq<bool>>, reliable: seq<bool>, n: nat, j: nat)
    requires |p.half| == n && n % 4 == 0 && |frames| == |reliable| && j < |frames| && Frames(frames, n)
    ensures PairRun(p, frames, reliable, n, j + 1) == Pair(PairRun(p, frames, reliable, n, j), frames[j], reliable[j])
  {
    hide Pair;
  }

  lemma NextSync(bits: seq<bool>, j: nat)
    requires j < |bits|
    ensures SyncAfter(bits, j + 1) == PushSync(SyncAfter(bits, j), bits[j])
    ensures ReliableAt(bits, j) <==> SyncAfter(bits, j + 1) == SYNC_UW
  {
    hide PushSync;
  }

  /** What frame `j` brings, as the records of the whole link have it. */
  lemma FrameOfLink(l: Link, j: nat)
    requires ValidLink(l) && j < 2 * |l.blocks|
    ensures AllFrames(l)[j] == FrameBitsOf(Channel(l.gains, Sent(l, j + 1)), Reference(l, j), l.normOf, l.turn, l.legacy)
    ensures AllSync(l)[j] == SyncBitOf(Channel(l.gains, Sent(l, j + 1)), Reference(l, j), l.normOf)
    ensures AllReliable(l)[j] == ReliableAt(AllSync(l), j)
    ensures Reference(l, j + 1) == Channel(l.gains, Sent(l, j + 1))
  {
    hide FrameBitsOf, SyncBitOf, Channel, Sent, ReliableAt;
  }

  /** One modem frame at the receiver: bits and sync bit, the reliable sync bit, the pairing. */
  method ReceiveFrame(l: Link, d: Demodulator, rxBits: array<bool>, syncMem: array<int>, tx: seq<Comp>,
                      prevRx: seq<Comp>, ghost start: Pairing, ghost j: nat)
    returns (rx: seq<Comp>)
    requires ValidLink(l) && d.Valid() && d.n == 2 * l.nc == rxBits.Length && rxBits != d.codecBits
    requires syncMem.Length == NSYNC_MEM && |start.half| == 2 * l.nc && j < 2 * |l.blocks|
    requires ReceivedUpTo(l, start, j, d.View(), prevRx, syncMem[..]) && tx == Sent(l, j + 1)
    modifies d, d.codecBits, d.packedBits, rxBits, syncMem
    ensures ReceivedUpTo(l, start, j + 1, d.View(), rx, syncMem[..])
  {
    hide Sent, Channel, FrameBitsOf, SyncBitOf, Pair, PairRun, SyncAfter, PushSync, AllFrames, AllReliable, AllSync,
         Reference, ValidLink, ReliableAt;
    LinkFacts(l);
    FrameOfLink(l, j);
    NextSync(AllSync(l), j);
    NextPairing(start, AllFrames(l), AllReliable(l), 2 * l.nc, j);
    rx := Channel(l.gains, tx);
    var syncBit := QpskToBits(rxBits, rx, prevRx, l.normOf, l.turn, l.legacy);
    var reliable := ReliableSync(syncMem, syncBit);
    d.Receive(rxBits[..], reliable);
  }

  lemma LinkFacts(l: Link)
    requires ValidLink(l)
    ensures |l.gains| == l.nc + 1 && (2 * l.nc) % 4 == 0
    ensures forall b :: 0 <= b < |l.blocks| ==> 8 * |l.blocks[b]| == 4 * l.nc
  {
  }

  /** The two modem frames of codec frame `b`. */
  lemma BlockSent(l: Link, b: nat)
    requires ValidLink(l) && b < |l.blocks|
    ensures |FrameBits(l.blocks[b])| == 4 * l.nc
    ensures Sent(l, 2 * b + 1) == SymbolFrame(Sent(l, 2 * b), FrameBits(l.blocks[b])[..2 * l.nc], false, l.legacy)
    ensures Sent(l, 2 * b + 2) == SymbolFrame(Sent(l, 2 * b + 1), FrameBits(l.blocks[b])[2 * l.nc..], true, l.legacy)
  {
    hide SymbolFrame, FrameBits;
    SplitEven(l.blocks, 2 * l.nc, b);
  }

  /** The whole way: the codec frames of the link through modulator, channel and demodulator.
      The demodulator's pairing runs through exactly the frames and reliable sync bits of the
      link, and from four codec frames on it ends with the frames from the fifth on. */
  method RunLink(l: Link, d: Demodulator)
    requires ValidLink(l) && d.Valid() && d.n == 2 * l.nc
    modifies d, d.codecBits, d.packedBits
    ensures d.View() == PairRun(old(d.View()), AllFrames(l), AllReliable(l), 2 * l.nc, 2 * |l.blocks|)
    ensures |l.blocks| >= 4 ==>
      d.out == PairRun(old(d.View()), AllFrames(l), AllReliable(l), 2 * l.nc, 8).out + Concat(l.blocks[4..])
  {
    hide Sent, Channel, Pair, PairRun, SyncAfter, AllFrames, AllReliable, AllSync, Reference, ValidLink, Concat,
         ReceivedUpTo, FrameBits, SymbolFrame;
    ghost var start := d.View();
    LinkFacts(l);
    StartOfLink(l, start);
    var m := new Modulator(l.nc, l.legacy);
    var prevRx := seq(l.nc + 1, _ => ONE);
    var rxBits := new bool[2 * l.nc];
    var syncMem := new int[NSYNC_MEM](_ => 0);
    assert syncMem[..] == [0, 0, 0, 0, 0, 0];
    for b := 0 to |l.blocks|
      invariant m.Valid() && m.nc == l.nc && m.legacy == l.legacy && !m.pilot && m.prev == Sent(l, 2 * b)
      invariant ReceivedUpTo(l, start, 2 * b, d.View(), prevRx, syncMem[..])
    {
      BlockSent(l, b);
      var packed := CopyOf(l.blocks[b]);
      var first, second := m.Send(packed);
      prevRx := ReceiveFrame(l, d, rxBits, syncMem, first, prevRx, start, 2 * b);
      prevRx := ReceiveFrame(l, d, rxBits, syncMem, second, prevRx, start, 2 * b + 1);
    }
    EndOfLink(l, start, d.View(), prevRx, syncMem[..]);
  }

  /** `fread` of one codec frame. */
  method CopyOf(s: seq<Byte>) returns (a: array<Byte>)
    ensures fresh(a) && a[..] == s
  {
    a := new Byte[|s|](_ => Zeros(8));
    for k := 0 to |s|
      invariant a[..k] == s[..k]
    {
      a[k] := s[k];
    }
  }

  lemma EndOfLink(l: Link, start: Pairing, now: Pairing, prevRx: seq<Comp>, syncMem: seq<int>)
    requires ValidLink(l) && |start.half| == 2 * l.nc
    requires ReceivedUpTo(l, start, 2 * |l.blocks|, now, prevRx, syncMem)
    ensures now == PairRun(start, AllFrames(l), AllReliable(l), 2 * l.nc, 2 * |l.blocks|)
    ensures |l.blocks| >= 4 ==>
      now.out == PairRun(start, AllFrames(l), AllReliable(l), 2 * l.nc, 8).out + Concat(l.blocks[4..])
  {
    hide PairRun, AllFrames, AllReliable, Concat;
    if |l.blocks| >= 4 { BytesArriveAfterLock(l, start); }
  }
}
