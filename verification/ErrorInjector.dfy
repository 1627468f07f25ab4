/** The channel error injector of the decoder program: random bit flips over a range of bits,
    or bursts of them under a two-state timer.

    The random draws are an input. Times are reals; the timer adds `t`, the duration of one
    frame, on every frame.
 */
module ErrorInjector {
  import opened Words

  // ----- flipping bits

  /** The number of bits, among the first `n`, in which two frames differ. */
  function Distance(a: seq<Byte>, b: seq<Byte>, n: nat): nat
    requires |a| == |b| && n <= 8 * |a|
  {
    if n == 0 then 0 else Distance(a, b, n - 1) + if FrameBit(a, n - 1) != FrameBit(b, n - 1) then 1 else 0
  }

  ghost function Differing(a: seq<Byte>, b: seq<Byte>, n: nat): set<nat>
    requires |a| == |b| && n <= 8 * |a|
  {
    set k: nat | k < n && FrameBit(a, k) != FrameBit(b, k)
  }

  lemma {:induction false} DistanceIsCount(a: seq<Byte>, b: seq<Byte>, n: nat)
    requires |a| == |b| && n <= 8 * |a|
    ensures Distance(a, b, n) == |Differing(a, b, n)|
  {
    hide FrameBit;
    if n > 0 {
      DistanceIsCount(a, b, n - 1);
      var before := Differing(a, b, n - 1);
      assert Differing(a, b, n) == if FrameBit(a, n - 1) != FrameBit(b, n - 1) then before + {n - 1} else before;
    } else {
      assert Differing(a, b, 0) == {};
    }
  }

  lemma {:induction false} DistanceOfSame(a: seq<Byte>, n: nat)
    requires n <= 8 * |a|
    ensures Distance(a, a, n) == 0
  {
    if n > 0 { DistanceOfSame(a, n - 1); }
  }

  /** Past a place after which the frames agree the distance no longer grows. */
  lemma {:induction false} DistanceStops(a: seq<Byte>, b: seq<Byte>, from: nat, n: nat)
    requires |a| == |b| && from <= n <= 8 * |a|
    requires forall k :: from <= k < n ==> FrameBit(a, k) == FrameBit(b, k)
    ensures Distance(a, b, n) == Distance(a, b, from)
    decreases n
  {
    if from < n { DistanceStops(a, b, from, n - 1); }
  }

  /** The distance below a place depends only on the bits below it. */
  lemma {:induction false} DistanceLocal(a: seq<Byte>, b: seq<Byte>, c: seq<Byte>, n: nat)
    requires |a| == |b| == |c| && n <= 8 * |a|
    requires forall k :: 0 <= k < n ==> FrameBit(b, k) == FrameBit(c, k)
    ensures Distance(a, b, n) == Distance(a, c, n)
  {
    if n > 0 { DistanceLocal(a, b, c, n - 1); }
  }

  /** `b` is `a` with bit `i` turned over if `draws` says so, for `i` from `lo` to below `hi`. */
  ghost predicate Flipped(a: seq<Byte>, b: seq<Byte>, lo: nat, hi: nat, draws: seq<bool>) {
    && |a| == |b| && hi - lo <= |draws| && hi <= 8 * |a|
    && forall k :: 0 <= k < 8 * |a| ==>
         FrameBit(b, k) == (FrameBit(a, k) != (lo <= k < hi && draws[k - lo]))
  }

  /** `1 << (7 - i + byte*8)` with `byte = i/8` */
  function Mask(i: nat): Byte {
    var byte := i / 8;
    assert 7 - i + byte * 8 == 7 - i % 8;
    Shl([true, false, false, false, false, false, false, false], 7 - i + byte * 8)
  }

  /** `bits[i/8] ^= mask` turns over bit `i` of the frame and no other. */
  lemma FlipOne(bytes: seq<Byte>, i: nat, k: nat)
    requires i < 8 * |bytes| && k < 8 * |bytes|
    ensures FrameBit(bytes[i / 8 := Xor(bytes[i / 8], Mask(i))], k) == (FrameBit(bytes, k) != (k == i))
  {
  }

  /** One pass of the loop: bit `i` is turned over if drawn. */
  lemma FlipStep(was: seq<Byte>, before: seq<Byte>, after: seq<Byte>, lo: nat, i: nat, draws: seq<bool>)
    requires lo <= i < 8 * |was| && i - lo < |draws| && Flipped(was, before, lo, i, draws)
    requires after == if draws[i - lo] then before[i / 8 := Xor(before[i / 8], Mask(i))] else before
    ensures Flipped(was, after, lo, i + 1, draws)
    ensures Distance(was, after, i + 1) == Distance(was, before, i) + if draws[i - lo] then 1 else 0
  {
    forall k | 0 <= k < 8 * |was|
      ensures FrameBit(after, k) == (FrameBit(before, k) != (k == i && draws[i - lo]))
    {
      if draws[i - lo] { FlipOne(before, i, k); }
    }
    DistanceLocal(was, before, after, i);
  }

  lemma NothingFlipped(was: seq<Byte>, lo: nat, draws: seq<bool>)
    requires lo <= 8 * |was|
    ensures Flipped(was, was, lo, lo, draws) && Distance(was, was, lo) == 0
  {
  }

  lemma AllFlipped(was: seq<Byte>, after: seq<Byte>, lo: nat, hi: nat, draws: seq<bool>)
    requires lo <= hi && Flipped(was, after, lo, hi, draws)
    ensures Distance(was, after, 8 * |was|) == Distance(was, after, hi)
  {
    DistanceStops(was, after, hi, 8 * |was|);
  }

  /** The frames agree outside the range. */
  ghost predicate AgreeOutside(a: seq<Byte>, b: seq<Byte>, lo: nat, hi: nat) {
    |a| == |b| && forall k :: 0 <= k < 8 * |a| && (k < lo || k >= hi) ==> FrameBit(a, k) == FrameBit(b, k)
  }

  lemma FlippedAgrees(a: seq<Byte>, b: seq<Byte>, lo: nat, hi: nat, draws: seq<bool>)
    requires Flipped(a, b, lo, hi, draws) || a == b
    ensures AgreeOutside(a, b, lo, hi)
  {
  }

  // ----- the two states

  datatype Channel = Clear | Burst

  /** The burst parameters and the duration of a frame. */
  datatype Fading = Fading(length: real, period: real, t: real)

  ghost predicate ValidFading(f: Fading) {
    0.0 < f.length <= f.period && 0.0 < f.t
  }

  datatype Timer = Timer(time: real, state: Channel)

  /** The timer and the state after one more frame. */
  function Tick(f: Fading, c: Timer): Timer {
    var time := c.time + f.t;
    match c.state
    case Clear => Timer(time, if time > f.period - f.length then Burst else Clear)
    case Burst => if time > f.period then Timer(0.0, Clear) else Timer(time, Burst)
  }

  /** A burst starts when the timer passes the clear part and stops when it passes the period;
      only then is the timer reset. */
  lemma TickExactly(f: Fading, c: Timer)
    ensures Tick(f, c).state != c.state <==>
      c.time + f.t > if c.state == Clear then f.period - f.length else f.period
    ensures Tick(f, c).time == if c.state == Burst && Tick(f, c).state == Clear then 0.0 else c.time + f.t
  {
  }

  /** The timer and state after `n` frames from `c`. */
  function TimerFrom(f: Fading, c: Timer, n: nat): Timer {
    if n == 0 then c else Tick(f, TimerFrom(f, c, n - 1))
  }

  /** The timer and state before frame `n` of a run. */
  function TimerAt(f: Fading, n: nat): Timer {
    TimerFrom(f, Timer(0.0, Clear), n)
  }

  /** What the timer reaches while frame `n` is handled, before any reset. */
  function Reading(f: Fading, n: nat): real {
    TimerAt(f, n).time + f.t
  }

  lemma TickAt(f: Fading, n: nat)
    ensures TimerAt(f, 0) == Timer(0.0, Clear)
    ensures TimerAt(f, n + 1) == Tick(f, TimerAt(f, n))
  {
  }

  // ----- how long bursts last

  /** Frames `a` to below `b` are a whole burst: clear before it, burst during it, clear after. */
  ghost predicate WholeBurst(f: Fading, a: nat, b: nat) {
    && 1 <= a < b && TimerAt(f, a - 1).state == Clear && TimerAt(f, b).state == Clear
    && forall i :: a <= i < b ==> TimerAt(f, i).state == Burst
  }

  lemma {:induction false} ClearIsEarly(f: Fading, n: nat)
    requires ValidFading(f) && TimerAt(f, n).state == Clear
    ensures TimerAt(f, n).time <= f.period - f.length
  {
  }

  /** The time of `k` frames. */
  ghost function Ticks(k: int, t: real): real {
    k as real * t
  }

  lemma TicksStep(k: int, t: real)
    ensures Ticks(k + 1, t) == Ticks(k, t) + t && Ticks(0, t) == 0.0
  {
  }

  lemma TicksOrder(i: int, m: int, t: real)
    requires t > 0.0
    ensures i < m <==> Ticks(i, t) < Ticks(m, t)
  {
  }

  /** During a burst the timer advances by `t` a frame, and until the last frame it stays
      within the period. */
  lemma {:induction false} BurstTimes(f: Fading, a: nat, b: nat, k: nat)
    requires ValidFading(f) && WholeBurst(f, a, b) && a + k < b
    ensures TimerAt(f, a + k).time == TimerAt(f, a).time + Ticks(k, f.t)
    ensures k > 0 ==> TimerAt(f, a + k).time <= f.period
    decreases k
  {
    hide Ticks, TimerAt;
    TicksStep(k - 1, f.t);
    if k > 0 {
      BurstTimes(f, a, b, k - 1);
      TickAt(f, a + (k - 1));
      assert TimerAt(f, a + k).state == Burst && TimerAt(f, a + (k - 1)).state == Burst;
    }
  }

  /** Every completed burst lasts as long as asked for, to within one frame either way. */
  lemma BurstLength(f: Fading, a: nat, b: nat)
    requires ValidFading(f) && WholeBurst(f, a, b)
    ensures f.length / f.t - 1.0 < (b - a) as real < f.length / f.t + 1.0
  {
    BurstTime(f, a, b);
    FramesOf((b - a) as real, f.length, f.t);
  }

  lemma BurstTime(f: Fading, a: nat, b: nat)
    requires ValidFading(f) && WholeBurst(f, a, b)
    ensures f.length - f.t < Ticks(b - a, f.t) < f.length + f.t
  {
    hide Ticks, TimerAt;
    ClearIsEarly(f, a - 1);
    TickAt(f, a - 1);
    assert TimerAt(f, a).state == Burst;
    assert f.period - f.length < TimerAt(f, a).time <= f.period - f.length + f.t;
    var last := b - a - 1;
    BurstTimes(f, a, b, last);
    TickAt(f, a + last);
    assert TimerAt(f, a + last).state == Burst && TimerAt(f, a + last + 1).state == Clear;
    assert TimerAt(f, a + last).time + f.t > f.period;
    TicksStep(last, f.t);
  }

  lemma FramesOf(k: real, length: real, t: real)
    requires 0.0 < t && length - t < k * t < length + t
    ensures length / t - 1.0 < k < length / t + 1.0
  {
    var less, more := k - 1.0, k + 1.0;
    assert less * t == k * t - t && more * t == k * t + t;
    DivideBelow(less, t, length);
    DivideAbove(more, t, length);
  }

  lemma DivideBelow(a: real, t: real, p: real)
    requires t > 0.0
    ensures a * t < p <==> a < p / t
    ensures a * t <= p <==> a <= p / t
  {
  }

  lemma DivideAbove(a: real, t: real, p: real)
    requires t > 0.0
    ensures a * t > p <==> a > p / t
  {
  }

  // ----- how far the timer runs

  /** The number of frames since the timer was last at zero. */
  function Since(f: Fading, n: nat): nat {
    if n == 0 || TimerAt(f, n) == Timer(0.0, Clear) then 0 else Since(f, n - 1) + 1
  }

  lemma {:induction false} TimerIsMultiple(f: Fading, n: nat)
    requires ValidFading(f)
    ensures TimerAt(f, n).time == Ticks(Since(f, n), f.t)
  {
    hide Ticks;
    TicksStep(0, f.t);
    if n > 0 {
      TimerIsMultiple(f, n - 1);
      TickAt(f, n - 1);
      TicksStep(Since(f, n - 1), f.t);
    }
  }

  /** How many whole frames fit into the period. */
  function FramesPerPeriod(f: Fading): int
    requires f.t > 0.0
  {
    (f.period / f.t).Floor
  }

  lemma FramesPerPeriodBounds(f: Fading)
    requires ValidFading(f)
    ensures FramesPerPeriod(f) >= 0
    ensures Ticks(FramesPerPeriod(f), f.t) <= f.period < Ticks(FramesPerPeriod(f) + 1, f.t)
  {
    FloorBounds(f.period, f.t, f.period / f.t);
  }

  lemma FloorBounds(p: real, t: real, q: real)
    requires p > 0.0 && t > 0.0 && q == p / t
    ensures q.Floor >= 0 && q.Floor as real * t <= p < (q.Floor + 1) as real * t
  {
    DivideBelow(q.Floor as real, t, p);
    DivideAbove((q.Floor + 1) as real, t, p);
    DivideBelow(0.0, t, p);
  }

  /** If a tick falls into the last `length` of the period, the timer never passes the period
      by more than the frame being handled. */
  lemma {:induction false} TimerStaysWithin(f: Fading, n: nat)
    requires ValidFading(f) && Ticks(FramesPerPeriod(f), f.t) > f.period - f.length
    ensures TimerAt(f, n).time <= f.period
  {
    hide Ticks, TimerAt, FramesPerPeriod;
    TickAt(f, 0);
    if n > 0 {
      TimerStaysWithin(f, n - 1);
      TickAt(f, n - 1);
      if TimerAt(f, n - 1).state == Clear {
        var i, m := Since(f, n - 1), FramesPerPeriod(f);
        ClearIsEarly(f, n - 1);
        TimerIsMultiple(f, n - 1);
        FramesPerPeriodBounds(f);
        TicksOrder(i, m, f.t);
        TicksOrder(m, i + 1, f.t);
        TicksStep(i, f.t);
      }
    }
  }

  /** From the start the timer counts up to the first tick past the clear part. */
  lemma {:induction false} FirstClimb(f: Fading, n: nat)
    requires ValidFading(f) && (n == 0 || Ticks(n - 1, f.t) <= f.period - f.length)
    ensures TimerAt(f, n).time == Ticks(n, f.t)
    ensures n == 0 || TimerAt(f, n - 1).state == Clear
  {
    hide Ticks, TimerAt;
    TickAt(f, 0);
    TicksStep(0, f.t);
    if n > 0 {
      TicksStep(n - 1, f.t);
      TicksStep(n - 2, f.t);
      FirstClimb(f, n - 1);
      TickAt(f, n - 1);
      if n > 1 { TickAt(f, n - 2); }
    }
  }

  /** The timer never exceeds the period by more than one frame time if and only if some
      multiple of the frame time lies in the last `length` of the period. */
  lemma TimerBoundExactly(f: Fading)
    requires ValidFading(f)
    ensures (forall n: nat :: Reading(f, n) <= f.period + f.t)
       <==> Ticks(FramesPerPeriod(f), f.t) > f.period - f.length
  {
    hide Ticks, FramesPerPeriod;
    if Ticks(FramesPerPeriod(f), f.t) > f.period - f.length {
      forall n: nat ensures Reading(f, n) <= f.period + f.t { TimerStaysWithin(f, n); }
    } else {
      FramesPerPeriodBounds(f);
      var m: nat := FramesPerPeriod(f);
      FirstClimb(f, m + 1);
      assert Reading(f, m + 1) > f.period + f.t;
    }
  }

  /** However it is set, the timer never passes the period by two frame times: when it passes it
      by more than one, the clear part alone was overrun. */
  lemma {:induction false} TimerOverrunBound(f: Fading, n: nat)
    requires ValidFading(f)
    ensures Reading(f, n) <= f.period + f.t || Reading(f, n) <= f.period - f.length + 2.0 * f.t
    ensures Reading(f, n) < f.period + 2.0 * f.t
  {
    hide TimerAt;
    TickAt(f, 0);
    if n > 0 {
      TimerOverrunBound(f, n - 1);
      TickAt(f, n - 1);
      if TimerAt(f, n - 1).state == Clear { ClearIsEarly(f, n - 1); }
    }
  }

  /** A case in which it passes the period by more than one: at 3200 bit/s a frame of 64 bits
      takes 0.02 s, and no multiple of that lies in the last 0.01 s of a period of 0.99 s. */
  lemma TimerOverruns()
    ensures var f := Fading(0.01, 0.99, 64.0 / 3200.0);
      ValidFading(f) && exists n: nat :: Reading(f, n) > f.period + f.t
  {
    var f := Fading(0.01, 0.99, 64.0 / 3200.0);
    assert f.t == 0.02 && FramesPerPeriod(f) == 49;
    assert Ticks(49, f.t) == 0.98;
    TimerBoundExactly(f);
  }

  // ----- the injector

  datatype ErrorMode = NoErrors | Uniform | UniformRange | TwoState

  /** Whether bits are turned over while a frame is handled. */
  predicate Active(mode: ErrorMode, c: Timer) {
    mode == Uniform || mode == UniformRange || (mode == TwoState && c.state == Burst)
  }

  /** What becomes of one frame: an active channel turns over exactly the bits drawn, any other
      leaves the frame as it was. */
  ghost predicate Passed(mode: ErrorMode, c: Timer, sent: seq<Byte>, got: seq<Byte>, lo: nat, hi: nat,
                         draws: seq<bool>) {
    if Active(mode, c) then Flipped(sent, got, lo, hi, draws) else got == sent
  }

  /** The number of frames, among the first `n` of a run that starts with timer `c`, that are
      handled by an active channel. */
  function ActiveFrames(mode: ErrorMode, f: Fading, c: Timer, n: nat): nat {
    if n == 0 then 0
    else ActiveFrames(mode, f, c, n - 1) + if Active(mode, TimerFrom(f, c, n - 1)) then 1 else 0
  }

  /** The frames among the first `n` that are handled in the burst state. */
  ghost function BurstFrames(f: Fading, c: Timer, n: nat): set<nat> {
    set i: nat | i < n && TimerFrom(f, c, i).state == Burst
  }

  /** In the uniform modes every frame is active, without errors none, and in the two-state mode
      those of the burst state. */
  lemma {:induction false} ActiveFramesByMode(mode: ErrorMode, f: Fading, c: Timer, n: nat)
    ensures mode == Uniform || mode == UniformRange ==> ActiveFrames(mode, f, c, n) == n
    ensures mode == NoErrors ==> ActiveFrames(mode, f, c, n) == 0
    ensures mode == TwoState ==> ActiveFrames(mode, f, c, n) == |BurstFrames(f, c, n)|
  {
    hide TimerFrom, BurstFrames;
    NoBurstFrames(f, c);
    if n > 0 {
      ActiveFramesByMode(mode, f, c, n - 1);
      OneMoreBurstFrame(f, c, n - 1);
    }
  }

  lemma NoBurstFrames(f: Fading, c: Timer)
    ensures BurstFrames(f, c, 0) == {}
  {
  }

  lemma OneMoreBurstFrame(f: Fading, c: Timer, n: nat)
    ensures |BurstFrames(f, c, n + 1)| == |BurstFrames(f, c, n)| + if TimerFrom(f, c, n).state == Burst then 1 else 0
  {
    hide TimerFrom;
    var before := BurstFrames(f, c, n);
    assert n !in before;
    assert BurstFrames(f, c, n + 1) == if TimerFrom(f, c, n).state == Burst then before + {n} else before;
  }

  /** Over frames that all find the channel in one state, every frame or none is active. */
  lemma {:induction false} ActiveStretch(f: Fading, c: Timer, a: nat, b: nat, state: Channel)
    requires a <= b && forall i :: a <= i < b ==> TimerFrom(f, c, i).state == state
    ensures ActiveFrames(TwoState, f, c, b) - ActiveFrames(TwoState, f, c, a) == if state == Burst then b - a else 0
    decreases b
  {
    hide TimerFrom;
    if a < b { ActiveStretch(f, c, a, b - 1, state); }
  }

  /** Every completed burst turns over bits in as many frames as fill the burst length, to within
      one frame either way. */
  lemma BurstIsActive(f: Fading, a: nat, b: nat)
    requires ValidFading(f) && WholeBurst(f, a, b)
    ensures var start := Timer(0.0, Clear);
      var k := ActiveFrames(TwoState, f, start, b) - ActiveFrames(TwoState, f, start, a);
      k == b - a && f.length / f.t - 1.0 < k as real < f.length / f.t + 1.0
  {
    hide TimerFrom, ActiveFrames;
    forall i | a <= i < b ensures TimerFrom(f, Timer(0.0, Clear), i).state == Burst {
      assert TimerAt(f, i).state == Burst;
    }
    ActiveStretch(f, Timer(0.0, Clear), a, b, Burst);
    BurstLength(f, a, b);
  }

  lemma OneMoreActive(mode: ErrorMode, f: Fading, c: Timer, n: nat, k: nat)
    ensures ActiveFrames(mode, f, c, n + 1) * k
         == ActiveFrames(mode, f, c, n) * k + if Active(mode, TimerFrom(f, c, n)) then k else 0
  {
  }

  /** Outside the two-state mode the timer plays no part. */
  lemma SameActive(mode: ErrorMode, c: Timer, d: Timer, sent: seq<Byte>, lo: nat, hi: nat, draws: seq<bool>)
    requires mode == TwoState ==> c == d
    ensures Active(mode, c) <==> Active(mode, d)
    ensures forall got :: Passed(mode, c, sent, got, lo, hi, draws) <==> Passed(mode, d, sent, got, lo, hi, draws)
  {
  }

  class Injector {
    const mode: ErrorMode
    const fading: Fading
    const nstart: nat
    const nend: nat
    var timer: Timer
    var bitErrors: nat
    var bitsProc: nat

    constructor (mode: ErrorMode, fading: Fading, nstart: nat, nend: nat)
      ensures this.mode == mode && this.fading == fading
      ensures mode == TwoState ==> this.nstart == 0 && this.nend == 2
      ensures mode != TwoState ==> this.nstart == nstart && this.nend == nend
      ensures timer == Timer(0.0, Clear) && bitErrors == 0 && bitsProc == 0
    {
      this.mode, this.fading := mode, fading;
      if mode == TwoState {
        this.nstart, this.nend := 0, 2;
      } else {
        this.nstart, this.nend := nstart, nend;
      }
      timer, bitErrors, bitsProc := Timer(0.0, Clear), 0, 0;
    }

    /** The loop over the bits of the range; `draws[i]` is the outcome `r < ber` for its bits. */
    method FlipRange(bits: array<Byte>, draws: seq<bool>)
      requires nend + 1 <= 8 * bits.Length && nstart <= nend + 1 && |draws| == nend + 1 - nstart
      modifies bits, `bitErrors, `bitsProc
      ensures Flipped(old(bits[..]), bits[..], nstart, nend + 1, draws)
      ensures bitErrors == old(bitErrors) + Distance(old(bits[..]), bits[..], 8 * bits.Length)
      ensures bitsProc == old(bitsProc) + |draws|
    {
      hide Flipped, Distance, Mask;
      ghost var was := bits[..];
      NothingFlipped(was, nstart, draws);
      for i := nstart to nend + 1
        invariant Flipped(was, bits[..], nstart, i, draws)
        invariant bitErrors == old(bitErrors) + Distance(was, bits[..], i)
        invariant bitsProc == old(bitsProc) + (i - nstart)
      {
        ghost var before := bits[..];
        if draws[i - nstart] {
          bits[i / 8] := Xor(bits[i / 8], Mask(i));
          bitErrors := bitErrors + 1;
        }
        FlipStep(was, before, bits[..], nstart, i, draws);
        bitsProc := bitsProc + 1;
      }
      AllFlipped(was, bits[..], nstart, nend + 1, draws);
    }

    /** One frame through the injector. */
    method Inject(bits: array<Byte>, draws: seq<bool>)
      requires nend + 1 <= 8 * bits.Length && nstart <= nend + 1 && |draws| == nend + 1 - nstart
      modifies this, bits
      ensures timer == if mode == TwoState then Tick(fading, old(timer)) else old(timer)
      ensures Passed(mode, old(timer), old(bits[..]), bits[..], nstart, nend + 1, draws)
      ensures bitsProc == old(bitsProc) + if Active(mode, old(timer)) then |draws| else 0
      ensures bitErrors == old(bitErrors) + Distance(old(bits[..]), bits[..], 8 * bits.Length)
    {
      DistanceOfSame(bits[..], 8 * bits.Length);
      if mode == Uniform || mode == UniformRange {
        FlipRange(bits, draws);
      }
      if mode == TwoState {
        var time := timer.time + fading.t;
        var next := timer.state;
        match timer.state {
          case Clear =>
            if time > fading.period - fading.length { next := Burst; }
          case Burst =>
            FlipRange(bits, draws);
            if time > fading.period { time, next := 0.0, Clear; }
        }
        timer := Timer(time, next);
      }
    }

    /** A whole run: frames read, draws made, frames handed to the decoder. */
    method Run(frames: seq<seq<Byte>>, draws: seq<seq<bool>>, nbyte: nat) returns (received: seq<seq<Byte>>)
      requires nend + 1 <= 8 * nbyte && nstart <= nend + 1 && |draws| == |frames|
      requires forall i :: 0 <= i < |frames| ==> |frames[i]| == nbyte && |draws[i]| == nend + 1 - nstart
      modifies this
      ensures |received| == |frames|
      ensures forall i :: 0 <= i < |frames| ==>
        Passed(mode, TimerFrom(fading, old(timer), i), frames[i], received[i], nstart, nend + 1, draws[i])
      ensures forall i :: 0 <= i < |frames| ==> AgreeOutside(frames[i], received[i], nstart, nend + 1)
      ensures bitErrors == old(bitErrors) + TotalDistance(frames, received, |frames|)
      ensures bitsProc == old(bitsProc) + ActiveFrames(mode, fading, old(timer), |frames|) * (nend + 1 - nstart)
      ensures mode == Uniform || mode == UniformRange ==> bitsProc == old(bitsProc) + |frames| * (nend + 1 - nstart)
      ensures mode == NoErrors ==> received == frames && bitsProc == old(bitsProc)
      ensures mode == TwoState ==> timer == TimerFrom(fading, old(timer), |frames|)
    {
      hide AgreeOutside, Flipped, Distance, TotalDistance, Tick, TimerFrom, Passed, Active, ActiveFrames, Handled;
      received := [];
      var bits := new Byte[nbyte](_ => Zeros(8));
      ghost var start, lo, hi := timer, nstart, nend + 1;
      NoneHandled(mode, fading, start, frames, lo, hi, draws);
      for j := 0 to |frames|
        invariant |received| == j && Handled(mode, fading, start, frames, received, lo, hi, draws)
        invariant bitErrors == old(bitErrors) + TotalDistance(frames, received, j)
        invariant bitsProc == old(bitsProc) + ActiveFrames(mode, fading, start, j) * (nend + 1 - nstart)
        invariant timer == if mode == TwoState then TimerFrom(fading, start, j) else start
      {
        TickFrom(fading, start, j);
        OneMoreActive(mode, fading, start, j, nend + 1 - nstart);
        SameActive(mode, timer, TimerFrom(fading, start, j), frames[j], lo, hi, draws[j]);
        FillFrame(bits, frames[j]);
        Inject(bits, draws[j]);
        OneMoreHandled(mode, fading, start, frames, received, bits[..], lo, hi, draws);
        received := received + [bits[..]];
      }
      ActiveFramesByMode(mode, fading, start, |frames|);
      AllHandled(mode, fading, start, frames, received, lo, hi, draws);
    }
  }

  /** The frames received so far are what the channel made of those sent. */
  ghost predicate Handled(mode: ErrorMode, f: Fading, c: Timer, sent: seq<seq<Byte>>, got: seq<seq<Byte>>,
                          lo: nat, hi: nat, draws: seq<seq<bool>>) {
    && |got| <= |sent| == |draws|
    && forall i :: 0 <= i < |got| ==>
         && |got[i]| == |sent[i]|
         && Passed(mode, TimerFrom(f, c, i), sent[i], got[i], lo, hi, draws[i])
  }

  lemma NoneHandled(mode: ErrorMode, f: Fading, c: Timer, sent: seq<seq<Byte>>, lo: nat, hi: nat,
                    draws: seq<seq<bool>>)
    requires |sent| == |draws|
    ensures Handled(mode, f, c, sent, [], lo, hi, draws)
    ensures TotalDistance(sent, [], 0) == 0 && ActiveFrames(mode, f, c, 0) == 0 && TimerFrom(f, c, 0) == c
  {
  }

  lemma TickFrom(f: Fading, c: Timer, n: nat)
    ensures TimerFrom(f, c, n + 1) == Tick(f, TimerFrom(f, c, n))
  {
  }

  lemma OneMoreHandled(mode: ErrorMode, f: Fading, c: Timer, sent: seq<seq<Byte>>, got: seq<seq<Byte>>, x: seq<Byte>,
                       lo: nat, hi: nat, draws: seq<seq<bool>>)
    requires Handled(mode, f, c, sent, got, lo, hi, draws) && |got| < |sent| && |x| == |sent[|got|]|
    requires Passed(mode, TimerFrom(f, c, |got|), sent[|got|], x, lo, hi, draws[|got|])
    ensures Handled(mode, f, c, sent, got + [x], lo, hi, draws)
    ensures TotalDistance(sent, got + [x], |got| + 1)
         == TotalDistance(sent, got, |got|) + Distance(sent[|got|], x, 8 * |x|)
  {
    hide Passed, Distance, TimerFrom;
    TotalLocal(sent, got, x, |got|);
  }

  lemma AllHandled(mode: ErrorMode, f: Fading, c: Timer, sent: seq<seq<Byte>>, got: seq<seq<Byte>>,
                   lo: nat, hi: nat, draws: seq<seq<bool>>)
    requires Handled(mode, f, c, sent, got, lo, hi, draws) && |got| == |sent|
    ensures forall i :: 0 <= i < |sent| ==> Passed(mode, TimerFrom(f, c, i), sent[i], got[i], lo, hi, draws[i])
    ensures forall i :: 0 <= i < |sent| ==> AgreeOutside(sent[i], got[i], lo, hi)
    ensures mode == NoErrors ==> got == sent
  {
    hide Flipped, TimerFrom, AgreeOutside;
    forall i | 0 <= i < |sent| ensures AgreeOutside(sent[i], got[i], lo, hi) {
      FlippedAgrees(sent[i], got[i], lo, hi, draws[i]);
    }
  }

  /** `fread` of one frame. */
  method FillFrame(bits: array<Byte>, frame: seq<Byte>)
    requires |frame| == bits.Length
    modifies bits
    ensures bits[..] == frame
  {
    for k := 0 to bits.Length
      invariant bits[..k] == frame[..k]
    {
      bits[k] := frame[k];
    }
  }

  /** The total Hamming distance of the first `n` frames. */
  function TotalDistance(a: seq<seq<Byte>>, b: seq<seq<Byte>>, n: nat): nat
    requires n <= |a| && n <= |b|
  {
    if n == 0 then 0
    else
      TotalDistance(a, b, n - 1)
      + if |a[n - 1]| == |b[n - 1]| then Distance(a[n - 1], b[n - 1], 8 * |a[n - 1]|) else 0
  }

  lemma {:induction false} TotalLocal(a: seq<seq<Byte>>, b: seq<seq<Byte>>, x: seq<Byte>, n: nat)
    requires n <= |a| && n <= |b|
    ensures TotalDistance(a, b + [x], n) == TotalDistance(a, b, n)
  {
    if n > 0 { TotalLocal(a, b, x, n - 1); }
  }
}
