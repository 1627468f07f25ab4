/** One thread writing to a FIFO while another reads from it, with no lock.

    Every load of a shared pointer, every copy of one sample and every store of a pointer is
    a step of its own, and the steps of the two threads interleave in any order (memory is
    sequentially consistent). A run is the sequence of steps taken, so a statement about
    every sequence of steps is a statement about every interleaving.

    `accepted`, `delivered` and the numbers `seen` are history: they record what completed
    calls have written and read, and how much the other thread had done when its pointer was
    loaded. No step depends on them.
 */
module FifoThreads {
  import opened Fifo

  /** Where the writer stands inside `fifo_write`. */
  datatype Writer =
    | WIdle
    | WCalled(data: seq<Sample>)
    | WGotPin(data: seq<Sample>, p: nat)
    | WUsedPin(data: seq<Sample>, p: nat, pin: nat)
    | WUsedBoth(data: seq<Sample>, p: nat, pin: nat, pout: nat, seen: nat)
    | WCopy(data: seq<Sample>, p: nat, i: nat)

  /** Where the reader stands inside `fifo_read`; `out` is what it has copied so far. */
  datatype Reader =
    | RIdle
    | RCalled(n: nat)
    | RGotPout(n: nat, p: nat)
    | RUsedPin(n: nat, p: nat, pin: nat, seen: nat)
    | RUsedBoth(n: nat, p: nat, pin: nat, pout: nat, seen: nat)
    | RCopy(n: nat, p: nat, out: seq<Sample>)

  datatype State = State(
    buf: seq<Sample>, pin: nat, pout: nat,
    writer: Writer, reader: Reader,
    accepted: seq<Sample>, delivered: seq<Sample>)

  /** A thread starts a call, or takes its next step. */
  datatype Event = CallWrite(data: seq<Sample>) | WriterStep | CallRead(n: nat) | ReaderStep

  /** Positions lie in the buffer; anything else is not a FIFO. */
  predicate Sane(s: State) {
    && 0 < |s.buf| <= INT_MAX && s.pin < |s.buf| && s.pout < |s.buf|
    && (match s.writer
        case WGotPin(_, p) => p < |s.buf|
        case WUsedPin(_, p, pin) => p < |s.buf| && pin < |s.buf|
        case WUsedBoth(_, p, pin, pout, _) => p < |s.buf| && pin < |s.buf| && pout < |s.buf|
        case WCopy(data, p, i) => p < |s.buf| && i <= |data|
        case _ => true)
    && (match s.reader
        case RGotPout(_, p) => p < |s.buf|
        case RUsedPin(_, p, pin, _) => p < |s.buf| && pin < |s.buf|
        case RUsedBoth(_, p, pin, pout, _) => p < |s.buf| && pin < |s.buf| && pout < |s.buf|
        case RCopy(n, p, out) => p < |s.buf| && |out| <= n
        case _ => true)
  }

  function StepWriter(s: State): State
    requires Sane(s)
  {
    var size := |s.buf|;
    match s.writer
    case WIdle => s
    case WCalled(data) => s.(writer := WGotPin(data, s.pin))
    case WGotPin(data, p) => s.(writer := WUsedPin(data, p, s.pin))
    case WUsedPin(data, p, pin) => s.(writer := WUsedBoth(data, p, pin, s.pout, |s.delivered|))
    case WUsedBoth(data, p, pin, pout, _) =>
      if |data| > size - Used(pin, pout, size) - 1 then s.(writer := WIdle)
      else s.(writer := WCopy(data, p, 0))
    case WCopy(data, p, i) =>
      if i < |data| then
        s.(buf := s.buf[p := data[i]], writer := WCopy(data, Advance(p, size), i + 1))
      else
        s.(pin := p, writer := WIdle, accepted := s.accepted + data)
  }

  function StepReader(s: State): State
    requires Sane(s)
  {
    var size := |s.buf|;
    match s.reader
    case RIdle => s
    case RCalled(n) => s.(reader := RGotPout(n, s.pout))
    case RGotPout(n, p) => s.(reader := RUsedPin(n, p, s.pin, |s.accepted|))
    case RUsedPin(n, p, pin, seen) => s.(reader := RUsedBoth(n, p, pin, s.pout, seen))
    case RUsedBoth(n, p, pin, pout, _) =>
      if n > Used(pin, pout, size) then s.(reader := RIdle)
      else s.(reader := RCopy(n, p, []))
    case RCopy(n, p, out) =>
      if |out| < n then
        s.(reader := RCopy(n, Advance(p, size), out + [s.buf[p]]))
      else
        s.(pout := p, reader := RIdle, delivered := s.delivered + out)
  }

  /** A thread that is inside a call cannot start another. */
  function Step(s: State, e: Event): State
    requires Sane(s)
  {
    match e
    case CallWrite(data) => if s.writer.WIdle? then s.(writer := WCalled(data)) else s
    case WriterStep => StepWriter(s)
    case CallRead(n) => if s.reader.RIdle? then s.(reader := RCalled(n)) else s
    case ReaderStep => StepReader(s)
  }

  /** The samples accepted and not yet delivered. */
  function Waiting(s: State): seq<Sample> {
    if |s.delivered| <= |s.accepted| then s.accepted[|s.delivered|..] else []
  }

  // ----- the invariant

  /** The samples already stored by a write that has not published them. */
  function Pending(s: State): seq<Sample> {
    match s.writer
    case WCopy(data, _, i) => if i <= |data| then data[..i] else []
    case _ => []
  }

  ghost predicate HistoryInv(s: State) {
    |s.delivered| <= |s.accepted| && s.delivered == s.accepted[..|s.delivered|]
  }

  ghost predicate MemoryInv(s: State)
    requires Sane(s)
  {
    && |Waiting(s)| < |s.buf| && s.pin == Wrap(s.pout + |Waiting(s)|, |s.buf|)
    && Holding(s.buf, s.pout, Waiting(s) + Pending(s))
  }

  ghost predicate WriterInv(s: State)
    requires Sane(s)
  {
    var size, q := |s.buf|, |Waiting(s)|;
    match s.writer
    case WGotPin(_, p) => p == s.pin
    case WUsedPin(_, p, pin) => p == s.pin == pin
    case WUsedBoth(_, p, pin, pout, seen) =>
      && p == s.pin == pin && seen <= |s.delivered| <= |s.accepted| && |s.accepted| - seen < size
      && pin == Wrap(pout + |s.accepted[seen..]|, size)
    case WCopy(data, p, i) => q + |data| < size && p == Wrap(s.pout + (q + i), size)
    case _ => true
  }

  ghost predicate ReaderInv(s: State)
    requires Sane(s)
  {
    var size, q := |s.buf|, Waiting(s);
    match s.reader
    case RGotPout(_, p) => p == s.pout
    case RUsedPin(_, p, pin, seen) =>
      && p == s.pout && |s.delivered| <= seen <= |s.accepted|
      && |s.accepted[|s.delivered|..seen]| < size
      && pin == Wrap(s.pout + |s.accepted[|s.delivered|..seen]|, size)
    case RUsedBoth(_, p, pin, pout, seen) =>
      && p == s.pout == pout && |s.delivered| <= seen <= |s.accepted|
      && |s.accepted[|s.delivered|..seen]| < size
      && pin == Wrap(pout + |s.accepted[|s.delivered|..seen]|, size)
    case RCopy(n, p, out) => |out| <= n <= |q| < size && p == Wrap(s.pout + |out|, size) && out == q[..|out|]
    case _ => true
  }

  ghost predicate Inv(s: State) {
    Sane(s) && HistoryInv(s) && MemoryInv(s) && WriterInv(s) && ReaderInv(s)
  }

  lemma HoldingPrefix(buf: seq<Sample>, start: nat, a: seq<Sample>, b: seq<Sample>)
    requires Holding(buf, start, a + b)
    ensures Holding(buf, start, a)
  {
    forall k | 0 <= k < |a| ensures buf[Wrap(start + k, |buf|)] == a[k] {
      assert (a + b)[k] == a[k];
    }
  }

  /** What the memory holds between the positions is what was accepted and not delivered. */
  lemma MemoryIsQueue(s: State)
    requires Inv(s)
    ensures Queue(s.buf, s.pin, s.pout) == Waiting(s)
  {
    HoldingPrefix(s.buf, s.pout, Waiting(s), Pending(s));
    HoldingIsQueue(s.buf, s.pin, s.pout, Waiting(s));
  }

  /** The stale `pout` the writer holds only makes it underestimate the free space. */
  lemma WriterUnderestimates(s: State)
    requires Inv(s) && s.writer.WUsedBoth?
    ensures Used(s.writer.pin, s.writer.pout, |s.buf|) == |s.accepted| - s.writer.seen >= |Waiting(s)|
  {
    hide Holding, ReaderInv;
  }

  /** The stale `pin` the reader holds only makes it underestimate the samples waiting. */
  lemma ReaderUnderestimates(s: State)
    requires Inv(s) && s.reader.RUsedBoth?
    ensures Used(s.reader.pin, s.reader.pout, |s.buf|) == s.reader.seen - |s.delivered| <= |Waiting(s)|
  {
    hide Holding, WriterInv;
  }

  // ----- every step keeps it

  lemma WriterStores(s: State)
    requires Inv(s) && s.writer.WCopy? && s.writer.i < |s.writer.data|
    ensures Inv(StepWriter(s))
  {
    hide Holding, Used, Wrap, Advance;
    var t := StepWriter(s);
    var size, q, data, i := |s.buf|, Waiting(s), s.writer.data, s.writer.i;
    assert Waiting(t) == q;
    StoredBehind(s.buf, s.pout, q + Pending(s), data[i]);
    AdvanceIsNext(s.pout, |q| + i, size);
    assert q + Pending(s) + [data[i]] == q + Pending(t);
  }

  lemma WriterPublishes(s: State)
    requires Inv(s) && s.writer.WCopy? && s.writer.i == |s.writer.data|
    ensures Inv(StepWriter(s)) && Waiting(StepWriter(s)) == Waiting(s) + s.writer.data
  {
    hide Holding, Used, Wrap;
    var t := StepWriter(s);
    var q, data, d := Waiting(s), s.writer.data, |s.delivered|;
    assert data[..s.writer.i] == data;
    assert t.accepted[d..] == q + data;
    assert t.accepted[..d] == s.accepted[..d];
    assert q + Pending(s) == Waiting(t) + Pending(t);
    match t.reader {
      case RUsedPin(_, _, _, seen) => assert t.accepted[d..seen] == s.accepted[d..seen];
      case RUsedBoth(_, _, _, _, seen) => assert t.accepted[d..seen] == s.accepted[d..seen];
      case RCopy(_, _, out) => assert (q + data)[..|out|] == q[..|out|];
      case _ =>
    }
  }

  lemma WriterPrepares(s: State)
    requires Inv(s) && !s.writer.WCopy?
    ensures Inv(StepWriter(s)) && Waiting(StepWriter(s)) == Waiting(s)
  {
    hide Holding, Used, ReaderInv;
    var t := StepWriter(s);
    assert Waiting(t) == Waiting(s) && Pending(t) == Pending(s) == [];
    if s.writer.WUsedBoth? { WriterUnderestimates(s); }
    assert ReaderInv(t) by { ReaderInvKept(s, t); }
  }

  lemma ReaderInvKept(s: State, t: State)
    requires Sane(s) && ReaderInv(s) && t == s.(writer := t.writer) && Sane(t)
    ensures ReaderInv(t)
  {
    hide Holding;
  }

  lemma WriterInvKept(s: State, t: State)
    requires Sane(s) && WriterInv(s) && t == s.(reader := t.reader) && Sane(t)
    ensures WriterInv(t)
  {
    hide Holding;
  }

  /** The reader's next load finds the next waiting sample. */
  lemma NextSample(s: State)
    requires Inv(s) && s.reader.RCopy? && |s.reader.out| < s.reader.n
    ensures s.buf[s.reader.p] == Waiting(s)[|s.reader.out|]
  {
    hide WriterInv;
    var k := |s.reader.out|;
    assert (Waiting(s) + Pending(s))[k] == Waiting(s)[k];
  }

  lemma ReaderLoads(s: State)
    requires Inv(s) && s.reader.RCopy? && |s.reader.out| < s.reader.n
    ensures Inv(StepReader(s)) && Waiting(StepReader(s)) == Waiting(s)
  {
    hide Holding, Used, WriterInv;
    var t := StepReader(s);
    NextSample(s);
    AdvanceIsNext(s.pout, |s.reader.out|, |s.buf|);
    assert Pending(t) == Pending(s) && Waiting(t) == Waiting(s);
    WriterInvKept(s, t);
  }

  lemma ReaderPublishes(s: State)
    requires Inv(s) && s.reader.RCopy? && |s.reader.out| == s.reader.n
    ensures Inv(StepReader(s)) && Waiting(StepReader(s)) == Waiting(s)[s.reader.n..]
  {
    hide Used, Wrap, WriterInv, MemoryInv;
    var t := StepReader(s);
    assert t.delivered == s.accepted[..|t.delivered|];
    assert Waiting(t) == Waiting(s)[s.reader.n..];
    MemoryBehind(s, t, s.reader.n);
    WriterInvBehind(s, t, s.reader.n);
  }

  /** The samples read leave the front of the queue, and the rest stays in place. */
  lemma MemoryBehind(s: State, t: State, n: nat)
    requires Sane(s) && Sane(t) && MemoryInv(s) && n <= |Waiting(s)| < |s.buf| && Waiting(t) == Waiting(s)[n..]
    requires t.buf == s.buf && t.pin == s.pin && t.pout == Wrap(s.pout + n, |s.buf|) && t.writer == s.writer
    ensures MemoryInv(t)
  {
    hide Holding, Used, Pending, Wrap, Waiting;
    var q := Waiting(s);
    PendingOfWriter(s, t);
    SteppedOver(s.buf, s.pout, q + Pending(s), n);
    assert (q + Pending(s))[n..] == q[n..] + Pending(s);
    WrapShift(s.pout, n, |q|, |s.buf|);
  }

  /** The writer's part of the invariant does not mind the reader's position moving on. */
  lemma WriterInvBehind(s: State, t: State, n: nat)
    requires Sane(s) && Sane(t) && WriterInv(s) && n <= |Waiting(s)| < |s.buf| && Waiting(t) == Waiting(s)[n..]
    requires t.buf == s.buf && t.pin == s.pin && t.pout == Wrap(s.pout + n, |s.buf|) && t.writer == s.writer
    requires t.accepted == s.accepted && |s.delivered| <= |t.delivered| <= |t.accepted|
    ensures WriterInv(t)
  {
    hide Wrap, Used, Holding;
    if s.writer.WCopy? {
      WrapShift(s.pout, n, |Waiting(s)| + s.writer.i, |s.buf|);
    }
  }

  lemma PendingOfWriter(s: State, t: State)
    requires s.writer == t.writer
    ensures Pending(s) == Pending(t)
  {
  }

  lemma ReaderPrepares(s: State)
    requires Inv(s) && !s.reader.RCopy?
    ensures Inv(StepReader(s)) && Waiting(StepReader(s)) == Waiting(s)
  {
    hide Holding, Used, WriterInv;
    var t := StepReader(s);
    assert Waiting(t) == Waiting(s) && Pending(t) == Pending(s);
    if s.reader.RUsedBoth? { ReaderUnderestimates(s); }
    assert s.accepted[|s.delivered|..|s.accepted|] == Waiting(s);
    assert WriterInv(t) by { WriterInvKept(s, t); }
  }

  lemma StepKeepsInv(s: State, e: Event)
    requires Inv(s)
    ensures Inv(Step(s, e))
  {
    hide Inv;
    match e
    case WriterStep =>
      assert s.writer.WCopy? ==> s.writer.i <= |s.writer.data| by { InvIsSane(s); }
      if !s.writer.WCopy? { WriterPrepares(s); }
      else if s.writer.i < |s.writer.data| { WriterStores(s); }
      else { WriterPublishes(s); }
    case ReaderStep =>
      assert s.reader.RCopy? ==> |s.reader.out| <= s.reader.n by { InvIsSane(s); }
      if !s.reader.RCopy? { ReaderPrepares(s); }
      else if |s.reader.out| < s.reader.n { ReaderLoads(s); }
      else { ReaderPublishes(s); }
    case _ => CallKeepsInv(s, e);
  }

  lemma InvIsSane(s: State)
    requires Inv(s)
    ensures Sane(s)
  {
  }

  lemma CallKeepsInv(s: State, e: Event)
    requires Inv(s) && (e.CallWrite? || e.CallRead?)
    ensures Inv(Step(s, e)) && Waiting(Step(s, e)) == Waiting(s)
  {
    hide Holding, Used;
  }

  // ----- runs

  /** A new FIFO over a buffer of any content, both threads idle. */
  function Init(buf: seq<Sample>): State {
    State(buf, 0, 0, WIdle, RIdle, [], [])
  }

  function Run(buf: seq<Sample>, events: seq<Event>): (s: State)
    requires 0 < |buf| <= INT_MAX
    ensures Inv(s)
    decreases |events|
  {
    if events == [] then Init(buf)
    else
      var n := |events| - 1;
      var s := Run(buf, events[..n]);
      StepKeepsInv(s, events[n]);
      Step(s, events[n])
  }

  lemma PrefixInState(s: State)
    requires Inv(s)
    ensures s.delivered <= s.accepted && |s.accepted| - |s.delivered| <= |s.buf| - 1
    ensures s.accepted == s.delivered + Queue(s.buf, s.pin, s.pout)
  {
    hide Holding, WriterInv, ReaderInv, Used;
    MemoryIsQueue(s);
  }

  /** In every interleaving the samples delivered are a prefix of the samples accepted, no
      more than the capacity are under way, and the memory holds exactly those under way. */
  lemma DeliveredIsPrefixOfAccepted(buf: seq<Sample>, events: seq<Event>)
    requires 0 < |buf| <= INT_MAX
    ensures var s := Run(buf, events);
      && s.delivered <= s.accepted
      && |s.accepted| - |s.delivered| <= |buf| - 1
      && s.accepted == s.delivered + Queue(s.buf, s.pin, s.pout)
  {
    hide Run, Queue, Inv;
    SizeKept(buf, events);
    PrefixInState(Run(buf, events));
  }

  /** The slot of the `k`th waiting sample. */
  ghost function SlotOf(s: State, k: nat): nat
    requires Inv(s) && k < |Waiting(s)|
  {
    Wrap(s.pout + k, |s.buf|)
  }

  /** The writer never stores into a slot that holds a waiting sample; the slot the reader is
      about to load is one of those. So no store meets a load, whatever the interleaving. */
  lemma StoreAvoidsWaiting(buf: seq<Sample>, events: seq<Event>)
    requires 0 < |buf| <= INT_MAX
    requires var w := Run(buf, events).writer; w.WCopy? && w.i < |w.data|
    ensures var s := Run(buf, events); forall k :: 0 <= k < |Waiting(s)| ==> SlotOf(s, k) != s.writer.p
    ensures var s := Run(buf, events);
      s.reader.RCopy? && |s.reader.out| < s.reader.n ==>
        s.reader.n <= |Waiting(s)| && s.reader.p == SlotOf(s, |s.reader.out|) != s.writer.p
  {
  }

  /** Every step is a step of a bounded queue: a completed write appends all of its samples,
      a completed read takes its samples from the front, and nothing else changes the queue. */
  lemma StepRefinesQueue(s: State, e: Event)
    requires Inv(s)
    ensures var t := Step(s, e); var q, r := Waiting(s), Waiting(t);
      || (t.accepted == s.accepted && t.delivered == s.delivered && r == q)
      || (&& s.writer.WCopy? && t.writer.WIdle? && t.delivered == s.delivered
          && r == q + s.writer.data && |r| <= |s.buf| - 1)
      || (&& s.reader.RCopy? && t.reader.RIdle? && t.accepted == s.accepted
          && s.reader.n <= |q| && t.delivered == s.delivered + q[..s.reader.n] && r == q[s.reader.n..])
  {
    hide Inv;
    match e
    case WriterStep =>
      InvIsSane(s);
      if !s.writer.WCopy? { WriterPrepares(s); }
      else if s.writer.i < |s.writer.data| { WriterStores(s); }
      else { WriterPublishes(s); InvMeans(StepWriter(s)); }
    case ReaderStep =>
      InvIsSane(s);
      InvMeans(s);
      if !s.reader.RCopy? { ReaderPrepares(s); }
      else if |s.reader.out| < s.reader.n { ReaderLoads(s); }
      else { ReaderPublishes(s); }
    case _ => CallKeepsInv(s, e);
  }

  lemma InvMeans(s: State)
    requires Inv(s)
    ensures |Waiting(s)| <= |s.buf| - 1
    ensures s.reader.RCopy? ==>
      |s.reader.out| <= s.reader.n <= |Waiting(s)| && s.reader.out == Waiting(s)[..|s.reader.out|]
  {
  }

  // ----- refusals

  lemma RunStep(buf: seq<Sample>, events: seq<Event>)
    requires 0 < |buf| <= INT_MAX && events != []
    ensures Sane(Run(buf, events[..|events| - 1]))
    ensures Run(buf, events) == Step(Run(buf, events[..|events| - 1]), events[|events| - 1])
  {
  }

  lemma RunStart(buf: seq<Sample>)
    requires 0 < |buf| <= INT_MAX
    ensures Run(buf, []) == Init(buf)
  {
  }

  lemma {:induction false} SizeKept(buf: seq<Sample>, events: seq<Event>)
    requires 0 < |buf| <= INT_MAX
    ensures |Run(buf, events).buf| == |buf|
    decreases |events|
  {
    if events != [] {
      SizeKept(buf, events[..|events| - 1]);
      RunStep(buf, events);
      StepKeepsSize(Run(buf, events[..|events| - 1]), events[|events| - 1]);
    }
  }

  lemma StepKeepsSize(s: State, e: Event)
    requires Sane(s)
    ensures |Step(s, e).buf| == |s.buf|
  {
  }

  /** The step into `WUsedBoth` is the load of `pout`, and nothing later in the call before
      the decision touches what it recorded or what the writer has had accepted. */
  lemma LoadOfPout(s: State, e: Event)
    requires Sane(s) && Step(s, e).writer.WUsedBoth?
    ensures var t := Step(s, e);
      || (s.writer == t.writer && t.accepted == s.accepted)
      || (s.writer.WUsedPin? && t.accepted == s.accepted
          && t.writer.data == s.writer.data && t.writer.seen == |s.delivered|)
  {
  }

  /** From just after moment `j` to now the writer has held both pointers: it is still in the
      call it was in at `j`, and has not decided yet. */
  ghost predicate UndecidedSince(buf: seq<Sample>, events: seq<Event>, j: nat)
    requires 0 < |buf| <= INT_MAX
  {
    forall i :: j < i <= |events| ==> Run(buf, events[..i]).writer.WUsedBoth?
  }

  /** The same of the reader, which loads `pin` first. */
  ghost predicate ReaderUndecidedSince(buf: seq<Sample>, events: seq<Event>, j: nat)
    requires 0 < |buf| <= INT_MAX
  {
    forall i :: j < i <= |events| ==> HoldsPin(Run(buf, events[..i]))
  }

  lemma UndecidedStill(buf: seq<Sample>, events: seq<Event>, j: nat)
    requires 0 < |buf| <= INT_MAX && events != []
    requires j == |events| - 1 || UndecidedSince(buf, events[..|events| - 1], j)
    requires Run(buf, events).writer.WUsedBoth?
    ensures UndecidedSince(buf, events, j)
  {
    hide Run;
    forall i | j < i <= |events| ensures Run(buf, events[..i]).writer.WUsedBoth? {
      if i == |events| {
        assert events[..i] == events;
      } else {
        assert events[..|events| - 1][..i] == events[..i];
      }
    }
  }

  lemma ReaderUndecidedStill(buf: seq<Sample>, events: seq<Event>, j: nat)
    requires 0 < |buf| <= INT_MAX && events != []
    requires j == |events| - 1 || ReaderUndecidedSince(buf, events[..|events| - 1], j)
    requires HoldsPin(Run(buf, events))
    ensures ReaderUndecidedSince(buf, events, j)
  {
    hide Run, HoldsPin;
    forall i | j < i <= |events| ensures HoldsPin(Run(buf, events[..i])) {
      if i == |events| {
        assert events[..i] == events;
      } else {
        assert events[..|events| - 1][..i] == events[..i];
      }
    }
  }

  /** When the writer holds both pointers, there was a moment `j` of the same call at which it
      loaded `pout`. */
  lemma {:induction false} PoutWasLoaded(buf: seq<Sample>, events: seq<Event>) returns (j: nat)
    requires 0 < |buf| <= INT_MAX && Run(buf, events).writer.WUsedBoth?
    ensures j < |events|
    ensures var s, t := Run(buf, events[..j]), Run(buf, events);
      && s.writer.WUsedPin? && s.writer.data == t.writer.data
      && |s.delivered| == t.writer.seen && s.accepted == t.accepted
    ensures UndecidedSince(buf, events, j)
    decreases |events|
  {
    var n := |events| - 1;
    RunStart(buf);
    hide Inv, Step, Run, UndecidedSince;
    RunStep(buf, events);
    LoadOfPout(Run(buf, events[..n]), events[n]);
    if Run(buf, events[..n]).writer.WUsedBoth? {
      j := PoutWasLoaded(buf, events[..n]);
      assert events[..n][..j] == events[..j];
    } else {
      j := n;
    }
    UndecidedStill(buf, events, j);
  }

  /** A write is refused only if, at a moment during that very call, the queue had no room for
      it: from that moment to the refusal the writer never leaves the call. */
  lemma RefusalWasJustified(buf: seq<Sample>, events: seq<Event>) returns (j: nat)
    requires 0 < |buf| <= INT_MAX
    requires Run(buf, events).writer.WUsedBoth? && Run(buf, events + [WriterStep]).writer.WIdle?
    ensures j < |events|
    ensures var s := Run(buf, events[..j]);
      && s.writer.WUsedPin? && s.writer.data == Run(buf, events).writer.data
      && |Waiting(s)| + |s.writer.data| > |buf| - 1
    ensures UndecidedSince(buf, events, j)
  {
    hide Inv, Run, Used, UndecidedSince;
    var s := Run(buf, events);
    assert (events + [WriterStep])[..|events|] == events;
    RunStep(buf, events + [WriterStep]);
    WriterUnderestimates(s);
    SizeKept(buf, events);
    j := PoutWasLoaded(buf, events);
    WaitingLength(Run(buf, events[..j]));
  }

  lemma WaitingLength(s: State)
    requires Inv(s)
    ensures |Waiting(s)| == |s.accepted| - |s.delivered|
  {
  }

  lemma LoadOfPin(s: State, e: Event)
    requires Sane(s) && HoldsPin(Step(s, e))
    ensures var t := Step(s, e);
      || (HoldsPin(s) && s.reader.n == t.reader.n
          && s.reader.seen == t.reader.seen && t.delivered == s.delivered)
      || (s.reader.RGotPout? && t.delivered == s.delivered
          && t.reader.n == s.reader.n && t.reader.seen == |s.accepted|)
  {
  }

  ghost predicate HoldsPin(s: State) {
    s.reader.RUsedPin? || s.reader.RUsedBoth?
  }

  /** In `s` the reader is about to load the `pin` it holds in `t`, in the same call. */
  ghost predicate LoadsPinOf(s: State, t: State)
    requires HoldsPin(t)
  {
    && s.reader.RGotPout? && s.reader.n == t.reader.n
    && |s.accepted| == t.reader.seen && s.delivered == t.delivered
  }

  lemma HoldsNothingYet(buf: seq<Sample>)
    requires 0 < |buf| <= INT_MAX
    ensures !HoldsPin(Run(buf, []))
  {
  }

  /** One more step of the reader's hold on `pin`, or the load itself. */
  lemma StillLoaded(r: State, s: State, e: Event)
    requires Sane(s) && HoldsPin(Step(s, e)) && (HoldsPin(s) ==> LoadsPinOf(r, s)) && (!HoldsPin(s) ==> r == s)
    ensures LoadsPinOf(r, Step(s, e))
  {
    LoadOfPin(s, e);
    hide Step, Sane;
  }

  /** When the reader holds `pin`, there was a moment `j` of the same call at which it loaded it. */
  lemma {:induction false} PinWasLoaded(buf: seq<Sample>, events: seq<Event>) returns (j: nat)
    requires 0 < |buf| <= INT_MAX && HoldsPin(Run(buf, events))
    ensures j < |events| && LoadsPinOf(Run(buf, events[..j]), Run(buf, events))
    ensures ReaderUndecidedSince(buf, events, j)
    decreases |events|
  {
    hide Inv, Step, Run, Sane, ReaderUndecidedSince, LoadsPinOf, HoldsPin;
    HoldsNothingYet(buf);
    var n := |events| - 1;
    RunStep(buf, events);
    if HoldsPin(Run(buf, events[..n])) {
      j := PinWasLoaded(buf, events[..n]);
      assert events[..n][..j] == events[..j];
    } else {
      j := n;
    }
    StillLoaded(Run(buf, events[..j]), Run(buf, events[..n]), events[n]);
    ReaderUndecidedStill(buf, events, j);
  }

  /** A read is refused only if, at a moment during that very call, too few samples were
      waiting. */
  lemma ReadRefusalWasJustified(buf: seq<Sample>, events: seq<Event>) returns (j: nat)
    requires 0 < |buf| <= INT_MAX
    requires Run(buf, events).reader.RUsedBoth? && Run(buf, events + [ReaderStep]).reader.RIdle?
    ensures j < |events|
    ensures var s := Run(buf, events[..j]);
      s.reader.RGotPout? && s.reader.n == Run(buf, events).reader.n && |Waiting(s)| < s.reader.n
    ensures ReaderUndecidedSince(buf, events, j)
  {
    hide Inv, Run, Used, ReaderUndecidedSince;
    var s := Run(buf, events);
    assert (events + [ReaderStep])[..|events|] == events;
    RunStep(buf, events + [ReaderStep]);
    ReaderUnderestimates(s);
    SizeKept(buf, events);
    j := PinWasLoaded(buf, events);
    WaitingLength(Run(buf, events[..j]));
  }

  // ----- progress

  /** How many of the events are steps of the writer, and of the reader. */
  function WriterSteps(events: seq<Event>): nat {
    if events == [] then 0
    else WriterSteps(events[..|events| - 1]) + if events[|events| - 1].WriterStep? then 1 else 0
  }

  function ReaderSteps(events: seq<Event>): nat {
    if events == [] then 0
    else ReaderSteps(events[..|events| - 1]) + if events[|events| - 1].ReaderStep? then 1 else 0
  }

  lemma RunOn(buf: seq<Sample>, events: seq<Event>, more: seq<Event>)
    requires 0 < |buf| <= INT_MAX && more != []
    ensures var n := |more| - 1;
      Sane(Run(buf, events + more[..n])) && Run(buf, events + more) == Step(Run(buf, events + more[..n]), more[n])
  {
    hide Run, Step, Sane, Inv;
    var all, n := events + more, |more| - 1;
    assert all[|all| - 1] == more[n] && all[..|all| - 1] == events + more[..n];
    RunStep(buf, all);
  }

  /** What one event does to a thread that is copying: its own step moves it on by one sample,
      any other leaves it where it is. */
  lemma CopyStep(s: State, e: Event)
    requires Sane(s)
    ensures s.writer.WCopy? && (!e.WriterStep? || s.writer.i < |s.writer.data|) ==>
      var w := Step(s, e).writer;
      && w.WCopy? && w.data == s.writer.data && w.i == s.writer.i + (if e.WriterStep? then 1 else 0)
      && Step(s, e).accepted == s.accepted
    ensures s.reader.RCopy? && (!e.ReaderStep? || |s.reader.out| < s.reader.n) ==>
      var r := Step(s, e).reader;
      && r.RCopy? && r.n == s.reader.n && |r.out| == |s.reader.out| + (if e.ReaderStep? then 1 else 0)
      && Step(s, e).delivered == s.delivered
    ensures s.accepted <= Step(s, e).accepted
  {
    hide Used, Advance;
  }

  /** While fewer steps of the writer come than it has samples left, it goes on copying. */
  lemma {:induction false} WriterGoesOn(buf: seq<Sample>, events: seq<Event>, more: seq<Event>)
    requires 0 < |buf| <= INT_MAX
    requires var w := Run(buf, events).writer; w.WCopy? && w.i + WriterSteps(more) <= |w.data|
    ensures var s, t := Run(buf, events), Run(buf, events + more);
      && t.writer.WCopy? && t.writer.data == s.writer.data && t.writer.i == s.writer.i + WriterSteps(more)
      && t.accepted == s.accepted
    decreases |more|
  {
    hide Run, Step, Sane;
    if more == [] {
      assert events + more == events;
    } else {
      WriterGoesOn(buf, events, more[..|more| - 1]);
      RunOn(buf, events, more);
      CopyStep(Run(buf, events + more[..|more| - 1]), more[|more| - 1]);
    }
  }

  lemma PublishStep(s: State)
    requires Sane(s)
    ensures s.writer.WCopy? && s.writer.i == |s.writer.data| ==>
      Step(s, WriterStep).writer.WIdle? && Step(s, WriterStep).accepted == s.accepted + s.writer.data
    ensures s.reader.RCopy? && |s.reader.out| == s.reader.n ==>
      Step(s, ReaderStep).reader.RIdle? && Step(s, ReaderStep).delivered == s.delivered + s.reader.out
  {
  }

  /** A write that has been admitted is accepted whole: after a step for each sample left and
      one more the writer is back, and exactly its samples have been added, whatever the reader
      does meanwhile. */
  lemma AdmittedWriteIsAccepted(buf: seq<Sample>, events: seq<Event>, more: seq<Event>)
    requires 0 < |buf| <= INT_MAX
    requires var w := Run(buf, events).writer; w.WCopy? && w.i + WriterSteps(more) == |w.data|
    ensures var s, t := Run(buf, events), Run(buf, events + more + [WriterStep]);
      t.writer.WIdle? && t.accepted == s.accepted + s.writer.data
  {
    hide Run, Step, Sane;
    WriterGoesOn(buf, events, more);
    RunOn(buf, events + more, [WriterStep]);
    assert events + more + [WriterStep][..0] == events + more;
    PublishStep(Run(buf, events + more));
  }

  lemma {:induction false} ReaderGoesOn(buf: seq<Sample>, events: seq<Event>, more: seq<Event>)
    requires 0 < |buf| <= INT_MAX
    requires var r := Run(buf, events).reader; r.RCopy? && |r.out| + ReaderSteps(more) <= r.n
    ensures var s, t := Run(buf, events), Run(buf, events + more);
      && t.reader.RCopy? && t.reader.n == s.reader.n && |t.reader.out| == |s.reader.out| + ReaderSteps(more)
      && t.delivered == s.delivered && s.accepted <= t.accepted
    decreases |more|
  {
    hide Run, Step, Sane;
    if more == [] {
      assert events + more == events;
    } else {
      ReaderGoesOn(buf, events, more[..|more| - 1]);
      RunOn(buf, events, more);
      CopyStep(Run(buf, events + more[..|more| - 1]), more[|more| - 1]);
    }
  }

  lemma WaitingGrows(s: State, t: State, n: nat)
    requires t.delivered == s.delivered && s.accepted <= t.accepted && n <= |Waiting(s)|
    ensures n <= |Waiting(t)| && Waiting(t)[..n] == Waiting(s)[..n]
  {
  }

  /** A read that has been admitted delivers exactly the samples that waited first: after a step
      for each sample left and one more the reader is back, whatever the writer does meanwhile. */
  lemma AdmittedReadIsDelivered(buf: seq<Sample>, events: seq<Event>, more: seq<Event>)
    requires 0 < |buf| <= INT_MAX
    requires var r := Run(buf, events).reader; r.RCopy? && |r.out| + ReaderSteps(more) == r.n
    ensures var s, t := Run(buf, events), Run(buf, events + more + [ReaderStep]);
      && s.reader.n <= |Waiting(s)|
      && t.reader.RIdle? && t.delivered == s.delivered + Waiting(s)[..s.reader.n]
  {
    hide Run, Step, Sane, Waiting, Inv;
    ReaderGoesOn(buf, events, more);
    RunOn(buf, events + more, [ReaderStep]);
    assert events + more + [ReaderStep][..0] == events + more;
    var s, t := Run(buf, events), Run(buf, events + more);
    PublishStep(t);
    InvMeans(s);
    InvMeans(t);
    WaitingGrows(s, t, s.reader.n);
  }

  /** A call that has started: four steps lead to the decision. */
  predicate InCall(w: Writer, data: seq<Sample>, k: nat) {
    match w
    case WCalled(d) => d == data && k == 0
    case WGotPin(d, _) => d == data && k == 1
    case WUsedPin(d, _, _) => d == data && k == 2
    case WUsedBoth(d, _, _, _, _) => d == data && k == 3
    case WCopy(d, _, i) => d == data && k == 4 + i
    case WIdle => k >= 4
  }

  predicate InReadCall(r: Reader, n: nat, k: nat) {
    match r
    case RCalled(m) => m == n && k == 0
    case RGotPout(m, _) => m == n && k == 1
    case RUsedPin(m, _, _, _) => m == n && k == 2
    case RUsedBoth(m, _, _, _, _) => m == n && k == 3
    case RCopy(m, _, out) => m == n && k == 4 + |out|
    case RIdle => k >= 4
  }

  lemma CallStep(s: State, e: Event, data: seq<Sample>, n: nat, k: nat)
    requires Sane(s) && k <= 3
    ensures InCall(s.writer, data, k) ==>
      InCall(Step(s, e).writer, data, if e.WriterStep? then k + 1 else k) && Step(s, e).accepted == s.accepted
    ensures InReadCall(s.reader, n, k) ==>
      InReadCall(Step(s, e).reader, n, if e.ReaderStep? then k + 1 else k) && Step(s, e).delivered == s.delivered
  {
    hide Used;
  }

  /** Every write comes to its decision in four steps: it is refused and nothing was accepted,
      or it starts to copy its own samples from the first one on. */
  lemma {:induction false} WriteDecides(buf: seq<Sample>, events: seq<Event>, data: seq<Sample>, more: seq<Event>)
    requires 0 < |buf| <= INT_MAX && Run(buf, events).writer.WIdle? && WriterSteps(more) <= 4
    requires more != [] ==> WriterSteps(more[..|more| - 1]) <= 3
    ensures var t := Run(buf, events + [CallWrite(data)] + more);
      InCall(t.writer, data, WriterSteps(more)) && t.accepted == Run(buf, events).accepted
    decreases |more|
  {
    hide Run, Sane, InCall;
    hide Step;
    if more == [] {
      RunOn(buf, events, [CallWrite(data)]);
      assert events + [CallWrite(data)][..0] == events;
      assert events + [CallWrite(data)] + more == events + [CallWrite(data)];
      CallStarts(Run(buf, events), data, 0);
    } else {
      WriteDecides(buf, events, data, more[..|more| - 1]);
      RunOn(buf, events + [CallWrite(data)], more);
      var s := Run(buf, events + [CallWrite(data)] + more[..|more| - 1]);
      CallStep(s, more[|more| - 1], data, 0, WriterSteps(more[..|more| - 1]));
    }
  }

  lemma CallStarts(s: State, data: seq<Sample>, n: nat)
    requires Sane(s)
    ensures s.writer.WIdle? ==>
      InCall(Step(s, CallWrite(data)).writer, data, 0) && Step(s, CallWrite(data)).accepted == s.accepted
    ensures s.reader.RIdle? ==>
      InReadCall(Step(s, CallRead(n)).reader, n, 0) && Step(s, CallRead(n)).delivered == s.delivered
  {
  }

  /** Every read comes to its decision in four steps. */
  lemma {:induction false} ReadDecides(buf: seq<Sample>, events: seq<Event>, n: nat, more: seq<Event>)
    requires 0 < |buf| <= INT_MAX && Run(buf, events).reader.RIdle? && ReaderSteps(more) <= 4
    requires more != [] ==> ReaderSteps(more[..|more| - 1]) <= 3
    ensures var t := Run(buf, events + [CallRead(n)] + more);
      InReadCall(t.reader, n, ReaderSteps(more)) && t.delivered == Run(buf, events).delivered
    decreases |more|
  {
    hide Run, Sane, InReadCall;
    hide Step;
    if more == [] {
      RunOn(buf, events, [CallRead(n)]);
      assert events + [CallRead(n)][..0] == events;
      assert events + [CallRead(n)] + more == events + [CallRead(n)];
      CallStarts(Run(buf, events), [], n);
    } else {
      ReadDecides(buf, events, n, more[..|more| - 1]);
      RunOn(buf, events + [CallRead(n)], more);
      var s := Run(buf, events + [CallRead(n)] + more[..|more| - 1]);
      CallStep(s, more[|more| - 1], [], n, ReaderSteps(more[..|more| - 1]));
    }
  }
}
