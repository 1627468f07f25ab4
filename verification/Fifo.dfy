/** The sample FIFO as a ring buffer with a read and a write position, refining a bounded
    queue of one sample less than the buffer holds.
 */
module Fifo {

  type Sample = int  // a `short`; the FIFO only copies it

  const UINT_RANGE: int := 0x1_0000_0000
  const INT_MAX: int := 0x7FFF_FFFF

  /** A position at most one lap past the end, brought back into the buffer. */
  function Wrap(k: nat, size: nat): (r: nat)
    requires k < 2 * size
    ensures r < size
  {
    if k >= size then k - size else k
  }

  /** A pointer step: `*p++` and the test against the end of the buffer. */
  function Advance(p: nat, size: nat): (q: nat)
    requires p < size
    ensures q < size
  {
    if p + 1 == size then 0 else p + 1
  }

  /** `fifo_used`: the subtraction below zero wraps around as a 32-bit unsigned number. */
  function Used(pin: nat, pout: nat, size: nat): (used: int)
    requires pin < size && pout < size <= INT_MAX
    ensures 0 <= used < size && pin == Wrap(pout + used, size)
  {
    if pin >= pout then pin - pout
    else (size + (pin - pout + UINT_RANGE)) % UINT_RANGE
  }

  /** The samples waiting between the two positions, oldest first. */
  function Queue(buf: seq<Sample>, pin: nat, pout: nat): (q: seq<Sample>)
    requires pin < |buf| && pout < |buf| <= INT_MAX
    ensures |q| == Used(pin, pout, |buf|)
  {
    seq(Used(pin, pout, |buf|), i requires 0 <= i < Used(pin, pout, |buf|) => buf[Wrap(pout + i, |buf|)])
  }

  /** `items` lie in the buffer from position `start` on, wrapping at the end. */
  ghost predicate Holding(buf: seq<Sample>, start: nat, items: seq<Sample>) {
    && start < |buf| && |items| <= |buf|
    && forall k :: 0 <= k < |items| ==> buf[Wrap(start + k, |buf|)] == items[k]
  }

  /** Taking `n` of `m` samples moves the start of the rest, not its end. */
  lemma WrapShift(p: nat, n: nat, m: nat, size: nat)
    requires p < size && n <= m < size
    ensures Wrap(Wrap(p + n, size) + (m - n), size) == Wrap(p + m, size) && Wrap(p + 0, size) == p
  {
  }

  lemma HeldAt(buf: seq<Sample>, start: nat, items: seq<Sample>, k: nat)
    requires Holding(buf, start, items) && k < |items|
    ensures start + k < 2 * |buf| && buf[Wrap(start + k, |buf|)] == items[k]
  {
  }

  lemma AdvanceIsNext(start: nat, n: nat, size: nat)
    requires start < size && n < size
    ensures Advance(Wrap(start + n, size), size) == Wrap(start + n + 1, size)
  {
  }

  /** Storing behind the last item extends the items and spoils none. */
  lemma StoredBehind(buf: seq<Sample>, start: nat, items: seq<Sample>, x: Sample)
    requires Holding(buf, start, items) && |items| < |buf|
    ensures Holding(buf[Wrap(start + |items|, |buf|) := x], start, items + [x])
  {
  }

  /** Stepping over the first items leaves the rest. */
  lemma SteppedOver(buf: seq<Sample>, start: nat, items: seq<Sample>, n: nat)
    requires Holding(buf, start, items) && n <= |items| && n < |buf|
    ensures Holding(buf, Wrap(start + n, |buf|), items[n..])
  {
  }

  /** The items held between the positions are the queue. */
  lemma HoldingIsQueue(buf: seq<Sample>, pin: nat, pout: nat, items: seq<Sample>)
    requires |buf| <= INT_MAX && pin < |buf| && |items| < |buf|
    requires Holding(buf, pout, items) && pin == Wrap(pout + |items|, |buf|)
    ensures Queue(buf, pin, pout) == items
  {
  }

  lemma QueueIsHeld(buf: seq<Sample>, pin: nat, pout: nat)
    requires pin < |buf| && pout < |buf| <= INT_MAX
    ensures Holding(buf, pout, Queue(buf, pin, pout))
    ensures pin == Wrap(pout + |Queue(buf, pin, pout)|, |buf|)
  {
  }

  class Fifo {
    const nshort: nat
    const buf: array<Sample>
    var pin: nat
    var pout: nat

    ghost predicate Valid()
      reads this
    {
      0 < nshort == buf.Length <= INT_MAX && pin < nshort && pout < nshort
    }

    /** The abstract queue. */
    ghost function Contents(): (q: seq<Sample>)
      reads this, buf
      requires Valid()
    {
      Queue(buf[..], pin, pout)
    }

    constructor (nshort: nat)
      requires 0 < nshort <= INT_MAX
      ensures Valid() && fresh(buf) && this.nshort == nshort && Contents() == []
    {
      this.nshort := nshort;
      buf := new Sample[nshort];
      pin, pout := 0, 0;
    }

    method FifoUsed() returns (used: int)
      requires Valid()
      ensures used == |Contents()|
    {
      used := Used(pin, pout, nshort);
    }

    /** Appends the first `n` samples, or refuses and changes nothing. */
    method Write(data: array<Sample>, n: int) returns (result: int)
      requires Valid() && n <= data.Length && data != buf
      modifies `pin, buf
      ensures Valid() && result in {0, -1}
      ensures result == 0 <==> n <= nshort - 1 - |old(Contents())|
      ensures Contents() == old(Contents()) + if result == 0 && n > 0 then data[..n] else []
      ensures result == -1 ==> pin == old(pin) && buf[..] == old(buf[..])
    {
      hide Holding, Queue, Used;
      ghost var q := Contents();
      QueueIsHeld(buf[..], pin, pout);
      var p := pin;
      var used := FifoUsed();
      if n > nshort - used - 1 {
        return -1;
      }
      var count := if n > 0 then n else 0;
      assert q == q + data[..0];
      for i := 0 to count
        invariant p == Wrap(pout + used + i, nshort)
        invariant Holding(buf[..], pout, q + data[..i])
      {
        StoredBehind(buf[..], pout, q + data[..i], data[i]);
        AdvanceIsNext(pout, used + i, nshort);
        assert q + data[..i] + [data[i]] == q + data[..i + 1];
        buf[p] := data[i];
        p := Advance(p, nshort);
      }
      pin := p;
      HoldingIsQueue(buf[..], pin, pout, q + data[..count]);
      return 0;
    }

    /** Takes the `n` oldest samples, or refuses and changes nothing. */
    method Read(data: array<Sample>, n: int) returns (result: int)
      requires Valid() && n <= data.Length && data != buf
      modifies `pout, data
      ensures Valid() && result in {0, -1}
      ensures result == 0 <==> n <= |old(Contents())|
      ensures result == 0 && n > 0 ==>
        data[..n] == old(Contents())[..n] && data[n..] == old(data[n..]) && Contents() == old(Contents())[n..]
      ensures result == -1 || n <= 0 ==> data[..] == old(data[..]) && Contents() == old(Contents())
    {
      hide Queue, Used, Holding, Wrap, Advance;
      ghost var q := Contents();
      QueueIsHeld(buf[..], pin, pout);
      WrapShift(pout, 0, 0, nshort);
      var p := pout;
      var used := FifoUsed();
      if n > used {
        return -1;
      }
      var count := if n > 0 then n else 0;
      for i := 0 to count
        invariant pout == old(pout) && p == Wrap(pout + i, nshort)
        invariant data[..i] == q[..i] && data[i..] == old(data[i..])
      {
        AdvanceIsNext(pout, i, nshort);
        HeldAt(buf[..], pout, q, i);
        data[i] := buf[p];
        p := Advance(p, nshort);
      }
      SteppedOver(buf[..], pout, q, count);
      WrapShift(pout, count, used, nshort);
      pout := p;
      HoldingIsQueue(buf[..], pin, pout, q[count..]);
      return 0;
    }
  }

  /** Whatever the wrap position, samples written and then read come out unchanged and the
      queue is as before. */
  method WriteThenRead(f: Fifo, data: array<Sample>, out: array<Sample>) returns (ok: bool)
    requires f.Valid() && f.Contents() == [] && data != f.buf && out != f.buf && out != data
    requires out.Length == data.Length
    modifies f, f.buf, out
    ensures f.Valid() && f.Contents() == []
    ensures ok <==> data.Length <= f.nshort - 1
    ensures ok ==> out[..] == data[..]
  {
    var w := f.Write(data, data.Length);
    ok := w == 0;
    if ok {
      var r := f.Read(out, out.Length);
      assert data[..data.Length] == data[..];
    }
  }
}
