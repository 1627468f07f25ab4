/** Differential QPSK: pairs of bits become quarter turns from one symbol to the next on each
    carrier, and one more carrier marks every other frame by a half turn.

    The shaping filters, the carriers and the timing recovery lie between sender and receiver
    and are not modelled; the channel multiplies each carrier by a constant complex gain.
 */
module Dqpsk {
  import opened Arithmetic

  datatype Comp = Comp(re: real, im: real)

  const ONE: Comp := Comp(1.0, 0.0)
  const J: Comp := Comp(0.0, 1.0)

  function Mult(a: Comp, b: Comp): Comp {
    Comp(a.re * b.re - a.im * b.im, a.re * b.im + a.im * b.re)
  }

  function Neg(a: Comp): Comp {
    Comp(-a.re, -a.im)
  }

  function Conj(a: Comp): Comp {
    Comp(a.re, -a.im)
  }

  function Scale(s: real, a: Comp): Comp {
    Comp(s * a.re, s * a.im)
  }

  // ----- one symbol

  /** `bits_to_dqpsk_symbols` for one carrier. `legacy` selects the V0.91 mapping. */
  function MapBits(prev: Comp, msb: bool, lsb: bool, legacy: bool): Comp {
    if !msb && !lsb then prev
    else if !msb then Mult(J, prev)
    else if !lsb then (if legacy then Neg(prev) else Mult(Neg(J), prev))
    else if legacy then Mult(Neg(J), prev) else Neg(prev)
  }

  /** The sync carrier: a half turn for a pilot bit of one. */
  function MapPilot(prev: Comp, pilot: bool): Comp {
    if pilot then Neg(prev) else prev
  }

  /** `qpsk_to_bits` for one carrier: the quadrant of the phase difference. */
  function Quadrant(d: Comp, legacy: bool): (bool, bool) {
    if d.re >= 0.0 && d.im >= 0.0 then (false, false)
    else if d.re < 0.0 && d.im >= 0.0 then (false, true)
    else if d.re < 0.0 then (true, !legacy)
    else (true, legacy)
  }

  /** The phase difference of successive received symbols, scaled by a positive `norm`. */
  function Difference(rx: Comp, prevRx: Comp, norm: real): Comp {
    Mult(rx, Scale(norm, Conj(prevRx)))
  }

  /** The turn of about 45 degrees that puts the decisions on the axes. */
  ghost predicate FirstQuadrant(turn: Comp) {
    turn.re > 0.0 && turn.im > 0.0
  }

  function Power(a: Comp): real {
    a.re * a.re + a.im * a.im
  }

  lemma ConjOfProduct(a: Comp, b: Comp)
    ensures Conj(Mult(a, b)) == Mult(Conj(a), Conj(b))
  {
  }

  lemma TimesOwnConj(a: Comp)
    ensures Mult(a, Conj(a)) == Comp(Power(a), 0.0)
  {
  }

  lemma TimesScaled(a: Comp, s: real, b: Comp)
    ensures Mult(a, Scale(s, b)) == Scale(s, Mult(a, b))
  {
  }

  lemma TimesReal(s: real, b: Comp)
    ensures Mult(Comp(s, 0.0), b) == Scale(s, b)
  {
  }

  /** Multiplying both symbols by one gain leaves the difference with the phase it had. */
  lemma GainCancels(g: Comp, a: Comp, b: Comp, norm: real)
    ensures Difference(Mult(g, a), Mult(g, b), norm) == Scale(Power(g), Difference(a, b, norm))
  {
    hide Mult, Scale, Conj, Power;
    var m := Mult(a, Conj(b));
    calc {
      Mult(Mult(g, a), Scale(norm, Conj(Mult(g, b))));
      { TimesScaled(Mult(g, a), norm, Conj(Mult(g, b))); ConjOfProduct(g, b); }
      Scale(norm, Mult(Mult(g, a), Mult(Conj(g), Conj(b))));
      { MultSwap(g, a, Conj(g), Conj(b)); TimesOwnConj(g); TimesReal(Power(g), m); }
      Scale(norm, Scale(Power(g), m));
      { ScaleTwice(norm, Power(g), m); TimesScaled(a, norm, Conj(b)); }
      Scale(Power(g), Mult(a, Scale(norm, Conj(b))));
    }
  }

  lemma ScaleTwice(s: real, t: real, a: Comp)
    ensures Scale(s, Scale(t, a)) == Scale(t, Scale(s, a))
  {
  }

  lemma MultAssoc(a: Comp, b: Comp, c: Comp)
    ensures Mult(Mult(a, b), c) == Mult(a, Mult(b, c))
  {
  }

  lemma MultComm(a: Comp, b: Comp)
    ensures Mult(a, b) == Mult(b, a)
  {
  }

  lemma MultSwap(a: Comp, b: Comp, c: Comp, d: Comp)
    ensures Mult(Mult(a, b), Mult(c, d)) == Mult(Mult(a, c), Mult(b, d))
  {
    hide Mult;
    MultAssoc(a, b, Mult(c, d));
    MultAssoc(b, c, d);
    MultComm(b, c);
    MultAssoc(c, b, d);
    MultAssoc(a, c, Mult(b, d));
  }

  lemma PositiveTimesPower(k: real, a: Comp)
    requires k > 0.0 && a != Comp(0.0, 0.0)
    ensures k * Power(a) > 0.0
  {
    hide Power;
    var p := TimesSquare(k, a.re);
    var q := TimesSquare(k, a.im);
    SplitPower(k, a, p, q);
  }

  lemma SplitPower(k: real, a: Comp, p: real, q: real)
    requires p == k * a.re * a.re && q == k * a.im * a.im
    ensures k * Power(a) == p + q
  {
  }

  lemma TimesSquare(k: real, x: real) returns (p: real)
    requires k > 0.0
    ensures p == k * x * x && p >= 0.0 && (x != 0.0 ==> p > 0.0)
  {
    if x > 0.0 {
      Positive(k, x);
      Positive(k * x, x);
    } else if x < 0.0 {
      Positive(k, -x);
      Positive(k * -x, -x);
      assert k * x * x == k * -x * -x;
    }
    p := k * x * x;
  }

  /** The turn between two symbols that carries a pair of bits. */
  function Turn(msb: bool, lsb: bool, legacy: bool): Comp {
    MapBits(ONE, msb, lsb, legacy)
  }

  lemma MapIsTurn(prev: Comp, msb: bool, lsb: bool, legacy: bool)
    ensures MapBits(prev, msb, lsb, legacy) == Mult(Turn(msb, lsb, legacy), prev)
  {
  }

  /** The difference of two symbols a turn apart is that turn, scaled. */
  lemma DifferenceIsTurn(t: Comp, prev: Comp, norm: real)
    ensures Difference(Mult(t, prev), prev, norm) == Scale(norm * Power(prev), t)
  {
    hide Mult, Scale, Conj, Power;
    var s := norm * Power(prev);
    calc {
      Mult(Mult(t, prev), Scale(norm, Conj(prev)));
      { TimesScaled(Mult(t, prev), norm, Conj(prev)); MultAssoc(t, prev, Conj(prev)); }
      Scale(norm, Mult(t, Mult(prev, Conj(prev))));
      { TimesOwnConj(prev); MultComm(t, Comp(Power(prev), 0.0)); TimesReal(Power(prev), t); }
      Scale(norm, Scale(Power(prev), t));
      { ScaleOfScale(norm, Power(prev), s, t); }
      Scale(s, t);
    }
  }

  lemma ScaleOfScale(s: real, t: real, r: real, a: Comp)
    requires r == s * t
    ensures Scale(s, Scale(t, a)) == Scale(r, a)
  {
  }

  /** The received difference is a positive multiple of the turn sent. */
  lemma ReceivedTurn(g: Comp, t: Comp, prev: Comp, norm: real) returns (s: real)
    requires g != Comp(0.0, 0.0) && prev != Comp(0.0, 0.0) && norm > 0.0
    ensures s > 0.0 && Difference(Mult(g, Mult(t, prev)), Mult(g, prev), norm) == Scale(s, t)
  {
    hide Mult, Scale, Conj, Power, Difference;
    GainCancels(g, Mult(t, prev), prev, norm);
    DifferenceIsTurn(t, prev, norm);
    PositiveTimesPower(norm, prev);
    PositiveTimesPower(norm * Power(prev), g);
    s := norm * Power(prev) * Power(g);
    ScaleOfScale(Power(g), norm * Power(prev), s, t);
  }

  /** Both bits come back, under either mapping, for every gain and every earlier symbol. */
  lemma SymbolRoundTrip(g: Comp, prev: Comp, msb: bool, lsb: bool, legacy: bool, norm: real, turn: Comp)
    requires g != Comp(0.0, 0.0) && prev != Comp(0.0, 0.0) && norm > 0.0 && FirstQuadrant(turn)
    ensures var rx := Mult(g, MapBits(prev, msb, lsb, legacy));
      Quadrant(Mult(Difference(rx, Mult(g, prev), norm), turn), legacy) == (msb, lsb)
  {
    MapIsTurn(prev, msb, lsb, legacy);
    var t := Turn(msb, lsb, legacy);
    var s := ReceivedTurn(g, t, prev, norm);
    TurnDecides(s, msb, lsb, legacy, turn);
  }

  lemma TurnDecides(s: real, msb: bool, lsb: bool, legacy: bool, turn: Comp)
    requires s > 0.0 && FirstQuadrant(turn)
    ensures Quadrant(Mult(Scale(s, Turn(msb, lsb, legacy)), turn), legacy) == (msb, lsb)
  {
    hide Mult, Turn, Scale, Leg;
    LegIsPositive(s, turn.re);
    LegIsPositive(s, turn.im);
    NoTurn(s, turn);
    LeftTurn(s, turn);
    HalfTurn(s, turn);
    RightTurn(s, turn);
    TurnTable(msb, lsb, legacy);
  }

  function Leg(s: real, x: real): real {
    s * x
  }

  lemma LegIsPositive(s: real, x: real)
    requires s > 0.0 && x > 0.0
    ensures Leg(s, x) > 0.0
  {
    Positive(s, x);
  }

  /** The four turns. */
  lemma TurnTable(msb: bool, lsb: bool, legacy: bool)
    ensures Turn(msb, lsb, legacy) ==
      if !msb then (if lsb then Comp(0.0, 1.0) else Comp(1.0, 0.0))
      else if lsb == legacy then Comp(0.0, -1.0) else Comp(-1.0, 0.0)
  {
  }

  lemma NoTurn(s: real, turn: Comp)
    ensures Mult(Scale(s, Comp(1.0, 0.0)), turn) == Comp(Leg(s, turn.re), Leg(s, turn.im))
  {
  }

  lemma LeftTurn(s: real, turn: Comp)
    ensures Mult(Scale(s, Comp(0.0, 1.0)), turn) == Comp(-Leg(s, turn.im), Leg(s, turn.re))
  {
  }

  lemma HalfTurn(s: real, turn: Comp)
    ensures Mult(Scale(s, Comp(-1.0, 0.0)), turn) == Comp(-Leg(s, turn.re), -Leg(s, turn.im))
  {
  }

  lemma RightTurn(s: real, turn: Comp)
    ensures Mult(Scale(s, Comp(0.0, -1.0)), turn) == Comp(Leg(s, turn.im), -Leg(s, turn.re))
  {
  }

  /** The pilot bit comes back as the sign of the real part. */
  lemma PilotRoundTrip(g: Comp, prev: Comp, pilot: bool, norm: real)
    requires g != Comp(0.0, 0.0) && prev != Comp(0.0, 0.0) && norm > 0.0
    ensures Difference(Mult(g, MapPilot(prev, pilot)), Mult(g, prev), norm).re < 0.0 <==> pilot
  {
    var t := if pilot then Neg(ONE) else ONE;
    assert MapPilot(prev, pilot) == Mult(t, prev);
    var s := ReceivedTurn(g, t, prev, norm);
  }

  // ----- whole frames

  /** The symbols of one frame: a carrier for every pair of bits, and the sync carrier. */
  function SymbolFrame(prev: seq<Comp>, bits: seq<bool>, pilot: bool, legacy: bool): (r: seq<Comp>)
    requires |prev| > 0 && |bits| == 2 * (|prev| - 1)
    ensures |r| == |prev|
  {
    seq(|prev|, c requires 0 <= c < |prev| =>
      if c < |prev| - 1 then MapBits(prev[c], bits[2 * c], bits[2 * c + 1], legacy) else MapPilot(prev[c], pilot))
  }

  /** The symbol of carrier `c`, in its two parts: by its pair of bits it stays, makes a quarter
      turn one way or the other, or a half turn; the sync carrier stays or makes a half turn. */
  lemma SymbolOfCarrier(prev: seq<Comp>, bits: seq<bool>, pilot: bool, legacy: bool, c: nat)
    requires c < |prev| && |bits| == 2 * (|prev| - 1)
    ensures var tx, a := SymbolFrame(prev, bits, pilot, legacy)[c], prev[c];
      if c == |prev| - 1 then tx == if pilot then Comp(-a.re, -a.im) else a
      else
        match (bits[2 * c], bits[2 * c + 1])
        case (false, false) => tx == a
        case (false, true) => tx == Comp(-a.im, a.re)
        case (true, false) => tx == if legacy then Comp(-a.re, -a.im) else Comp(a.im, -a.re)
        case (true, true) => tx == if legacy then Comp(a.im, -a.re) else Comp(-a.re, -a.im)
  {
  }

  /** The decision on one carrier of a received frame. */
  function Decide(rx: Comp, prevRx: Comp, normOf: Comp -> real, turn: Comp, legacy: bool): (bool, bool) {
    Quadrant(Mult(Difference(rx, prevRx, normOf(prevRx)), turn), legacy)
  }

  /** The bits of a received frame. */
  function FrameBitsOf(rx: seq<Comp>, prevRx: seq<Comp>, normOf: Comp -> real, turn: Comp, legacy: bool): (r: seq<bool>)
    requires |rx| == |prevRx| > 0
    ensures |r| == 2 * (|rx| - 1)
  {
    seq(2 * (|rx| - 1), i requires 0 <= i < 2 * (|rx| - 1) =>
      var d := Decide(rx[i / 2], prevRx[i / 2], normOf, turn, legacy);
      if i % 2 == 0 then d.0 else d.1)
  }

  /** The sync bit of a received frame. */
  function SyncBitOf(rx: seq<Comp>, prevRx: seq<Comp>, normOf: Comp -> real): bool
    requires |rx| == |prevRx| > 0
  {
    var c := |rx| - 1;
    Difference(rx[c], prevRx[c], normOf(prevRx[c])).re < 0.0
  }

  /** Every carrier through its own constant gain. */
  function Channel(gains: seq<Comp>, tx: seq<Comp>): (rx: seq<Comp>)
    requires |gains| == |tx|
    ensures |rx| == |tx|
  {
    seq(|tx|, c requires 0 <= c < |tx| => Mult(gains[c], tx[c]))
  }

  ghost predicate NonZero(s: seq<Comp>) {
    forall c :: 0 <= c < |s| ==> s[c] != Comp(0.0, 0.0)
  }

  ghost predicate GoodNorm(normOf: Comp -> real) {
    forall a :: normOf(a) > 0.0
  }

  /** Symbols never vanish. */
  lemma SymbolsNonZero(prev: seq<Comp>, bits: seq<bool>, pilot: bool, legacy: bool)
    requires |prev| > 0 && |bits| == 2 * (|prev| - 1) && NonZero(prev)
    ensures NonZero(SymbolFrame(prev, bits, pilot, legacy))
  {
  }

  /** A frame sent after any nonzero symbols, through any nonzero gains, is received bit for
      bit, and so is its pilot bit. */
  lemma FrameRoundTrip(gains: seq<Comp>, prev: seq<Comp>, bits: seq<bool>, pilot: bool, legacy: bool,
                       normOf: Comp -> real, turn: Comp)
    requires |gains| == |prev| > 0 && |bits| == 2 * (|prev| - 1) && NonZero(prev) && NonZero(gains)
    requires GoodNorm(normOf) && FirstQuadrant(turn)
    ensures var rx := Channel(gains, SymbolFrame(prev, bits, pilot, legacy));
      && FrameBitsOf(rx, Channel(gains, prev), normOf, turn, legacy) == bits
      && SyncBitOf(rx, Channel(gains, prev), normOf) == pilot
  {
    hide Mult, Difference, Quadrant, MapBits, MapPilot;
    var tx := SymbolFrame(prev, bits, pilot, legacy);
    var rx, prevRx := Channel(gains, tx), Channel(gains, prev);
    var r := FrameBitsOf(rx, prevRx, normOf, turn, legacy);
    forall i | 0 <= i < |bits| ensures r[i] == bits[i] {
      var c := i / 2;
      SymbolRoundTrip(gains[c], prev[c], bits[2 * c], bits[2 * c + 1], legacy, normOf(prevRx[c]), turn);
      assert i == 2 * c || i == 2 * c + 1;
    }
    var c := |prev| - 1;
    PilotRoundTrip(gains[c], prev[c], pilot, normOf(prevRx[c]));
  }

  // ----- the loops

  method BitsToSymbols(tx: array<Comp>, prev: seq<Comp>, bits: seq<bool>, pilot: bool,
                       legacy: bool) returns (newPilot: bool)
    requires tx.Length == |prev| > 0 && |bits| == 2 * (|prev| - 1)
    modifies tx
    ensures tx[..] == SymbolFrame(prev, bits, pilot, legacy) && newPilot == !pilot
  {
    var nc := tx.Length - 1;
    for c := 0 to nc
      invariant forall k :: 0 <= k < c ==> tx[k] == MapBits(prev[k], bits[2 * k], bits[2 * k + 1], legacy)
    {
      var msb, lsb := bits[2 * c], bits[2 * c + 1];
      if !msb && !lsb { tx[c] := prev[c]; }
      if !msb && lsb { tx[c] := Mult(J, prev[c]); }
      if msb && !lsb { tx[c] := if legacy then Neg(prev[c]) else Mult(Neg(J), prev[c]); }
      if msb && lsb { tx[c] := if legacy then Mult(Neg(J), prev[c]) else Neg(prev[c]); }
    }
    tx[nc] := if pilot then Neg(prev[nc]) else prev[nc];
    newPilot := !pilot;
  }

  method QpskToBits(rxBits: array<bool>, rx: seq<Comp>, prevRx: seq<Comp>, normOf: Comp -> real, turn: Comp,
                    legacy: bool)
    returns (syncBit: bool)
    requires |rx| == |prevRx| > 0 && rxBits.Length == 2 * (|rx| - 1)
    modifies rxBits
    ensures rxBits[..] == FrameBitsOf(rx, prevRx, normOf, turn, legacy)
    ensures syncBit == SyncBitOf(rx, prevRx, normOf)
  {
    hide Mult, Difference;
    var nc := |rx| - 1;
    var msb, lsb := false, false;
    for c := 0 to nc
      invariant forall i :: 0 <= i < 2 * c ==> rxBits[i] == FrameBitsOf(rx, prevRx, normOf, turn, legacy)[i]
    {
      var d := Mult(Difference(rx[c], prevRx[c], normOf(prevRx[c])), turn);
      if d.re >= 0.0 && d.im >= 0.0 { msb, lsb := false, false; }
      if d.re < 0.0 && d.im >= 0.0 { msb, lsb := false, true; }
      if d.re < 0.0 && d.im < 0.0 { msb, lsb := true, !legacy; }
      if d.re >= 0.0 && d.im < 0.0 { msb, lsb := true, legacy; }
      assert (msb, lsb) == Decide(rx[c], prevRx[c], normOf, turn, legacy);
      rxBits[2 * c] := msb;
      rxBits[2 * c + 1] := lsb;
    }
    syncBit := Difference(rx[nc], prevRx[nc], normOf(prevRx[nc])).re < 0.0;
  }
}
