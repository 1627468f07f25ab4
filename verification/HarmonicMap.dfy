/** The map from harmonic numbers to the slots of the fixed-length sparse vector. */
module HarmonicMap {
  import opened Arithmetic

  const MAX_AMP: nat := 80
  const P_MAX: nat := 160

  /** The slot of harmonic `m` at fundamental `wo`: the truncated product of the source. */
  function Slot(m: nat, wo: real): int {
    (MAX_AMP as real * m as real * wo / PI).Floor
  }

  /** The slot is the number of whole eightieths of `PI` in the frequency of the harmonic. */
  lemma SlotBounds(m: nat, wo: real)
    ensures Slot(m, wo) as real * PI <= 80.0 * (m as real * wo) < (Slot(m, wo) + 1) as real * PI
  {
    var x := MAX_AMP as real * m as real * wo;
    assert x == 80.0 * (m as real * wo) && x / PI * PI == x;
    TimesPi(Slot(m, wo) as real, x / PI);
    TimesPi(x / PI, (Slot(m, wo) + 1) as real);
  }

  lemma TimesPi(a: real, b: real)
    ensures (a <= b ==> a * PI <= b * PI) && (a < b ==> a * PI < b * PI)
  {
  }

  /** Slots per harmonic. */
  ghost function Rate(wo: real): real {
    MAX_AMP as real * wo / PI
  }

  lemma SlotIsScaled(m: nat, wo: real)
    ensures Slot(m, wo) == (m as real * Rate(wo)).Floor
  {
    assert MAX_AMP as real * m as real * wo / PI == m as real * (MAX_AMP as real * wo / PI);
  }

  /** The harmonics of a frame stay below half the sampling rate, so each has a slot. */
  lemma SlotInRange(m: nat, l: nat, wo: real)
    requires 0.0 < wo && l as real * wo < PI && m <= l
    ensures 0 <= Slot(m, wo) < MAX_AMP
  {
    assert m as real * wo <= l as real * wo;
    assert 0.0 <= MAX_AMP as real * (m as real * wo) < MAX_AMP as real * PI;
    assert MAX_AMP as real * m as real * wo == MAX_AMP as real * (m as real * wo);
  }

  /** From one slot per harmonic upwards the map is strictly increasing. */
  lemma SlotIncreasing(m: nat, n: nat, wo: real)
    requires wo >= PI / MAX_AMP as real && m < n
    ensures Slot(m, wo) < Slot(n, wo)
  {
    SlotIsScaled(m, wo);
    SlotIsScaled(n, wo);
    RateAtLeastOne(wo);
    hide Slot, Rate;
    FurtherByRate(m, n, Rate(wo));
    FloorApart(m as real * Rate(wo), n as real * Rate(wo));
  }

  lemma FurtherByRate(m: nat, n: nat, x: real)
    requires m < n && x >= 1.0
    ensures n as real * x >= m as real * x + 1.0
  {
    var d := (n - m) as real;
    Times(1.0, x, d);
    assert n as real * x == m as real * x + d * x;
  }

  lemma FloorApart(a: real, b: real)
    requires a + 1.0 <= b
    ensures a.Floor < b.Floor
  {
  }

  /** No harmonic overwrites another. */
  ghost predicate DistinctSlots(l: nat, wo: real) {
    forall m, n :: 1 <= m < n <= l ==> Slot(m, wo) != Slot(n, wo)
  }

  /** Below one slot per harmonic each slot is taken at most one further on. */
  lemma {:induction false} DistinctSlotsAreConsecutive(l: nat, wo: real, m: nat)
    requires 0.0 < wo && Rate(wo) < 1.0 && DistinctSlots(l, wo) && 1 <= m <= l
    ensures Slot(m, wo) == m - 1
    decreases m
  {
    var x := Rate(wo);
    SlotIsScaled(m, wo);
    if m > 1 {
      DistinctSlotsAreConsecutive(l, wo, m - 1);
      SlotIsScaled(m - 1, wo);
      assert m as real * x == (m - 1) as real * x + x;
      assert Slot(m - 1, wo) != Slot(m, wo);
    }
  }

  /** The last harmonic reaches slot `l - 1`. */
  ghost predicate Reaches(l: nat, wo: real) {
    l as real * Rate(wo) >= (l - 1) as real
  }

  lemma DenseIsDistinct(l: nat, wo: real)
    requires 0.0 < wo && 1 <= l && Rate(wo) >= 1.0
    ensures DistinctSlots(l, wo) && Reaches(l, wo)
  {
    assert DistinctSlots(l, wo) by {
      RateAtLeastOne(wo);
      hide Slot, Rate;
      forall m, n | 1 <= m < n <= l ensures Slot(m, wo) != Slot(n, wo) { SlotIncreasing(m, n, wo); }
    }
    hide Rate, DistinctSlots;
    Times(1.0, Rate(wo), l as real);
  }

  lemma RateAtLeastOne(wo: real)
    ensures Rate(wo) >= 1.0 <==> wo >= PI / MAX_AMP as real
  {
  }

  lemma ReachedIsDistinct(l: nat, wo: real)
    requires 0.0 < wo && 1 <= l && Rate(wo) < 1.0 && Reaches(l, wo)
    ensures DistinctSlots(l, wo)
  {
    hide Slot, Rate, Reaches;
    forall m, n | 1 <= m < n <= l ensures Slot(m, wo) != Slot(n, wo) {
      ReachedSlot(l, wo, m);
      ReachedSlot(l, wo, n);
    }
  }

  lemma UnreachedCollides(l: nat, wo: real)
    requires 0.0 < wo && 1 <= l && Rate(wo) < 1.0 && !Reaches(l, wo)
    ensures !DistinctSlots(l, wo)
  {
    SlotIsScaled(l, wo);
    hide Slot, Rate, DistinctSlots;
    if DistinctSlots(l, wo) { DistinctSlotsAreConsecutive(l, wo, l); }
  }

  /** The map is free of collisions exactly when the last harmonic reaches slot `l - 1`. */
  lemma DistinctSlotsExactly(l: nat, wo: real)
    requires 0.0 < wo && 1 <= l
    ensures DistinctSlots(l, wo) <==> MAX_AMP as real * l as real * wo >= (l - 1) as real * PI
  {
    LastSlot(l, wo);
    hide DistinctSlots, Reaches, Rate;
    if Rate(wo) >= 1.0 { DenseIsDistinct(l, wo); }
    else if Reaches(l, wo) { ReachedIsDistinct(l, wo); }
    else { UnreachedCollides(l, wo); }
  }

  /** The longest pitch period of the codec puts the fundamental at `TWO_PI / P_MAX`. With the
      constants of the source that is a little less than one slot per harmonic, so the map is
      not strictly increasing by its rate alone, but no harmonic of a frame overwrites another. */
  lemma LongestPitchIsDistinct(l: nat)
    requires 1 <= l <= MAX_AMP
    ensures TWO_PI / P_MAX as real < PI / MAX_AMP as real
    ensures DistinctSlots(l, TWO_PI / P_MAX as real)
  {
    var wo, x := 0.03926990816875, l as real;
    assert TWO_PI / P_MAX as real == wo;
    assert MAX_AMP as real * x * wo == 3.1415926535 * x;
    assert 3.1415926535 * x >= (x - 1.0) * PI;
    DistinctSlotsExactly(l, wo);
  }

  lemma LastSlot(l: nat, wo: real)
    ensures Reaches(l, wo) <==> MAX_AMP as real * l as real * wo >= (l - 1) as real * PI
  {
    assert MAX_AMP as real * l as real * wo == l as real * Rate(wo) * PI;
    ScaleOrder(l as real * Rate(wo), (l - 1) as real);
  }

  lemma ScaleOrder(a: real, b: real)
    ensures a >= b <==> a * PI >= b * PI
  {
  }

  lemma ReachedSlot(l: nat, wo: real, m: nat)
    requires 0.0 < wo && Rate(wo) < 1.0 && 1 <= m <= l && Reaches(l, wo)
    ensures Slot(m, wo) == m - 1
  {
    SlotIsScaled(m, wo);
    ScaledBelow(m as real, l as real, Rate(wo));
  }

  lemma ScaledBelow(m: real, l: real, x: real)
    requires 0.0 < m <= l && 0.0 < x < 1.0 && l * x >= l - 1.0
    ensures m - 1.0 <= m * x < m
  {
    // m * (1 - x) <= l * (1 - x) <= 1
    var y := 1.0 - x;
    Times(m, l, y);
    Expand(m, x, y);
    Expand(l, x, y);
    Positive(m, y);
    assert l * y <= 1.0;
    assert m * y <= 1.0;
  }

  lemma Expand(a: real, x: real, y: real)
    requires y == 1.0 - x
    ensures a * y == a - a * x
  {
  }
}
