/** Smoothing of the upper harmonics: within each frequency bin every amplitude is replaced
    by the root mean square of the bin.

    The model works on the squared amplitudes, so that the square root does not appear: where
    the source squares `A[m]` before adding and takes a root after dividing, `power[m]` is
    added and divided directly.
 */
module SmoothAmp {
  import opened Arithmetic

  const FS: real := 8000.0
  const NBINS: nat := 7
  const BINS: seq<real> := [2000.0, 2400.0, 2800.0, 3000.0, 3400.0, 3600.0, 4000.0]
  const MAX_BINS: nat := 40

  /** The frequency of harmonic `m`. */
  function Freq(m: nat, wo: real): real {
    m as real * wo * FS / TWO_PI
  }

  predicate InBin(f: real, b: nat) {
    b + 1 < NBINS && BINS[b] < f <= BINS[b + 1]
  }

  /** The bin of a frequency above 2000 Hz and up to 4000 Hz. */
  ghost function BinOf(f: real): nat {
    if f <= 2400.0 then 0 else if f <= 2800.0 then 1 else if f <= 3000.0 then 2
    else if f <= 3400.0 then 3 else if f <= 3600.0 then 4 else 5
  }

  /** Every such frequency lies in exactly one bin. */
  lemma ExactlyOneBin(f: real, b: nat)
    requires BINS[0] < f <= 4000.0
    ensures InBin(f, b) <==> b == BinOf(f)
    ensures InBin(f, b) <==>
      || (b == 0 && 2000.0 < f <= 2400.0) || (b == 1 && 2400.0 < f <= 2800.0) || (b == 2 && 2800.0 < f <= 3000.0)
      || (b == 3 && 3000.0 < f <= 3400.0) || (b == 4 && 3400.0 < f <= 3600.0) || (b == 5 && 3600.0 < f <= 4000.0)
  {
  }

  lemma BelowBins(f: real, b: nat)
    requires f <= BINS[0]
    ensures !InBin(f, b)
  {
  }

  /** Harmonics 1 to `l` stay inside the bins. */
  ghost predicate InRange(wo: real, l: nat) {
    forall m :: 1 <= m <= l ==> Freq(m, wo) <= 4000.0
  }

  /** They do exactly when the last one is at most `TWO_PI / 2`. */
  lemma InRangeExactly(wo: real, l: nat)
    requires 0.0 < wo && 1 <= l
    ensures InRange(wo, l) <==> 2.0 * (l as real * wo) <= TWO_PI
  {
    forall m | 1 <= m <= l ensures Freq(m, wo) <= 4000.0 <==> 2.0 * (m as real * wo) <= TWO_PI {}
    if InRange(wo, l) {
      assert Freq(l, wo) <= 4000.0;
    }
    if 2.0 * (l as real * wo) <= TWO_PI {
      forall m | 1 <= m <= l ensures Freq(m, wo) <= 4000.0 {
        Times(m as real, l as real, wo);
      }
    }
  }

  /** The source bounds the last harmonic by its constant `PI`, which is a little more than
      half of its constant `TWO_PI`: over the reals, a harmonic at `PI` lies above the last bin.
      No single-precision number lies between the two. */
  lemma HarmonicAtPiIsOutOfRange()
    ensures 40.0 * (PI / 40.0) <= PI && !InRange(PI / 40.0, 40)
  {
    assert Freq(40, PI / 40.0) > 4000.0;
  }

  // ----- sums over bins

  /** The sum of the powers of harmonics 1 to `n` in bin `b`. */
  function BinSum(power: seq<real>, wo: real, n: nat, b: nat): real
    requires n < |power|
  {
    if n == 0 then 0.0
    else BinSum(power, wo, n - 1, b) + if InBin(Freq(n, wo), b) then power[n] else 0.0
  }

  function BinCount(wo: real, n: nat, b: nat): nat {
    if n == 0 then 0 else BinCount(wo, n - 1, b) + if InBin(Freq(n, wo), b) then 1 else 0
  }

  function Total(power: seq<real>, n: nat): real
    requires n < |power|
  {
    if n == 0 then 0.0 else Total(power, n - 1) + power[n]
  }

  /** The sum of the harmonics of 2000 Hz and below. */
  function LowSum(power: seq<real>, wo: real, n: nat): real
    requires n < |power|
  {
    if n == 0 then 0.0
    else LowSum(power, wo, n - 1) + if Freq(n, wo) <= BINS[0] then power[n] else 0.0
  }

  lemma {:induction false} TotalByBins(power: seq<real>, wo: real, n: nat)
    requires n < |power| && InRange(wo, n)
    ensures Total(power, n) == LowSum(power, wo, n) + BinSum(power, wo, n, 0) + BinSum(power, wo, n, 1)
      + BinSum(power, wo, n, 2) + BinSum(power, wo, n, 3) + BinSum(power, wo, n, 4) + BinSum(power, wo, n, 5)
  {
    if n > 0 {
      TotalByBins(power, wo, n - 1);
      var f := Freq(n, wo);
      assert f <= 4000.0;
    }
  }

  /** A bin in which every harmonic has the same power. */
  lemma {:induction false} FlatBin(power: seq<real>, wo: real, n: nat, b: nat, v: real)
    requires n < |power| && forall m :: 1 <= m <= n && InBin(Freq(m, wo), b) ==> power[m] == v
    ensures BinSum(power, wo, n, b) == BinCount(wo, n, b) as real * v
  {
    hide Freq, InBin;
    if n > 0 {
      FlatBin(power, wo, n - 1, b, v);
      if InBin(Freq(n, wo), b) {
        assert power[n] == v;
        assert (BinCount(wo, n - 1, b) as real + 1.0) * v == BinCount(wo, n - 1, b) as real * v + v;
      }
    }
  }

  lemma {:induction false} EmptyBin(power: seq<real>, wo: real, n: nat, b: nat)
    requires n < |power| && BinCount(wo, n, b) == 0
    ensures BinSum(power, wo, n, b) == 0.0
  {
    if n > 0 { EmptyBin(power, wo, n - 1, b); }
  }

  lemma {:induction false} CountedInBin(wo: real, n: nat, m: nat, b: nat)
    requires 1 <= m <= n && InBin(Freq(m, wo), b)
    ensures BinCount(wo, n, b) >= 1
    decreases n
  {
    if m < n { CountedInBin(wo, n - 1, m, b); }
  }

  /** The mean power of bin `b`. */
  function Mean(power: seq<real>, wo: real, l: nat, b: nat): real
    requires l < |power|
  {
    if BinCount(wo, l, b) == 0 then 0.0 else BinSum(power, wo, l, b) / BinCount(wo, l, b) as real
  }

  /** What smoothing makes of the powers: every upper harmonic gets the mean of its bin. */
  ghost predicate Smoothed(before: seq<real>, after: seq<real>, wo: real, l: nat)
    requires l < |before| == |after|
  {
    && (forall m :: 0 <= m < |before| && (m == 0 || m > l || Freq(m, wo) <= BINS[0]) ==> after[m] == before[m])
    && (forall m, b :: 1 <= m <= l && InBin(Freq(m, wo), b) ==> after[m] == Mean(before, wo, l, b))
  }

  /** Smoothing conserves the energy of every bin. */
  lemma BinEnergyConserved(before: seq<real>, after: seq<real>, wo: real, l: nat, b: nat)
    requires l < |before| == |after| && Smoothed(before, after, wo, l)
    ensures BinSum(after, wo, l, b) == BinSum(before, wo, l, b)
  {
    hide Freq, InBin, BinSum, BinCount;
    FlatBin(after, wo, l, b, Mean(before, wo, l, b));
    if BinCount(wo, l, b) == 0 {
      EmptyBin(before, wo, l, b);
      EmptyBin(after, wo, l, b);
    } else {
      TimesMean(BinSum(before, wo, l, b), BinCount(wo, l, b) as real);
    }
  }

  lemma TimesMean(s: real, k: real)
    requires k > 0.0
    ensures k * (s / k) == s
  {
  }

  lemma {:induction false} LowUnchanged(before: seq<real>, after: seq<real>, wo: real, n: nat)
    requires n < |before| == |after|
    requires forall m :: 1 <= m <= n && Freq(m, wo) <= BINS[0] ==> after[m] == before[m]
    ensures LowSum(after, wo, n) == LowSum(before, wo, n)
  {
    if n > 0 { LowUnchanged(before, after, wo, n - 1); }
  }

  /** Smoothing conserves the energy of the frame. */
  lemma EnergyConserved(before: seq<real>, after: seq<real>, wo: real, l: nat)
    requires l < |before| == |after| && InRange(wo, l) && Smoothed(before, after, wo, l)
    ensures Total(after, l) == Total(before, l)
  {
    hide Freq, InBin, Smoothed, InRange;
    TotalByBins(before, wo, l);
    TotalByBins(after, wo, l);
    SmoothedLow(before, after, wo, l);
    BinEnergyConserved(before, after, wo, l, 0);
    BinEnergyConserved(before, after, wo, l, 1);
    BinEnergyConserved(before, after, wo, l, 2);
    BinEnergyConserved(before, after, wo, l, 3);
    BinEnergyConserved(before, after, wo, l, 4);
    BinEnergyConserved(before, after, wo, l, 5);
  }

  lemma SmoothedLow(before: seq<real>, after: seq<real>, wo: real, l: nat)
    requires l < |before| == |after| && Smoothed(before, after, wo, l)
    ensures LowSum(after, wo, l) == LowSum(before, wo, l)
  {
    LowUnchanged(before, after, wo, l);
  }

  // ----- the method

  /** The search loop. It leaves the bin of the harmonic before in place when none matches;
      above 4000 Hz it would read past the last bin. */
  method FindBin(f: real, last: nat) returns (b: nat)
    requires BINS[0] < f <= 4000.0
    ensures b == BinOf(f)
  {
    b := last;
    for i := 0 to NBINS
      invariant BinOf(f) < i ==> b == BinOf(f)
    {
      if f > BINS[i] && f <= BINS[i + 1] {
        b := i;
        ExactlyOneBin(f, i);
      } else {
        assert i != BinOf(f);
      }
    }
  }

  /** How one harmonic adds to the sums and counts of the bins. */
  lemma BinStep(power: seq<real>, wo: real, m: nat, b: nat)
    requires 1 <= m < |power| && Freq(m, wo) <= 4000.0
    ensures BinSum(power, wo, m, b) ==
      BinSum(power, wo, m - 1, b) + if Freq(m, wo) > BINS[0] && b == BinOf(Freq(m, wo)) then power[m] else 0.0
    ensures BinCount(wo, m, b) ==
      BinCount(wo, m - 1, b) + if Freq(m, wo) > BINS[0] && b == BinOf(Freq(m, wo)) then 1 else 0
  {
  }

  method Smooth(power: array<real>, l: nat, wo: real)
    requires l < power.Length && InRange(wo, l)
    modifies power
    ensures Smoothed(old(power[..]), power[..], wo, l)
  {
    hide Freq, BinOf, BinSum, BinCount, InBin;
    ghost var before := power[..];
    var av, nav := new real[MAX_BINS], new nat[MAX_BINS];
    for i := 0 to MAX_BINS
      invariant power[..] == before
      invariant forall k :: 0 <= k < i ==> av[k] == 0.0 && nav[k] == 0
    {
      av[i], nav[i] := 0.0, 0;
    }
    var b := 0;
    BinsStart(before, wo);
    for m := 1 to l + 1
      invariant power[..] == before
      invariant forall k :: 0 <= k < MAX_BINS ==>
        av[k] == BinSum(before, wo, m - 1, k) && nav[k] == BinCount(wo, m - 1, k)
    {
      var f := Freq(m, wo);
      forall k | 0 <= k < MAX_BINS
        ensures BinSum(before, wo, m, k) ==
          BinSum(before, wo, m - 1, k) + if f > BINS[0] && k == BinOf(f) then before[m] else 0.0
        ensures BinCount(wo, m, k) == BinCount(wo, m - 1, k) + if f > BINS[0] && k == BinOf(f) then 1 else 0
      {
        BinStep(before, wo, m, k);
      }
      if f > BINS[0] {
        b := FindBin(f, b);
        BinOfSmall(f);
        av[b] := av[b] + power[m];
        nav[b] := nav[b] + 1;
      }
    }
    for m := 1 to l + 1
      invariant forall k :: 0 <= k < MAX_BINS ==> av[k] == BinSum(before, wo, l, k) && nav[k] == BinCount(wo, l, k)
      invariant forall k :: 0 <= k < power.Length ==>
        power[k] == (if 1 <= k < m && Freq(k, wo) > BINS[0] then Mean(before, wo, l, BinOf(Freq(k, wo))) else before[k])
    {
      var f := Freq(m, wo);
      if f > BINS[0] {
        b := FindBin(f, b);
        BinOfSmall(f);
        ExactlyOneBin(f, b);
        CountedInBin(wo, l, m, b);
        power[m] := av[b] / nav[b] as real;
      }
    }
    AllSmoothed(before, power[..], wo, l);
  }

  lemma BinOfSmall(f: real)
    ensures BinOf(f) < MAX_BINS
  {
  }

  lemma BinsStart(power: seq<real>, wo: real)
    requires |power| > 0
    ensures forall k :: BinSum(power, wo, 0, k) == 0.0 && BinCount(wo, 0, k) == 0
  {
  }

  lemma AllSmoothed(before: seq<real>, after: seq<real>, wo: real, l: nat)
    requires l < |before| == |after| && InRange(wo, l)
    requires forall k :: 0 <= k < |before| ==>
      after[k] == (if 1 <= k <= l && Freq(k, wo) > BINS[0] then Mean(before, wo, l, BinOf(Freq(k, wo))) else before[k])
    ensures Smoothed(before, after, wo, l)
  {
    hide Freq, BinOf, Mean;
    forall m, b | 1 <= m <= l && InBin(Freq(m, wo), b) ensures after[m] == Mean(before, wo, l, b) {
      if Freq(m, wo) <= BINS[0] { BelowBins(Freq(m, wo), b); } else { ExactlyOneBin(Freq(m, wo), b); }
    }
  }
}
