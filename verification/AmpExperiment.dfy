/** Quantising the harmonic amplitudes of a frame with five split codebooks, and the delay
    line that replaces every other frame by an interpolation between its neighbours.

    Logarithm and power are not modelled: `toDb`, `fromDb` and `weightOf` are arbitrary
    functions, and the level `enormDb` of a frame is an input.
 */
module AmpExperiment {
  import opened Arithmetic
  import opened HarmonicMap
  import opened VectorQuantiser

  const BANDS: nat := 5

  /** The parameters of one frame; `a[0]` is unused. */
  datatype Model = Model(wo: real, l: nat, a: seq<real>, phi: seq<real>, voiced: int)

  /** Every harmonic of the frame has a slot, as the source asserts. */
  ghost predicate Fits(model: Model) {
    && |model.a| == MAX_AMP + 1 && model.l <= MAX_AMP
    && InSlots(model.l, model.wo)
  }

  ghost predicate InSlots(n: nat, wo: real) {
    forall m :: 1 <= m <= n ==> 0 <= Slot(m, wo) < MAX_AMP
  }

  // ----- the sparse vector

  /** `base` with `f` of the amplitude of harmonics 1 to `n` stored in their slots. */
  function Scatter(a: seq<real>, wo: real, n: nat, f: real -> real, base: seq<real>): (r: seq<real>)
    requires n < |a| && |base| == MAX_AMP && InSlots(n, wo)
    ensures |r| == MAX_AMP
  {
    if n == 0 then base
    else
      assert 0 <= Slot(n, wo) < MAX_AMP;
      Scatter(a, wo, n - 1, f, base)[Slot(n, wo) := f(a[n])]
  }

  ghost predicate Hit(slot: int, n: nat, wo: real) {
    exists m :: 1 <= m <= n && Slot(m, wo) == slot
  }

  /** What a slot holds that a harmonic was stored in does not depend on what was there
      before; the other slots are left alone. */
  lemma {:induction false} ScatterHit(a: seq<real>, wo: real, n: nat, f: real -> real, base: seq<real>,
                                      other: seq<real>, slot: nat)
    requires n < |a| && |base| == MAX_AMP == |other| && InSlots(n, wo) && slot < MAX_AMP
    ensures Hit(slot, n, wo) ==> Scatter(a, wo, n, f, base)[slot] == Scatter(a, wo, n, f, other)[slot]
    ensures !Hit(slot, n, wo) ==> Scatter(a, wo, n, f, base)[slot] == base[slot]
    decreases n
  {
    if n > 0 {
      ScatterHit(a, wo, n - 1, f, base, other, slot);
      if Slot(n, wo) == slot {
        assert Hit(slot, n, wo);
      } else {
        assert Hit(slot, n, wo) ==> Hit(slot, n - 1, wo);
        if Hit(slot, n - 1, wo) {
          var m :| 1 <= m <= n - 1 && Slot(m, wo) == slot;
          assert 1 <= m <= n;
          assert Hit(slot, n, wo);
        }
      }
    }
  }

  /** With distinct slots every harmonic finds its own value again. */
  lemma {:induction false} ScatterOwn(a: seq<real>, wo: real, n: nat, f: real -> real, base: seq<real>, m: nat)
    requires n < |a| && |base| == MAX_AMP && InSlots(n, wo) && DistinctSlots(n, wo) && 1 <= m <= n
    ensures 0 <= Slot(m, wo) < MAX_AMP && Scatter(a, wo, n, f, base)[Slot(m, wo)] == f(a[m])
    decreases n
  {
    if m < n {
      ScatterOwn(a, wo, n - 1, f, base, m);
      assert Slot(m, wo) != Slot(n, wo);
    }
  }

  function ZeroSlots(): (z: seq<real>)
    ensures |z| == MAX_AMP
  {
    seq(MAX_AMP, _ => 0.0)
  }

  // ----- weights in masked slots do not matter

  ghost predicate AgreeUnmasked(target: seq<real>, w: seq<real>, v: seq<real>) {
    |target| == |w| == |v| && forall j :: 0 <= j < |target| && target[j] != 0.0 ==> w[j] == v[j]
  }

  lemma {:induction false} MetricUnmasked(c: Codebook, vec: seq<real>, w: seq<real>, v: seq<real>, j: nat, n: nat)
    requires c.Valid() && j < c.m && n <= c.k == |vec| && AgreeUnmasked(vec, w, v)
    ensures Metric(c, vec, w, j, n) == Metric(c, vec, v, j, n)
    decreases n
  {
    if n > 0 {
      MetricUnmasked(c, vec, w, v, j, n - 1);
      assert Term(c, vec, w, j, n - 1) == Term(c, vec, v, j, n - 1);
      hide Term;
    }
  }

  lemma {:induction false} MaskKept(target: seq<real>, vqs: seq<Codebook>, t: seq<nat>, n: nat, j: nat)
    requires ValidBands(vqs, |target|) && Choice(vqs, t) && n <= |vqs| && j < |target| && target[j] == 0.0
    ensures TargetAfter(target, vqs, t, n)[j] == 0.0
    decreases n
  {
    if n > 0 { MaskKept(target, vqs, t, n - 1, j); }
  }

  lemma BestUnmasked(target: seq<real>, vqs: seq<Codebook>, t: seq<nat>, b: nat, w: seq<real>, v: seq<real>)
    requires ValidBands(vqs, |target|) && Choice(vqs, t) && b < |vqs| && AgreeUnmasked(target, w, v)
    ensures var vec := Band(TargetAfter(target, vqs, t, b), vqs[b]);
      FirstBest(vqs[b], vec, Band(w, vqs[b]), t[b], vqs[b].m) ==> FirstBest(vqs[b], vec, Band(v, vqs[b]), t[b], vqs[b].m)
  {
    hide Metric, TargetAfter;
    var c := vqs[b];
    var after := TargetAfter(target, vqs, t, b);
    forall j | 0 <= j < |target| && after[j] != 0.0 ensures w[j] == v[j] {
      if target[j] == 0.0 { MaskKept(target, vqs, t, b, j); }
    }
    assert AgreeUnmasked(Band(after, c), Band(w, c), Band(v, c)) by {
      forall i | 0 <= i < c.k && Band(after, c)[i] != 0.0 ensures Band(w, c)[i] == Band(v, c)[i] {
        assert after[c.offset + i] != 0.0;
      }
    }
    forall j | 0 <= j < c.m
      ensures Metric(c, Band(after, c), Band(w, c), j, c.k) == Metric(c, Band(after, c), Band(v, c), j, c.k)
    {
      MetricUnmasked(c, Band(after, c), Band(w, c), Band(v, c), j, c.k);
    }
  }

  // ----- the five searches

  /** The five calls of `split_vq`, each on what the one before left. */
  method QuantiseBands(vqs: seq<Codebook>, out: array<real>, target: array<real>,
                       weights: seq<real>) returns (t: seq<nat>)
    requires |vqs| == BANDS && out.Length == target.Length == |weights| && out != target
    requires ValidBands(vqs, target.Length)
    modifies out, target
    ensures ChosenBandByBand(old(target[..]), weights, vqs, t)
    ensures target[..] == TargetAfter(old(target[..]), vqs, t, BANDS)
    ensures out[..] == OutAfter(old(out[..]), old(target[..]), vqs, t, BANDS)
  {
    hide FirstBest, Residual, Filled, Band, TargetAfter, OutAfter, ChosenBandByBand, Unmasked;
    ghost var ts, os := [target[..]], [out[..]];
    var i0, i1, i2, i3, i4, n;
    i0, n := SplitVq(out, vqs[0], weights, target, 0);
    ts, os := ts + [target[..]], os + [out[..]];
    i1, n := SplitVq(out, vqs[1], weights, target, n);
    ts, os := ts + [target[..]], os + [out[..]];
    i2, n := SplitVq(out, vqs[2], weights, target, n);
    ts, os := ts + [target[..]], os + [out[..]];
    i3, n := SplitVq(out, vqs[3], weights, target, n);
    ts, os := ts + [target[..]], os + [out[..]];
    i4, n := SplitVq(out, vqs[4], weights, target, n);
    ts, os := ts + [target[..]], os + [out[..]];
    t := [i0, i1, i2, i3, i4];
    Chained(vqs, t, weights, ts, os);
  }

  /** Stage by stage, the recorded vectors are the ones the specification speaks of. */
  lemma Chained(vqs: seq<Codebook>, t: seq<nat>, weights: seq<real>, ts: seq<seq<real>>, os: seq<seq<real>>)
    requires |vqs| == BANDS == |t| && |ts| == |os| == BANDS + 1
    requires forall n :: 0 <= n <= BANDS ==> |ts[n]| == |os[n]| == |weights|
    requires ValidBands(vqs, |weights|) && Choice(vqs, t)
    requires forall n :: 0 <= n < BANDS ==>
      && FirstBest(vqs[n], Band(ts[n], vqs[n]), Band(weights, vqs[n]), t[n], vqs[n].m)
      && ts[n + 1] == Residual(ts[n], vqs[n], t[n]) && os[n + 1] == Filled(os[n], ts[n], vqs[n], t[n])
    ensures ChosenBandByBand(ts[0], weights, vqs, t)
    ensures ts[BANDS] == TargetAfter(ts[0], vqs, t, BANDS) && os[BANDS] == OutAfter(os[0], ts[0], vqs, t, BANDS)
  {
    hide FirstBest, Residual, Filled, Band;
    for n := 0 to BANDS
      invariant forall k :: 0 <= k <= n ==>
        ts[k] == TargetAfter(ts[0], vqs, t, k) && os[k] == OutAfter(os[0], ts[0], vqs, t, k)
    {
    }
  }

  // ----- what one frame becomes

  /** The opaque conversions, as one value. */
  datatype Units = Units(toDb: real -> real, fromDb: real -> real, weightOf: real -> real)

  /** The level of each harmonic relative to the frame, in its slot; zero elsewhere. */
  function Target(u: Units, model: Model, enormDb: real): seq<real>
    requires Fits(model)
  {
    Scatter(model.a, model.wo, model.l, x => u.toDb(x) - enormDb, ZeroSlots())
  }

  function Weights(u: Units, model: Model): seq<real>
    requires Fits(model)
  {
    Scatter(model.a, model.wo, model.l, u.weightOf, ZeroSlots())
  }

  /** The frame with the amplitude of each harmonic read from its slot of `slots`. */
  function FromSlots(model: Model, f: real -> real, slots: seq<real>): Model
    requires Fits(model) && |slots| == MAX_AMP
  {
    model.(a := seq(MAX_AMP + 1, m requires 0 <= m <= MAX_AMP =>
      if 1 <= m <= model.l then f(slots[Slot(m, model.wo)]) else model.a[m]))
  }

  ghost function Quantised(u: Units, vqs: seq<Codebook>, model: Model, enormDb: real, t: seq<nat>): Model
    requires Fits(model) && ValidBands(vqs, MAX_AMP) && Choice(vqs, t)
  {
    FromSlots(model, x => u.fromDb(x + enormDb), OutAfter(ZeroSlots(), Target(u, model, enormDb), vqs, t, |vqs|))
  }

  /** A masked slot receives nothing. */
  lemma {:induction false} MaskedOutKept(out: seq<real>, target: seq<real>, vqs: seq<Codebook>, t: seq<nat>, n: nat,
                                         slot: nat)
    requires ValidBands(vqs, |target|) && Choice(vqs, t) && n <= |vqs| && |out| == |target| && slot < |target|
    requires target[slot] == 0.0
    ensures OutAfter(out, target, vqs, t, n)[slot] == out[slot]
    decreases n
  {
    if n > 0 {
      MaskedOutKept(out, target, vqs, t, n - 1, slot);
      MaskKept(target, vqs, t, n - 1, slot);
    }
  }

  /** With disjoint bands and distinct slots, the quantised amplitude of a harmonic is the
      chosen entry of the band its slot lies in, brought back to the level of the frame. A
      harmonic exactly at that level is masked from the search and stays there. */
  lemma HarmonicQuantised(u: Units, vqs: seq<Codebook>, model: Model, enormDb: real, t: seq<nat>, m: nat, b: nat)
    requires Fits(model) && DistinctSlots(model.l, model.wo) && 1 <= m <= model.l
    requires ValidBands(vqs, MAX_AMP) && Choice(vqs, t) && Disjoint(vqs) && b < |vqs|
    requires 0 <= Slot(m, model.wo) < MAX_AMP && vqs[b].Covers(Slot(m, model.wo))
    ensures Quantised(u, vqs, model, enormDb, t).a[m] ==
      if u.toDb(model.a[m]) == enormDb then u.fromDb(enormDb)
      else u.fromDb(vqs[b].Entry(t[b], Slot(m, model.wo) - vqs[b].offset) + enormDb)
  {
    hide Slot, Scatter, OutAfter, TargetAfter, Disjoint;
    ScatterOwn(model.a, model.wo, model.l, x => u.toDb(x) - enormDb, ZeroSlots(), m);
    if u.toDb(model.a[m]) == enormDb {
      MaskedOutKept(ZeroSlots(), Target(u, model, enormDb), vqs, t, |vqs|, Slot(m, model.wo));
      assert 0.0 + enormDb == enormDb;
    } else {
      SlotQuantised(ZeroSlots(), Target(u, model, enormDb), vqs, t, |vqs|, b, Slot(m, model.wo));
    }
  }

  /** A harmonic whose slot lies in no band comes back at the level of the frame. */
  lemma UncoveredQuantised(u: Units, vqs: seq<Codebook>, model: Model, enormDb: real, t: seq<nat>, m: nat)
    requires Fits(model) && 1 <= m <= model.l && ValidBands(vqs, MAX_AMP) && Choice(vqs, t)
    requires 0 <= Slot(m, model.wo) < MAX_AMP && forall b :: 0 <= b < |vqs| ==> !vqs[b].Covers(Slot(m, model.wo))
    ensures Quantised(u, vqs, model, enormDb, t).a[m] == u.fromDb(enormDb)
  {
    hide Slot, Scatter, OutAfter, TargetAfter;
    OtherBandsUntouched(ZeroSlots(), Target(u, model, enormDb), vqs, t, |vqs|, Slot(m, model.wo));
    assert 0.0 + enormDb == enormDb;
  }

  /** Quantising changes the amplitudes of the harmonics and nothing else. */
  lemma OnlyAmplitudesQuantised(u: Units, vqs: seq<Codebook>, model: Model, enormDb: real, t: seq<nat>, m: nat)
    requires Fits(model) && ValidBands(vqs, MAX_AMP) && Choice(vqs, t) && m <= MAX_AMP
    ensures var r := Quantised(u, vqs, model, enormDb, t);
      r.(a := model.a) == model && (m == 0 || m > model.l ==> r.a[m] == model.a[m])
  {
    hide Slot, Scatter, OutAfter;
  }

  // ----- the error of a frame, harmonic by harmonic

  /** A harmonic's slot holds its level relative to the frame and its weight; a slot no harmonic
      falls in holds zero. */
  lemma HarmonicTarget(u: Units, model: Model, enormDb: real)
    requires Fits(model)
    ensures DistinctSlots(model.l, model.wo) ==>
      forall m :: 1 <= m <= model.l ==>
        && Target(u, model, enormDb)[Slot(m, model.wo)] == u.toDb(model.a[m]) - enormDb
        && Weights(u, model)[Slot(m, model.wo)] == u.weightOf(model.a[m])
    ensures forall j :: 0 <= j < MAX_AMP && !Hit(j, model.l, model.wo) ==> Target(u, model, enormDb)[j] == 0.0
  {
    hide Slot, Scatter, DistinctSlots;
    var f := x => u.toDb(x) - enormDb;
    if DistinctSlots(model.l, model.wo) {
      forall m | 1 <= m <= model.l
        ensures Target(u, model, enormDb)[Slot(m, model.wo)] == u.toDb(model.a[m]) - enormDb
        ensures Weights(u, model)[Slot(m, model.wo)] == u.weightOf(model.a[m])
      {
        ScatterOwn(model.a, model.wo, model.l, f, ZeroSlots(), m);
        ScatterOwn(model.a, model.wo, model.l, u.weightOf, ZeroSlots(), m);
      }
    }
    forall j | 0 <= j < MAX_AMP && !Hit(j, model.l, model.wo) ensures Target(u, model, enormDb)[j] == 0.0 {
      ScatterHit(model.a, model.wo, model.l, f, ZeroSlots(), ZeroSlots(), j);
    }
  }

  /** The weighted squared error the choice `t` makes in harmonic `m`: between the entry of the
      band among the first `n` that its slot lies in and its level relative to the frame. A
      harmonic in no band, or exactly at the level of the frame, has no part in the search. */
  ghost function HarmonicError(u: Units, vqs: seq<Codebook>, model: Model, enormDb: real, t: seq<nat>, n: nat,
                               m: nat): real
    requires Fits(model) && 1 <= m <= model.l && ValidBands(vqs, MAX_AMP) && Choice(vqs, t) && n <= |vqs|
  {
    var slot, level := Slot(m, model.wo), u.toDb(model.a[m]) - enormDb;
    if n == 0 || level == 0.0 then 0.0
    else if vqs[n - 1].Covers(slot) then
      u.weightOf(model.a[m]) * Sq(vqs[n - 1].Entry(t[n - 1], slot - vqs[n - 1].offset) - level)
    else HarmonicError(u, vqs, model, enormDb, t, n - 1, m)
  }

  /** The error over harmonics 1 to `l`. */
  ghost function FrameError(u: Units, vqs: seq<Codebook>, model: Model, enormDb: real, t: seq<nat>, l: nat): real
    requires Fits(model) && l <= model.l && ValidBands(vqs, MAX_AMP) && Choice(vqs, t)
  {
    if l == 0 then 0.0
    else FrameError(u, vqs, model, enormDb, t, l - 1) + HarmonicError(u, vqs, model, enormDb, t, |vqs|, l)
  }

  lemma {:induction false} SlotErrorIsHarmonicError(u: Units, vqs: seq<Codebook>, model: Model, enormDb: real,
                                                    t: seq<nat>, n: nat, m: nat, target: seq<real>,
                                                    weights: seq<real>)
    requires Fits(model) && 1 <= m <= model.l && ValidBands(vqs, MAX_AMP) && Choice(vqs, t) && n <= |vqs|
    requires |target| == |weights| == MAX_AMP && 0 <= Slot(m, model.wo) < MAX_AMP
    requires target[Slot(m, model.wo)] == u.toDb(model.a[m]) - enormDb
    requires weights[Slot(m, model.wo)] == u.weightOf(model.a[m])
    ensures SlotError(target, weights, vqs, t, n, Slot(m, model.wo))
         == HarmonicError(u, vqs, model, enormDb, t, n, m)
    decreases n
  {
    hide Slot, Codebook.Entry;
    if n > 0 {
      SlotErrorIsHarmonicError(u, vqs, model, enormDb, t, n - 1, m, target, weights);
      var slot := Slot(m, model.wo);
      if vqs[n - 1].Covers(slot) {
        Square(weights[slot], vqs[n - 1].Entry(t[n - 1], slot - vqs[n - 1].offset) - target[slot]);
      }
    }
  }

  /** Harmonic by harmonic, the error of the frame is the error in the slots. */
  lemma {:induction false} FrameErrorIsTotal(u: Units, vqs: seq<Codebook>, model: Model, enormDb: real, t: seq<nat>,
                                             l: nat)
    requires Fits(model) && l <= model.l && DistinctSlots(model.l, model.wo)
    requires ValidBands(vqs, MAX_AMP) && Choice(vqs, t)
    ensures var target := Scatter(model.a, model.wo, l, x => u.toDb(x) - enormDb, ZeroSlots());
      var weights := Scatter(model.a, model.wo, l, u.weightOf, ZeroSlots());
      TotalError(target, weights, vqs, t, |vqs|, MAX_AMP) == FrameError(u, vqs, model, enormDb, t, l)
  {
    hide Slot, TotalError, SlotError, HarmonicError, ValidBands, Choice;
    var f := x => u.toDb(x) - enormDb;
    if l == 0 {
      NothingInSlots(vqs, t, MAX_AMP);
    } else {
      FrameErrorIsTotal(u, vqs, model, enormDb, t, l - 1);
      var target := Scatter(model.a, model.wo, l - 1, f, ZeroSlots());
      var weights := Scatter(model.a, model.wo, l - 1, u.weightOf, ZeroSlots());
      var slot := Slot(l, model.wo);
      ScatterHit(model.a, model.wo, l - 1, f, ZeroSlots(), ZeroSlots(), slot);
      TotalErrorUpdated(target, weights, vqs, t, slot, f(model.a[l]), u.weightOf(model.a[l]), MAX_AMP);
      SlotErrorIsHarmonicError(u, vqs, model, enormDb, t, |vqs|, l, target[slot := f(model.a[l])],
                               weights[slot := u.weightOf(model.a[l])]);
    }
  }

  lemma NothingInSlots(vqs: seq<Codebook>, t: seq<nat>, size: nat)
    requires ValidBands(vqs, MAX_AMP) && Choice(vqs, t) && size <= MAX_AMP
    ensures TotalError(ZeroSlots(), ZeroSlots(), vqs, t, |vqs|, size) == 0.0
  {
  }

  /** Some codeword of every band has an error below the limit the searches start from. */
  ghost predicate AllFindable(u: Units, vqs: seq<Codebook>, model: Model, enormDb: real)
    requires Fits(model) && ValidBands(vqs, MAX_AMP)
  {
    forall b :: 0 <= b < |vqs| ==>
      exists j: nat :: j < vqs[b].m && BandError(u, vqs[b], model, enormDb, j) < METRIC_LIMIT
  }

  /** The error of one band's codeword alone. */
  ghost function BandError(u: Units, c: Codebook, model: Model, enormDb: real, j: nat): real
    requires Fits(model) && c.Valid() && c.offset + c.k <= MAX_AMP && j < c.m
  {
    FrameError(u, [c], model, enormDb, [j], model.l)
  }

  lemma FindableInBand(u: Units, vqs: seq<Codebook>, model: Model, enormDb: real, b: nat)
    requires Fits(model) && DistinctSlots(model.l, model.wo) && ValidBands(vqs, MAX_AMP) && b < |vqs|
    requires AllFindable(u, vqs, model, enormDb)
    ensures Findable(Target(u, model, enormDb), Weights(u, model), vqs[b])
  {
    hide Scatter, FrameError, Slot, DistinctSlots;
    var c, target, weights := vqs[b], Target(u, model, enormDb), Weights(u, model);
    var j: nat :| j < c.m && BandError(u, c, model, enormDb, j) < METRIC_LIMIT;
    FrameErrorIsTotal(u, [c], model, enormDb, [j], model.l);
    ErrorIsMetricSum(target, weights, [c], [j], 1);
    assert MetricSum(target, weights, [c], [j], 1) == Metric(c, Band(target, c), Band(weights, c), j, c.k);
  }

  /** With disjoint bands and distinct slots, no choice of codewords has a smaller error over the
      harmonics of the frame than `t`. */
  ghost predicate BestForFrame(u: Units, vqs: seq<Codebook>, model: Model, enormDb: real, t: seq<nat>)
    requires Fits(model) && ValidBands(vqs, MAX_AMP)
  {
    && Choice(vqs, t)
    && (Disjoint(vqs) && DistinctSlots(model.l, model.wo) && AllFindable(u, vqs, model, enormDb) ==>
      forall v :: Choice(vqs, v) ==>
        FrameError(u, vqs, model, enormDb, t, model.l) <= FrameError(u, vqs, model, enormDb, v, model.l))
  }

  lemma SearchIsBestForFrame(u: Units, vqs: seq<Codebook>, model: Model, enormDb: real, t: seq<nat>)
    requires Fits(model) && ValidBands(vqs, MAX_AMP)
    requires ChosenBandByBand(Target(u, model, enormDb), Weights(u, model), vqs, t)
    ensures BestForFrame(u, vqs, model, enormDb, t)
  {
    hide Scatter, FrameError, Slot, DistinctSlots, Disjoint, ChosenBandByBand, AllFindable, Findable, TotalError;
    var target, weights := Target(u, model, enormDb), Weights(u, model);
    ChosenIsChoice(target, weights, vqs, t);
    if Disjoint(vqs) && DistinctSlots(model.l, model.wo) && AllFindable(u, vqs, model, enormDb) {
      forall b | 0 <= b < |vqs| ensures Findable(target, weights, vqs[b]) {
        FindableInBand(u, vqs, model, enormDb, b);
      }
      FrameErrorIsTotal(u, vqs, model, enormDb, t, model.l);
      forall v | Choice(vqs, v)
        ensures FrameError(u, vqs, model, enormDb, t, model.l) <= FrameError(u, vqs, model, enormDb, v, model.l)
      {
        FrameErrorIsTotal(u, vqs, model, enormDb, v, model.l);
        BandSearchesAreOptimal(target, weights, vqs, t, v);
      }
    }
  }

  // ----- interpolation

  /** The level interpolated between two frames for a slot of the first `n` bands; the last
      band that covers the slot decides. */
  ghost function InterpLevel(vqs: seq<Codebook>, t0: seq<nat>, t2: seq<nat>, mag0: real, mag2: real, n: nat,
                             slot: nat): real
    requires ValidBands(vqs, MAX_AMP) && Choice(vqs, t0) && Choice(vqs, t2) && n <= |vqs|
  {
    if n == 0 then 0.0
    else if vqs[n - 1].Covers(slot) then
      0.5 * (mag0 + vqs[n - 1].Entry(t0[n - 1], slot - vqs[n - 1].offset))
      + 0.5 * (mag2 + vqs[n - 1].Entry(t2[n - 1], slot - vqs[n - 1].offset))
    else InterpLevel(vqs, t0, t2, mag0, mag2, n - 1, slot)
  }

  ghost function InterpSlots(vqs: seq<Codebook>, target: seq<real>, t0: seq<nat>, t2: seq<nat>, mag0: real,
                             mag2: real, n: nat)
    : (r: seq<real>)
    requires ValidBands(vqs, MAX_AMP) && Choice(vqs, t0) && Choice(vqs, t2) && |target| == MAX_AMP && n <= |vqs|
    ensures |r| == MAX_AMP
  {
    seq(MAX_AMP, j requires 0 <= j < MAX_AMP =>
      if target[j] != 0.0 then InterpLevel(vqs, t0, t2, mag0, mag2, n, j) else 0.0)
  }

  /** Frame `model` with its amplitudes interpolated between the frames on either side. */
  ghost function Interpolated(u: Units, vqs: seq<Codebook>, model: Model, t0: seq<nat>, t2: seq<nat>, mag0: real,
                              mag2: real): Model
    requires Fits(model) && ValidBands(vqs, MAX_AMP) && Choice(vqs, t0) && Choice(vqs, t2)
  {
    var target := Scatter(model.a, model.wo, model.l, u.toDb, ZeroSlots());
    FromSlots(model, u.fromDb, InterpSlots(vqs, target, t0, t2, mag0, mag2, |vqs|))
  }

  /** With disjoint bands the level of a slot is that of the one band that covers it. */
  lemma {:induction false} LevelOfBand(vqs: seq<Codebook>, t0: seq<nat>, t2: seq<nat>, mag0: real, mag2: real, n: nat,
                                       b: nat, slot: nat)
    requires ValidBands(vqs, MAX_AMP) && Choice(vqs, t0) && Choice(vqs, t2) && Disjoint(vqs)
    requires b < n <= |vqs| && vqs[b].Covers(slot)
    ensures InterpLevel(vqs, t0, t2, mag0, mag2, n, slot) ==
      0.5 * (mag0 + vqs[b].Entry(t0[b], slot - vqs[b].offset)) + 0.5 * (mag2 + vqs[b].Entry(t2[b], slot - vqs[b].offset))
    decreases n
  {
    hide Codebook.Entry;
    if b < n - 1 {
      assert !vqs[n - 1].Covers(slot);
      LevelOfBand(vqs, t0, t2, mag0, mag2, n - 1, b, slot);
    }
  }

  /** With disjoint bands and distinct slots, the interpolated amplitude of a harmonic is the
      mean of what its band holds in the frames on either side. A harmonic whose own level is
      exactly 0 dB is masked and comes back at 0 dB. */
  lemma HarmonicInterpolated(u: Units, vqs: seq<Codebook>, model: Model, t0: seq<nat>, t2: seq<nat>,
                             mag0: real, mag2: real, m: nat, b: nat)
    requires Fits(model) && DistinctSlots(model.l, model.wo) && 1 <= m <= model.l
    requires ValidBands(vqs, MAX_AMP) && Choice(vqs, t0) && Choice(vqs, t2) && Disjoint(vqs) && b < |vqs|
    requires 0 <= Slot(m, model.wo) < MAX_AMP && vqs[b].Covers(Slot(m, model.wo))
    ensures var i := Slot(m, model.wo) - vqs[b].offset;
      Interpolated(u, vqs, model, t0, t2, mag0, mag2).a[m] ==
        if u.toDb(model.a[m]) == 0.0 then u.fromDb(0.0)
        else u.fromDb(((mag0 + vqs[b].Entry(t0[b], i)) + (mag2 + vqs[b].Entry(t2[b], i))) / 2.0)
  {
    hide Slot, Scatter, InterpLevel, Codebook.Entry, Disjoint;
    ScatterOwn(model.a, model.wo, model.l, u.toDb, ZeroSlots(), m);
    LevelOfBand(vqs, t0, t2, mag0, mag2, |vqs|, b, Slot(m, model.wo));
  }

  lemma {:induction false} LevelOfNone(vqs: seq<Codebook>, t0: seq<nat>, t2: seq<nat>, mag0: real, mag2: real, n: nat,
                                       slot: nat)
    requires ValidBands(vqs, MAX_AMP) && Choice(vqs, t0) && Choice(vqs, t2) && n <= |vqs|
    requires forall b :: 0 <= b < |vqs| ==> !vqs[b].Covers(slot)
    ensures InterpLevel(vqs, t0, t2, mag0, mag2, n, slot) == 0.0
  {
    if n > 0 { LevelOfNone(vqs, t0, t2, mag0, mag2, n - 1, slot); }
  }

  /** A harmonic whose slot lies in no band is interpolated to 0 dB, and nothing but the
      amplitudes of the harmonics changes. */
  lemma UncoveredInterpolated(u: Units, vqs: seq<Codebook>, model: Model, t0: seq<nat>, t2: seq<nat>, mag0: real,
                              mag2: real, m: nat)
    requires Fits(model) && ValidBands(vqs, MAX_AMP) && Choice(vqs, t0) && Choice(vqs, t2) && m <= MAX_AMP
    ensures var r := Interpolated(u, vqs, model, t0, t2, mag0, mag2);
      && r.(a := model.a) == model
      && (m == 0 || m > model.l ==> r.a[m] == model.a[m])
      && (1 <= m <= model.l && (forall b :: 0 <= b < |vqs| ==> !vqs[b].Covers(Slot(m, model.wo))) ==>
            r.a[m] == u.fromDb(0.0))
  {
    hide Slot, Scatter, InterpLevel;
    if 1 <= m <= model.l && forall b :: 0 <= b < |vqs| ==> !vqs[b].Covers(Slot(m, model.wo)) {
      LevelOfNone(vqs, t0, t2, mag0, mag2, |vqs|, Slot(m, model.wo));
    }
  }

  /** Only slots a harmonic was stored in are read back. */
  lemma OnlyHitSlotsRead(model: Model, f: real -> real, s: seq<real>, r: seq<real>)
    requires Fits(model) && |s| == |r| == MAX_AMP
    requires forall j :: 0 <= j < MAX_AMP && Hit(j, model.l, model.wo) ==> s[j] == r[j]
    ensures FromSlots(model, f, s) == FromSlots(model, f, r)
  {
  }

  method InterpSplitVq(out: array<real>, c: Codebook, target: seq<real>, i0: nat, i2: nat, mag0: real, mag2: real)
    requires c.Valid() && i0 < c.m && i2 < c.m && c.offset + c.k <= out.Length == |target|
    modifies out
    ensures forall j :: 0 <= j < out.Length ==>
      out[j] == (if c.Covers(j) && target[j] != 0.0
                 then 0.5 * (mag0 + c.Entry(i0, j - c.offset)) + 0.5 * (mag2 + c.Entry(i2, j - c.offset))
                 else old(out[j]))
  {
    for i := 0 to c.k
      invariant forall j :: 0 <= j < out.Length ==>
        out[j] == (if c.Covers(j) && j < c.offset + i && target[j] != 0.0
                   then 0.5 * (mag0 + c.Entry(i0, j - c.offset)) + 0.5 * (mag2 + c.Entry(i2, j - c.offset))
                   else old(out[j]))
    {
      var j := c.offset + i;
      if target[j] != 0.0 {
        var ampDb := 0.5 * (mag0 + c.Entry(i0, i));
        ampDb := ampDb + 0.5 * (mag2 + c.Entry(i2, i));
        out[j] := ampDb;
      }
    }
  }

  /** One more band, on top of the slots the bands before it filled. */
  method InterpBand(vqs: seq<Codebook>, out: array<real>, target: seq<real>, t0: seq<nat>, t2: seq<nat>,
                    mag0: real, mag2: real, n: nat)
    requires ValidBands(vqs, MAX_AMP) && Choice(vqs, t0) && Choice(vqs, t2) && n < |vqs|
    requires out.Length == |target| == MAX_AMP && out[..] == InterpSlots(vqs, target, t0, t2, mag0, mag2, n)
    modifies out
    ensures out[..] == InterpSlots(vqs, target, t0, t2, mag0, mag2, n + 1)
  {
    InterpSplitVq(out, vqs[n], target, t0[n], t2[n], mag0, mag2);
    hide Codebook.Entry;
    forall j | 0 <= j < MAX_AMP ensures out[j] == InterpSlots(vqs, target, t0, t2, mag0, mag2, n + 1)[j] {
      assert old(out[..])[j] == InterpSlots(vqs, target, t0, t2, mag0, mag2, n)[j];
    }
  }

  // ----- the experiment's state

  /** The three-frame memories; place 2 is the newest frame. `indexes[i]` holds the five
      codeword indexes of the frame in place `i`. */
  datatype Memory = Memory(model: seq<Model>, indexes: seq<seq<nat>>, mag: seq<real>)

  ghost predicate ValidMemory(mem: Memory, vqs: seq<Codebook>) {
    && |mem.model| == |mem.indexes| == |mem.mag| == 3
    && forall i :: 0 <= i < 3 ==> Fits(mem.model[i]) && Choice(vqs, mem.indexes[i])
  }

  /** A frame as it reaches the delay line: quantised, with its indexes and its level. */
  datatype Frame = Frame(model: Model, t: seq<nat>, mag: real)

  ghost predicate ValidFrame(f: Frame, vqs: seq<Codebook>) {
    Fits(f.model) && Choice(vqs, f.t)
  }

  function Push(mem: Memory, f: Frame): Memory
    requires |mem.model| == |mem.indexes| == |mem.mag| == 3
  {
    Memory([mem.model[1], f.model, f.model], [mem.indexes[1], f.t, f.t], [mem.mag[1], f.mag, f.mag])
  }

  /** What frame `f` makes the delay line put out, `even` being the parity of the frame count. */
  ghost function Output(u: Units, vqs: seq<Codebook>, mem: Memory, f: Frame, on: bool, even: bool): Model
    requires ValidBands(vqs, MAX_AMP) && ValidMemory(mem, vqs) && ValidFrame(f, vqs)
  {
    if on && even then Interpolated(u, vqs, mem.model[1], mem.indexes[0], f.t, mem.mag[0], f.mag)
    else mem.model[1]
  }

  /** `f` is frame `input` quantised by the band searches. */
  ghost predicate QuantisedAs(u: Units, vqs: seq<Codebook>, input: Model, enormDb: real, f: Frame)
    requires Fits(input) && ValidBands(vqs, MAX_AMP)
  {
    && ValidFrame(f, vqs) && f.mag == enormDb
    && ChosenBandByBand(Target(u, input, enormDb), Weights(u, input), vqs, f.t)
    && BestForFrame(u, vqs, input, enormDb, f.t)
    && f.model == Quantised(u, vqs, input, enormDb, f.t)
  }

  /** `x[i] = 0` for every slot. */
  method Zero(slots: array<real>)
    requires slots.Length == MAX_AMP
    modifies slots
    ensures slots[..] == ZeroSlots()
  {
    for m := 0 to MAX_AMP
      invariant forall j :: 0 <= j < m ==> slots[j] == 0.0
    {
      slots[m] := 0.0;
    }
  }

  /** Stores `f` of every harmonic's amplitude in its slot. */
  method Spread(slots: array<real>, input: Model, f: real -> real)
    requires slots.Length == MAX_AMP && Fits(input)
    modifies slots
    ensures slots[..] == Scatter(input.a, input.wo, input.l, f, old(slots[..]))
  {
    hide Slot;
    for m := 1 to input.l + 1
      invariant slots[..] == Scatter(input.a, input.wo, m - 1, f, old(slots[..]))
    {
      assert 1 <= m <= input.l;
      slots[Slot(m, input.wo)] := f(input.a[m]);
    }
  }

  /** A 100 Hz pitch and flat amplitudes, as the memories start out. */
  function InitialModel(phi: seq<real>, voiced: int): Model {
    var wo := TWO_PI * 100.0 / 8000.0;
    var l := (PI / wo).Floor;
    Model(wo, if l >= 0 then l else 0, seq(MAX_AMP + 1, m => 10.0), phi, voiced)
  }

  /** A pitch of 100 Hz at 8000 samples a second, 40 harmonics, every amplitude 10. */
  ghost predicate StartsAs(model: Model, phi: seq<real>, voiced: int) {
    && 8000.0 * model.wo == 100.0 * TWO_PI && model.l == 40 && model.phi == phi && model.voiced == voiced
    && |model.a| == MAX_AMP + 1 && forall m :: 0 <= m <= MAX_AMP ==> model.a[m] == 10.0
  }

  function InitialMemory(phi: seq<real>, voiced: int): Memory {
    var first := InitialModel(phi, voiced);
    var zeros := [0, 0, 0, 0, 0];
    Memory([first, first, first], [zeros, zeros, zeros], [1.0, 1.0, 1.0])
  }

  lemma InitialModelFits(phi: seq<real>, voiced: int)
    ensures Fits(InitialModel(phi, voiced)) && StartsAs(InitialModel(phi, voiced), phi, voiced)
  {
  }

  /** The amplitudes remembered from the last frame, harmonics 1 to `l` replaced by its own. */
  function Remembered(aPrev: seq<real>, model: Model): (r: seq<real>)
    requires Fits(model) && |aPrev| == MAX_AMP + 1
    ensures |r| == MAX_AMP + 1
  {
    seq(MAX_AMP + 1, m requires 0 <= m <= MAX_AMP => if 1 <= m <= model.l then model.a[m] else aPrev[m])
  }

  class Aexp {
    const vqs: seq<Codebook>
    const u: Units
    var frames: nat
    var aPrev: seq<real>  // with a place for harmonic MAX_AMP, which the array of the source lacks
    var model: seq<Model>
    var indexes: seq<seq<nat>>
    var mag: seq<real>

    ghost predicate Valid()
      reads this
    {
      |vqs| == BANDS && ValidBands(vqs, MAX_AMP) && ValidMemory(View(), vqs) && |aPrev| == MAX_AMP + 1
    }

    ghost function View(): Memory
      reads this
    {
      Memory(model, indexes, mag)
    }

    constructor (u: Units, vqs: seq<Codebook>, phi: seq<real>, voiced: int)
      requires |vqs| == BANDS && ValidBands(vqs, MAX_AMP)
      ensures Valid() && this.u == u && this.vqs == vqs && frames == 0
      ensures View() == InitialMemory(phi, voiced)
      ensures forall i :: 0 <= i < 3 ==>
        indexes[i] == [0, 0, 0, 0, 0] && mag[i] == 1.0 && StartsAs(model[i], phi, voiced)
      ensures forall m :: 0 <= m < MAX_AMP ==> aPrev[m] == 1.0
    {
      InitialModelFits(phi, voiced);
      this.u, this.vqs, frames := u, vqs, 0;
      aPrev := seq(MAX_AMP + 1, _ => 1.0);
      var first := InitialModel(phi, voiced);
      model, indexes, mag := [first, first, first], [[0, 0, 0, 0, 0], [0, 0, 0, 0, 0], [0, 0, 0, 0, 0]], [1.0, 1.0, 1.0];
    }

    /** Quantises the amplitudes of a frame and records its level and indexes in place 2. */
    method SparseVqAmp(input: Model, enormDb: real) returns (result: Model)
      requires Valid() && Fits(input)
      modifies `mag, `indexes
      ensures Valid() && mag == old(mag)[2 := enormDb] && indexes == old(indexes)[2 := indexes[2]]
      ensures ChosenBandByBand(Target(u, input, enormDb), Weights(u, input), vqs, indexes[2])
      ensures BestForFrame(u, vqs, input, enormDb, indexes[2])
      ensures result == Quantised(u, vqs, input, enormDb, indexes[2])
    {
      hide Slot, Scatter, OutAfter, ChosenBandByBand, BestForFrame;
      mag := mag[2 := enormDb];
      var target, out, weights := new real[MAX_AMP], new real[MAX_AMP], new real[MAX_AMP];
      Zero(target);
      ghost var garbage := weights[..];
      Spread(target, input, x => u.toDb(x) - enormDb);
      Spread(weights, input, u.weightOf);
      Zero(out);
      assert target[..] == Target(u, input, enormDb);
      var t := QuantiseBands(vqs, out, target, weights[..]);
      ChosenIsChoice(Target(u, input, enormDb), weights[..], vqs, t);
      indexes := indexes[2 := t];
      StaleWeightsDoNotMatter(u, vqs, input, enormDb, garbage, t);
      SearchIsBestForFrame(u, vqs, input, enormDb, t);
      result := ReadBack(input, x => u.fromDb(x + enormDb), out[..]);
    }

    /** Puts out the previous frame, interpolated on even frames if `on`, and shifts the
        memories. */
    method VqInterp(input: Model, on: bool) returns (result: Model)
      requires Valid() && Fits(input)
      modifies `model, `mag, `indexes
      ensures Valid()
      ensures View() == Push(old(View()), Frame(input, old(indexes)[2], old(mag)[2]))
      ensures result == Output(u, vqs, old(View()), Frame(input, old(indexes)[2], old(mag)[2]), on, frames % 2 == 0)
    {
      hide InterpSlots, Slot, FromSlots;
      model := model[2 := input];
      result := model[1];
      if on && frames % 2 == 0 {
        result := Interpolate(result);
      }
      ghost var m1, t1, g1 := old(model)[1], old(indexes)[1], old(mag)[1];
      ghost var t2, g2 := old(indexes)[2], old(mag)[2];
      for i := 0 to 2
        invariant |model| == |indexes| == |mag| == 3
        invariant model[1] == (if i == 2 then input else m1) && model[2] == input && (i > 0 ==> model[0] == m1)
        invariant indexes[1] == (if i == 2 then t2 else t1) && indexes[2] == t2 && (i > 0 ==> indexes[0] == t1)
        invariant mag[1] == (if i == 2 then g2 else g1) && mag[2] == g2 && (i > 0 ==> mag[0] == g1)
      {
        model := model[i := model[i + 1]];
        indexes := indexes[i := indexes[i + 1]];
        mag := mag[i := mag[i + 1]];
      }
      assert model == [m1, input, input] && indexes == [t1, t2, t2] && mag == [g1, g2, g2];
    }

    /** The interpolation itself. The sparse vector is not cleared first: slots no harmonic
        falls in hold whatever they held, and never reach the result. */
    method Interpolate(input: Model) returns (result: Model)
      requires Valid() && Fits(input)
      ensures result == Interpolated(u, vqs, input, indexes[0], indexes[2], mag[0], mag[2])
    {
      hide Slot, Scatter, InterpSlots, FromSlots;
      var target, out := new real[MAX_AMP], new real[MAX_AMP];
      ghost var garbage := target[..];
      Spread(target, input, u.toDb);
      Zero(out);
      var t := target[..];
      NoBandsYet(vqs, t, indexes[0], indexes[2], mag[0], mag[2], out[..]);
      InterpBand(vqs, out, t, indexes[0], indexes[2], mag[0], mag[2], 0);
      InterpBand(vqs, out, t, indexes[0], indexes[2], mag[0], mag[2], 1);
      InterpBand(vqs, out, t, indexes[0], indexes[2], mag[0], mag[2], 2);
      InterpBand(vqs, out, t, indexes[0], indexes[2], mag[0], mag[2], 3);
      InterpBand(vqs, out, t, indexes[0], indexes[2], mag[0], mag[2], 4);
      StaleSlotsDoNotMatter(u, vqs, input, indexes[0], indexes[2], mag[0], mag[2], garbage);
      result := ReadBack(input, u.fromDb, out[..]);
    }

    /** `A_prev[m] = A[m]` for the harmonics of the frame put out. */
    method Remember(model: Model)
      requires Valid() && Fits(model)
      modifies `aPrev
      ensures Valid() && aPrev == Remembered(old(aPrev), model)
    {
      for m := 1 to model.l + 1
        invariant |aPrev| == MAX_AMP + 1
        invariant forall k :: 0 <= k <= MAX_AMP ==> aPrev[k] == (if 1 <= k < m then model.a[k] else old(aPrev)[k])
      {
        aPrev := aPrev[m := model.a[m]];
      }
    }

    /** One frame of the interpolated quantiser: quantise, delay, remember, count. */
    method Process(input: Model, enormDb: real, on: bool) returns (result: Model, ghost f: Frame)
      requires Valid() && Fits(input)
      modifies this
      ensures Valid() && frames == old(frames) + 1
      ensures QuantisedAs(u, vqs, input, enormDb, f) && View() == Push(old(View()), f)
      ensures result == Output(u, vqs, old(View()), f, on, old(frames) % 2 == 0)
      ensures Fits(result) && aPrev == Remembered(old(aPrev), result)
      ensures forall m :: 0 <= m <= MAX_AMP ==>
        aPrev[m] == if 1 <= m <= result.l then result.a[m] else old(aPrev)[m]
    {
      hide ChosenBandByBand, BestForFrame, Quantised, Interpolated, Slot;
      var quantised := SparseVqAmp(input, enormDb);
      ghost var t := indexes[2];
      QuantisedFits(u, vqs, input, enormDb, t);
      ghost var mid := View();
      result := VqInterp(quantised, on);
      OutputFits(u, vqs, mid, Frame(quantised, t, enormDb), on, frames % 2 == 0);
      Remember(result);
      frames := frames + 1;
      f := Frame(quantised, t, enormDb);
      assert Push(mid, f) == Push(old(View()), f);
      assert QuantisedAs(u, vqs, input, enormDb, f);
    }
  }

  /** What the delay line puts out has a slot for every harmonic. */
  lemma OutputFits(u: Units, vqs: seq<Codebook>, mem: Memory, f: Frame, on: bool, even: bool)
    requires ValidBands(vqs, MAX_AMP) && ValidMemory(mem, vqs) && ValidFrame(f, vqs)
    ensures Fits(Output(u, vqs, mem, f, on, even))
  {
    hide Slot, InterpSlots, Scatter;
  }

  lemma QuantisedFits(u: Units, vqs: seq<Codebook>, model: Model, enormDb: real, t: seq<nat>)
    requires Fits(model) && ValidBands(vqs, MAX_AMP) && Choice(vqs, t)
    ensures Fits(Quantised(u, vqs, model, enormDb, t))
  {
  }

  /** Reads every harmonic back from its slot. */
  method ReadBack(model: Model, f: real -> real, slots: seq<real>) returns (result: Model)
    requires Fits(model) && |slots| == MAX_AMP
    ensures result == FromSlots(model, f, slots)
  {
    hide Slot;
    var a := model.a;
    for m := 1 to model.l + 1
      invariant |a| == MAX_AMP + 1
      invariant forall k :: 0 <= k <= MAX_AMP ==>
        a[k] == (if 1 <= k < m then f(slots[Slot(k, model.wo)]) else model.a[k])
    {
      a := a[m := f(slots[Slot(m, model.wo)])];
    }
    result := model.(a := a);
    assert a == FromSlots(model, f, slots).a;
  }

  lemma NoBandsYet(vqs: seq<Codebook>, target: seq<real>, t0: seq<nat>, t2: seq<nat>, mag0: real, mag2: real,
                   out: seq<real>)
    requires ValidBands(vqs, MAX_AMP) && Choice(vqs, t0) && Choice(vqs, t2) && |target| == MAX_AMP == |out|
    requires forall j :: 0 <= j < MAX_AMP ==> out[j] == 0.0
    ensures out == InterpSlots(vqs, target, t0, t2, mag0, mag2, 0)
  {
  }

  lemma StaleSlotsDoNotMatter(u: Units, vqs: seq<Codebook>, model: Model, t0: seq<nat>, t2: seq<nat>, mag0: real,
                              mag2: real, garbage: seq<real>)
    requires Fits(model) && ValidBands(vqs, MAX_AMP) && Choice(vqs, t0) && Choice(vqs, t2) && |garbage| == MAX_AMP
    ensures var target := Scatter(model.a, model.wo, model.l, u.toDb, garbage);
      FromSlots(model, u.fromDb, InterpSlots(vqs, target, t0, t2, mag0, mag2, |vqs|))
      == Interpolated(u, vqs, model, t0, t2, mag0, mag2)
  {
    hide Slot, InterpLevel;
    var target := Scatter(model.a, model.wo, model.l, u.toDb, garbage);
    var clean := Scatter(model.a, model.wo, model.l, u.toDb, ZeroSlots());
    var s, r := InterpSlots(vqs, target, t0, t2, mag0, mag2, |vqs|), InterpSlots(vqs, clean, t0, t2, mag0, mag2, |vqs|);
    forall j | 0 <= j < MAX_AMP && Hit(j, model.l, model.wo) ensures s[j] == r[j] {
      ScatterHit(model.a, model.wo, model.l, u.toDb, garbage, ZeroSlots(), j);
    }
    OnlyHitSlotsRead(model, u.fromDb, s, r);
  }

  /** The weights of slots without a harmonic are never set, and never matter. */
  lemma StaleWeightsDoNotMatter(u: Units, vqs: seq<Codebook>, model: Model, enormDb: real, garbage: seq<real>,
                                t: seq<nat>)
    requires Fits(model) && ValidBands(vqs, MAX_AMP) && |garbage| == MAX_AMP
    requires var weights := Scatter(model.a, model.wo, model.l, u.weightOf, garbage);
      ChosenBandByBand(Target(u, model, enormDb), weights, vqs, t)
    ensures ChosenBandByBand(Target(u, model, enormDb), Weights(u, model), vqs, t)
  {
    hide Slot, Scatter, ChosenBandByBand;
    var target := Target(u, model, enormDb);
    var w, v := Scatter(model.a, model.wo, model.l, u.weightOf, garbage), Weights(u, model);
    forall j | 0 <= j < MAX_AMP && target[j] != 0.0 ensures w[j] == v[j] {
      ScatterHit(model.a, model.wo, model.l, x => u.toDb(x) - enormDb, ZeroSlots(), ZeroSlots(), j);
      ScatterHit(model.a, model.wo, model.l, u.weightOf, garbage, ZeroSlots(), j);
    }
    BestOfAllBands(target, vqs, t, w, v);
  }

  lemma BestOfAllBands(target: seq<real>, vqs: seq<Codebook>, t: seq<nat>, w: seq<real>, v: seq<real>)
    requires ValidBands(vqs, |target|) && AgreeUnmasked(target, w, v) && ChosenBandByBand(target, w, vqs, t)
    ensures ChosenBandByBand(target, v, vqs, t)
  {
    hide FirstBest, TargetAfter;
    forall b | 0 <= b < |vqs|
      ensures FirstBest(vqs[b], Band(TargetAfter(target, vqs, t, b), vqs[b]), Band(v, vqs[b]), t[b], vqs[b].m)
    {
      BestUnmasked(target, vqs, t, b, w, v);
    }
  }

  // ----- runs of the delay line

  ghost predicate ValidFrames(fs: seq<Frame>, vqs: seq<Codebook>) {
    forall i :: 0 <= i < |fs| ==> ValidFrame(fs[i], vqs)
  }

  ghost function MemoryAfter(mem: Memory, vqs: seq<Codebook>, fs: seq<Frame>): (r: Memory)
    requires ValidMemory(mem, vqs) && ValidFrames(fs, vqs)
    ensures ValidMemory(r, vqs)
  {
    if fs == [] then mem
    else
      assert ValidFrame(fs[|fs| - 1], vqs);
      Push(MemoryAfter(mem, vqs, fs[..|fs| - 1]), fs[|fs| - 1])
  }

  /** Place 1 after a run: the last frame, or what was in it at the start. */
  ghost function LastModel(mem: Memory, vqs: seq<Codebook>, fs: seq<Frame>): Model
    requires ValidMemory(mem, vqs)
  {
    if fs == [] then mem.model[1] else fs[|fs| - 1].model
  }

  /** The memories hold the last two frames as they went in, whatever was interpolated on the
      way; a place no frame has reached yet holds what the start put into it. */
  lemma MemoryIsLastTwo(mem: Memory, vqs: seq<Codebook>, fs: seq<Frame>)
    requires ValidMemory(mem, vqs) && ValidFrames(fs, vqs)
    ensures var r := MemoryAfter(mem, vqs, fs);
      && r.model[1] == LastModel(mem, vqs, fs)
      && (|fs| >= 1 ==> r.indexes[1] == fs[|fs| - 1].t && r.mag[1] == fs[|fs| - 1].mag)
      && (if |fs| >= 2 then
            && r.model[0] == fs[|fs| - 2].model && r.indexes[0] == fs[|fs| - 2].t && r.mag[0] == fs[|fs| - 2].mag
          else
            r.model[0] == mem.model[|fs|] && r.indexes[0] == mem.indexes[|fs|] && r.mag[0] == mem.mag[|fs|])
  {
    hide Fits;
    var n := |fs| - 1;
    if n >= 1 {
      assert fs[..n][n - 1] == fs[n - 1];
      assert MemoryAfter(mem, vqs, fs[..n]) == Push(MemoryAfter(mem, vqs, fs[..n][..n - 1]), fs[n - 1]);
    } else if n == 0 {
      assert fs[..0] == [];
    }
  }

  /** The frame the delay line puts out when frame `n` of a run goes in. */
  ghost function OutputAt(u: Units, vqs: seq<Codebook>, mem: Memory, fs: seq<Frame>, on: bool, n: nat): Model
    requires ValidBands(vqs, MAX_AMP) && ValidMemory(mem, vqs) && ValidFrames(fs, vqs) && n < |fs|
  {
    Output(u, vqs, MemoryAfter(mem, vqs, fs[..n]), fs[n], on, n % 2 == 0)
  }

  /** The delay line puts out the frame before the newest, for the first frame the one it
      started with. On an even frame, when switched on, its amplitudes are those interpolated
      between the indexes and levels of its own two neighbours; nothing else of it changes. */
  lemma OutputIsDelayed(u: Units, vqs: seq<Codebook>, mem: Memory, fs: seq<Frame>, on: bool, n: nat)
    requires ValidBands(vqs, MAX_AMP) && ValidMemory(mem, vqs) && ValidFrames(fs, vqs) && n < |fs|
    ensures var last := LastModel(mem, vqs, fs[..n]);
      && OutputAt(u, vqs, mem, fs, on, n).(a := last.a) == last
      && (!on || n % 2 == 1 ==> OutputAt(u, vqs, mem, fs, on, n) == last)
    ensures n >= 1 ==> LastModel(mem, vqs, fs[..n]) == fs[n - 1].model
    ensures on && n % 2 == 0 && n >= 2 ==>
      OutputAt(u, vqs, mem, fs, on, n)
      == Interpolated(u, vqs, fs[n - 1].model, fs[n - 2].t, fs[n].t, fs[n - 2].mag, fs[n].mag)
    ensures on && n == 0 ==>
      OutputAt(u, vqs, mem, fs, on, n)
      == Interpolated(u, vqs, mem.model[1], mem.indexes[0], fs[0].t, mem.mag[0], fs[0].mag)
  {
    hide Slot, InterpSlots;
    MemoryIsLastTwo(mem, vqs, fs[..n]);
  }

  // ----- a run of the class

  lemma OneMoreMemory(mem: Memory, vqs: seq<Codebook>, fs: seq<Frame>, f: Frame)
    requires ValidMemory(mem, vqs) && ValidFrames(fs, vqs) && ValidFrame(f, vqs)
    ensures ValidFrames(fs + [f], vqs) && MemoryAfter(mem, vqs, fs + [f]) == Push(MemoryAfter(mem, vqs, fs), f)
  {
    hide ValidMemory, ValidFrame;
    assert (fs + [f])[..|fs|] == fs;
  }

  lemma OutputLocal(u: Units, vqs: seq<Codebook>, mem: Memory, fs: seq<Frame>, f: Frame, on: bool, n: nat)
    requires ValidBands(vqs, MAX_AMP) && ValidMemory(mem, vqs) && ValidFrames(fs, vqs) && ValidFrame(f, vqs)
    requires n < |fs|
    ensures ValidFrames(fs + [f], vqs) && OutputAt(u, vqs, mem, fs + [f], on, n) == OutputAt(u, vqs, mem, fs, on, n)
  {
    OneMoreMemory(mem, vqs, fs, f);
    hide Output, MemoryAfter, ValidMemory, ValidFrame;
    assert (fs + [f])[..n] == fs[..n];
  }

  /** What has come out is what the delay line puts out, frame by frame. */
  ghost predicate PutOut(u: Units, vqs: seq<Codebook>, mem: Memory, fs: seq<Frame>, on: bool, outputs: seq<Model>)
    requires ValidBands(vqs, MAX_AMP) && ValidMemory(mem, vqs) && ValidFrames(fs, vqs)
  {
    |outputs| == |fs| && forall n :: 0 <= n < |fs| ==> outputs[n] == OutputAt(u, vqs, mem, fs, on, n)
  }

  lemma OneMorePutOut(u: Units, vqs: seq<Codebook>, mem: Memory, fs: seq<Frame>, f: Frame, on: bool,
                      outputs: seq<Model>, result: Model)
    requires ValidBands(vqs, MAX_AMP) && ValidMemory(mem, vqs) && ValidFrames(fs, vqs) && ValidFrame(f, vqs)
    requires PutOut(u, vqs, mem, fs, on, outputs)
    requires result == Output(u, vqs, MemoryAfter(mem, vqs, fs), f, on, |fs| % 2 == 0)
    ensures ValidFrames(fs + [f], vqs) && PutOut(u, vqs, mem, fs + [f], on, outputs + [result])
  {
    OneMoreMemory(mem, vqs, fs, f);
    assert (fs + [f])[..|fs|] == fs;
    assert OutputAt(u, vqs, mem, fs + [f], on, |fs|) == result;
    hide OutputAt, Output, MemoryAfter, ValidMemory, ValidFrame, ValidBands;
    forall n | 0 <= n < |fs| ensures outputs[n] == OutputAt(u, vqs, mem, fs + [f], on, n) {
      OutputLocal(u, vqs, mem, fs, f, on, n);
    }
  }

  /** Every frame of a run, quantised by the band searches. */
  ghost predicate AllQuantised(u: Units, vqs: seq<Codebook>, inputs: seq<Model>, levels: seq<real>, fs: seq<Frame>)
    requires ValidBands(vqs, MAX_AMP) && |fs| <= |inputs| == |levels|
    requires forall n :: 0 <= n < |inputs| ==> Fits(inputs[n])
  {
    forall n :: 0 <= n < |fs| ==> QuantisedAs(u, vqs, inputs[n], levels[n], fs[n])
  }

  /** A run of a new experiment: every frame is quantised, and what comes out is what the delay
      line puts out for the quantised frames. */
  method RunExperiment(exp: Aexp, inputs: seq<Model>, levels: seq<real>, on: bool)
    returns (outputs: seq<Model>, ghost fs: seq<Frame>)
    requires exp.Valid() && exp.frames == 0 && |inputs| == |levels|
    requires forall n :: 0 <= n < |inputs| ==> Fits(inputs[n])
    modifies exp
    ensures exp.Valid() && exp.frames == |fs| == |inputs| && ValidFrames(fs, exp.vqs)
    ensures AllQuantised(exp.u, exp.vqs, inputs, levels, fs)
    ensures PutOut(exp.u, exp.vqs, old(exp.View()), fs, on, outputs)
  {
    hide Fits, QuantisedAs, PutOut, Output, MemoryAfter, ValidMemory, ValidFrame, ValidFrames;
    outputs, fs := [], [];
    ghost var mem := exp.View();
    NothingPutOut(exp.u, exp.vqs, mem, on);
    for n := 0 to |inputs|
      invariant exp.Valid() && exp.frames == n == |fs| && ValidFrames(fs, exp.vqs)
      invariant AllQuantised(exp.u, exp.vqs, inputs, levels, fs)
      invariant exp.View() == MemoryAfter(mem, exp.vqs, fs)
      invariant PutOut(exp.u, exp.vqs, mem, fs, on, outputs)
    {
      var result;
      ghost var f;
      result, f := exp.Process(inputs[n], levels[n], on);
      QuantisedIsValid(exp.u, exp.vqs, inputs[n], levels[n], f);
      OneMoreMemory(mem, exp.vqs, fs, f);
      OneMorePutOut(exp.u, exp.vqs, mem, fs, f, on, outputs, result);
      outputs, fs := outputs + [result], fs + [f];
    }
  }

  lemma QuantisedIsValid(u: Units, vqs: seq<Codebook>, input: Model, enormDb: real, f: Frame)
    requires Fits(input) && ValidBands(vqs, MAX_AMP) && QuantisedAs(u, vqs, input, enormDb, f)
    ensures ValidFrame(f, vqs)
  {
  }

  lemma NothingPutOut(u: Units, vqs: seq<Codebook>, mem: Memory, on: bool)
    requires ValidBands(vqs, MAX_AMP) && ValidMemory(mem, vqs)
    ensures ValidFrames([], vqs) && MemoryAfter(mem, vqs, []) == mem && PutOut(u, vqs, mem, [], on, [])
  {
  }
}
