/** Codebook search and split vector quantisation of a sparse vector, over the reals.

    A slot of the vector that is zero is masked: it carries no harmonic and takes no part in
    the search.
 */
module VectorQuantiser {
  import opened Arithmetic

  /** `k` values to a codeword, `m` codewords, applied from slot `offset` on. */
  datatype Codebook = Codebook(k: nat, m: nat, cb: seq<real>, offset: nat) {
    ghost predicate Valid() {
      m >= 1 && |cb| == k * m
    }

    function Entry(j: nat, i: nat): real
      requires Valid() && j < m && i < k
    {
      EntryInRange(k, m, j, i);
      cb[k * j + i]
    }

    predicate Covers(slot: nat) {
      offset <= slot < offset + k
    }
  }

  lemma EntryInRange(k: nat, m: nat, j: nat, i: nat)
    requires j < m && i < k
    ensures 0 <= k * j + i < k * m
  {
    assert k * (j + 1) <= k * m;
  }

  /** `1E32`, the value the searches start from. */
  const METRIC_LIMIT: real := 100000000000000000000000000000000.0

  // ----- the search

  /** The weighted squared error of codeword `j` over the first `n` unmasked places. */
  function Metric(c: Codebook, vec: seq<real>, weights: seq<real>, j: nat, n: nat): real
    requires c.Valid() && j < c.m && n <= c.k == |vec| == |weights|
  {
    if n == 0 then 0.0
    else Metric(c, vec, weights, j, n - 1) + Term(c, vec, weights, j, n - 1)
  }

  function Term(c: Codebook, vec: seq<real>, weights: seq<real>, j: nat, i: nat): real
    requires c.Valid() && j < c.m && i < c.k == |vec| == |weights|
  {
    if vec[i] == 0.0 then 0.0
    else weights[i] * (c.Entry(j, i) - vec[i]) * (c.Entry(j, i) - vec[i])
  }

  /** The same without the weights. */
  function PlainError(c: Codebook, vec: seq<real>, j: nat, n: nat): real
    requires c.Valid() && j < c.m && n <= c.k == |vec|
  {
    if n == 0 then 0.0
    else PlainError(c, vec, j, n - 1)
         + if vec[n - 1] == 0.0 then 0.0
           else (c.Entry(j, n - 1) - vec[n - 1]) * (c.Entry(j, n - 1) - vec[n - 1])
  }

  /** `best` is the first codeword of least metric among those below the limit, or 0 if none is. */
  ghost predicate FirstBest(c: Codebook, vec: seq<real>, weights: seq<real>, best: nat, n: nat)
    requires c.Valid() && n <= c.m && c.k == |vec| == |weights|
  {
    && best < c.m
    && if forall j :: 0 <= j < n ==> Metric(c, vec, weights, j, c.k) >= METRIC_LIMIT then best == 0
       else
         && best < n && Metric(c, vec, weights, best, c.k) < METRIC_LIMIT
         && (forall j :: 0 <= j < n ==> Metric(c, vec, weights, best, c.k) <= Metric(c, vec, weights, j, c.k))
         && (forall j :: 0 <= j < best ==> Metric(c, vec, weights, best, c.k) < Metric(c, vec, weights, j, c.k))
  }

  // ----- the search on codewords as sequences

  /** Codeword `j`: the `k` values from `k * j` on. */
  function Word(c: Codebook, j: nat): (word: seq<real>)
    requires c.Valid() && j < c.m
    ensures |word| == c.k
  {
    WordInRange(c.k, c.m, j);
    c.cb[c.k * j..c.k * j + c.k]
  }

  lemma WordInRange(k: nat, m: nat, j: nat)
    requires j < m
    ensures 0 <= k * j && k * j + k <= k * m
  {
    assert k * (j + 1) <= k * m;
  }

  lemma EntryOfWord(c: Codebook, j: nat, i: nat)
    requires c.Valid() && j < c.m && i < c.k
    ensures Word(c, j)[i] == c.Entry(j, i)
  {
    WordInRange(c.k, c.m, j);
  }

  /** The weighted squared distance between a codeword and the unmasked places of `vec`. */
  ghost function Distance(word: seq<real>, vec: seq<real>, weights: seq<real>): real
    requires |word| == |vec| == |weights|
  {
    if vec == [] then 0.0
    else
      var n := |vec| - 1;
      Distance(word[..n], vec[..n], weights[..n])
      + if vec[n] == 0.0 then 0.0 else weights[n] * Sq(word[n] - vec[n])
  }

  ghost function Ones(n: nat): (w: seq<real>)
    ensures |w| == n
  {
    seq(n, _ => 1.0)
  }

  lemma DistanceStep(word: seq<real>, vec: seq<real>, weights: seq<real>, n: nat)
    requires |word| == |vec| == |weights| && n <= |vec|
    ensures n == 0 ==> Distance(word[..n], vec[..n], weights[..n]) == 0.0
    ensures n > 0 ==>
      var term := if vec[n - 1] == 0.0 then 0.0 else weights[n - 1] * Sq(word[n - 1] - vec[n - 1]);
      Distance(word[..n], vec[..n], weights[..n])
      == Distance(word[..n - 1], vec[..n - 1], weights[..n - 1]) + term
  {
    hide Sq;
    if n > 0 {
      assert word[..n][..n - 1] == word[..n - 1] && vec[..n][..n - 1] == vec[..n - 1];
      assert weights[..n][..n - 1] == weights[..n - 1];
    }
  }

  lemma {:induction false} MetricOfPrefix(c: Codebook, vec: seq<real>, weights: seq<real>, j: nat, n: nat)
    requires c.Valid() && j < c.m && n <= c.k == |vec| == |weights|
    ensures Metric(c, vec, weights, j, n) == Distance(Word(c, j)[..n], vec[..n], weights[..n])
    ensures PlainError(c, vec, j, n) == Distance(Word(c, j)[..n], vec[..n], Ones(c.k)[..n])
  {
    hide Codebook.Entry, Word, Distance;
    DistanceStep(Word(c, j), vec, weights, n);
    DistanceStep(Word(c, j), vec, Ones(c.k), n);
    if n > 0 {
      MetricOfPrefix(c, vec, weights, j, n - 1);
      EntryOfWord(c, j, n - 1);
      Square(weights[n - 1], c.Entry(j, n - 1) - vec[n - 1]);
    }
  }

  /** The search as it looks at codewords: the winner is the first of least distance among those
      below the limit, and index 0 stands if there is none. */
  lemma FirstBestOnWords(c: Codebook, vec: seq<real>, weights: seq<real>, best: nat)
    requires c.Valid() && c.k == |vec| == |weights| && FirstBest(c, vec, weights, best, c.m)
    ensures Metric(c, vec, weights, best, c.k) == Distance(Word(c, best), vec, weights)
    ensures PlainError(c, vec, best, c.k) == Distance(Word(c, best), vec, Ones(c.k))
    ensures (forall j :: 0 <= j < c.m ==> Distance(Word(c, j), vec, weights) >= METRIC_LIMIT) ==> best == 0
    ensures (exists j :: 0 <= j < c.m && Distance(Word(c, j), vec, weights) < METRIC_LIMIT) ==>
      && Distance(Word(c, best), vec, weights) < METRIC_LIMIT
      && (forall j :: 0 <= j < c.m ==> Distance(Word(c, best), vec, weights) <= Distance(Word(c, j), vec, weights))
      && (forall j :: 0 <= j < best ==> Distance(Word(c, best), vec, weights) < Distance(Word(c, j), vec, weights))
  {
    hide Metric, PlainError, Distance, Word;
    forall j | 0 <= j < c.m
      ensures Metric(c, vec, weights, j, c.k) == Distance(Word(c, j), vec, weights)
      ensures PlainError(c, vec, j, c.k) == Distance(Word(c, j), vec, Ones(c.k))
    {
      MetricOfPrefix(c, vec, weights, j, c.k);
      assert Word(c, j)[..c.k] == Word(c, j) && vec[..c.k] == vec && weights[..c.k] == weights;
      assert Ones(c.k)[..c.k] == Ones(c.k);
    }
  }

  lemma MetricStep(c: Codebook, vec: seq<real>, weights: seq<real>, j: nat, i: nat)
    requires c.Valid() && j < c.m && i <= c.k == |vec| == |weights|
    ensures Metric(c, vec, weights, j, 0) == 0.0 == PlainError(c, vec, j, 0)
    ensures i < c.k && vec[i] == 0.0 ==>
      && Metric(c, vec, weights, j, i + 1) == Metric(c, vec, weights, j, i)
      && PlainError(c, vec, j, i + 1) == PlainError(c, vec, j, i)
    ensures i < c.k && vec[i] != 0.0 ==>
      var diff := c.Entry(j, i) - vec[i];
      && Metric(c, vec, weights, j, i + 1) == Metric(c, vec, weights, j, i) + weights[i] * diff * diff
      && PlainError(c, vec, j, i + 1) == PlainError(c, vec, j, i) + diff * diff
  {
  }

  /** The state of the search after `n` codewords. */
  ghost predicate Searched(c: Codebook, vec: seq<real>, weights: seq<real>, best: nat, metric: real, error: real, n: nat)
    requires c.Valid() && n <= c.m && c.k == |vec| == |weights|
  {
    && FirstBest(c, vec, weights, best, n)
    && (metric < METRIC_LIMIT <==> exists k :: 0 <= k < n && Metric(c, vec, weights, k, c.k) < METRIC_LIMIT)
    && metric == (if metric < METRIC_LIMIT then Metric(c, vec, weights, best, c.k) else METRIC_LIMIT)
    && error == if metric < METRIC_LIMIT then PlainError(c, vec, best, c.k) else METRIC_LIMIT
  }

  lemma SearchStart(c: Codebook, vec: seq<real>, weights: seq<real>)
    requires c.Valid() && c.k == |vec| == |weights|
    ensures Searched(c, vec, weights, 0, METRIC_LIMIT, METRIC_LIMIT, 0)
  {
  }

  /** A codeword replaces the best one so far exactly when its metric is smaller. */
  lemma SearchStep(c: Codebook, vec: seq<real>, weights: seq<real>, best: nat, metric: real, error: real, j: nat)
    requires c.Valid() && j < c.m && c.k == |vec| == |weights|
    requires Searched(c, vec, weights, best, metric, error, j)
    ensures Metric(c, vec, weights, j, c.k) < metric ==>
      Searched(c, vec, weights, j, Metric(c, vec, weights, j, c.k), PlainError(c, vec, j, c.k), j + 1)
    ensures Metric(c, vec, weights, j, c.k) >= metric ==> Searched(c, vec, weights, best, metric, error, j + 1)
  {
    hide Metric, PlainError;
  }

  lemma SearchEnd(c: Codebook, vec: seq<real>, weights: seq<real>, best: nat, metric: real, error: real)
    requires c.Valid() && c.k == |vec| == |weights| && Searched(c, vec, weights, best, metric, error, c.m)
    ensures best < c.m && FirstBest(c, vec, weights, best, c.m)
    ensures error ==
      if Metric(c, vec, weights, best, c.k) < METRIC_LIMIT then PlainError(c, vec, best, c.k) else METRIC_LIMIT
  {
    hide Metric, PlainError;
  }

  /** Searches the whole codebook; adds the unweighted error of the winner to `se`. */
  method VqAmp(c: Codebook, vec: seq<real>, weights: seq<real>, se: real) returns (besti: nat, newSe: real)
    requires c.Valid() && c.k == |vec| == |weights|
    ensures besti < c.m && FirstBest(c, vec, weights, besti, c.m)
    ensures newSe == se +
      if Metric(c, vec, weights, besti, c.k) < METRIC_LIMIT then PlainError(c, vec, besti, c.k) else METRIC_LIMIT
  {
    hide Metric, PlainError, Codebook.Entry, Searched, FirstBest;
    besti := 0;
    var bestMetric, bestError := METRIC_LIMIT, METRIC_LIMIT;
    SearchStart(c, vec, weights);
    for j := 0 to c.m
      invariant Searched(c, vec, weights, besti, bestMetric, bestError, j)
    {
      var metric, error := 0.0, 0.0;
      MetricStep(c, vec, weights, j, 0);
      for i := 0 to c.k
        invariant metric == Metric(c, vec, weights, j, i) && error == PlainError(c, vec, j, i)
      {
        MetricStep(c, vec, weights, j, i);
        if vec[i] != 0.0 {
          var diff := c.Entry(j, i) - vec[i];
          error := error + diff * diff;
          metric := metric + weights[i] * diff * diff;
        }
      }
      SearchStep(c, vec, weights, besti, bestMetric, bestError, j);
      if metric < bestMetric {
        bestError, bestMetric, besti := error, metric, j;
      }
    }
    SearchEnd(c, vec, weights, besti, bestMetric, bestError);
    newSe := se + bestError;
  }

  // ----- split VQ

  /** The target after the chosen codeword has been taken out of its band. */
  function Residual(target: seq<real>, c: Codebook, ind: nat): (r: seq<real>)
    requires c.Valid() && ind < c.m
    ensures |r| == |target|
  {
    seq(|target|, j requires 0 <= j < |target| =>
      if c.Covers(j) && target[j] != 0.0 then target[j] - c.Entry(ind, j - c.offset) else target[j])
  }

  /** The quantised vector after the chosen codeword has been added in its band. */
  function Filled(out: seq<real>, target: seq<real>, c: Codebook, ind: nat): (r: seq<real>)
    requires c.Valid() && ind < c.m && |out| == |target|
    ensures |r| == |out|
  {
    seq(|out|, j requires 0 <= j < |out| =>
      if c.Covers(j) && target[j] != 0.0 then out[j] + c.Entry(ind, j - c.offset) else out[j])
  }

  lemma OutsideBand(out: seq<real>, target: seq<real>, c: Codebook, ind: nat)
    requires c.Valid() && ind < c.m && |out| == |target|
    ensures forall j :: 0 <= j < |target| && (j < c.offset || j >= c.offset + c.k) ==>
      Residual(target, c, ind)[j] == target[j] && Filled(out, target, c, ind)[j] == out[j]
  {
  }

  lemma InsideBand(out: seq<real>, target: seq<real>, c: Codebook, ind: nat, i: nat)
    requires c.Valid() && ind < c.m && |out| == |target| && i < c.k && c.offset + i < |target|
    ensures var j, entry := c.offset + i, if target[c.offset + i] != 0.0 then c.Entry(ind, i) else 0.0;
      Residual(target, c, ind)[j] == target[j] - entry && Filled(out, target, c, ind)[j] == out[j] + entry
  {
  }

  function Band(s: seq<real>, c: Codebook): seq<real>
    requires c.offset + c.k <= |s|
  {
    s[c.offset..c.offset + c.k]
  }

  function Unmasked(target: seq<real>, c: Codebook, n: nat): nat
    requires c.offset + n <= |target|
  {
    if n == 0 then 0 else Unmasked(target, c, n - 1) + if target[c.offset + n - 1] != 0.0 then 1 else 0
  }

  ghost function UnmaskedSlots(target: seq<real>, c: Codebook, n: nat): set<nat>
    requires c.offset + n <= |target|
  {
    set j: nat | c.offset <= j < c.offset + n && target[j] != 0.0
  }

  lemma {:induction false} UnmaskedIsCount(target: seq<real>, c: Codebook, n: nat)
    requires c.offset + n <= |target|
    ensures Unmasked(target, c, n) == |UnmaskedSlots(target, c, n)|
  {
    if n > 0 {
      UnmaskedIsCount(target, c, n - 1);
      var last, before := c.offset + n - 1, UnmaskedSlots(target, c, n - 1);
      assert UnmaskedSlots(target, c, n) == if target[last] != 0.0 then before + {last} else before;
    } else {
      assert UnmaskedSlots(target, c, 0) == {};
    }
  }

  method SplitVq(out: array<real>, c: Codebook, weights: seq<real>, target: array<real>, varN: nat)
    returns (ind: nat, newVarN: nat)
    requires c.Valid() && out != target && out.Length == target.Length == |weights| && c.offset + c.k <= out.Length
    modifies out, target
    ensures ind < c.m && FirstBest(c, Band(old(target[..]), c), Band(weights, c), ind, c.m)
    ensures target[..] == Residual(old(target[..]), c, ind)
    ensures out[..] == Filled(old(out[..]), old(target[..]), c, ind)
    ensures newVarN == varN + Unmasked(old(target[..]), c, c.k)
  {
    hide FirstBest, Metric, PlainError, Codebook.Entry, Residual, Filled;
    var se;
    ind, se := VqAmp(c, target[c.offset..c.offset + c.k], weights[c.offset..c.offset + c.k], 0.0);
    var nonZero := 0;
    OutsideBand(old(out[..]), old(target[..]), c, ind);
    for i := 0 to c.k
      invariant nonZero == Unmasked(old(target[..]), c, i)
      invariant forall j :: 0 <= j < out.Length ==>
        target[j] == (if j < c.offset + i then Residual(old(target[..]), c, ind)[j] else old(target[j]))
      invariant forall j :: 0 <= j < out.Length ==>
        out[j] == (if j < c.offset + i then Filled(old(out[..]), old(target[..]), c, ind)[j] else old(out[j]))
    {
      var j := c.offset + i;
      InsideBand(old(out[..]), old(target[..]), c, ind, i);
      if target[j] != 0.0 {
        var entry := c.Entry(ind, i);
        target[j] := target[j] - entry;
        out[j] := out[j] + entry;
        nonZero := nonZero + 1;
      }
    }
    newVarN := varN + nonZero;
  }

  // ----- several bands

  ghost predicate ValidBands(vqs: seq<Codebook>, size: nat) {
    forall b :: 0 <= b < |vqs| ==> vqs[b].Valid() && vqs[b].offset + vqs[b].k <= size
  }

  /** No slot belongs to two bands. */
  ghost predicate Disjoint(vqs: seq<Codebook>) {
    forall a, b, slot: nat :: 0 <= a < b < |vqs| ==> !(vqs[a].Covers(slot) && vqs[b].Covers(slot))
  }

  /** A choice of one codeword for each band. */
  ghost predicate Choice(vqs: seq<Codebook>, t: seq<nat>) {
    |t| == |vqs| && forall b :: 0 <= b < |vqs| ==> t[b] < vqs[b].m
  }

  /** The target and the quantised vector after the first `n` bands. */
  ghost function TargetAfter(target: seq<real>, vqs: seq<Codebook>, t: seq<nat>, n: nat): (r: seq<real>)
    requires ValidBands(vqs, |target|) && Choice(vqs, t) && n <= |vqs|
    ensures |r| == |target|
  {
    if n == 0 then target else Residual(TargetAfter(target, vqs, t, n - 1), vqs[n - 1], t[n - 1])
  }

  ghost function OutAfter(out: seq<real>, target: seq<real>, vqs: seq<Codebook>, t: seq<nat>, n: nat): (r: seq<real>)
    requires ValidBands(vqs, |target|) && Choice(vqs, t) && n <= |vqs| && |out| == |target|
    ensures |r| == |out|
  {
    if n == 0 then out
    else Filled(OutAfter(out, target, vqs, t, n - 1), TargetAfter(target, vqs, t, n - 1), vqs[n - 1], t[n - 1])
  }

  /** What is taken out of the target is what is added to the output, in every slot and after
      every band. */
  lemma {:induction false} SplitConserves(out: seq<real>, target: seq<real>, vqs: seq<Codebook>, t: seq<nat>,
                                          n: nat, slot: nat)
    requires ValidBands(vqs, |target|) && Choice(vqs, t) && n <= |vqs| && |out| == |target| && slot < |out|
    ensures TargetAfter(target, vqs, t, n)[slot] + OutAfter(out, target, vqs, t, n)[slot] == target[slot] + out[slot]
  {
    if n > 0 {
      SplitConserves(out, target, vqs, t, n - 1, slot);
    }
  }

  /** A slot outside the first `n` bands is not touched by them. */
  lemma {:induction false} OtherBandsUntouched(out: seq<real>, target: seq<real>, vqs: seq<Codebook>, t: seq<nat>,
                                               n: nat, slot: nat)
    requires ValidBands(vqs, |target|) && Choice(vqs, t) && n <= |vqs| && |out| == |target| && slot < |target|
    requires forall b :: 0 <= b < n ==> !vqs[b].Covers(slot)
    ensures TargetAfter(target, vqs, t, n)[slot] == target[slot]
    ensures OutAfter(out, target, vqs, t, n)[slot] == out[slot]
  {
    if n > 0 {
      OtherBandsUntouched(out, target, vqs, t, n - 1, slot);
    }
  }

  /** With disjoint bands, a slot of band `b` ends up with the chosen entry added to it and
      taken out of the target. */
  lemma {:induction false} SlotQuantised(out: seq<real>, target: seq<real>, vqs: seq<Codebook>, t: seq<nat>,
                                         n: nat, b: nat, slot: nat)
    requires ValidBands(vqs, |target|) && Choice(vqs, t) && Disjoint(vqs) && |out| == |target| && slot < |target|
    requires b < n <= |vqs| && vqs[b].Covers(slot) && target[slot] != 0.0
    ensures TargetAfter(target, vqs, t, n)[slot] == target[slot] - vqs[b].Entry(t[b], slot - vqs[b].offset)
    ensures OutAfter(out, target, vqs, t, n)[slot] == out[slot] + vqs[b].Entry(t[b], slot - vqs[b].offset)
    decreases n
  {
    hide Codebook.Entry;
    if b == n - 1 {
      OtherBandsUntouched(out, target, vqs, t, n - 1, slot);
    } else {
      SlotQuantised(out, target, vqs, t, n - 1, b, slot);
      assert !vqs[n - 1].Covers(slot);
    }
  }

  lemma BandSeesOriginal(target: seq<real>, vqs: seq<Codebook>, t: seq<nat>, b: nat)
    requires ValidBands(vqs, |target|) && Choice(vqs, t) && Disjoint(vqs) && b < |vqs|
    ensures Band(TargetAfter(target, vqs, t, b), vqs[b]) == Band(target, vqs[b])
  {
    var c := vqs[b];
    forall i | 0 <= i < c.k
      ensures Band(TargetAfter(target, vqs, t, b), c)[i] == Band(target, c)[i]
    {
      assert c.Covers(c.offset + i);
      OtherBandsUntouched(target, target, vqs, t, b, c.offset + i);
    }
  }

  // ----- the error of a whole choice

  /** The error a choice makes in one slot: that of the band covering it, if any. */
  ghost function SlotError(target: seq<real>, weights: seq<real>, vqs: seq<Codebook>, t: seq<nat>, n: nat,
                           slot: nat): real
    requires ValidBands(vqs, |target|) && Choice(vqs, t) && n <= |vqs| && slot < |target| == |weights|
  {
    if n == 0 || target[slot] == 0.0 then 0.0
    else if vqs[n - 1].Covers(slot) then
      var diff := vqs[n - 1].Entry(t[n - 1], slot - vqs[n - 1].offset) - target[slot];
      weights[slot] * diff * diff
    else SlotError(target, weights, vqs, t, n - 1, slot)
  }

  /** The error over the first `size` slots. */
  ghost function TotalError(target: seq<real>, weights: seq<real>, vqs: seq<Codebook>, t: seq<nat>, n: nat,
                            size: nat): real
    requires ValidBands(vqs, |target|) && Choice(vqs, t) && n <= |vqs| && size <= |target| == |weights|
  {
    if size == 0 then 0.0
    else TotalError(target, weights, vqs, t, n, size - 1) + SlotError(target, weights, vqs, t, n, size - 1)
  }

  lemma {:induction false} SlotErrorLocal(target: seq<real>, weights: seq<real>, vqs: seq<Codebook>, t: seq<nat>,
                                          n: nat, slot: nat, j: nat, x: real, y: real)
    requires ValidBands(vqs, |target|) && Choice(vqs, t) && n <= |vqs| && |target| == |weights|
    requires slot < |target| && j < |target| && slot != j
    ensures SlotError(target[slot := x], weights[slot := y], vqs, t, n, j) == SlotError(target, weights, vqs, t, n, j)
    decreases n
  {
    hide Codebook.Entry;
    if n > 0 { SlotErrorLocal(target, weights, vqs, t, n - 1, slot, j, x, y); }
  }

  /** Unmasking a slot adds its error. */
  lemma {:induction false} TotalErrorUpdated(target: seq<real>, weights: seq<real>, vqs: seq<Codebook>, t: seq<nat>,
                                             slot: nat, x: real, y: real, size: nat)
    requires ValidBands(vqs, |target|) && Choice(vqs, t) && size <= |target| == |weights|
    requires slot < |target| && target[slot] == 0.0
    ensures TotalError(target[slot := x], weights[slot := y], vqs, t, |vqs|, size)
         == TotalError(target, weights, vqs, t, |vqs|, size)
            + if slot < size then SlotError(target[slot := x], weights[slot := y], vqs, t, |vqs|, slot) else 0.0
    decreases size
  {
    if size > 0 {
      if slot == size - 1 {
        assert SlotError(target, weights, vqs, t, |vqs|, slot) == 0.0;
      }
      hide SlotError;
      TotalErrorUpdated(target, weights, vqs, t, slot, x, y, size - 1);
      if slot != size - 1 { SlotErrorLocal(target, weights, vqs, t, |vqs|, slot, size - 1, x, y); }
    }
  }

  /** The metric of the band searches, summed. */
  ghost function MetricSum(target: seq<real>, weights: seq<real>, vqs: seq<Codebook>, t: seq<nat>, n: nat): real
    requires ValidBands(vqs, |target|) && Choice(vqs, t) && n <= |vqs| && |target| == |weights|
  {
    if n == 0 then 0.0
    else MetricSum(target, weights, vqs, t, n - 1)
         + Metric(vqs[n - 1], Band(target, vqs[n - 1]), Band(weights, vqs[n - 1]), t[n - 1], vqs[n - 1].k)
  }

  /** How much of band `c`'s metric lies below slot `size`. */
  ghost function Within(c: Codebook, size: nat): nat {
    if size <= c.offset then 0 else if size - c.offset <= c.k then size - c.offset else c.k
  }

  lemma {:induction false} NotCovered(target: seq<real>, weights: seq<real>, vqs: seq<Codebook>, t: seq<nat>,
                                      n: nat, slot: nat)
    requires ValidBands(vqs, |target|) && Choice(vqs, t) && n <= |vqs| && slot < |target| == |weights|
    requires forall b :: 0 <= b < n ==> !vqs[b].Covers(slot)
    ensures SlotError(target, weights, vqs, t, n, slot) == 0.0
    decreases n
  {
    if n > 0 && target[slot] != 0.0 { NotCovered(target, weights, vqs, t, n - 1, slot); }
  }

  /** Adding a band adds the term of its metric that belongs to a slot. */
  lemma SlotAdds(target: seq<real>, weights: seq<real>, vqs: seq<Codebook>, t: seq<nat>, n: nat, slot: nat)
    requires ValidBands(vqs, |target|) && Choice(vqs, t) && Disjoint(vqs) && n < |vqs| && slot < |target| == |weights|
    ensures var c := vqs[n];
      SlotError(target, weights, vqs, t, n + 1, slot) == SlotError(target, weights, vqs, t, n, slot)
        + if c.Covers(slot) then Term(c, Band(target, c), Band(weights, c), t[n], slot - c.offset) else 0.0
  {
    hide Codebook.Entry;
    var c := vqs[n];
    if c.Covers(slot) {
      NotCovered(target, weights, vqs, t, n, slot);
      assert Band(target, c)[slot - c.offset] == target[slot];
      assert Band(weights, c)[slot - c.offset] == weights[slot];
    }
  }

  lemma MetricOneMore(c: Codebook, vec: seq<real>, weights: seq<real>, j: nat, i: nat)
    requires c.Valid() && j < c.m && i < c.k == |vec| == |weights|
    ensures Metric(c, vec, weights, j, 0) == 0.0
    ensures Metric(c, vec, weights, j, i + 1) == Metric(c, vec, weights, j, i) + Term(c, vec, weights, j, i)
  {
    hide Term;
  }

  /** Adding a band adds its metric, slot by slot. */
  lemma {:induction false} BandAdds(target: seq<real>, weights: seq<real>, vqs: seq<Codebook>, t: seq<nat>, n: nat,
                                    size: nat)
    requires ValidBands(vqs, |target|) && Choice(vqs, t) && Disjoint(vqs) && n < |vqs| && size <= |target| == |weights|
    ensures TotalError(target, weights, vqs, t, n + 1, size)
         == TotalError(target, weights, vqs, t, n, size)
            + Metric(vqs[n], Band(target, vqs[n]), Band(weights, vqs[n]), t[n], Within(vqs[n], size))
    decreases size
  {
    hide SlotError, Term, Disjoint;
    if size > 0 {
      var slot, c := size - 1, vqs[n];
      BandAdds(target, weights, vqs, t, n, slot);
      SlotAdds(target, weights, vqs, t, n, slot);
      if c.Covers(slot) {
        MetricOneMore(c, Band(target, c), Band(weights, c), t[n], slot - c.offset);
      }
    }
  }

  /** With disjoint bands the error of a choice is the sum of the band metrics. */
  lemma {:induction false} ErrorIsMetricSum(target: seq<real>, weights: seq<real>, vqs: seq<Codebook>, t: seq<nat>,
                                            n: nat)
    requires ValidBands(vqs, |target|) && Choice(vqs, t) && Disjoint(vqs) && n <= |vqs| && |target| == |weights|
    ensures TotalError(target, weights, vqs, t, n, |target|) == MetricSum(target, weights, vqs, t, n)
    decreases n
  {
    if n > 0 {
      ErrorIsMetricSum(target, weights, vqs, t, n - 1);
      BandAdds(target, weights, vqs, t, n - 1, |target|);
    } else {
      NoBandsNoError(target, weights, vqs, t, |target|);
    }
  }

  lemma {:induction false} NoBandsNoError(target: seq<real>, weights: seq<real>, vqs: seq<Codebook>, t: seq<nat>,
                                          size: nat)
    requires ValidBands(vqs, |target|) && Choice(vqs, t) && size <= |target| == |weights|
    ensures TotalError(target, weights, vqs, t, 0, size) == 0.0
    decreases size
  {
    if size > 0 { NoBandsNoError(target, weights, vqs, t, size - 1); }
  }

  /** `t` was chosen band by band, each search looking at what the bands before it left. */
  ghost predicate ChosenBandByBand(target: seq<real>, weights: seq<real>, vqs: seq<Codebook>, t: seq<nat>)
    requires ValidBands(vqs, |target|) && |target| == |weights|
  {
    && Choice(vqs, t)
    && forall b :: 0 <= b < |vqs| ==>
         FirstBest(vqs[b], Band(TargetAfter(target, vqs, t, b), vqs[b]), Band(weights, vqs[b]), t[b], vqs[b].m)
  }

  /** The search of band `c` finds something below its starting value. */
  ghost predicate Findable(target: seq<real>, weights: seq<real>, c: Codebook)
    requires c.Valid() && c.offset + c.k <= |target| == |weights|
  {
    exists j :: 0 <= j < c.m && Metric(c, Band(target, c), Band(weights, c), j, c.k) < METRIC_LIMIT
  }

  lemma ChosenIsChoice(target: seq<real>, weights: seq<real>, vqs: seq<Codebook>, t: seq<nat>)
    requires ValidBands(vqs, |target|) && |target| == |weights| && ChosenBandByBand(target, weights, vqs, t)
    ensures Choice(vqs, t)
  {
  }

  lemma ChosenIsLeast(target: seq<real>, weights: seq<real>, vqs: seq<Codebook>, t: seq<nat>, j: nat, b: nat)
    requires ValidBands(vqs, |target|) && |target| == |weights| && Disjoint(vqs) && b < |vqs| && j < vqs[b].m
    requires ChosenBandByBand(target, weights, vqs, t) && Findable(target, weights, vqs[b])
    ensures Metric(vqs[b], Band(target, vqs[b]), Band(weights, vqs[b]), t[b], vqs[b].k)
         <= Metric(vqs[b], Band(target, vqs[b]), Band(weights, vqs[b]), j, vqs[b].k)
  {
    hide Metric, TargetAfter, Disjoint;
    BandSeesOriginal(target, vqs, t, b);
  }

  lemma {:induction false} SumIsLeast(target: seq<real>, weights: seq<real>, vqs: seq<Codebook>, t: seq<nat>,
                                      u: seq<nat>, n: nat)
    requires ValidBands(vqs, |target|) && |target| == |weights| && Disjoint(vqs) && n <= |vqs|
    requires ChosenBandByBand(target, weights, vqs, t) && Choice(vqs, u)
    requires forall b :: 0 <= b < |vqs| ==> Findable(target, weights, vqs[b])
    ensures MetricSum(target, weights, vqs, t, n) <= MetricSum(target, weights, vqs, u, n)
    decreases n
  {
    hide Metric, Disjoint, ChosenBandByBand, Findable;
    ChosenIsChoice(target, weights, vqs, t);
    if n > 0 {
      SumIsLeast(target, weights, vqs, t, u, n - 1);
      ChosenIsLeast(target, weights, vqs, t, u[n - 1], n - 1);
    }
  }

  /** The independent searches of disjoint bands find a choice whose error over the whole
      vector is least among all choices of one codeword for each band. */
  lemma BandSearchesAreOptimal(target: seq<real>, weights: seq<real>, vqs: seq<Codebook>, t: seq<nat>, u: seq<nat>)
    requires ValidBands(vqs, |target|) && |target| == |weights| && Disjoint(vqs)
    requires ChosenBandByBand(target, weights, vqs, t) && Choice(vqs, u)
    requires forall b :: 0 <= b < |vqs| ==> Findable(target, weights, vqs[b])
    ensures TotalError(target, weights, vqs, t, |vqs|, |target|) <= TotalError(target, weights, vqs, u, |vqs|, |target|)
  {
    ErrorIsMetricSum(target, weights, vqs, t, |vqs|);
    ErrorIsMetricSum(target, weights, vqs, u, |vqs|);
    SumIsLeast(target, weights, vqs, t, u, |vqs|);
  }
}
