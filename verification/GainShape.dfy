/** Gain/shape codebook search: each codeword is compared after the additive gain that fits
    it best to the unmasked places of the vector.
 */
module GainShape {
  import opened Arithmetic
  import opened VectorQuantiser

  /** A gain, or the not-a-number that `0/0` leaves when every place is masked. */
  datatype Gain = Gain(value: real) | NaN

  /** How many of the first `n` places are unmasked. */
  function Count(vec: seq<real>, n: nat): nat
    requires n <= |vec|
  {
    if n == 0 then 0 else Count(vec, n - 1) + if vec[n - 1] != 0.0 then 1 else 0
  }

  /** The sum over the unmasked places of the vector, and of the codeword. */
  function SumVec(vec: seq<real>, n: nat): real
    requires n <= |vec|
  {
    if n == 0 then 0.0 else SumVec(vec, n - 1) + vec[n - 1]
  }

  function SumEntry(c: Codebook, vec: seq<real>, j: nat, n: nat): real
    requires c.Valid() && j < c.m && n <= c.k == |vec|
  {
    if n == 0 then 0.0 else SumEntry(c, vec, j, n - 1) + if vec[n - 1] != 0.0 then c.Entry(j, n - 1) else 0.0
  }

  /** The squared error of codeword `j` with `gain` added. */
  function ErrorAt(c: Codebook, vec: seq<real>, j: nat, gain: real, n: nat): real
    requires c.Valid() && j < c.m && n <= c.k == |vec|
  {
    if n == 0 then 0.0
    else ErrorAt(c, vec, j, gain, n - 1) + if vec[n - 1] != 0.0 then Sq(vec[n - 1] - c.Entry(j, n - 1) - gain) else 0.0
  }

  /** The same, weighted. */
  function MetricAt(c: Codebook, vec: seq<real>, weights: seq<real>, j: nat, gain: real, n: nat): real
    requires c.Valid() && j < c.m && n <= c.k == |vec| == |weights|
  {
    if n == 0 then 0.0
    else MetricAt(c, vec, weights, j, gain, n - 1)
         + if vec[n - 1] != 0.0
           then var diff := vec[n - 1] - c.Entry(j, n - 1) - gain; weights[n - 1] * diff * diff
           else 0.0
  }

  /** The gain the source computes: the mean difference. */
  function OptimumGain(c: Codebook, vec: seq<real>, j: nat): Gain
    requires c.Valid() && j < c.m && c.k == |vec|
  {
    if Count(vec, c.k) == 0 then NaN
    else Gain((SumVec(vec, c.k) - SumEntry(c, vec, j, c.k)) / Count(vec, c.k) as real)
  }

  // ----- the gain is optimal

  /** The change in the error of `k` places with difference sum `a`, when the gain moves from
      `g` to `h`: a square and a cross term. */
  ghost function Shift(k: real, a: real, g: real, h: real): real {
    k * Sq(h - g) - 2.0 * (h - g) * (a - k * g)
  }

  lemma ShiftOne(k: real, a: real, d: real, g: real, h: real)
    ensures Shift(k + 1.0, a + d, g, h) == Shift(k, a, g, h) + Sq(d - h) - Sq(d - g)
  {
  }

  lemma {:induction false} ErrorShift(c: Codebook, vec: seq<real>, j: nat, g: real, h: real, n: nat)
    requires c.Valid() && j < c.m && n <= c.k == |vec|
    ensures ErrorAt(c, vec, j, h, n) == ErrorAt(c, vec, j, g, n)
      + Shift(Count(vec, n) as real, SumVec(vec, n) - SumEntry(c, vec, j, n), g, h)
  {
    hide Codebook.Entry, Sq, Shift;
    if n == 0 {
      ShiftNone(g, h);
    } else {
      ErrorShift(c, vec, j, g, h, n - 1);
      if vec[n - 1] != 0.0 {
        var k, a := Count(vec, n - 1) as real, SumVec(vec, n - 1) - SumEntry(c, vec, j, n - 1);
        var d := vec[n - 1] - c.Entry(j, n - 1);
        ShiftOne(k, a, d, g, h);
        assert a + d == SumVec(vec, n) - SumEntry(c, vec, j, n);
      }
    }
  }

  lemma ShiftNone(g: real, h: real)
    ensures Shift(0.0, 0.0, g, h) == 0.0
  {
  }

  /** No other gain gives a smaller unweighted error, whatever the codeword. */
  lemma OptimumGainIsOptimal(c: Codebook, vec: seq<real>, j: nat, h: real)
    requires c.Valid() && j < c.m && c.k == |vec| && OptimumGain(c, vec, j).Gain?
    ensures ErrorAt(c, vec, j, OptimumGain(c, vec, j).value, c.k) <= ErrorAt(c, vec, j, h, c.k)
    ensures ErrorAt(c, vec, j, OptimumGain(c, vec, j).value, c.k) == ErrorAt(c, vec, j, h, c.k) ==>
      h == OptimumGain(c, vec, j).value
  {
    hide Codebook.Entry, ErrorAt, SumVec, SumEntry;
    var g := OptimumGain(c, vec, j).value;
    var k := Count(vec, c.k) as real;
    ErrorShift(c, vec, j, g, h, c.k);
    assert k * g == SumVec(vec, c.k) - SumEntry(c, vec, j, c.k);
    SquareScaled(k, h - g);
  }

  lemma SquareScaled(k: real, e: real)
    requires k >= 1.0
    ensures k * Sq(e) >= 0.0 && (k * Sq(e) == 0.0 ==> e == 0.0)
  {
    if e > 0.0 {
      Positive(k, e);
      Positive(k * e, e);
      assert k * Sq(e) == k * e * e;
    } else if e < 0.0 {
      Positive(k, -e);
      Positive(k * -e, -e);
      assert k * Sq(e) == k * -e * -e;
    }
  }

  // ----- the search

  /** The metric of a codeword at its own gain. */
  function GainMetric(c: Codebook, vec: seq<real>, weights: seq<real>, j: nat): real
    requires c.Valid() && j < c.m && c.k == |vec| == |weights|
  {
    match OptimumGain(c, vec, j)
    case Gain(g) => MetricAt(c, vec, weights, j, g, c.k)
    case NaN => 0.0
  }

  function GainError(c: Codebook, vec: seq<real>, j: nat): real
    requires c.Valid() && j < c.m && c.k == |vec|
  {
    match OptimumGain(c, vec, j)
    case Gain(g) => ErrorAt(c, vec, j, g, c.k)
    case NaN => 0.0
  }

  ghost predicate FirstBestGain(c: Codebook, vec: seq<real>, weights: seq<real>, best: nat, n: nat)
    requires c.Valid() && n <= c.m && c.k == |vec| == |weights|
  {
    && best < n && GainMetric(c, vec, weights, best) < METRIC_LIMIT
    && (forall j :: 0 <= j < n ==> GainMetric(c, vec, weights, best) <= GainMetric(c, vec, weights, j))
    && (forall j :: 0 <= j < best ==> GainMetric(c, vec, weights, best) < GainMetric(c, vec, weights, j))
  }

  /** No metric among the first `n` is below the value the search starts from. */
  ghost predicate NoneFound(c: Codebook, vec: seq<real>, weights: seq<real>, n: nat)
    requires c.Valid() && n <= c.m && c.k == |vec| == |weights|
  {
    forall j :: 0 <= j < n ==> GainMetric(c, vec, weights, j) >= METRIC_LIMIT
  }

  /** Returns the first codeword of least metric at its own gain, together with that gain. If
      none is below the limit the index is 0 and the caller's gain is left as it was. */
  method GainShapeVqAmp(c: Codebook, vec: seq<real>, weights: seq<real>, se: real, gain0: Gain)
    returns (besti: nat, newSe: real, bestGain: Gain)
    requires c.Valid() && c.k == |vec| == |weights|
    ensures NoneFound(c, vec, weights, c.m) ==> besti == 0 && bestGain == gain0 && newSe == se + METRIC_LIMIT
    ensures !NoneFound(c, vec, weights, c.m) ==>
      && FirstBestGain(c, vec, weights, besti, c.m)
      && bestGain == OptimumGain(c, vec, besti) && newSe == se + GainError(c, vec, besti)
  {
    hide GainMetric, GainError, Codebook.Entry, MetricAt, ErrorAt, Count, SumVec, SumEntry, OptimumGain;
    besti, bestGain := 0, gain0;
    var bestMetric, bestError := METRIC_LIMIT, METRIC_LIMIT;
    for j := 0 to c.m
      invariant bestMetric == METRIC_LIMIT ==>
        NoneFound(c, vec, weights, j) && besti == 0 && bestGain == gain0 && bestError == METRIC_LIMIT
      invariant bestMetric != METRIC_LIMIT ==>
        && bestMetric < METRIC_LIMIT && FirstBestGain(c, vec, weights, besti, j)
        && bestMetric == GainMetric(c, vec, weights, besti)
        && bestGain == OptimumGain(c, vec, besti) && bestError == GainError(c, vec, besti)
    {
      var metric, error, gain := Measure(c, vec, weights, j);
      if metric < bestMetric {
        bestError, bestMetric, bestGain, besti := error, metric, gain, j;
      }
    }
    newSe := se + bestError;
  }

  /** Codeword `j` with `gain` added to each of its values. */
  ghost function Raised(c: Codebook, j: nat, gain: real): (word: seq<real>)
    requires c.Valid() && j < c.m
    ensures |word| == c.k
  {
    seq(c.k, i requires 0 <= i < c.k => Word(c, j)[i] + gain)
  }

  lemma {:induction false} RaisedPrefix(c: Codebook, vec: seq<real>, weights: seq<real>, j: nat, gain: real, n: nat)
    requires c.Valid() && j < c.m && n <= c.k == |vec| == |weights|
    ensures MetricAt(c, vec, weights, j, gain, n) == Distance(Raised(c, j, gain)[..n], vec[..n], weights[..n])
    ensures ErrorAt(c, vec, j, gain, n) == Distance(Raised(c, j, gain)[..n], vec[..n], Ones(c.k)[..n])
  {
    hide Codebook.Entry, Word, Distance;
    var word := Raised(c, j, gain);
    DistanceStep(word, vec, weights, n);
    DistanceStep(word, vec, Ones(c.k), n);
    if n > 0 {
      RaisedPrefix(c, vec, weights, j, gain, n - 1);
      EntryOfWord(c, j, n - 1);
      Square(weights[n - 1], vec[n - 1] - c.Entry(j, n - 1) - gain);
      SquareOfNegated(word[n - 1] - vec[n - 1], vec[n - 1] - c.Entry(j, n - 1) - gain);
    }
  }

  lemma SquareOfNegated(x: real, y: real)
    requires x == -y
    ensures Sq(x) == Sq(y)
  {
  }

  /** What the search compares: the distances of the codewords, each raised by its own optimum
      gain, from the unmasked places; no distance at all when every place is masked. */
  lemma GainMetricOnWords(c: Codebook, vec: seq<real>, weights: seq<real>, j: nat)
    requires c.Valid() && j < c.m && c.k == |vec| == |weights|
    ensures OptimumGain(c, vec, j).NaN? <==> forall i :: 0 <= i < c.k ==> vec[i] == 0.0
    ensures OptimumGain(c, vec, j).NaN? ==>
      GainMetric(c, vec, weights, j) == 0.0 == GainError(c, vec, j)
    ensures OptimumGain(c, vec, j).Gain? ==>
      var word := Raised(c, j, OptimumGain(c, vec, j).value);
      && GainMetric(c, vec, weights, j) == Distance(word, vec, weights)
      && GainError(c, vec, j) == Distance(word, vec, Ones(c.k))
  {
    hide Codebook.Entry, Word, MetricAt, ErrorAt, Distance;
    NothingCounted(vec, c.k);
    if OptimumGain(c, vec, j).Gain? {
      var word := Raised(c, j, OptimumGain(c, vec, j).value);
      RaisedPrefix(c, vec, weights, j, OptimumGain(c, vec, j).value, c.k);
      assert word[..c.k] == word && vec[..c.k] == vec && weights[..c.k] == weights;
      assert Ones(c.k)[..c.k] == Ones(c.k);
    }
  }

  lemma {:induction false} NothingCounted(vec: seq<real>, n: nat)
    requires n <= |vec|
    ensures Count(vec, n) == 0 <==> forall i :: 0 <= i < n ==> vec[i] == 0.0
  {
    if n > 0 { NothingCounted(vec, n - 1); }
  }

  lemma GainStep(c: Codebook, vec: seq<real>, weights: seq<real>, j: nat, g: real, i: nat)
    requires c.Valid() && j < c.m && i < c.k == |vec| == |weights|
    ensures vec[i] == 0.0 ==>
      && MetricAt(c, vec, weights, j, g, i + 1) == MetricAt(c, vec, weights, j, g, i)
      && ErrorAt(c, vec, j, g, i + 1) == ErrorAt(c, vec, j, g, i)
    ensures vec[i] != 0.0 ==>
      var diff := vec[i] - c.Entry(j, i) - g;
      && MetricAt(c, vec, weights, j, g, i + 1) == MetricAt(c, vec, weights, j, g, i) + weights[i] * diff * diff
      && ErrorAt(c, vec, j, g, i + 1) == ErrorAt(c, vec, j, g, i) + diff * diff
  {
  }

  lemma GainStart(c: Codebook, vec: seq<real>, weights: seq<real>, j: nat, g: real)
    requires c.Valid() && j < c.m && c.k == |vec| == |weights|
    ensures MetricAt(c, vec, weights, j, g, 0) == 0.0 == ErrorAt(c, vec, j, g, 0)
  {
  }

  /** The two inner loops: the optimum gain of one codeword, then its error at that gain. */
  method Measure(c: Codebook, vec: seq<real>, weights: seq<real>, j: nat) returns (metric: real, error: real,
                 gain: Gain)
    requires c.Valid() && j < c.m && c.k == |vec| == |weights|
    ensures gain == OptimumGain(c, vec, j)
    ensures metric == GainMetric(c, vec, weights, j) && error == GainError(c, vec, j)
  {
    hide Codebook.Entry, MetricAt, ErrorAt;
    var sumAm, sumCb, m := 0.0, 0.0, 0;
    for i := 0 to c.k
      invariant m == Count(vec, i) && sumAm == SumVec(vec, i) && sumCb == SumEntry(c, vec, j, i)
    {
      if vec[i] != 0.0 {
        m := m + 1;
        sumAm := sumAm + vec[i];
        sumCb := sumCb + c.Entry(j, i);
      }
    }
    metric, error := 0.0, 0.0;
    if m == 0 {
      return 0.0, 0.0, NaN;  // every place is masked: the second loop adds nothing
    }
    var g := (sumAm - sumCb) / m as real;
    GainStart(c, vec, weights, j, g);
    for i := 0 to c.k
      invariant metric == MetricAt(c, vec, weights, j, g, i) && error == ErrorAt(c, vec, j, g, i)
    {
      GainStep(c, vec, weights, j, g, i);
      if vec[i] != 0.0 {
        var diff := vec[i] - c.Entry(j, i) - g;
        error := error + diff * diff;
        metric := metric + weights[i] * diff * diff;
      }
    }
    gain := Gain(g);
  }
}
