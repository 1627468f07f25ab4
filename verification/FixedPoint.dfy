/** The fixed-point complex arithmetic of the FFT, at both widths, with the C conversions
    written out: a product is formed in a type of twice the width and a result is converted
    to the sample type, wrapping if it does not fit.
 */
module FixedPoint {
  import opened Arithmetic

  datatype Width = W16 | W32

  /** `2^FRACBITS` */
  function One(w: Width): (n: int)
    ensures n == SampMax(w) + 1
  {
    if w == W16 then 32768 else 2147483648
  }

  function SampMax(w: Width): int {
    if w == W16 then 32767 else 2147483647
  }

  /** The largest value of `SAMPPROD`. */
  function ProdMax(w: Width): int {
    if w == W16 then 2147483647 else 9223372036854775807
  }

  /** `1 << (FRACBITS-1)` */
  function Half(w: Width): (n: int)
    ensures 2 * n == One(w)
  {
    if w == W16 then 16384 else 1073741824
  }

  predicate IsSample(w: Width, x: int) {
    -SampMax(w) <= x <= SampMax(w)
  }

  predicate FitsProd(w: Width, x: int) {
    -ProdMax(w) - 1 <= x <= ProdMax(w)
  }

  /** Conversion to the sample type, modulo its range. */
  function ToSample(w: Width, x: int): int {
    (x + One(w)) % (2 * One(w)) - One(w)
  }

  /** `sround` before the conversion: the arithmetic shift rounds towards minus infinity. */
  function Rounded(w: Width, x: int): int {
    (x + Half(w)) / One(w)
  }

  function SRound(w: Width, x: int): int {
    ToSample(w, Rounded(w, x))
  }

  /** `y` is `x` scaled down to the nearest sample value: within one half, in units of `One`. */
  predicate Nearest(w: Width, y: int, x: int) {
    -Half(w) < y * One(w) - x <= Half(w)
  }

  /** Rounding is to the nearest, at most one half away. */
  lemma RoundedNearest(w: Width, x: int)
    ensures Nearest(w, Rounded(w, x), x)
  {
  }

  /** The products whose rounded value the sample type can hold. */
  predicate RoundsInside(w: Width, x: int) {
    -One(w) * One(w) - Half(w) <= x < One(w) * One(w) - Half(w)
  }

  /** The conversion keeps the rounded value, and the result is the nearest one, exactly for
      the products in that interval; for every other product it wraps. */
  lemma WrapsExactlyOutside(w: Width, x: int)
    ensures SRound(w, x) == Rounded(w, x) <==> RoundsInside(w, x)
    ensures Nearest(w, SRound(w, x), x) <==> RoundsInside(w, x)
  {
    RoundedNearest(w, x);
    RoundedBounds(w, x);
    InSampleType(w, Rounded(w, x));
  }

  lemma RoundedBounds(w: Width, x: int)
    ensures -One(w) <= Rounded(w, x) < One(w) <==> RoundsInside(w, x)
  {
  }

  lemma InSampleType(w: Width, y: int)
    ensures -One(w) <= ToSample(w, y) < One(w) && (ToSample(w, y) - y) % (2 * One(w)) == 0
    ensures ToSample(w, y) == y <==> -One(w) <= y < One(w)
  {
  }

  /** A scaled product of samples and a number up to one stays a sample when rounded. */
  lemma RoundedInRange(w: Width, x: int)
    requires -SampMax(w) * One(w) <= x <= SampMax(w) * One(w)
    ensures RoundsInside(w, x) && IsSample(w, Rounded(w, x)) && SRound(w, x) == Rounded(w, x)
  {
    WrapsExactlyOutside(w, x);
  }

  // ----- complex multiplication

  datatype Cpx = Cpx(r: int, i: int)

  predicate IsCpx(w: Width, a: Cpx) {
    IsSample(w, a.r) && IsSample(w, a.i)
  }

  function Norm2(a: Cpx): int {
    a.r * a.r + a.i * a.i
  }

  /** The exact products the macro rounds. */
  function RePart(a: Cpx, b: Cpx): int {
    a.r * b.r - a.i * b.i
  }

  function ImPart(a: Cpx, b: Cpx): int {
    a.r * b.i + a.i * b.r
  }

  /** The two parts are those of the complex product: a number times its conjugate is its norm,
      times `i` it makes a quarter turn, and products associate. */
  lemma ProductIsComplex(a: Cpx, b: Cpx, c: Cpx)
    ensures RePart(a, Cpx(a.r, -a.i)) == Norm2(a) && ImPart(a, Cpx(a.r, -a.i)) == 0
    ensures RePart(a, Cpx(0, 1)) == -a.i && ImPart(a, Cpx(0, 1)) == a.r
    ensures var ab, bc := Cpx(RePart(a, b), ImPart(a, b)), Cpx(RePart(b, c), ImPart(b, c));
      RePart(ab, c) == RePart(a, bc) && ImPart(ab, c) == ImPart(a, bc)
  {
  }

  /** `C_MUL`. Each part is within one half of the exact scaled product precisely when that
      product is in range; otherwise it is off by whole turns of the sample type. */
  method CMul(w: Width, a: Cpx, b: Cpx) returns (m: Cpx)
    ensures Nearest(w, m.r, RePart(a, b)) <==> RoundsInside(w, RePart(a, b))
    ensures Nearest(w, m.i, ImPart(a, b)) <==> RoundsInside(w, ImPart(a, b))
    ensures -One(w) <= m.r < One(w) && (m.r - Rounded(w, RePart(a, b))) % (2 * One(w)) == 0
    ensures -One(w) <= m.i < One(w) && (m.i - Rounded(w, ImPart(a, b))) % (2 * One(w)) == 0
    ensures Norm2(a) <= SampMax(w) * SampMax(w) && Norm2(b) <= One(w) * One(w) ==> IsCpx(w, m)
  {
    var re := a.r * b.r - a.i * b.i;
    var im := a.r * b.i + a.i * b.r;
    m := Cpx(SRound(w, re), SRound(w, im));
    assert re == RePart(a, b) && im == ImPart(a, b);
    hide RePart, ImPart, RoundsInside, Nearest, Norm2;
    WrapsExactlyOutside(w, re);
    WrapsExactlyOutside(w, im);
    InSampleType(w, Rounded(w, re));
    InSampleType(w, Rounded(w, im));
    if Norm2(a) <= SampMax(w) * SampMax(w) && Norm2(b) <= One(w) * One(w) {
      MultiplicationIsAccurate(w, a, b);
    }
  }

  lemma ProductBound(x: int, y: int, m: int)
    requires -m <= x <= m && -m <= y <= m
    ensures -m * m <= x * y <= m * m
  {
    assert (m - x) * (m + y) >= 0 && (m + x) * (m - y) >= 0;
    assert (m - x) * (m - y) >= 0 && (m + x) * (m + y) >= 0;
  }

  /** For all samples the products, their sum and the rounding term fit the product type. */
  lemma IntermediatesFit(w: Width, a: Cpx, b: Cpx)
    requires IsCpx(w, a) && IsCpx(w, b)
    ensures FitsProd(w, a.r * b.r) && FitsProd(w, a.i * b.i) && FitsProd(w, a.r * b.i) && FitsProd(w, a.i * b.r)
    ensures FitsProd(w, RePart(a, b)) && FitsProd(w, RePart(a, b) + Half(w))
    ensures FitsProd(w, ImPart(a, b)) && FitsProd(w, ImPart(a, b) + Half(w))
  {
    var m := SampMax(w);
    ProductBound(a.r, b.r, m);
    ProductBound(a.i, b.i, m);
    ProductBound(a.r, b.i, m);
    ProductBound(a.i, b.r, m);
    assert 2 * (m * m) + Half(w) <= ProdMax(w);
  }

  /** Lagrange's identity for two complex numbers. */
  lemma Lagrange(a: Cpx, b: Cpx)
    ensures Norm2(a) * Norm2(b) == RePart(a, b) * RePart(a, b) + ImPart(a, b) * ImPart(a, b)
  {
  }

  lemma Regroup(p: int, q: int)
    ensures (p * p) * (q * q) == (p * q) * (p * q)
  {
  }

  lemma SquareBound(x: int, k: int)
    requires 0 <= k && x * x <= k * k
    ensures -k <= x <= k
  {
  }

  /** Cauchy and Schwarz: the exact parts are bounded by the product of the norms. */
  lemma PartsBounded(a: Cpx, b: Cpx, p: int, q: int)
    requires 0 <= p && 0 <= q && Norm2(a) <= p * p && Norm2(b) <= q * q
    ensures -(p * q) <= RePart(a, b) <= p * q && -(p * q) <= ImPart(a, b) <= p * q
  {
    hide RePart, ImPart;
    var re, im := RePart(a, b), ImPart(a, b);
    Lagrange(a, b);
    assert Norm2(a) >= 0 && Norm2(b) >= 0;
    NormProduct(Norm2(a), Norm2(b), p * p, q * q);
    Regroup(p, q);
    assert re * re >= 0 && im * im >= 0;
    SquareBound(re, p * q);
    SquareBound(im, p * q);
  }

  lemma NormProduct(a: int, b: int, p: int, q: int)
    requires 0 <= a <= p && 0 <= b <= q
    ensures a * b <= p * q
  {
  }

  /** For all operands: both parts come out without wrapping, and both as the nearest values,
      if and only if both exact products are in range. */
  lemma MultiplicationExactly(w: Width, a: Cpx, b: Cpx)
    ensures (SRound(w, RePart(a, b)) == Rounded(w, RePart(a, b)) && SRound(w, ImPart(a, b)) == Rounded(w, ImPart(a, b)))
       <==> RoundsInside(w, RePart(a, b)) && RoundsInside(w, ImPart(a, b))
    ensures Nearest(w, SRound(w, RePart(a, b)), RePart(a, b)) && Nearest(w, SRound(w, ImPart(a, b)), ImPart(a, b))
       <==> RoundsInside(w, RePart(a, b)) && RoundsInside(w, ImPart(a, b))
  {
    hide RePart, ImPart, SRound, Rounded, RoundsInside, Nearest;
    WrapsExactlyOutside(w, RePart(a, b));
    WrapsExactlyOutside(w, ImPart(a, b));
  }

  /** A sample vector times a number of norm up to one meets the condition: no result wraps,
      and each is within one half of the exact scaled product. */
  lemma MultiplicationIsAccurate(w: Width, a: Cpx, b: Cpx)
    requires Norm2(a) <= SampMax(w) * SampMax(w) && Norm2(b) <= One(w) * One(w)
    ensures IsSample(w, SRound(w, RePart(a, b))) && Nearest(w, SRound(w, RePart(a, b)), RePart(a, b))
    ensures IsSample(w, SRound(w, ImPart(a, b))) && Nearest(w, SRound(w, ImPart(a, b)), ImPart(a, b))
  {
    hide RePart, ImPart, Nearest, Norm2, SRound, Rounded;
    PartsBounded(a, b, SampMax(w), One(w));
    RoundedInRange(w, RePart(a, b));
    RoundedInRange(w, ImPart(a, b));
    MultiplicationExactly(w, a, b);
  }

  /** Two samples of full size on both axes are out of range, and wrap around. */
  lemma FullSizeSamplesWrap(w: Width)
    ensures var a := Cpx(SampMax(w), SampMax(w));
      IsCpx(w, a) && !RoundsInside(w, ImPart(a, a)) && SRound(w, ImPart(a, a)) == -4
  {
  }

  // ----- twiddle factors

  function Twiddle(w: Width, c: real, s: real): Cpx {
    Cpx((0.5 + SampMax(w) as real * c).Floor, (0.5 + SampMax(w) as real * s).Floor)
  }

  /** A rounded point of the circle of radius `m` has norm at most `m + 1`. */
  lemma RoundedCircle(m: real, c: real, s: real, d: real, e: real)
    requires m >= 1.0 && Sq(c) + Sq(s) == 1.0 && -0.5 <= d <= 0.5 && -0.5 <= e <= 0.5
    ensures Sq(m * c + d) + Sq(m * s + e) <= Sq(m + 1.0)
  {
    Binomial(m, c, d);
    Binomial(m, s, e);
    Binomial(m, 1.0, 1.0);
    HalfSquare(d, Sq(d));
    HalfSquare(e, Sq(e));
    DotBound(c, s, d, e, Sq(c), Sq(s), Sq(d), Sq(e));
    Collected(m, Sq(m), Sq(c), Sq(s), c * d, s * e);
  }

  lemma Binomial(m: real, c: real, d: real)
    ensures Sq(m * c + d) == Sq(m) * Sq(c) + 2.0 * m * (c * d) + Sq(d)
  {
  }

  lemma Collected(m: real, k: real, x: real, y: real, u: real, v: real)
    requires m >= 1.0 && x + y == 1.0 && u + v <= 1.0
    ensures k * x + 2.0 * m * u + k * y + 2.0 * m * v <= k + 2.0 * m
  {
  }

  lemma NonNegative(a: real, b: real, y: real)
    requires a >= 0.0 && b >= 0.0 && y == a * b
    ensures y >= 0.0
  {
  }

  lemma HalfSquare(d: real, y: real)
    requires -0.5 <= d <= 0.5 && y == d * d
    ensures y <= 0.25
  {
    var p, q := 0.5 - d, 0.5 + d;
    NonNegative(p, q, p * q);
    assert p * q == 0.25 - d * d;
  }

  lemma DotBound(c: real, s: real, d: real, e: real, cc: real, ss: real, dd: real, ee: real)
    requires cc == c * c && ss == s * s && dd == d * d && ee == e * e
    requires cc + ss == 1.0 && dd <= 0.25 && ee <= 0.25
    ensures c * d + s * e <= 1.0
  {
    TwiceProduct(c, d, cc, dd, c * d);
    TwiceProduct(s, e, ss, ee, s * e);
  }

  lemma TwiceProduct(c: real, d: real, cc: real, dd: real, y: real)
    requires cc == c * c && dd == d * d && y == c * d
    ensures 2.0 * y <= cc + dd
  {
  }

  /** Every twiddle factor has norm at most `2^FRACBITS`, so multiplying by it is accurate
      and never wraps. */
  lemma TwiddlesAreSafe(w: Width, c: real, s: real, a: Cpx)
    requires Sq(c) + Sq(s) == 1.0 && Norm2(a) <= SampMax(w) * SampMax(w)
    ensures Norm2(Twiddle(w, c, s)) <= One(w) * One(w)
    ensures var b, m := Twiddle(w, c, s), SampMax(w) as real;
      -0.5 <= b.r as real - m * c <= 0.5 && -0.5 <= b.i as real - m * s <= 0.5
    ensures var b := Twiddle(w, c, s);
      IsSample(w, SRound(w, RePart(a, b))) && IsSample(w, SRound(w, ImPart(a, b)))
  {
    var m := SampMax(w) as real;
    var b := Twiddle(w, c, s);
    var d, e := b.r as real - m * c, b.i as real - m * s;
    RoundedCircle(m, c, s, d, e);
    assert b.r as real == m * c + d && b.i as real == m * s + e;
    assert Norm2(b) as real == Sq(b.r as real) + Sq(b.i as real) by { NormAsReal(b); }
    assert (One(w) * One(w)) as real == Sq(m + 1.0);
    MultiplicationIsAccurate(w, a, b);
  }

  lemma NormAsReal(b: Cpx)
    ensures Norm2(b) as real == Sq(b.r as real) + Sq(b.i as real)
  {
  }

  // ----- scaling before additions

  /** `SAMP_MAX / k` */
  function Reciprocal(w: Width, k: nat): (q: int)
    requires k >= 1
    ensures q >= 0
  {
    SampMax(w) / k
  }

  /** `DIVSCALAR` */
  function DivScalar(w: Width, x: int, k: nat): int
    requires k >= 1
  {
    SRound(w, x * Reciprocal(w, k))
  }

  /** A sample divided by `k` is at most `SAMP_MAX / k` in size, and within one half of the
      product with the reciprocal. */
  lemma DividedIsSmall(w: Width, x: int, k: nat)
    requires IsSample(w, x) && k >= 1
    ensures -Reciprocal(w, k) <= DivScalar(w, x, k) <= Reciprocal(w, k)
    ensures Nearest(w, DivScalar(w, x, k), x * Reciprocal(w, k))
  {
    var q, p := Reciprocal(w, k), x * Reciprocal(w, k);
    QuotientSmall(SampMax(w), k);
    ScaledBetween(x, SampMax(w), q);
    ScaledUp(q, SampMax(w), One(w));
    assert -(SampMax(w) * One(w)) <= p <= SampMax(w) * One(w);
    RoundedInRange(w, p);
    RoundedNearest(w, p);
    RoundedWithin(w, p, q);
  }

  /** Dividing by `k` and multiplying back misses the sample by less than one and a half times
      `k`: half a unit for the rounding, one for the reciprocal. */
  lemma DividedIsQuotient(w: Width, x: int, k: nat)
    requires IsSample(w, x) && k >= 1
    ensures -3 * k < 2 * (k * DivScalar(w, x, k) - x) < 3 * k
  {
    DividedIsSmall(w, x, k);
    var one, q, y := One(w), Reciprocal(w, k), DivScalar(w, x, k);
    var d := k * y - x;
    var round, short := y * one - x * q, one - k * q;
    assert 1 <= short <= k by { RemainderSmall(SampMax(w), k); }
    assert -Half(w) <= round <= Half(w);
    hide *;
    HalfIs(w);
    Missed(one, k, x, y, q);
    MissBound(one, k, x, round, short, d, w);
  }

  lemma HalfIs(w: Width)
    ensures 2 * Half(w) == One(w) == SampMax(w) + 1 && One(w) > 1
  {
  }

  lemma RemainderSmall(m: int, k: nat)
    requires k >= 1 && m >= 0
    ensures 0 <= m - k * (m / k) < k
  {
  }

  /** The two sources of the error. */
  lemma Missed(one: int, k: int, x: int, y: int, q: int)
    ensures (k * y - x) * one == k * (y * one - x * q) - x * (one - k * q)
  {
  }

  lemma MissBound(one: int, k: nat, x: int, round: int, short: int, d: int, w: Width)
    requires 2 * Half(w) == one == SampMax(w) + 1 && one > 1 && IsSample(w, x)
    requires d * one == k * round - x * short && -Half(w) <= round <= Half(w) && 1 <= short <= k
    ensures -3 * k < 2 * d < 3 * k
  {
    hide Half, SampMax;
    ProductUpTo(k, round, Half(w));
    ProductUpTo(short, x, SampMax(w));
    assert SampMax(w) * short <= SampMax(w) * k by { NormProduct(short, SampMax(w), k, SampMax(w)); }
    assert 2 * (d * one) <= k * one + 2 * (SampMax(w) * k);
    assert k * one + 2 * (SampMax(w) * k) == (3 * k) * one - 2 * k;
    assert (2 * d) * one < (3 * k) * one && (-3 * k) * one < (2 * d) * one;
    OrderKept(2 * d, 3 * k, one);
    OrderKept(-3 * k, 2 * d, one);
  }

  lemma ProductUpTo(k: nat, x: int, m: int)
    requires -m <= x <= m
    ensures -(m * k) <= k * x <= m * k
  {
  }

  lemma OrderKept(a: int, b: int, one: int)
    requires one > 0 && a * one < b * one
    ensures a < b
  {
  }

  lemma ScaledUp(q: int, m: int, one: int)
    requires 0 <= q <= m < one
    ensures q * m <= q * one && q * m <= m * one
  {
  }

  lemma QuotientSmall(m: int, k: nat)
    requires k >= 1 && m >= 0
    ensures 0 <= m / k <= m && m / k * k <= m
  {
  }

  lemma ScaledBetween(x: int, m: int, q: int)
    requires -m <= x <= m && q >= 0
    ensures -(q * m) <= x * q <= q * m
  {
  }

  lemma RoundedWithin(w: Width, p: int, q: int)
    requires -(q * One(w)) <= p <= q * One(w)
    ensures -q <= Rounded(w, p) <= q
  {
  }

  /** The running total of `n` additions and subtractions. */
  function SignedSum(values: seq<int>, plus: seq<bool>, n: nat): int
    requires n <= |values| == |plus|
  {
    if n == 0 then 0
    else SignedSum(values, plus, n - 1) + if plus[n - 1] then values[n - 1] else -values[n - 1]
  }

  lemma {:induction false} SumOfSmall(values: seq<int>, plus: seq<bool>, q: int, n: nat)
    requires n <= |values| == |plus| && forall i :: 0 <= i < |values| ==> -q <= values[i] <= q
    ensures -(n * q) <= SignedSum(values, plus, n) <= n * q
  {
    if n > 0 {
      SumOfSmall(values, plus, q, n - 1);
      assert n * q == (n - 1) * q + q;
    }
  }

  /** After scaling by `k`, up to `k` samples can be added and subtracted in any order and
      with any signs, and no intermediate total leaves the sample range. */
  lemma ScaledSumsStayInRange(w: Width, xs: seq<int>, plus: seq<bool>, k: nat, n: nat)
    requires 1 <= k && |xs| == |plus| && n <= |xs| <= k && forall i :: 0 <= i < |xs| ==> IsSample(w, xs[i])
    ensures var values := seq(|xs|, i requires 0 <= i < |xs| => DivScalar(w, xs[i], k));
      IsSample(w, SignedSum(values, plus, n))
  {
    hide DivScalar;
    var values := seq(|xs|, i requires 0 <= i < |xs| => DivScalar(w, xs[i], k));
    var q := Reciprocal(w, k);
    forall i | 0 <= i < |xs| ensures -q <= values[i] <= q { DividedIsSmall(w, xs[i], k); }
    SumOfSmall(values, plus, q, n);
    QuotientSmall(SampMax(w), k);
    NormProduct(n, q, k, q);
    assert k * q == q * k;
  }
}
