/** Machine words as bit sequences.

    A word is the sequence of its bits, least significant first, so `w[i]` is bit `i`.
    Shifts and the bitwise operators of C act position by position, and every fact about
    them is a fact about indices.
 */
module Words {

  type Word = seq<bool>

  /** An `unsigned char`. */
  type Byte = w: Word | |w| == 8 witness [false, false, false, false, false, false, false, false]

  const INT_BITS: nat := 32

  /** The bit at position `i`, with an infinite supply of zeros above the top. */
  predicate Bit(w: Word, i: nat) {
    i < |w| && w[i]
  }

  function Zeros(n: nat): (w: Word)
    ensures |w| == n
  {
    seq(n, _ => false)
  }

  function Shr(w: Word, k: nat): (r: Word)
    ensures |r| == |w|
  {
    seq(|w|, i requires 0 <= i < |w| => Bit(w, i + k))
  }

  function Shl(w: Word, k: nat): (r: Word)
    ensures |r| == |w|
  {
    seq(|w|, i requires 0 <= i < |w| => k <= i && w[i - k])
  }

  function Xor(a: Word, b: Word): (r: Word)
    requires |a| == |b|
    ensures |r| == |a|
  {
    seq(|a|, i requires 0 <= i < |a| => a[i] != b[i])
  }

  function Or(a: Word, b: Word): (r: Word)
    requires |a| == |b|
    ensures |r| == |a|
  {
    seq(|a|, i requires 0 <= i < |a| => a[i] || b[i])
  }

  /** `w & ((1 << n) - 1)` */
  function LowBits(w: Word, n: nat): (r: Word)
    ensures |r| == |w|
  {
    seq(|w|, i requires 0 <= i < |w| => i < n && w[i])
  }

  /** Conversion to an unsigned type of `n` bits: truncates or extends with zeros. */
  function Cast(w: Word, n: nat): (r: Word)
    ensures |r| == n
  {
    seq(n, i requires 0 <= i < n => Bit(w, i))
  }

  // ----- words and numbers

  function Pow2(n: nat): (p: nat)
    ensures p >= 1
  {
    if n == 0 then 1 else 2 * Pow2(n - 1)
  }

  function ToNat(w: Word): nat {
    if w == [] then 0 else (if w[0] then 1 else 0) + 2 * ToNat(w[1..])
  }

  function FromNat(n: nat, len: nat): (w: Word)
    ensures |w| == len
    decreases len
  {
    if len == 0 then [] else [n % 2 == 1] + FromNat(n / 2, len - 1)
  }

  lemma {:induction false} FromNatToNat(n: nat, len: nat)
    requires n < Pow2(len)
    ensures ToNat(FromNat(n, len)) == n
    decreases len
  {
    if len > 0 {
      FromNatToNat(n / 2, len - 1);
      assert FromNat(n, len)[1..] == FromNat(n / 2, len - 1);
    }
  }

  lemma {:induction false} ToNatFromNat(w: Word)
    ensures ToNat(w) < Pow2(|w|)
    ensures FromNat(ToNat(w), |w|) == w
  {
    if w != [] {
      ToNatFromNat(w[1..]);
      assert w == [w[0]] + w[1..];
    }
  }

  lemma HalfOfQuotient(n: nat, p: nat)
    requires p > 0
    ensures (n / 2) / p == n / (2 * p)
  {
    var a, b := (n / 2) / p, (n / 2) % p;
    calc {
      n;
      2 * (n / 2) + n % 2;
      2 * (a * p + b) + n % 2;
      a * (2 * p) + (2 * b + n % 2);
    }
    QuotientIs(n, 2 * p, a, 2 * b + n % 2);
  }

  lemma QuotientIs(n: int, d: int, q: int, r: int)
    requires n == q * d + r && 0 <= r < d
    ensures n / d == q
  {
    var k, s := n / d, n % d;
    assert (k - q) * d == r - s;
    MultipleIsLarge(k - q, d);
  }

  lemma MultipleIsLarge(k: int, d: nat)
    ensures k >= 1 ==> k * d >= d
    ensures k <= -1 ==> k * d <= 0 - d
  {
    if k >= 1 {
      assert (k - 1) * d >= 0;
    } else if k <= -1 {
      assert (-1 - k) * d >= 0;
    }
  }

  /** The bits of a word are the binary digits of its number. */
  lemma {:induction false} BitIsDigit(n: nat, len: nat, i: nat)
    requires i < len
    ensures FromNat(n, len)[i] <==> (n / Pow2(i)) % 2 == 1
  {
    if i > 0 {
      BitIsDigit(n / 2, len - 1, i - 1);
      HalfOfQuotient(n, Pow2(i - 1));
    }
  }

  /** No bit of `w` is set at or above position `k`. */
  predicate Fits(w: Word, k: nat) {
    forall i :: k <= i < |w| ==> !w[i]
  }

  /** A number is below `2^k` exactly when its word has no bit at or above `k`. */
  lemma {:induction false} FitsWidth(n: nat, len: nat, k: nat)
    requires k <= len && n < Pow2(len)
    ensures n < Pow2(k) <==> Fits(FromNat(n, len), k)
    decreases len
  {
    if len > 0 {
      var w, v := FromNat(n, len), FromNat(n / 2, len - 1);
      assert forall i :: 0 <= i < len - 1 ==> w[i + 1] == v[i];
      var j := if k == 0 then 0 else k - 1;
      FitsWidth(n / 2, len - 1, j);
      if Fits(w, k) {
        forall i | j <= i < |v| ensures !v[i] { assert !w[i + 1]; }
        assert Fits(v, j);
        assert k == 0 ==> !w[0];
      }
      if n < Pow2(k) {
        forall i | k <= i < |w| ensures !w[i] {
          if i > 0 { assert !v[i - 1]; }
        }
      }
    }
  }

  // ----- byte buffers read as bit strings

  /** Bit `k` of a frame: the most significant bit of byte 0 is bit 0. */
  predicate FrameBit(bytes: seq<Byte>, k: nat)
    requires k < 8 * |bytes|
  {
    bytes[k / 8][7 - k % 8]
  }

  /** In numbers: bit `k` is the digit of its byte that counts `2^(7 - k % 8)`. */
  lemma FrameBitIsDigit(bytes: seq<Byte>, k: nat)
    requires k < 8 * |bytes|
    ensures FrameBit(bytes, k) <==> (ToNat(bytes[k / 8]) / Pow2(7 - k % 8)) % 2 == 1
  {
    ToNatFromNat(bytes[k / 8]);
    BitIsDigit(ToNat(bytes[k / 8]), 8, 7 - k % 8);
  }

  function FrameBits(bytes: seq<Byte>): (s: seq<bool>)
    ensures |s| == 8 * |bytes|
  {
    seq(8 * |bytes|, k requires 0 <= k < 8 * |bytes| => FrameBit(bytes, k))
  }

  /** The bit string determines the bytes. */
  lemma FrameBitsInjective(a: seq<Byte>, b: seq<Byte>)
    requires FrameBits(a) == FrameBits(b)
    ensures a == b
  {
    assert |a| == |b|;
    forall i | 0 <= i < |a| ensures a[i] == b[i] {
      forall p | 0 <= p < 8 ensures a[i][p] == b[i][p] {
        var k := 8 * i + (7 - p);
        assert k / 8 == i && k % 8 == 7 - p;
        assert FrameBits(a)[k] == FrameBits(b)[k];
      }
    }
  }
}
