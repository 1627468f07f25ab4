/** The (23,12) Golay code: syndromes by polynomial division, an encoding and a decoding table
    built once, and the correction of up to three bit errors by a single look-up.

    A pattern is a 23-bit word: the coefficients of a polynomial over GF(2), lowest first.
 */
module GolayCode {
  import opened Combinations

  type Pattern = bv23

  const LENGTH: nat := 23
  const X22: Pattern := 0x400000
  const X11: Pattern := 0x800
  const MASK12: Pattern := 0x7ff800
  const GENPOL: Pattern := 0xc75

  // ----- single bits

  /** `x^i`, zero past the top. */
  function Bit(i: nat): Pattern {
    if i == 0 then 1 else Double(Bit(i - 1))
  }

  function Double(t: Pattern): Pattern {
    t << 1
  }

  predicate OneHot(t: Pattern) {
    t != 0 && t & (t - 1) == 0
  }

  lemma BitValues()
    ensures Bit(8) == 0x100 && Bit(11) == X11 && Bit(16) == 0x10000 && Bit(22) == X22 && Bit(23) == 0
    ensures Bit(12) == 0x1000 && Bit(13) == 0x2000 && Bit(14) == 0x4000 && Bit(15) == 0x8000
    ensures Bit(17) == 0x20000 && Bit(18) == 0x40000 && Bit(19) == 0x80000 && Bit(20) == 0x100000 && Bit(21) == 0x200000
  {
  }

  lemma {:induction false} ZeroStays(i: nat, j: nat)
    requires i <= j && Bit(i) == 0
    ensures Bit(j) == 0
    decreases j
  {
    if i < j { ZeroStays(i, j - 1); }
  }

  lemma Doubled(t: Pattern)
    requires OneHot(t) && Double(t) != 0
    ensures OneHot(Double(t)) && t < Double(t) && t < X22
  {
  }

  lemma {:induction false} BitIsHot(i: nat)
    requires i < LENGTH
    ensures OneHot(Bit(i)) && (i < 22 ==> Bit(i) < X22)
  {
    BitValues();
    if Bit(i) == 0 { ZeroStays(i, 22); }
    if i > 0 {
      BitIsHot(i - 1);
      Doubled(Bit(i - 1));
    }
    if i < 22 {
      if Bit(i + 1) == 0 { ZeroStays(i + 1, 22); }
      Doubled(Bit(i));
    }
  }

  function At(p: Pattern, t: Pattern): Pattern {
    p & t
  }

  predicate Meets(p: Pattern, t: Pattern) {
    At(p, t) != 0
  }

  predicate Has(p: Pattern, i: nat) {
    Meets(p, Bit(i))
  }

  /** Addition of polynomials. */
  function Plus(a: Pattern, b: Pattern): Pattern {
    a ^ b
  }

  lemma AtHot(p: Pattern, t: Pattern)
    requires OneHot(t)
    ensures At(p, t) == if Meets(p, t) then t else 0
  {
  }

  lemma AtPlus(a: Pattern, b: Pattern, t: Pattern)
    ensures At(Plus(a, b), t) == Plus(At(a, t), At(b, t))
  {
  }

  lemma PlusTable(t: Pattern)
    ensures Plus(0, 0) == 0 == Plus(t, t) && Plus(t, 0) == t == Plus(0, t)
  {
  }

  lemma MeetsPlus(a: Pattern, b: Pattern, t: Pattern)
    requires OneHot(t)
    ensures Meets(Plus(a, b), t) <==> Meets(a, t) != Meets(b, t)
  {
    hide At, Plus, OneHot;
    NotZero(t);
    AtHot(a, t);
    AtHot(b, t);
    AtPlus(a, b, t);
    PlusTable(t);
  }

  lemma NotZero(t: Pattern)
    requires OneHot(t)
    ensures t != 0
  {
  }

  lemma HasPlus(a: Pattern, b: Pattern, i: nat)
    requires i < LENGTH
    ensures Has(Plus(a, b), i) <==> Has(a, i) != Has(b, i)
  {
    hide Meets, Plus, OneHot;
    BitIsHot(i);
    MeetsPlus(a, b, Bit(i));
  }

  // ----- syndromes

  /** `x * r` modulo the generator. */
  function TimesX(r: Pattern): Pattern {
    if r & 0x400 != 0 then (r << 1) ^ GENPOL else r << 1
  }

  /** The remainder of `x^(11+k)`. */
  function Remainder(k: nat): Pattern {
    if k == 0 then X11 ^ GENPOL else TimesX(Remainder(k - 1))
  }

  function Term(p: Pattern, t: Pattern, r: Pattern): Pattern {
    if p & t != 0 then r else 0
  }

  /** The remainder of the part of `p` below `x^(11+n)`. */
  function PartialSyndrome(p: Pattern, n: nat): Pattern {
    if n == 0 then At(p, 0x7ff) else Plus(PartialSyndrome(p, n - 1), Term(p, Bit(10 + n), Remainder(n - 1)))
  }

  /** The remainder of `p` modulo the generator, term by term. */
  function Syndrome(p: Pattern): Pattern {
    PartialSyndrome(p, 12)
  }

  lemma PlusSwap(a: Pattern, b: Pattern, c: Pattern, d: Pattern)
    ensures Plus(Plus(a, b), Plus(c, d)) == Plus(Plus(a, c), Plus(b, d))
  {
    PlusAssoc(a, b, Plus(c, d));
    PlusAssoc(b, c, d);
    PlusCommutes(b, c);
    PlusAssoc(c, b, d);
    PlusAssoc(a, c, Plus(b, d));
    hide Plus;
  }

  lemma PlusAssoc(a: Pattern, b: Pattern, c: Pattern)
    ensures Plus(Plus(a, b), c) == Plus(a, Plus(b, c))
  {
  }

  lemma PlusCommutes(a: Pattern, b: Pattern)
    ensures Plus(a, b) == Plus(b, a)
  {
  }

  lemma TermIs(p: Pattern, t: Pattern, r: Pattern)
    ensures Term(p, t, r) == if Meets(p, t) then r else 0
  {
  }

  lemma TermLinear(a: Pattern, b: Pattern, t: Pattern, r: Pattern)
    requires OneHot(t)
    ensures Term(Plus(a, b), t, r) == Plus(Term(a, t, r), Term(b, t, r))
  {
    hide Meets, Plus, OneHot, Term;
    TermIs(Plus(a, b), t, r);
    TermIs(a, t, r);
    TermIs(b, t, r);
    MeetsPlus(a, b, t);
    PlusTable(r);
  }

  lemma {:induction false} PartialLinear(a: Pattern, b: Pattern, n: nat)
    requires n <= 12
    ensures PartialSyndrome(Plus(a, b), n) == Plus(PartialSyndrome(a, n), PartialSyndrome(b, n))
  {
    if n == 0 {
      AtPlus(a, b, 0x7ff);
    } else {
      hide Plus, Term, OneHot, Remainder;
      PartialLinear(a, b, n - 1);
      BitIsHot(10 + n);
      var t, r := Bit(10 + n), Remainder(n - 1);
      TermLinear(a, b, t, r);
      PlusSwap(PartialSyndrome(a, n - 1), PartialSyndrome(b, n - 1), Term(a, t, r), Term(b, t, r));
    }
  }

  /** The syndrome of a sum is the sum of the syndromes. */
  lemma SyndromeLinear(a: Pattern, b: Pattern)
    ensures Syndrome(Plus(a, b)) == Plus(Syndrome(a), Syndrome(b))
  {
    hide PartialSyndrome, Plus;
    PartialLinear(a, b, 12);
  }

  lemma Remainders()
    ensures Remainder(0) == 0x475 && Remainder(1) == 0x49f && Remainder(2) == 0x54b && Remainder(3) == 0x6e3
    ensures Remainder(4) == 0x1b3 && Remainder(5) == 0x366 && Remainder(6) == 0x6cc && Remainder(7) == 0x1ed
    ensures Remainder(8) == 0x3da && Remainder(9) == 0x7b4 && Remainder(10) == 0x31d && Remainder(11) == 0x63a
  {
  }

  function Plus5(a: Pattern, b: Pattern, c: Pattern, d: Pattern, e: Pattern): Pattern {
    a ^ b ^ c ^ d ^ e
  }

  lemma Plus5Is(a: Pattern, b: Pattern, c: Pattern, d: Pattern, e: Pattern)
    ensures Plus5(a, b, c, d, e) == Plus(Plus(Plus(Plus(a, b), c), d), e)
  {
    hide Plus;
    FourPlus(a, b, c, d, e);
  }

  lemma FourPlus(a: Pattern, b: Pattern, c: Pattern, d: Pattern, e: Pattern)
    ensures Plus(Plus(Plus(Plus(a, b), c), d), e) == a ^ b ^ c ^ d ^ e
  {
  }

  /** The contributions of the upper twelve bits, four at a time. */
  function Lower(p: Pattern, s: Pattern): Pattern {
    Plus5(s, Term(p, 0x800, 0x475), Term(p, 0x1000, 0x49f), Term(p, 0x2000, 0x54b), Term(p, 0x4000, 0x6e3))
  }

  function Middle(p: Pattern, s: Pattern): Pattern {
    Plus5(s, Term(p, 0x8000, 0x1b3), Term(p, 0x10000, 0x366), Term(p, 0x20000, 0x6cc), Term(p, 0x40000, 0x1ed))
  }

  function Upper(p: Pattern, s: Pattern): Pattern {
    Plus5(s, Term(p, 0x80000, 0x3da), Term(p, 0x100000, 0x7b4), Term(p, 0x200000, 0x31d), Term(p, 0x400000, 0x63a))
  }

  function WrittenOut(p: Pattern): Pattern {
    Upper(p, Middle(p, Lower(p, p & 0x7ff)))
  }

  lemma LowerIs(p: Pattern)
    ensures Lower(p, PartialSyndrome(p, 0)) == PartialSyndrome(p, 4)
  {
    hide Remainder, Bit, Plus, Plus5, Term;
    Remainders();
    BitValues();
    OneTerm(p, 0);
    OneTerm(p, 1);
    OneTerm(p, 2);
    OneTerm(p, 3);
    Plus5Is(PartialSyndrome(p, 0), Term(p, 0x800, 0x475), Term(p, 0x1000, 0x49f), Term(p, 0x2000, 0x54b),
            Term(p, 0x4000, 0x6e3));
  }

  lemma MiddleIs(p: Pattern)
    ensures Middle(p, PartialSyndrome(p, 4)) == PartialSyndrome(p, 8)
  {
    hide Remainder, Bit, Plus, Plus5, Term;
    Remainders();
    BitValues();
    OneTerm(p, 4);
    OneTerm(p, 5);
    OneTerm(p, 6);
    OneTerm(p, 7);
    Plus5Is(PartialSyndrome(p, 4), Term(p, 0x8000, 0x1b3), Term(p, 0x10000, 0x366), Term(p, 0x20000, 0x6cc),
            Term(p, 0x40000, 0x1ed));
  }

  lemma UpperIs(p: Pattern)
    ensures Upper(p, PartialSyndrome(p, 8)) == PartialSyndrome(p, 12)
  {
    hide Remainder, Bit, Plus, Plus5, Term;
    Remainders();
    BitValues();
    OneTerm(p, 8);
    OneTerm(p, 9);
    OneTerm(p, 10);
    OneTerm(p, 11);
    Plus5Is(PartialSyndrome(p, 8), Term(p, 0x80000, 0x3da), Term(p, 0x100000, 0x7b4), Term(p, 0x200000, 0x31d),
            Term(p, 0x400000, 0x63a));
  }

  lemma SyndromeWrittenOut(p: Pattern)
    ensures Syndrome(p) == WrittenOut(p)
  {
    OneTerm(p, 0);
    hide PartialSyndrome, Lower, Middle, Upper;
    LowerIs(p);
    MiddleIs(p);
    UpperIs(p);
  }

  lemma OneTerm(p: Pattern, n: nat)
    ensures PartialSyndrome(p, 0) == At(p, 0x7ff)
    ensures PartialSyndrome(p, n + 1) == Plus(PartialSyndrome(p, n), Term(p, Bit(11 + n), Remainder(n)))
  {
  }

  /** A pattern below the generator is its own remainder. */
  lemma SyndromeOfLow(p: Pattern)
    requires p < X11
    ensures Syndrome(p) == p
  {
    hide PartialSyndrome, WrittenOut;
    SyndromeWrittenOut(p);
    NoUpperTerms(p);
  }

  lemma NoUpperTerms(p: Pattern)
    requires p < X11
    ensures WrittenOut(p) == p
  {
  }

  lemma SyndromeInRange(p: Pattern)
    ensures Syndrome(p) < X11
  {
    hide PartialSyndrome, WrittenOut;
    SyndromeWrittenOut(p);
    BelowX11(p);
  }

  lemma LowerBelowX11(p: Pattern, s: Pattern)
    requires s < X11
    ensures Lower(p, s) < X11
  {
  }

  lemma MiddleBelowX11(p: Pattern, s: Pattern)
    requires s < X11
    ensures Middle(p, s) < X11
  {
  }

  lemma UpperBelowX11(p: Pattern, s: Pattern)
    requires s < X11
    ensures Upper(p, s) < X11
  {
  }

  lemma BelowX11(p: Pattern)
    ensures WrittenOut(p) < X11
  {
    var s := p & 0x7ff;
    assert s < X11;
    hide Lower, Middle, Upper;
    LowerBelowX11(p, s);
    MiddleBelowX11(p, Lower(p, s));
    UpperBelowX11(p, Middle(p, Lower(p, s)));
  }

  // ----- the lightest codewords

  /** The number of one bits in a word below 256. */
  function Ones8(p: Pattern): Pattern {
    var a := (p & 0x55) + ((p >> 1) & 0x55);
    var b := (a & 0x33) + ((a >> 2) & 0x33);
    (b & 0xf) + (b >> 4)
  }

  function Ones(p: Pattern): Pattern {
    Ones8(p & 0xff) + Ones8((p >> 8) & 0xff) + Ones8(p >> 16)
  }

  /** The codeword with upper bits `d`. */
  function Completed(d: Pattern): Pattern {
    d ^ WrittenOut(d)
  }

  lemma Heavy0(d: Pattern)
    requires d & 0x3fff == 0x0 && d != 0
    ensures Ones(Completed(d)) >= 7
  {
  }

  lemma Heavy1(d: Pattern)
    requires d & 0x3fff == 0x800
    ensures Ones(Completed(d)) >= 7
  {
  }

  lemma Heavy2(d: Pattern)
    requires d & 0x3fff == 0x1000
    ensures Ones(Completed(d)) >= 7
  {
  }

  lemma Heavy3(d: Pattern)
    requires d & 0x3fff == 0x1800
    ensures Ones(Completed(d)) >= 7
  {
  }

  lemma Heavy4(d: Pattern)
    requires d & 0x3fff == 0x2000
    ensures Ones(Completed(d)) >= 7
  {
  }

  lemma Heavy5(d: Pattern)
    requires d & 0x3fff == 0x2800
    ensures Ones(Completed(d)) >= 7
  {
  }

  lemma Heavy6(d: Pattern)
    requires d & 0x3fff == 0x3000
    ensures Ones(Completed(d)) >= 7
  {
  }

  lemma Heavy7(d: Pattern)
    requires d & 0x3fff == 0x3800
    ensures Ones(Completed(d)) >= 7
  {
  }

  lemma HeavyUpper(d: Pattern)
    requires d & 0x7ff == 0 && d != 0
    ensures Ones(Completed(d)) >= 7
  {
    hide Ones, Completed;
    Eighths(d);
    var low := d & 0x3fff;
    if low == 0 { Heavy0(d); }
    else if low == 0x800 { Heavy1(d); }
    else if low == 0x1000 { Heavy2(d); }
    else if low == 0x1800 { Heavy3(d); }
    else if low == 0x2000 { Heavy4(d); }
    else if low == 0x2800 { Heavy5(d); }
    else if low == 0x3000 { Heavy6(d); }
    else { Heavy7(d); }
  }

  lemma Eighths(d: Pattern)
    requires d & 0x7ff == 0
    ensures d & 0x3fff in {0, 0x800, 0x1000, 0x1800, 0x2000, 0x2800, 0x3000, 0x3800}
  {
  }

  /** The upper twelve bits. */
  function Upper12(c: Pattern): Pattern {
    c & MASK12
  }

  function Lower11(c: Pattern): Pattern {
    c & 0x7ff
  }

  lemma Halves(c: Pattern)
    ensures c == Plus(Upper12(c), Lower11(c)) && Lower11(c) < X11
    ensures Upper12(c) & 0x7ff == 0 && (Upper12(c) == 0 ==> c == Lower11(c))
  {
  }

  lemma PlusZero(a: Pattern, b: Pattern)
    requires Plus(a, b) == 0
    ensures a == b
  {
  }

  /** A codeword is its upper half, completed by the remainder of that half. */
  lemma CodewordIsCompleted(c: Pattern)
    requires Syndrome(c) == 0
    ensures c == Plus(Upper12(c), Syndrome(Upper12(c)))
  {
    hide Syndrome, Plus, Upper12, Lower11;
    Halves(c);
    SyndromeLinear(Upper12(c), Lower11(c));
    SyndromeOfLow(Lower11(c));
    PlusZero(Syndrome(Upper12(c)), Lower11(c));
  }

  lemma CompletedIs(d: Pattern)
    ensures Completed(d) == Plus(d, WrittenOut(d))
  {
    hide WrittenOut;
  }

  /** No codeword but zero has fewer than seven ones. */
  lemma Heavy(c: Pattern)
    requires Syndrome(c) == 0 && c != 0
    ensures Ones(c) >= 7
  {
    hide Syndrome, WrittenOut, Completed, Plus, Ones, Upper12, Lower11;
    var d := Upper12(c);
    CodewordIsCompleted(c);
    SyndromeWrittenOut(d);
    Halves(c);
    CompletedIs(d);
    if d == 0 { SyndromeOfLow(c); } else { HeavyUpper(d); }
  }

  // ----- weights

  /** The number of ones among the first `n` bits. */
  function WeightBelow(p: Pattern, n: nat): nat {
    if n == 0 then 0 else WeightBelow(p, n - 1) + if Has(p, n - 1) then 1 else 0
  }

  /** The number of ones. */
  function Weight(p: Pattern): nat {
    WeightBelow(p, LENGTH)
  }

  lemma {:induction false} WeightSubadditive(p: Pattern, q: Pattern, n: nat)
    requires n <= LENGTH
    ensures WeightBelow(Plus(p, q), n) <= WeightBelow(p, n) + WeightBelow(q, n)
  {
    if n > 0 {
      HasPlus(p, q, n - 1);
      hide Has, Plus;
      WeightSubadditive(p, q, n - 1);
    }
  }

  lemma {:induction false} BitsGrow(i: nat, j: nat)
    requires i < j < LENGTH
    ensures Bit(i) < Bit(j)
    decreases j
  {
    BitIsHot(j - 1);
    BitIsHot(j);
    Doubled(Bit(j - 1));
    if i < j - 1 { BitsGrow(i, j - 1); }
  }

  function Or(a: Pattern, b: Pattern): Pattern {
    a | b
  }

  /** What of `p` lies below the single bit `t`. */
  function Part(p: Pattern, t: Pattern): Pattern {
    p & (t - 1)
  }

  /** The next bit up is added on top of the part below it. */
  lemma PartGrows(p: Pattern, t: Pattern)
    requires OneHot(t)
    ensures Part(p, Double(t)) == Or(Part(p, t), At(p, t))
  {
  }

  function Value(p: Pattern): nat {
    p as int
  }

  lemma OrNothing(e: Pattern)
    ensures Or(e, 0) == e
  {
  }

  lemma ByteStep(p: Pattern, t: Pattern)
    requires OneHot(t) && t < 0x100
    ensures Value(Ones8(Part(p, Double(t)))) == Value(Ones8(Part(p, t))) + if Meets(p, t) then 1 else 0
  {
  }

  lemma {:induction false} ByteWeight(p: Pattern, n: nat)
    requires n <= 8
    ensures WeightBelow(p, n) == Value(Ones8(Part(p, Bit(n))))
  {
    if n == 0 {
      NothingBelow(p);
    } else {
      hide Ones8, Part, OneHot, Value, Double, Meets;
      ByteWeight(p, n - 1);
      BitIsHot(n - 1);
      SmallBit(n - 1);
      ByteStep(p, Bit(n - 1));
    }
  }

  lemma NothingBelow(p: Pattern)
    ensures Value(Ones8(Part(p, 1))) == 0
  {
  }

  lemma SmallBit(i: nat)
    requires i < 8
    ensures Bit(i) < 0x100
  {
    BitValues();
    BitsGrow(i, 8);
  }

  function ByteUp(p: Pattern): Pattern {
    p >> 8
  }

  function ByteDown(p: Pattern): Pattern {
    p << 8
  }

  /** Bit `i` above a byte is bit `i + 8`. */
  lemma {:induction false} BitAboveByte(i: nat)
    requires i < 15
    ensures Bit(8 + i) == ByteDown(Bit(i)) && Bit(i) < 0x8000
  {
    BitValues();
    if i > 0 {
      BitAboveByte(i - 1);
      SlideUp(Bit(i - 1));
      BitsGrow(i, 15);
    }
  }

  lemma SlideUp(t: Pattern)
    ensures Double(ByteDown(t)) == ByteDown(Double(t))
  {
  }

  lemma MeetsAboveByte(p: Pattern, t: Pattern)
    requires t < 0x8000
    ensures Meets(p, ByteDown(t)) <==> Meets(ByteUp(p), t)
  {
  }

  lemma HasAboveByte(p: Pattern, i: nat)
    requires i < 15
    ensures Has(p, 8 + i) <==> Has(ByteUp(p), i)
  {
    BitAboveByte(i);
    hide Meets, ByteUp, ByteDown;
    MeetsAboveByte(p, Bit(i));
  }

  lemma {:induction false} WeightAboveByte(p: Pattern, n: nat)
    requires n <= 15
    ensures WeightBelow(p, 8 + n) == WeightBelow(p, 8) + WeightBelow(ByteUp(p), n)
  {
    hide Has, ByteUp;
    if n > 0 {
      WeightAboveByte(p, n - 1);
      HasAboveByte(p, n - 1);
      assert 8 + n - 1 == 8 + (n - 1);
    }
  }

  lemma ThreeBytes(p: Pattern)
    ensures Weight(p) == Value(Ones8(Part(p, Bit(8)))) + Value(Ones8(Part(ByteUp(p), Bit(8))))
                         + Value(Ones8(Part(ByteUp(ByteUp(p)), Bit(7))))
  {
    hide Ones8, Part, Value, ByteUp, WeightBelow;
    WeightAboveByte(p, 15);
    WeightAboveByte(ByteUp(p), 7);
    ByteWeight(p, 8);
    ByteWeight(ByteUp(p), 8);
    ByteWeight(ByteUp(ByteUp(p)), 7);
  }

  lemma BytesOf(p: Pattern)
    ensures Part(p, 0x100) == p & 0xff && Part(ByteUp(p), 0x100) == (p >> 8) & 0xff
    ensures Part(ByteUp(ByteUp(p)), 0x80) == p >> 16
  {
  }

  lemma Ones8Bound(p: Pattern)
    requires p < 0x100
    ensures Ones8(p) <= 8
  {
  }

  lemma SmallSum(a: Pattern, b: Pattern, c: Pattern)
    requires a <= 8 && b <= 8 && c <= 8 && Value(a) + Value(b) + Value(c) <= 6
    ensures a + b + c <= 6
  {
  }

  lemma BytesAreSmall(p: Pattern)
    ensures p & 0xff < 0x100 && (p >> 8) & 0xff < 0x100 && p >> 16 < 0x100
  {
  }

  lemma FewOnes(p: Pattern)
    requires Weight(p) <= 6
    ensures Ones(p) <= 6
  {
    hide Ones8, Part, Value, ByteUp, Weight;
    ThreeBytes(p);
    BitValues();
    assert Bit(7) == 0x80 by { assert Bit(4) == 0x10; }
    BytesOf(p);
    BytesAreSmall(p);
    Ones8Bound(p & 0xff);
    Ones8Bound((p >> 8) & 0xff);
    Ones8Bound(p >> 16);
    SmallSum(Ones8(p & 0xff), Ones8((p >> 8) & 0xff), Ones8(p >> 16));
  }

  /** The minimum distance of the code is seven. */
  lemma MinimumDistance(c: Pattern)
    requires Syndrome(c) == 0 && c != 0
    ensures Weight(c) >= 7
  {
    hide Weight, Syndrome, Ones;
    Heavy(c);
    if Weight(c) <= 6 { FewOnes(c); }
  }

  lemma PlusSelf(a: Pattern)
    ensures Plus(a, a) == 0
  {
  }

  /** Patterns of up to three errors have different syndromes. */
  lemma SyndromesDiffer(p: Pattern, q: Pattern)
    requires Weight(p) <= 3 && Weight(q) <= 3 && Syndrome(p) == Syndrome(q)
    ensures p == q
  {
    hide WeightBelow, Syndrome, Plus;
    SyndromeLinear(p, q);
    PlusSelf(Syndrome(p));
    WeightSubadditive(p, q, LENGTH);
    if Plus(p, q) == 0 { PlusZero(p, q); } else { MinimumDistance(Plus(p, q)); }
  }

  // ----- patterns and the positions of their ones

  /** Addition of numbers. */
  function Sum(a: Pattern, b: Pattern): Pattern {
    a + b
  }

  predicate Positive(c: seq<int>) {
    forall i :: 0 <= i < |c| ==> 1 <= c[i]
  }

  /** The pattern with ones in the given places, counted from 1: `arr2int`. */
  function FromPlaces(c: seq<int>): Pattern
    requires Positive(c)
  {
    if c == [] then 0 else Sum(FromPlaces(c[..|c| - 1]), Bit(c[|c| - 1] - 1))
  }

  /** The places of the ones among the first `n` bits. */
  function PlacesBelow(p: Pattern, n: nat): (c: seq<int>)
    ensures |c| == WeightBelow(p, n) && forall i :: 0 <= i < |c| ==> 1 <= c[i] <= n
    ensures forall i, j :: 0 <= i < j < |c| ==> c[i] < c[j]
  {
    if n == 0 then [] else PlacesBelow(p, n - 1) + if Has(p, n - 1) then [n] else []
  }

  function Places(p: Pattern): (c: seq<int>)
    ensures |c| == Weight(p)
  {
    PlacesBelow(p, LENGTH)
  }

  lemma WholePattern(p: Pattern)
    ensures Part(p, 0) == p
  {
  }

  lemma NoPart(p: Pattern)
    ensures Part(p, 1) == 0
  {
  }

  lemma PartOfPart(p: Pattern, t: Pattern)
    ensures Part(Part(p, t), t) == Part(p, t)
  {
  }

  /** A single bit is added on top of a part below it. */
  lemma SumIsOr(p: Pattern, t: Pattern)
    requires OneHot(t) && Part(p, t) == p
    ensures Sum(p, t) == Or(p, t)
  {
  }

  lemma PartStep(p: Pattern, t: Pattern)
    requires OneHot(t)
    ensures Part(p, Double(t)) == if Meets(p, t) then Sum(Part(p, t), t) else Part(p, t)
  {
    PartGrows(p, t);
    AtHot(p, t);
    OrNothing(Part(p, t));
    PartOfPart(p, t);
    hide Part, Sum, Double, OneHot, Or;
    SumIsOr(Part(p, t), t);
  }

  lemma {:induction false} PlacesGiveBack(p: Pattern, n: nat)
    requires n <= LENGTH
    ensures FromPlaces(PlacesBelow(p, n)) == Part(p, Bit(n))
  {
    if n == 0 {
      NoPart(p);
    } else {
      hide Part, Meets, Double, Sum, OneHot, FromPlaces, PlacesBelow;
      PlacesGiveBack(p, n - 1);
      BitIsHot(n - 1);
      PartStep(p, Bit(n - 1));
      PlacesStep(p, n);
      OnePlaceMore(PlacesBelow(p, n - 1), n);
    }
  }

  /** A pattern is determined by its places. */
  lemma PatternOfPlaces(p: Pattern)
    ensures FromPlaces(Places(p)) == p
  {
    PlacesGiveBack(p, LENGTH);
    BitValues();
    WholePattern(p);
  }

  lemma NothingOnTop(p: Pattern, t: Pattern)
    requires OneHot(t) && Part(p, t) == p
    ensures !Meets(p, t) && Part(p, Double(t)) == p
  {
  }

  lemma BitOnTop(p: Pattern, t: Pattern)
    requires OneHot(t) && Part(p, t) == p
    ensures Meets(Or(p, t), t) && Part(Or(p, t), t) == p && Part(Or(p, t), Double(t)) == Or(p, t)
  {
    MeetsOnTop(p, t);
    PartOnTop(p, t);
    WholeOnTop(p, t);
    hide *;
  }

  lemma MeetsOnTop(p: Pattern, t: Pattern)
    requires OneHot(t)
    ensures Meets(Or(p, t), t)
  {
  }

  lemma PartOnTop(p: Pattern, t: Pattern)
    requires OneHot(t) && Part(p, t) == p
    ensures Part(Or(p, t), t) == p
  {
  }

  lemma WholeOnTop(p: Pattern, t: Pattern)
    requires OneHot(t) && Part(p, t) == p
    ensures Part(Or(p, t), Double(t)) == Or(p, t)
  {
  }

  lemma SamePart(p: Pattern, q: Pattern, t: Pattern)
    requires OneHot(t) && Part(p, Double(t)) == Part(q, Double(t))
    ensures Part(p, t) == Part(q, t) && (Meets(p, t) <==> Meets(q, t))
  {
  }

  lemma {:induction false} PlacesLocal(p: Pattern, q: Pattern, n: nat)
    requires n <= LENGTH && Part(p, Bit(n)) == Part(q, Bit(n))
    ensures PlacesBelow(p, n) == PlacesBelow(q, n)
  {
    hide Part, Meets, Double, Sum;
    if n > 0 {
      BitIsHot(n - 1);
      SamePart(p, q, Bit(n - 1));
      PlacesLocal(p, q, n - 1);
    }
  }

  /** `c` is found in the pattern it makes, and nothing else is in it. */
  ghost predicate Found(c: seq<int>, n: nat)
    requires Positive(c)
  {
    Part(FromPlaces(c), Bit(n)) == FromPlaces(c) && PlacesBelow(FromPlaces(c), n) == c
  }

  lemma NothingFound(c: seq<int>, n: nat)
    requires 0 < n <= LENGTH && Positive(c) && Found(c, n - 1)
    ensures Found(c, n)
  {
    BitIsHot(n - 1);
    hide Part, Meets, Double, OneHot, FromPlaces;
    NothingOnTop(FromPlaces(c), Bit(n - 1));
    assert c + [] == c;
  }

  lemma PlaceFound(b: seq<int>, n: nat)
    requires 0 < n <= LENGTH && Positive(b) && Found(b, n - 1)
    ensures Positive(b + [n]) && Found(b + [n], n)
  {
    OnePlaceMore(b, n);
    BitIsHot(n - 1);
    var p, t := FromPlaces(b), Bit(n - 1);
    hide Part, Meets, Double, OneHot, Sum, Or, FromPlaces, Positive, PlacesBelow;
    SumIsOr(p, t);
    BitOnTop(p, t);
    PlacesLocal(Or(p, t), p, n - 1);
    PlacesStep(Or(p, t), n);
  }

  lemma OnePlaceMore(b: seq<int>, n: int)
    requires Positive(b) && 0 < n
    ensures Positive(b + [n]) && FromPlaces(b + [n]) == Sum(FromPlaces(b), Bit(n - 1))
  {
    hide Sum, Bit;
    assert (b + [n])[..|b|] == b;
  }

  lemma PlacesStep(p: Pattern, n: nat)
    requires 0 < n
    ensures PlacesBelow(p, n) == if Has(p, n - 1) then PlacesBelow(p, n - 1) + [n] else PlacesBelow(p, n - 1)
  {
    hide Has;
  }

  lemma TopPlace(c: seq<int>, n: nat)
    requires Combination(c, n)
    ensures c == [] || c[|c| - 1] < n ==> Combination(c, n - 1)
    ensures c != [] && c[|c| - 1] >= n ==> Combination(c[..|c| - 1], n - 1) && c == c[..|c| - 1] + [n]
  {
  }

  lemma EmptyFound()
    ensures Positive([]) && Found([], 0)
  {
    NoPart(0);
  }

  lemma AllPositive(c: seq<int>, n: nat)
    requires Combination(c, n)
    ensures Positive(c) && (n == 0 ==> c == [])
  {
    assert c != [] ==> 1 <= c[0] <= n;
  }

  lemma {:induction false} PlacesFound(c: seq<int>, n: nat)
    requires n <= LENGTH && Combination(c, n)
    ensures Positive(c) && Found(c, n)
    decreases n
  {
    hide Found, Combination, Positive;
    AllPositive(c, n);
    if n == 0 {
      EmptyFound();
    } else {
      TopPlace(c, n);
      if c == [] || c[|c| - 1] < n {
        PlacesFound(c, n - 1);
        NothingFound(c, n);
      } else {
        PlacesFound(c[..|c| - 1], n - 1);
        PlaceFound(c[..|c| - 1], n);
      }
    }
  }

  /** The places of a pattern made from places are those places. */
  lemma PlacesOfPattern(c: seq<int>)
    requires Combination(c, LENGTH)
    ensures Places(FromPlaces(c)) == c && Weight(FromPlaces(c)) == |c|
  {
    PlacesFound(c, LENGTH);
  }
}
