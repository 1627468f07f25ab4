/** The encoder and decoder over the Golay code: `golay23_init`, `golay23_encode`,
    `golay23_decode` and `golay23_count_errors`.
 */
module Golay {
  import opened Combinations
  import opened GolayCode
  import opened Pigeonhole

  // ----- division

  /** `(aux/X11) * GENPOL` */
  function Multiple(aux: Pattern): Pattern {
    (aux / X11) * GENPOL
  }

  /** `p` has no bit above the single bit `t`. */
  predicate UpTo(p: Pattern, t: Pattern) {
    p & ((t - 1) | t) == p
  }

  lemma MultipleOfGenerator(t: Pattern)
    requires OneHot(t) && t >= X11
    ensures UpTo(Multiple(t), t) && Meets(Multiple(t), t)
    ensures WrittenOut(Multiple(t)) == 0
  {
  }

  lemma MultipleVanishes(t: Pattern)
    requires OneHot(t) && t >= X11
    ensures UpTo(Multiple(t), t) && Meets(Multiple(t), t) && Syndrome(Multiple(t)) == 0
  {
    MultipleOfGenerator(t);
    hide *;
    SyndromeWrittenOut(Multiple(t));
  }

  lemma Cancelled(p: Pattern, g: Pattern, t: Pattern)
    requires OneHot(t) && UpTo(p, t) && UpTo(g, t) && Meets(p, t) && Meets(g, t)
    ensures Plus(p, g) < p && UpTo(Plus(p, g), t)
  {
  }

  lemma PlusZeroIs(a: Pattern)
    ensures Plus(a, 0) == a
  {
  }

  /** Taking a multiple of the generator off leaves the remainder as it was. */
  lemma Reduced(p: Pattern, t: Pattern)
    requires OneHot(t) && t >= X11 && UpTo(p, t) && Meets(p, t)
    ensures var q := Plus(p, Multiple(t)); q < p && UpTo(q, t) && Syndrome(q) == Syndrome(p)
  {
    MultipleVanishes(t);
    hide Plus, Syndrome, Multiple;
    Cancelled(p, Multiple(t), t);
    SyndromeLinear(p, Multiple(t));
    PlusZeroIs(Syndrome(p));
  }

  lemma BitBelow(p: Pattern, t: Pattern)
    requires OneHot(t) && t >= X11 && UpTo(p, t) && !Meets(p, t) && Meets(p, MASK12)
    ensures OneHot(t >> 1) && X11 <= t >> 1 < t && UpTo(p, t >> 1)
  {
  }

  lemma AllBits(p: Pattern)
    ensures OneHot(X22) && UpTo(p, X22)
  {
  }

  lemma NoUpperBits(p: Pattern)
    ensures !Meets(p, MASK12) <==> p < X11
  {
  }

  /** `get_syndrome`: long division computes the remainder. */
  method GetSyndrome(pattern: Pattern) returns (s: Pattern)
    ensures s == Syndrome(pattern)
  {
    hide Syndrome, Plus, Multiple, Meets, UpTo, OneHot;
    var aux := X22;
    s := pattern;
    AllBits(pattern);
    NoUpperBits(pattern);
    if pattern >= X11 {
      while Meets(s, MASK12)
        invariant OneHot(aux) && aux >= X11 && UpTo(s, aux) && Syndrome(s) == Syndrome(pattern)
        decreases s
      {
        while !Meets(s, aux)
          invariant OneHot(aux) && aux >= X11 && UpTo(s, aux)
          decreases aux
        {
          BitBelow(s, aux);
          aux := aux >> 1;
        }
        Reduced(s, aux);
        s := Plus(s, Multiple(aux));
      }
    }
    NoUpperBits(s);
    SyndromeOfLow(s);
  }

  // ----- codewords

  predicate Codeword(c: Pattern) {
    Syndrome(c) == 0
  }

  /** `pattern << 11` */
  function Raised(data: Pattern): Pattern {
    data << 11
  }

  /** The data bits of a codeword. */
  function DataOf(c: Pattern): Pattern {
    c >> 11
  }

  /** The codeword with the given twelve data bits. */
  function Encoded(data: Pattern): Pattern {
    Plus(Raised(data), Syndrome(Raised(data)))
  }

  lemma RaisedData(data: Pattern, r: Pattern)
    requires data <= 0xfff && r < X11
    ensures Sum(Raised(data), r) == Plus(Raised(data), r)
    ensures DataOf(Plus(Raised(data), r)) == data
  {
  }

  lemma UpperIsRaised(c: Pattern)
    ensures Upper12(c) == Raised(DataOf(c)) && DataOf(c) <= 0xfff
  {
  }

  /** The code is systematic: encoding makes a codeword that starts with its data, and every
      codeword is the encoding of its data. */
  lemma EncodedExactly(c: Pattern, data: Pattern)
    requires data <= 0xfff
    ensures c == Encoded(data) <==> Codeword(c) && DataOf(c) == data
  {
    hide Syndrome, Plus, Raised, DataOf, Upper12;
    var r := Syndrome(Raised(data));
    SyndromeInRange(Raised(data));
    RaisedData(data, r);
    SyndromeLinear(Raised(data), r);
    SyndromeOfLow(r);
    PlusSelf(r);
    if Codeword(c) && DataOf(c) == data {
      CodewordIsCompleted(c);
      UpperIsRaised(c);
    }
  }

  lemma ShiftFixesOnlyZero(c: Pattern)
    ensures c == DataOf(c) <==> c == 0
  {
  }

  lemma EncodedOneWritten()
    ensures WrittenOut(Raised(1)) == 0x475 && Plus(Raised(1), 0x475) == 0xc75
    ensures DataOf(0xc75) == 1
  {
  }

  /** The corrected word is not the data it stands for, except for the zero word: the data 1
      is sent, and comes back, as 0xc75. */
  lemma EncodedOne()
    ensures Encoded(1) == 0xc75 && Codeword(0xc75) && DataOf(0xc75) == 1
  {
    EncodedOneWritten();
    hide Syndrome, WrittenOut, Raised, Plus, DataOf;
    SyndromeWrittenOut(Raised(1));
    EncodedExactly(0xc75, 1);
  }

  // ----- the decoding table

  /** The place of a pattern in the decoding table. */
  function Index(p: Pattern): (k: nat)
    ensures k < 2048
  {
    SyndromeInRange(p);
    SmallValue(Syndrome(p));
    Value(Syndrome(p))
  }

  lemma SmallValue(s: Pattern)
    requires s < X11
    ensures Value(s) < 2048
  {
  }

  lemma ValueInjective(p: Pattern, q: Pattern)
    requires Value(p) == Value(q)
    ensures p == q
  {
    assert (p as int) as Pattern == p;
    assert (q as int) as Pattern == q;
  }

  /** Patterns of up to three errors have different places. */
  lemma IndexesDiffer(p: Pattern, q: Pattern)
    requires Weight(p) <= 3 && Weight(q) <= 3 && Index(p) == Index(q)
    ensures p == q
  {
    hide Weight, Syndrome, Value;
    ValueInjective(Syndrome(p), Syndrome(q));
    SyndromesDiffer(p, q);
  }

  /** Place `k` holds an error pattern of weight up to three whose syndrome is `k`. */
  ghost predicate Filled(table: seq<Pattern>, k: nat) {
    k < |table| && Index(table[k]) == k && Weight(table[k]) <= 3
  }

  /** A pattern of weight up to `r`; with weight `r` its places come no later than `c`. */
  ghost predicate Met(p: Pattern, r: nat, c: seq<int>) {
    Weight(p) < r || (Weight(p) == r && (Places(p) == c || Before(Places(p), c)))
  }

  /** The places filled so far hold patterns already met. */
  ghost predicate Progress(table: seq<Pattern>, full: set<nat>, r: nat, c: seq<int>) {
    |table| == 2048 && forall k :: k in full ==> Filled(table, k) && Met(table[k], r, c)
  }

  /** Entering the next pattern fills one more place and disturbs none. */
  lemma OneMoreFilled(table: seq<Pattern>, full: set<nat>, s: seq<int>, t: seq<int>, at: nat)
    requires Combination(s, LENGTH) && Step(s, t, LENGTH, at) && |s| <= 3
    requires Progress(table, full, |s|, s)
    ensures Combination(t, LENGTH)
    ensures var p := FromPlaces(t);
      Index(p) !in full && Progress(table[Index(p) := p], full + {Index(p)}, |s|, t)
  {
    hide Weight, Places, Index, FromPlaces;
    StepIsCombination(s, t, LENGTH, at);
    var p := FromPlaces(t);
    PlacesOfPattern(t);
    if Index(p) in full {
      var q := table[Index(p)];
      assert Filled(table, Index(p)) && Met(q, |s|, s);
      IndexesDiffer(p, q);
      Asymmetric(s, t);
      assert false;
    }
    forall k | k in full ensures Met(table[k], |s|, t) {
      assert Filled(table, k) && Met(table[k], |s|, s);
      MetLater(table[k], s, t);
    }
  }

  lemma MetLater(p: Pattern, s: seq<int>, t: seq<int>)
    requires Met(p, |s|, s) && Before(s, t)
    ensures Met(p, |s|, t)
  {
    hide Weight, Places;
    if Before(Places(p), s) { Transitive(Places(p), s, t); }
  }

  /** Only patterns of weight below `r` have been entered. */
  ghost predicate Lighter(table: seq<Pattern>, full: set<nat>, r: nat) {
    |table| == 2048 && forall k :: k in full ==> Filled(table, k) && Weight(table[k]) < r
  }

  /** The first pattern of weight `r`, when only lighter ones have been met. */
  lemma FirstFilled(table: seq<Pattern>, full: set<nat>, r: nat)
    requires 1 <= r <= 3 && Lighter(table, full, r)
    ensures Combination(First(r), LENGTH)
    ensures var p := FromPlaces(First(r));
      Index(p) !in full && Progress(table[Index(p) := p], full + {Index(p)}, r, First(r))
  {
    hide Weight, Places, Index, FromPlaces;
    assert Combination(First(r), LENGTH);
    var p := FromPlaces(First(r));
    PlacesOfPattern(First(r));
    if Index(p) in full {
      IndexesDiffer(p, table[Index(p)]);
      assert false;
    }
  }

  lemma NoOnes()
    ensures Index(0) == 0 && Weight(0) == 0
  {
    PlacesOfPattern([]);
    SyndromeOfLow(0);
  }

  lemma SinglePlace(i: nat)
    requires 1 <= i
    ensures FromPlaces([i]) == Bit(i - 1)
  {
  }

  lemma LowestBit()
    ensures Bit(0) == 1 && Index(1) == 1
  {
    SyndromeOfLow(1);
  }

  lemma TimesTwo(t: Pattern)
    ensures t * 2 == Double(t)
  {
  }

  lemma {:induction false} ChooseTwo(n: nat)
    ensures Choose(n, 1) == n && 2 * Choose(n, 2) == n * (n - 1)
  {
    if n > 0 { ChooseTwo(n - 1); }
  }

  /** The numbers of double and triple errors the loops count to. */
  lemma PatternCounts()
    ensures Choose(LENGTH, 2) == 253 && Choose(LENGTH, 3) == 1771
  {
    ChooseTwo(LENGTH);
    ChooseThree(LENGTH);
  }

  lemma {:induction false} ChooseThree(n: nat)
    ensures 6 * Choose(n, 3) == n * (n - 1) * (n - 2)
  {
    if n > 0 {
      ChooseTwo(n - 1);
      ChooseThree(n - 1);
      assert Choose(n, 3) == Choose(n - 1, 2) + Choose(n - 1, 3);
      hide Choose;
      Cubes(n - 1);
    }
  }

  lemma Cubes(m: int)
    ensures (m + 1) * m * (m - 1) == m * (m - 1) * (m - 2) + 3 * (m * (m - 1))
  {
  }

  /** `arr2int`: the pattern with ones in places `a[1]` to `a[r]`. */
  method ArrayToPattern(a: array<int>, r: nat) returns (result: Pattern)
    requires r < a.Length && forall i :: 1 <= i <= r ==> 1 <= a[i]
    ensures result == FromPlaces(a[1..r + 1])
  {
    hide Sum, Double;
    result := 0;
    for i := 1 to r + 1
      invariant result == FromPlaces(a[1..i])
    {
      var mul: Pattern := 1;
      var temp := a[i] - 1;
      while temp > 0
        invariant 0 <= temp <= a[i] - 1 && mul == Bit(a[i] - 1 - temp)
      {
        mul := Double(mul);
        temp := temp - 1;
      }
      result := Sum(result, mul);
      assert a[1..i + 1][..i - 1] == a[1..i];
    }
  }

  /** `decoding_table[get_syndrome(temp)] = temp` with `temp` from `a`. */
  method Enter(table: array<Pattern>, a: array<int>, r: nat)
    requires r < a.Length && (forall i :: 1 <= i <= r ==> 1 <= a[i]) && table.Length == 2048
    requires a as object != table as object
    modifies table
    ensures var p := FromPlaces(old(a[1..r + 1])); table[..] == old(table[..])[Index(p) := p]
    ensures a[..] == old(a[..])
  {
    hide Value, Syndrome, FromPlaces;
    var temp := ArrayToPattern(a, r);
    var s := GetSyndrome(temp);
    IndexIs(temp);
    table[Value(s)] := temp;
  }

  /** All patterns of weight `r`, starting from the first, which the caller has put into `a`. */
  method EnterPatterns(table: array<Pattern>, a: array<int>, r: nat, count: nat, ghost full: set<nat>)
    returns (ghost newFull: set<nat>)
    requires 1 <= r <= 3 && r < a.Length && a[1..r + 1] == First(r) && count == Choose(LENGTH, r)
    requires table.Length == 2048 && Lighter(table[..], full, r) && a as object != table as object
    modifies table, a
    ensures |newFull| == |full| + count && Lighter(table[..], newFull, r + 1)
  {
    hide Choose, Index, FromPlaces, Step, Lighter, Progress, Later;
    ghost var c := a[1..r + 1];
    FirstFilled(table[..], full, r);
    FirstOfAll(r, LENGTH);
    PlacesPositive(a, r);
    Enter(table, a, r);
    newFull := full + {Index(FromPlaces(c))};
    for i := 1 to count
      invariant a[1..r + 1] == c && Combination(c, LENGTH) && Progress(table[..], newFull, r, c)
      invariant |newFull| == |full| + i && Later(c, LENGTH, 0) + i == count
    {
      RoomLeft(c, LENGTH);
      ghost var at := NextComb(LENGTH, r, a);
      ghost var d := a[1..r + 1];
      OneMoreFilled(table[..], newFull, c, d, at);
      StepCounts(c, d, LENGTH, at);
      PlacesPositive(a, r);
      Enter(table, a, r);
      newFull := newFull + {Index(FromPlaces(d))};
      c := d;
    }
    AllMet(table[..], newFull, r, c);
  }

  lemma PlacesPositive(a: array<int>, r: nat)
    requires r < a.Length && Combination(a[1..r + 1], LENGTH)
    ensures forall i :: 1 <= i <= r ==> 1 <= a[i]
  {
  }

  lemma AllMet(table: seq<Pattern>, full: set<nat>, r: nat, c: seq<int>)
    requires Progress(table, full, r, c)
    ensures Lighter(table, full, r + 1)
  {
  }

  lemma IndexIs(p: Pattern)
    ensures Index(p) == Value(Syndrome(p))
  {
  }

  /** As many places as there are cannot leave one out. */
  lemma AllFilled(table: seq<Pattern>, full: set<nat>)
    requires |table| == 2048 && |full| == 2048 && forall k :: k in full ==> Filled(table, k)
    ensures forall k :: 0 <= k < 2048 ==> Filled(table, k)
  {
    hide Index, Weight;
    SubsetOfSameSize(full, Below(2048));
    forall k | 0 <= k < 2048 ensures Filled(table, k) { assert k in Below(2048); }
  }

  ghost predicate DecodingTable(table: seq<Pattern>) {
    |table| == 2048 && forall k :: 0 <= k < 2048 ==> Filled(table, k)
  }

  /** The entry for `data` is its codeword. */
  ghost predicate Entry(table: seq<Pattern>, data: Pattern) {
    Value(data) < |table| && table[Value(data)] == Encoded(data)
  }

  ghost predicate EncodingTable(table: seq<Pattern>) {
    |table| == 4096 && forall data: Pattern :: data <= 0xfff ==> Entry(table, data)
  }

  lemma DataValue(data: Pattern)
    ensures data <= 0xfff <==> Value(data) < 4096
    ensures data <= 0xfff <==> data < 0x1000
    ensures data == 0 ==> Value(data) == 0
  {
  }

  lemma NextData(data: Pattern)
    requires data < 0x1000
    ensures Value(data + 1) == Value(data) + 1
  {
  }

  /** The first loop of `golay23_init`. */
  method FillEncodingTable(table: array<Pattern>)
    requires table.Length == 4096
    modifies table
    ensures EncodingTable(table[..])
  {
    hide Syndrome, Value, Encoded, Raised, Sum, Plus;
    var pattern: Pattern := 0;
    DataValue(0);
    while pattern < 0x1000
      invariant Value(pattern) <= 4096 && (pattern < 0x1000 <==> Value(pattern) < 4096)
      invariant forall d: Pattern :: Value(d) < Value(pattern) ==> Entry(table[..], d)
      decreases 4096 - Value(pattern)
    {
      NextData(pattern);
      DataValue(pattern + 1);
      var temp := Raised(pattern);
      var s := GetSyndrome(temp);
      EncodedIsSum(pattern);
      ghost var before := table[..];
      table[Value(pattern)] := Sum(temp, s);
      forall d: Pattern | Value(d) < Value(pattern + 1) ensures Entry(table[..], d) {
        if Value(d) == Value(pattern) { ValueInjective(d, pattern); }
        EntryKept(before, pattern, d);
      }
      pattern := pattern + 1;
    }
    forall d: Pattern | d <= 0xfff ensures Entry(table[..], d) { DataValue(d); }
  }

  lemma EncodedIsSum(data: Pattern)
    requires data <= 0xfff
    ensures Encoded(data) == Sum(Raised(data), Syndrome(Raised(data)))
  {
    hide Syndrome;
    SyndromeInRange(Raised(data));
    RaisedData(data, Syndrome(Raised(data)));
  }

  lemma EntryKept(table: seq<Pattern>, data: Pattern, d: Pattern)
    requires Value(data) < |table| && (d == data || Entry(table, d))
    ensures Entry(table[Value(data) := Encoded(data)], d)
  {
    hide Value, Encoded;
    if Value(d) == Value(data) { ValueInjective(d, data); }
  }

  /** The rest of `golay23_init`: no error, single, double and triple errors. */
  method FillDecodingTable(table: array<Pattern>)
    requires table.Length == 2048
    modifies table
    ensures DecodingTable(table[..])
  {
    hide Weight, Index, FromPlaces, Places, Choose, Filled, Progress, Lighter, Syndrome, Value, Double, Met, Bit, First;
    table[0] := 0;
    ghost var none := table[..];
    NothingEntered(none);
    FirstFilled(none, {0}, 1);
    SingleFirst();
    table[1] := 1;
    assert table[..] == none[1 := 1];
    var temp: Pattern := 1;
    ghost var full := {0} + {Index(1)};
    for i := 2 to LENGTH + 1
      invariant temp == Bit(i - 2)
      invariant Progress(table[..], full, 1, [i - 1]) && |full| == i
    {
      TimesTwo(temp);
      temp := temp * 2;
      NextSingle(i);
      OneMoreFilled(table[..], full, [i - 1], [i], 0);
      var s := GetSyndrome(temp);
      IndexIs(temp);
      table[Value(s)] := temp;
      full := full + {Index(temp)};
    }
    AllMet(table[..], full, 1, [LENGTH]);
    PatternCounts();
    var a := new int[4];
    a[1], a[2] := 1, 2;
    FirstTwo(a[..]);
    full := EnterPatterns(table, a, 2, 253, full);
    a[1], a[2], a[3] := 1, 2, 3;
    FirstThree(a[..]);
    full := EnterPatterns(table, a, 3, 1771, full);
    EverythingEntered(table[..], full);
  }

  lemma NothingEntered(table: seq<Pattern>)
    requires |table| == 2048 && table[0] == 0
    ensures Lighter(table, {0}, 1)
  {
    hide Weight, Index;
    NoOnes();
  }

  lemma SingleFirst()
    ensures First(1) == [1] && FromPlaces([1]) == 1 == Bit(0) && Index(1) == 1 != Index(0)
  {
    hide Index;
    NoOnes();
    LowestBit();
    SinglePlace(1);
  }

  lemma NextSingle(i: nat)
    requires 2 <= i <= LENGTH
    ensures Bit(i - 1) == Double(Bit(i - 2)) && FromPlaces([i]) == Bit(i - 1)
    ensures Combination([i - 1], LENGTH) && Step([i - 1], [i], LENGTH, 0)
  {
  }

  lemma FirstTwo(a: seq<int>)
    requires |a| == 4 && a[1] == 1 && a[2] == 2
    ensures a[1..3] == First(2)
  {
  }

  lemma FirstThree(a: seq<int>)
    requires |a| == 4 && a[1] == 1 && a[2] == 2 && a[3] == 3
    ensures a[1..4] == First(3)
  {
  }

  lemma EverythingEntered(table: seq<Pattern>, full: set<nat>)
    requires |full| == 2048 && Lighter(table, full, 4)
    ensures DecodingTable(table)
  {
    hide Filled;
    AllFilled(table, full);
  }

  // ----- correcting errors

  lemma PlusBack(a: Pattern, b: Pattern)
    ensures Plus(a, Plus(a, b)) == b
  {
  }

  /** With a full decoding table, every word has one codeword within three errors, and the
      table's entry for its syndrome leads there. */
  lemma Corrected(table: seq<Pattern>, received: Pattern)
    requires DecodingTable(table)
    ensures var c := Plus(received, table[Index(received)]);
      && Codeword(c) && Weight(Plus(received, c)) <= 3
      && forall other :: Codeword(other) && other != c ==> Weight(Plus(received, other)) > 3
  {
    hide Weight, Syndrome, Plus, Index, Value;
    var e := table[Index(received)];
    var c := Plus(received, e);
    assert Filled(table, Index(received));
    SameIndex(e, received);
    SyndromeLinear(received, e);
    PlusSelf(Syndrome(received));
    PlusBack(received, e);
    forall other | Codeword(other) && Weight(Plus(received, other)) <= 3 ensures other == c {
      var f := Plus(received, other);
      SyndromeLinear(received, other);
      PlusZeroIs(Syndrome(received));
      SameSyndrome(f, received);
      IndexesDiffer(e, f);
      PlusBack(received, other);
    }
  }

  lemma SameIndex(p: Pattern, q: Pattern)
    requires Index(p) == Index(q)
    ensures Syndrome(p) == Syndrome(q)
  {
    hide Syndrome, Value;
    ValueInjective(Syndrome(p), Syndrome(q));
  }

  lemma SameSyndrome(p: Pattern, q: Pattern)
    requires Syndrome(p) == Syndrome(q)
    ensures Index(p) == Index(q)
  {
  }

  lemma ZeroWord(received: Pattern)
    ensures Codeword(0) && Plus(received, 0) == received
  {
    hide Syndrome;
    SyndromeOfLow(0);
    PlusZeroIs(received);
  }

  class Codec {
    const encodingTable: array<Pattern>
    const decodingTable: array<Pattern>

    ghost predicate Valid()
      reads encodingTable, decodingTable
    {
      EncodingTable(encodingTable[..]) && DecodingTable(decodingTable[..])
    }

    /** `golay23_init` */
    constructor ()
      ensures Valid() && fresh(encodingTable) && fresh(decodingTable)
    {
      encodingTable := new Pattern[4096](_ => 0);
      decodingTable := new Pattern[2048](_ => 0);
      new;
      hide EncodingTable, DecodingTable;
      FillEncodingTable(encodingTable);
      FillDecodingTable(decodingTable);
    }

    /** The codeword of twelve data bits. */
    method Encode(data: Pattern) returns (codeword: Pattern)
      requires Valid() && data <= 0xfff
      ensures Codeword(codeword) && DataOf(codeword) == data
    {
      hide Codeword, Value, DataOf, DecodingTable, Encoded;
      assert Entry(encodingTable[..], data);
      codeword := encodingTable[Value(data)];
      EncodedExactly(codeword, data);
    }

    /** The one codeword that differs from the word received in at most three bits. It is the
        whole codeword, not the twelve data bits; the two are the same exactly for the words
        received with at most three ones. */
    method Decode(received: Pattern) returns (corrected: Pattern)
      requires Valid()
      ensures Codeword(corrected) && Weight(Plus(received, corrected)) <= 3
      ensures forall c :: Codeword(c) && c != corrected ==> Weight(Plus(received, c)) > 3
      ensures corrected == DataOf(corrected) <==> Weight(received) <= 3
    {
      hide Codeword, Value, Weight, Plus, Syndrome, EncodingTable, DataOf;
      Corrected(decodingTable[..], received);
      var s := GetSyndrome(received);
      IndexIs(received);
      corrected := Plus(received, decodingTable[Value(s)]);
      ShiftFixesOnlyZero(corrected);
      ZeroWord(received);
    }
  }

  /** The data word 1 goes out as 0xc75, and undisturbed that is what decoding returns. */
  method DecodeOne(code: Codec) returns (codeword: Pattern, corrected: Pattern)
    requires code.Valid()
    ensures codeword == corrected == 0xc75 && DataOf(corrected) == 1
  {
    EncodedOne();
    EncodedExactly(0xc75, 1);
    hide Codeword, Weight, Plus, DataOf, Encoded;
    codeword := code.Encode(1);
    EncodedExactly(codeword, 1);
    PlusSelf(codeword);
    NoOnes();
    corrected := code.Decode(codeword);
  }

  // ----- counting errors

  function Halved(p: Pattern): Pattern {
    p >> 1
  }

  /** `p` shifted down by `i` places, one at a time. */
  function Shifted(p: Pattern, i: nat): Pattern {
    if i == 0 then p else Halved(Shifted(p, i - 1))
  }

  lemma HalvedMeets(p: Pattern, t: Pattern)
    requires t < X22
    ensures Meets(Halved(p), t) <==> Meets(p, Double(t))
  {
  }

  lemma {:induction false} ShiftedHas(p: Pattern, i: nat, j: nat)
    requires i + j < LENGTH
    ensures Has(Shifted(p, i), j) <==> Has(p, i + j)
  {
    hide Meets, Halved, Double;
    if i > 0 {
      ShiftedHas(p, i - 1, j + 1);
      BitIsHot(j);
      HalvedMeets(Shifted(p, i - 1), Bit(j));
    }
  }

  /** `golay23_count_errors` */
  method CountErrors(received: Pattern, corrected: Pattern) returns (errors: nat)
    ensures errors == Weight(Plus(received, corrected))
  {
    hide Meets, Halved, Plus, Double;
    errors := 0;
    var diff := Plus(received, corrected);
    for i := 0 to LENGTH
      invariant diff == Shifted(Plus(received, corrected), i)
      invariant errors == WeightBelow(Plus(received, corrected), i)
    {
      ShiftedHas(Plus(received, corrected), i, 0);
      if Meets(diff, 0x1) {
        errors := errors + 1;
      }
      diff := Halved(diff);
    }
  }

  /** A word sent through a channel that turns over the bits of `pattern` comes back exactly if
      at most three bits were turned over; the errors counted are never more than three. */
  method Transmit(code: Codec, data: Pattern, pattern: Pattern) returns (corrected: Pattern, errors: nat)
    requires code.Valid() && data <= 0xfff
    ensures corrected == Encoded(data) <==> Weight(pattern) <= 3
    ensures Weight(pattern) <= 3 ==> DataOf(corrected) == data && errors == Weight(pattern)
    ensures errors <= 3
  {
    hide Codeword, Weight, Plus, DataOf, Encoded, Syndrome;
    var codeword := code.Encode(data);
    EncodedExactly(codeword, data);
    PlusBack(codeword, pattern);
    PlusCommutes(Plus(codeword, pattern), codeword);
    PlusCommutes(codeword, Plus(codeword, pattern));
    corrected := code.Decode(Plus(codeword, pattern));
    errors := CountErrors(Plus(codeword, pattern), corrected);
  }
}
