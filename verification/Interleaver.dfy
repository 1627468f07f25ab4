/** The block (de)interleaver: a table read from a file permutes the bits of every block.

    The source calls the mode that inverts the table `interleave`; here it is `inverse`.
 */
module Interleaver {
  import opened Words
  import opened BitPacking
  import opened Pigeonhole

  const MAX_INTERLEAVER: nat := 10000

  /** The ways the program ends or goes on after reading the table. */
  datatype Load = TooBig | NotWholeBytes | Loaded(m: nat)

  /** Every value below `|t|` occurs once. */
  ghost predicate Permutation(t: seq<nat>) {
    && (forall i :: 0 <= i < |t| ==> t[i] < |t|)
    && (forall i, j :: 0 <= i < j < |t| ==> t[i] != t[j])
  }

  ghost predicate InverseOf(inv: seq<nat>, t: seq<nat>) {
    && |inv| == |t|
    && (forall i :: 0 <= i < |t| ==> t[i] < |t| && inv[t[i]] == i)
    && (forall i :: 0 <= i < |t| ==> inv[i] < |t| && t[inv[i]] == i)
  }

  // ----- pigeonhole

  /** The values in the first `n` places. */
  ghost function Values(t: seq<nat>, n: nat): set<nat>
    requires n <= |t|
  {
    if n == 0 then {} else Values(t, n - 1) + {t[n - 1]}
  }

  lemma {:induction false} ValueAt(t: seq<nat>, n: nat, v: nat)
    requires n <= |t|
    ensures v in Values(t, n) <==> exists i :: 0 <= i < n && t[i] == v
  {
    if n > 0 { ValueAt(t, n - 1, v); }
  }

  lemma {:induction false} CountValues(t: seq<nat>, n: nat)
    requires Permutation(t) && n <= |t|
    ensures |Values(t, n)| == n && Values(t, n) <= Below(|t|)
  {
    if n > 0 {
      CountValues(t, n - 1);
      ValueAt(t, n - 1, t[n - 1]);
    }
  }

  /** No value is missed. */
  lemma PermutationIsOnto(t: seq<nat>, v: nat)
    requires Permutation(t) && v < |t|
    ensures exists i :: 0 <= i < |t| && t[i] == v
  {
    CountValues(t, |t|);
    SubsetOfSameSize(Values(t, |t|), Below(|t|));
    ValueAt(t, |t|, v);
  }

  lemma LeftInverseIsInverse(inv: seq<nat>, t: seq<nat>)
    requires Permutation(t) && |inv| == |t| && forall i :: 0 <= i < |t| ==> inv[t[i]] == i
    ensures InverseOf(inv, t)
  {
    forall v | 0 <= v < |t| ensures inv[v] < |t| && t[inv[v]] == v {
      PermutationIsOnto(t, v);
    }
  }

  // ----- the table

  /** Reads the table, forwards or inverted, into a buffer that is not cleared first. If the
      file is a permutation, inverting it sets every entry of the block. */
  method LoadTable(entries: seq<nat>, inverse: bool, interleaver: array<nat>) returns (r: Load)
    requires interleaver.Length == MAX_INTERLEAVER
    requires inverse ==> forall i :: 0 <= i < |entries| ==> entries[i] < MAX_INTERLEAVER
    modifies interleaver
    ensures r == if |entries| >= MAX_INTERLEAVER then TooBig
                 else if |entries| % 8 != 0 then NotWholeBytes
                 else Loaded(|entries|)
    ensures r.Loaded? && !inverse ==> interleaver[..r.m] == entries
    ensures r.Loaded? && inverse && Permutation(entries) ==> InverseOf(interleaver[..r.m], entries)
  {
    var srcBit := 0;
    for i := 0 to |entries|
      invariant srcBit == i < MAX_INTERLEAVER
      invariant !inverse ==> interleaver[..i] == entries[..i]
      invariant inverse && Permutation(entries) ==> forall k :: 0 <= k < i ==> interleaver[entries[k]] == k
    {
      if inverse {
        interleaver[entries[i]] := srcBit;
      } else {
        interleaver[srcBit] := entries[i];
      }
      srcBit := srcBit + 1;
      if srcBit == MAX_INTERLEAVER {
        return TooBig;
      }
    }
    if inverse && Permutation(entries) {
      LeftInverseIsInverse(interleaver[..srcBit], entries);
    }
    return if srcBit % 8 != 0 then NotWholeBytes else Loaded(srcBit);
  }

  // ----- one block

  function Permuted(s: seq<bool>, t: seq<nat>): (r: seq<bool>)
    requires |s| == |t| && forall i :: 0 <= i < |t| ==> t[i] < |t|
    ensures |r| == |s|
  {
    seq(|t|, i requires 0 <= i < |t| => s[t[i]])
  }

  lemma PermutedBack(s: seq<bool>, t: seq<nat>, inv: seq<nat>)
    requires |s| == |t| && InverseOf(inv, t)
    ensures Permuted(Permuted(s, t), inv) == s && Permuted(Permuted(s, inv), t) == s
  {
  }

  ghost function OnePlaces(s: seq<bool>): set<nat> {
    set i: nat | i < |s| && s[i]
  }

  /** The number of one bits. */
  ghost function Ones(s: seq<bool>): nat {
    |OnePlaces(s)|
  }

  lemma {:induction false} ImageSize(a: set<nat>, b: set<nat>, t: seq<nat>)
    requires Permutation(t) && forall i :: i in a ==> i < |t| && t[i] in b
    requires forall v :: v in b ==> exists i :: i in a && t[i] == v
    ensures |a| == |b|
    decreases |a|
  {
    if a == {} {
      assert b == {};
    } else {
      var i :| i in a;
      var a', b' := a - {i}, b - {t[i]};
      forall v | v in b' ensures exists k :: k in a' && t[k] == v {
        var k :| k in a && t[k] == v;
        assert k in a';
      }
      ImageSize(a', b', t);
    }
  }

  /** A permutation of the block keeps its number of one bits. */
  lemma OnesKept(s: seq<bool>, t: seq<nat>)
    requires |s| == |t| && Permutation(t)
    ensures Ones(Permuted(s, t)) == Ones(s)
  {
    forall v | v in OnePlaces(s) ensures exists i :: i in OnePlaces(Permuted(s, t)) && t[i] == v {
      PermutationIsOnto(t, v);
      var i :| 0 <= i < |t| && t[i] == v;
      assert i in OnePlaces(Permuted(s, t));
    }
    ImageSize(OnePlaces(Permuted(s, t)), OnePlaces(s), t);
  }

  function Block(bytes: seq<Byte>, t: seq<nat>): (r: seq<Byte>)
    requires |t| == 8 * |bytes| && forall i :: 0 <= i < |t| ==> t[i] < |t|
    ensures |r| == |bytes|
  {
    BytesOf(Permuted(FrameBits(bytes), t))
  }

  /** Bit `i` of a processed block is the bit of the old block that entry `i` names. */
  lemma BlockBit(bytes: seq<Byte>, t: seq<nat>, i: nat)
    requires |t| == 8 * |bytes| && i < |t| && forall i :: 0 <= i < |t| ==> t[i] < |t|
    ensures FrameBit(Block(bytes, t), i) == FrameBit(bytes, t[i])
  {
    var s := Permuted(FrameBits(bytes), t);
    BitsOfBytes(s);
    assert FrameBits(BytesOf(s))[i] == s[i];
  }

  lemma BlockBits(bytes: seq<Byte>, t: seq<nat>)
    requires |t| == 8 * |bytes| && forall i :: 0 <= i < |t| ==> t[i] < |t|
    ensures forall i :: 0 <= i < |t| ==> FrameBit(Block(bytes, t), i) == FrameBit(bytes, t[i])
  {
    forall i | 0 <= i < |t| ensures FrameBit(Block(bytes, t), i) == FrameBit(bytes, t[i]) {
      BlockBit(bytes, t, i);
    }
  }

  method ProcessBlock(packed: array<Byte>, interleaver: array<nat>, bits: array<bool>, interleaved: array<bool>)
    requires bits != interleaved && interleaver.Length == MAX_INTERLEAVER
    requires bits.Length == interleaved.Length == 8 * packed.Length <= MAX_INTERLEAVER
    requires forall i :: 0 <= i < bits.Length ==> interleaver[i] < bits.Length
    modifies packed, bits, interleaved
    ensures packed[..] == Block(old(packed[..]), interleaver[..bits.Length])
    ensures var t, before := interleaver[..bits.Length], old(packed[..]);
      forall i :: 0 <= i < bits.Length ==> FrameBit(packed[..], i) == FrameBit(before, t[i])
  {
    ghost var t := interleaver[..bits.Length];
    UnpackBits(packed, bits);
    for i := 0 to interleaved.Length
      invariant forall k :: 0 <= k < i ==> interleaved[k] == bits[t[k]]
      invariant bits[..] == FrameBits(old(packed[..]))
    {
      interleaved[i] := bits[interleaver[i]];
    }
    PackBits(interleaved, packed);
    assert FrameBits(packed[..]) == Permuted(FrameBits(old(packed[..])), t);
    BytesOfBits(packed[..]);
    BlockBits(old(packed[..]), t);
  }

  // ----- the whole stream

  /** Whole blocks are processed; what is left over at the end of the input is dropped. */
  function Stream(input: seq<Byte>, t: seq<nat>): (output: seq<Byte>)
    requires |t| % 8 == 0 && |t| > 0 && forall i :: 0 <= i < |t| ==> t[i] < |t|
    ensures |output| <= |input| < |output| + |t| / 8
  {
    var n := |t| / 8;
    if |input| < n then [] else Block(input[..n], t) + Stream(input[n..], t)
  }

  lemma BitOfHead(a: seq<Byte>, b: seq<Byte>, k: nat)
    requires k < 8 * |a|
    ensures FrameBit(a + b, k) == FrameBit(a, k)
  {
  }

  lemma BitOfTail(a: seq<Byte>, b: seq<Byte>, k: nat)
    requires k < 8 * |b|
    ensures FrameBit(a + b, 8 * |a| + k) == FrameBit(b, k)
  {
    assert (8 * |a| + k) / 8 == |a| + k / 8 && (8 * |a| + k) % 8 == k % 8;
  }

  /** Bit `k` of the output is the bit that entry `k % m` names in the same block of the input. */
  lemma {:induction false} StreamBit(input: seq<Byte>, t: seq<nat>, k: nat)
    requires |t| % 8 == 0 && |t| > 0 && forall i :: 0 <= i < |t| ==> t[i] < |t|
    requires k < 8 * |Stream(input, t)|
    ensures var from := k - k % |t| + t[k % |t|];
      0 <= from < 8 * |input| && FrameBit(Stream(input, t), k) == FrameBit(input, from)
    decreases |input|
  {
    hide Block, FrameBit;
    var m, n := |t|, |t| / 8;
    var head, rest := input[..n], input[n..];
    assert input == head + rest && Stream(input, t) == Block(head, t) + Stream(rest, t);
    if k < m {
      SmallRemainder(k, m);
      BitOfHead(Block(head, t), Stream(rest, t), k);
      BlockBit(head, t, k);
      BitOfHead(head, rest, t[k]);
    } else {
      RemainderOfRest(k, m);
      BitOfTail(Block(head, t), Stream(rest, t), k - m);
      StreamBit(rest, t, k - m);
      BitOfTail(head, rest, k - m - k % m + t[k % m]);
    }
  }

  /** Bit `i` of every whole block of `after` is the bit of the same block of `before` that entry
      `i` of the table names. */
  ghost predicate BitsPicked(before: seq<Byte>, after: seq<Byte>, t: seq<nat>) {
    && |t| > 0 && (forall i :: 0 <= i < |t| ==> t[i] < |t|)
    && forall k :: 0 <= k < 8 * |after| ==>
      var from := k - k % |t| + t[k % |t|];
      0 <= from < 8 * |before| && FrameBit(after, k) == FrameBit(before, from)
  }

  lemma StreamBits(input: seq<Byte>, t: seq<nat>)
    requires |t| % 8 == 0 && |t| > 0 && forall i :: 0 <= i < |t| ==> t[i] < |t|
    ensures BitsPicked(input, Stream(input, t), t)
    ensures |Stream(input, t)| == |input| - |input| % (|t| / 8)
  {
    StreamLength(input, t);
    hide Stream, FrameBit;
    forall k | 0 <= k < 8 * |Stream(input, t)|
      ensures var from := k - k % |t| + t[k % |t|];
        0 <= from < 8 * |input| && FrameBit(Stream(input, t), k) == FrameBit(input, from)
    {
      StreamBit(input, t, k);
    }
  }

  /** The program's main loop over an input stream. */
  method Run(input: seq<Byte>, interleaver: array<nat>, m: nat) returns (output: seq<Byte>)
    requires 0 < m < MAX_INTERLEAVER == interleaver.Length && m % 8 == 0
    requires forall i :: 0 <= i < m ==> interleaver[i] < m
    ensures output == Stream(input, interleaver[..m]) && |output| == |input| - |input| % (m / 8)
    ensures BitsPicked(input, output, interleaver[..m])
  {
    var mpacked := m / 8;
    var packed := new Byte[mpacked](_ => Zeros(8));
    var bits, interleaved := new bool[m], new bool[m];
    hide Block, Stream, BitsPicked, FrameBit, FrameBits;
    output := [];
    var rest := input;
    ghost var t := interleaver[..m];
    while |rest| >= mpacked
      invariant t == interleaver[..m]
      invariant output + Stream(rest, t) == Stream(input, t)
    {
      FillBuffer(packed, rest);
      ProcessBlock(packed, interleaver, bits, interleaved);
      OneMoreBlock(output, rest, t);
      output := output + packed[..];
      rest := rest[mpacked..];
    }
    NothingLeft(rest, t);
    assert output + [] == output;
    StreamBits(input, t);
  }

  lemma OneMoreBlock(output: seq<Byte>, rest: seq<Byte>, t: seq<nat>)
    requires |t| % 8 == 0 && |t| > 0 && (forall i :: 0 <= i < |t| ==> t[i] < |t|) && |rest| >= |t| / 8
    ensures var n := |t| / 8;
      output + Block(rest[..n], t) + Stream(rest[n..], t) == output + Stream(rest, t)
  {
    hide Block;
    var n := |t| / 8;
    assert output + Block(rest[..n], t) + Stream(rest[n..], t) == output + (Block(rest[..n], t) + Stream(rest[n..], t));
  }

  lemma NothingLeft(rest: seq<Byte>, t: seq<nat>)
    requires |t| % 8 == 0 && |t| > 0 && (forall i :: 0 <= i < |t| ==> t[i] < |t|) && |rest| < |t| / 8
    ensures Stream(rest, t) == []
  {
  }

  /** `fread` of a full buffer. */
  method FillBuffer(packed: array<Byte>, input: seq<Byte>)
    requires packed.Length <= |input|
    modifies packed
    ensures packed[..] == input[..packed.Length]
  {
    for k := 0 to packed.Length
      invariant packed[..k] == input[..k]
    {
      packed[k] := input[k];
    }
  }

  /** The whole blocks are all of the input but the remainder of its length. */
  lemma {:induction false} StreamLength(input: seq<Byte>, t: seq<nat>)
    requires |t| % 8 == 0 && |t| > 0 && forall i :: 0 <= i < |t| ==> t[i] < |t|
    ensures |Stream(input, t)| == |input| - |input| % (|t| / 8)
    decreases |input|
  {
    hide Block;
    var n := |t| / 8;
    if |input| >= n {
      StreamLength(input[n..], t);
      RemainderOfRest(|input|, n);
    } else {
      SmallRemainder(|input|, n);
    }
  }

  lemma SmallRemainder(a: nat, n: nat)
    requires a < n
    ensures a % n == a
  {
  }

  lemma RemainderOfRest(a: nat, n: nat)
    requires 0 < n <= a
    ensures a % n == (a - n) % n
  {
    var q, r := (a - n) / n, (a - n) % n;
    assert a - n == q * n + r;
    assert a == (q + 1) * n + r;
    UniqueRemainder(a, n, q + 1, r);
  }

  lemma UniqueRemainder(a: nat, n: nat, q: nat, r: nat)
    requires n > 0 && r < n && a == q * n + r
    ensures a % n == r
  {
    var p, s := a / n, a % n;
    assert a == p * n + s;
    assert (p - q) * n == r - s;
    if p - q >= 1 { AtLeast(p - q, n); }
    if q - p >= 1 { AtLeast(q - p, n); }
  }

  lemma AtLeast(k: nat, n: nat)
    requires k >= 1
    ensures k * n >= n
  {
  }

  lemma {:induction false} StreamUndone(input: seq<Byte>, t: seq<nat>, inv: seq<nat>)
    requires |t| % 8 == 0 && |t| > 0 && InverseOf(inv, t)
    ensures Stream(Stream(input, t), inv) == input[..|Stream(input, t)|]
    ensures Stream(Stream(input, inv), t) == input[..|Stream(input, t)|]
    decreases |input|
  {
    hide Block, InverseOf;
    InverseInRange(inv, t);
    var n := |t| / 8;
    if |input| >= n {
      var head, rest := input[..n], input[n..];
      StreamUndone(rest, t, inv);
      BlockBack(head, t, inv);
      StreamOfBlock(Block(head, t), Stream(rest, t), inv);
      StreamOfBlock(Block(head, inv), Stream(rest, inv), t);
      assert input[..|Stream(input, t)|] == head + rest[..|Stream(rest, t)|];
    }
  }

  /** Interleaving and de-interleaving undo one another on the whole blocks of every stream,
      whichever comes first. */
  lemma StreamBack(input: seq<Byte>, t: seq<nat>, inv: seq<nat>)
    requires |t| % 8 == 0 && |t| > 0 && InverseOf(inv, t)
    ensures |Stream(input, t)| == |Stream(input, inv)| == |input| - |input| % (|t| / 8)
    ensures Stream(Stream(input, t), inv) == input[..|input| - |input| % (|t| / 8)]
    ensures Stream(Stream(input, inv), t) == input[..|input| - |input| % (|t| / 8)]
  {
    InverseInRange(inv, t);
    hide Stream, InverseOf;
    StreamUndone(input, t, inv);
    StreamLength(input, t);
    StreamLength(input, inv);
  }

  /** A permutation file loaded forwards and inverted. */
  method LoadBothWays(entries: seq<nat>) returns (forwards: array<nat>, inverse: array<nat>)
    requires Permutation(entries) && |entries| < MAX_INTERLEAVER && |entries| % 8 == 0
    ensures forwards.Length == inverse.Length == MAX_INTERLEAVER
    ensures forwards[..|entries|] == entries && InverseOf(inverse[..|entries|], entries)
  {
    PermutationInRange(entries);
    hide Permutation, InverseOf;
    forwards, inverse := new nat[MAX_INTERLEAVER](_ => 0), new nat[MAX_INTERLEAVER](_ => 0);
    var f := LoadTable(entries, false, forwards);
    var b := LoadTable(entries, true, inverse);
  }

  /** The program run with a permutation file in one direction and then in the other: the whole
      blocks of every input come back, whichever direction is first. */
  method ThereAndBack(entries: seq<nat>, input: seq<Byte>, inverseFirst: bool) returns (output: seq<Byte>)
    requires Permutation(entries) && 0 < |entries| < MAX_INTERLEAVER && |entries| % 8 == 0
    ensures |output| == |input| - |input| % (|entries| / 8) && output == input[..|output|]
  {
    hide Stream, Permutation, InverseOf;
    var m := |entries|;
    var forwards, inverse := LoadBothWays(entries);
    InverseInRange(inverse[..m], forwards[..m]);
    assert forall i :: 0 <= i < m ==> forwards[i] == forwards[..m][i] && inverse[i] == inverse[..m][i];
    StreamBack(input, forwards[..m], inverse[..m]);
    var middle;
    if inverseFirst {
      middle := Run(input, inverse, m);
      output := Run(middle, forwards, m);
    } else {
      middle := Run(input, forwards, m);
      output := Run(middle, inverse, m);
    }
  }

  lemma PermutationInRange(t: seq<nat>)
    requires Permutation(t)
    ensures forall i :: 0 <= i < |t| ==> t[i] < |t|
  {
  }

  lemma InverseInRange(inv: seq<nat>, t: seq<nat>)
    requires InverseOf(inv, t)
    ensures |inv| == |t| && forall i :: 0 <= i < |t| ==> t[i] < |t| && inv[i] < |t|
  {
  }

  lemma StreamOfBlock(head: seq<Byte>, rest: seq<Byte>, t: seq<nat>)
    requires |t| % 8 == 0 && |t| > 0 && forall i :: 0 <= i < |t| ==> t[i] < |t|
    requires |head| == |t| / 8
    ensures Stream(head + rest, t) == Block(head, t) + Stream(rest, t)
  {
  }

  lemma BlockBack(bytes: seq<Byte>, t: seq<nat>, inv: seq<nat>)
    requires |t| == 8 * |bytes| && InverseOf(inv, t)
    ensures Block(Block(bytes, t), inv) == bytes && Block(Block(bytes, inv), t) == bytes
  {
    var s := FrameBits(bytes);
    BitsOfBytes(Permuted(s, t));
    BitsOfBytes(Permuted(s, inv));
    PermutedBack(s, t, inv);
    BytesOfBits(bytes);
  }
}
