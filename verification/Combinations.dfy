/** Stepping through the combinations of `r` numbers out of 1 to `n` in lexicographic order. */
module Combinations {

  /** The binomial coefficient. */
  function Choose(n: nat, k: nat): nat {
    if k == 0 then 1 else if n == 0 then 0 else Choose(n - 1, k - 1) + Choose(n - 1, k)
  }

  ghost predicate Combination(c: seq<int>, n: int) {
    && (forall i :: 0 <= i < |c| ==> 1 <= c[i] <= n)
    && (forall i, j :: 0 <= i < j < |c| ==> c[i] < c[j])
  }

  /** The greatest number that can stand in place `i`. */
  function Limit(r: nat, n: int, i: nat): int {
    n - r + 1 + i
  }

  /** Lexicographic order: `j` is the first place of difference. */
  ghost predicate BeforeAt(s: seq<int>, t: seq<int>, j: int) {
    0 <= j < |s| == |t| && (forall k :: 0 <= k < j ==> s[k] == t[k]) && s[j] < t[j]
  }

  ghost predicate Before(s: seq<int>, t: seq<int>) {
    exists j :: BeforeAt(s, t, j)
  }

  lemma {:induction false} Spread(c: seq<int>, n: int, i: nat, j: nat)
    requires Combination(c, n) && i <= j < |c|
    ensures c[j] >= c[i] + (j - i)
    decreases j
  {
    if i < j { Spread(c, n, i, j - 1); }
  }

  lemma WithinLimit(c: seq<int>, n: int, i: nat)
    requires Combination(c, n) && i < |c|
    ensures c[i] <= Limit(|c|, n, i)
  {
    Spread(c, n, i, |c| - 1);
  }

  lemma {:induction false} FirstDifference(s: seq<int>, t: seq<int>, j: nat)
    requires j <= |s| == |t| && forall k :: 0 <= k < j ==> s[k] == t[k]
    ensures s == t || Before(s, t) || Before(t, s)
    decreases |s| - j
  {
    if j < |s| {
      if s[j] == t[j] { FirstDifference(s, t, j + 1); }
      else if s[j] < t[j] { assert BeforeAt(s, t, j); }
      else { assert BeforeAt(t, s, j); }
    }
  }

  /** Of two different sequences one comes before the other. */
  lemma Ordered(s: seq<int>, t: seq<int>)
    requires |s| == |t|
    ensures s == t || Before(s, t) || Before(t, s)
  {
    FirstDifference(s, t, 0);
  }

  lemma Asymmetric(s: seq<int>, t: seq<int>)
    requires Before(s, t)
    ensures s != t && !Before(t, s)
  {
  }

  // ----- one step

  /** `t` follows `s`: place `j` goes up by one, everything behind it was at its limit and
      starts again as low as it can. */
  ghost predicate Step(s: seq<int>, t: seq<int>, n: int, j: nat) {
    && j < |s| == |t|
    && (forall k :: 0 <= k < j ==> t[k] == s[k])
    && s[j] < Limit(|s|, n, j)
    && (forall k :: j < k < |s| ==> s[k] == Limit(|s|, n, k))
    && (forall k :: j <= k < |s| ==> t[k] == s[j] + 1 + (k - j))
  }

  lemma StepIsCombination(s: seq<int>, t: seq<int>, n: int, j: nat)
    requires Combination(s, n) && Step(s, t, n, j)
    ensures Combination(t, n) && Before(s, t)
  {
    assert BeforeAt(s, t, j);
  }

  /** No combination lies between one and the next. */
  lemma NoneBetween(s: seq<int>, t: seq<int>, n: int, j: nat, c: seq<int>)
    requires Step(s, t, n, j) && Combination(c, n) && Before(s, c)
    ensures c == t || Before(t, c)
  {
    var i :| BeforeAt(s, c, i);
    if i > j { WithinLimit(c, n, i); }
    Ordered(c, t);
    if Before(c, t) {
      var m :| BeforeAt(c, t, m);
      if m > j { Spread(c, n, j, m); }
    }
  }

  /** The combinations up to `t` are those up to `s`, and `t`. */
  lemma UpToNext(s: seq<int>, t: seq<int>, n: int, j: nat, c: seq<int>)
    requires Combination(s, n) && Step(s, t, n, j) && Combination(c, n) && |c| == |s|
    ensures (c == t || Before(c, t)) <==> (c == t || c == s || Before(c, s))
    ensures !(t == s || Before(t, s))
  {
    StepIsCombination(s, t, n, j);
    Asymmetric(s, t);
    Ordered(c, s);
    if Before(s, c) {
      NoneBetween(s, t, n, j, c);
      if Before(t, c) { Asymmetric(t, c); }
      if Before(c, s) { Asymmetric(s, c); }
      Asymmetric(s, c);
    } else if Before(c, s) {
      Transitive(c, s, t);
    }
  }

  lemma Transitive(a: seq<int>, b: seq<int>, c: seq<int>)
    requires Before(a, b) && Before(b, c)
    ensures Before(a, c)
  {
    var i :| BeforeAt(a, b, i);
    var j :| BeforeAt(b, c, j);
    assert BeforeAt(a, c, if i <= j then i else j);
  }

  // ----- how many are left

  /** How many combinations come later than `c` and share its first `k` places. */
  ghost function Later(c: seq<int>, n: int, k: nat): nat
    requires k <= |c| && forall i :: 0 <= i < |c| ==> c[i] <= n
    decreases |c| - k
  {
    if k == |c| then 0 else Choose(n - c[k], |c| - k) + Later(c, n, k + 1)
  }

  lemma {:induction false} ChooseSign(n: nat, k: nat)
    ensures Choose(n, k) > 0 <==> k <= n
    decreases n
  {
    if k > 0 && n > 0 {
      ChooseSign(n - 1, k - 1);
      ChooseSign(n - 1, k);
    }
  }

  /** Nothing is later than places at their limits. */
  lemma {:induction false} NoneLater(c: seq<int>, n: int, k: nat)
    requires k <= |c| && forall i :: 0 <= i < |c| ==> c[i] <= n
    requires forall i :: k <= i < |c| ==> c[i] == Limit(|c|, n, i)
    ensures Later(c, n, k) == 0
    decreases |c| - k
  {
    if k < |c| {
      NoneLater(c, n, k + 1);
      ChooseSign(n - c[k], |c| - k);
    }
  }

  /** Places that run on from place `k` are the first of all that can stand there: every
      other choice is later. */
  lemma {:induction false} RunLater(c: seq<int>, n: int, k: nat)
    requires k < |c| && forall i :: 0 <= i < |c| ==> c[i] <= n
    requires forall i :: k <= i < |c| ==> c[i] == c[k] + (i - k)
    ensures Later(c, n, k) + 1 == Choose(n - c[k] + 1, |c| - k)
    decreases |c| - k
  {
    if k + 1 < |c| {
      RunLater(c, n, k + 1);
    }
  }

  lemma {:induction false} SamePrefix(s: seq<int>, t: seq<int>, n: int, j: nat, k: nat)
    requires k <= j <= |s| == |t| && (forall i :: 0 <= i < |s| ==> s[i] <= n && t[i] <= n)
    requires forall i :: 0 <= i < j ==> s[i] == t[i]
    ensures Later(s, n, k) - Later(s, n, j) == Later(t, n, k) - Later(t, n, j)
    decreases j - k
  {
    if k < j { SamePrefix(s, t, n, j, k + 1); }
  }

  /** A step leaves exactly one combination fewer to come. */
  lemma StepCounts(s: seq<int>, t: seq<int>, n: int, j: nat)
    requires Combination(s, n) && Step(s, t, n, j)
    ensures Combination(t, n) && Later(s, n, 0) == Later(t, n, 0) + 1
  {
    StepIsCombination(s, t, n, j);
    StepCountsFrom(s, t, n, j);
    hide Choose, Later;
    SamePrefix(s, t, n, j, 0);
  }

  lemma StepCountsFrom(s: seq<int>, t: seq<int>, n: int, j: nat)
    requires n >= 0 && (forall i :: 0 <= i < |s| ==> s[i] <= n) && Step(s, t, n, j)
    requires forall i :: 0 <= i < |t| ==> t[i] <= n
    ensures Later(s, n, j) == Later(t, n, j) + 1
  {
    hide Choose;
    NoneLater(s, n, j + 1);
    RunLater(t, n, j);
  }

  function First(r: nat): (c: seq<int>)
    ensures |c| == r
  {
    seq(r, i requires 0 <= i < r => i + 1)
  }

  /** From the first combination on there are all but one to come. */
  lemma FirstOfAll(r: nat, n: nat)
    requires 1 <= r <= n
    ensures Combination(First(r), n) && Later(First(r), n, 0) + 1 == Choose(n, r)
  {
    hide Choose;
    RunLater(First(r), n, 0);
  }

  /** None is before it. */
  lemma NoneBeforeFirst(n: int, c: seq<int>)
    requires Combination(c, n)
    ensures !Before(c, First(|c|))
  {
    forall j: int ensures !BeforeAt(c, First(|c|), j) {
      if 0 <= j < |c| { Spread(c, n, 0, j); }
    }
  }

  /** When none is to come, every combination has been met. */
  lemma LastOfAll(s: seq<int>, n: int, c: seq<int>)
    requires Combination(s, n) && Combination(c, n) && |c| == |s| && Later(s, n, 0) == 0
    ensures c == s || Before(c, s)
  {
    Ordered(c, s);
    if j :| BeforeAt(s, c, j) {
      WithinLimit(c, n, j);
      TermsVanish(s, n, 0, j);
      ChooseSign(n - s[j], |s| - j);
    }
  }

  lemma {:induction false} TermsVanish(c: seq<int>, n: int, k: nat, j: nat)
    requires k <= j < |c| && (forall i :: 0 <= i < |c| ==> c[i] <= n) && Later(c, n, k) == 0
    ensures Choose(n - c[j], |c| - j) == 0
    decreases j - k
  {
    if k < j { TermsVanish(c, n, k + 1, j); }
  }

  /** While one is to come, the first place can still go up. */
  lemma RoomLeft(c: seq<int>, n: int)
    requires Combination(c, n) && c != [] && Later(c, n, 0) > 0
    ensures c[0] < Limit(|c|, n, 0)
  {
    WithinLimit(c, n, 0);
    if c[0] == Limit(|c|, n, 0) {
      forall i | 0 <= i < |c| ensures c[i] == Limit(|c|, n, i) {
        WithinLimit(c, n, i);
        Spread(c, n, 0, i);
      }
      NoneLater(c, n, 0);
    }
  }

  // ----- the whole enumeration

  ghost predicate Follows(s: seq<int>, t: seq<int>, n: int) {
    exists j: nat :: Step(s, t, n, j)
  }

  /** Each entry follows the one before it. */
  ghost predicate Enumeration(run: seq<seq<int>>, n: int) {
    forall i :: 0 < i < |run| ==> Follows(run[i - 1], run[i], n)
  }

  /** Entry `k` is in order, with the right number to come, and `c` is among the entries up to
      it unless it comes later. */
  lemma {:induction false} Reached(run: seq<seq<int>>, n: nat, r: nat, k: nat, c: seq<int>)
    requires 1 <= r <= n && k < |run| && run[0] == First(r) && Enumeration(run, n)
    requires Combination(c, n) && |c| == r
    ensures |run[k]| == r && Combination(run[k], n) && Later(run[k], n, 0) + 1 + k == Choose(n, r)
    ensures c == run[k] || Before(c, run[k]) ==> c in run[..k + 1]
  {
    if k == 0 {
      hide *;
      FirstOfAll(r, n);
      NoneBeforeFirst(n, c);
    } else {
      hide *;
      Reached(run, n, r, k - 1, c);
      EntryFollows(run, n, k);
      NextReached(run[k - 1], run[k], n, c);
      assert run[..k + 1] == run[..k] + [run[k]];
    }
  }

  lemma EntryFollows(run: seq<seq<int>>, n: int, k: nat)
    requires 0 < k < |run| && Enumeration(run, n)
    ensures Follows(run[k - 1], run[k], n)
  {
  }

  lemma NextReached(s: seq<int>, t: seq<int>, n: nat, c: seq<int>)
    requires Combination(s, n) && Follows(s, t, n) && Combination(c, n) && |c| == |s|
    ensures |t| == |s| && Combination(t, n) && Later(s, n, 0) == Later(t, n, 0) + 1
    ensures c == t || Before(c, t) ==> c == t || c == s || Before(c, s)
  {
    var j: nat :| Step(s, t, n, j);
    hide Later, Combination, Before;
    StepCounts(s, t, n, j);
    UpToNext(s, t, n, j, c);
  }

  lemma {:induction false} InOrder(run: seq<seq<int>>, n: nat, r: nat, i: nat, k: nat)
    requires 1 <= r <= n && i < k < |run| && run[0] == First(r) && Enumeration(run, n)
    ensures Before(run[i], run[k])
    decreases k
  {
    FirstOfAll(r, n);
    Reached(run, n, r, k - 1, First(r));
    assert Follows(run[k - 1], run[k], n);
    hide Choose, Later, Combination, Before;
    var j: nat :| Step(run[k - 1], run[k], n, j);
    StepIsCombination(run[k - 1], run[k], n, j);
    if i < k - 1 {
      InOrder(run, n, r, i, k - 1);
      Transitive(run[i], run[k - 1], run[k]);
    }
  }

  /** Stepping from the first combination, exactly the binomial coefficient's number of steps
      less one can be made, and they meet every combination once. */
  lemma EveryCombinationOnce(run: seq<seq<int>>, n: nat, r: nat, c: seq<int>)
    requires 1 <= r <= n && run != [] && run[0] == First(r) && Enumeration(run, n)
    requires Combination(c, n) && |c| == r
    ensures |run| <= Choose(n, r)
    ensures |run| == Choose(n, r) ==> c in run
    ensures forall i, k :: 0 <= i < k < |run| ==> run[i] != run[k]
  {
    hide *;
    var last := |run| - 1;
    Reached(run, n, r, last, c);
    if |run| == Choose(n, r) {
      LastOfAll(run[last], n, c);
      assert run[..last + 1] == run;
    }
    forall i, k | 0 <= i < k < |run| ensures run[i] != run[k] {
      InOrder(run, n, r, i, k);
      Asymmetric(run[i], run[k]);
    }
  }

  // ----- the method

  lemma LastPlaceUp(s: seq<int>, t: seq<int>, n: int)
    requires s != [] && |t| == |s| && s[|s| - 1] < n && t == s[|s| - 1 := s[|s| - 1] + 1]
    ensures Step(s, t, n, |s| - 1)
  {
  }

  /** `nextcomb`: the combination is in places 1 to `r` of `a`. */
  method NextComb(n: int, r: nat, a: array<int>) returns (ghost at: nat)
    requires 1 <= r < a.Length && Combination(a[1..r + 1], n) && a[1] < Limit(r, n, 0)
    modifies a
    ensures Step(old(a[1..r + 1]), a[1..r + 1], n, at)
  {
    ghost var s := a[1..r + 1];
    forall i | 0 <= i < r ensures s[i] <= Limit(r, n, i) { WithinLimit(s, n, i); }
    assert forall i :: 1 <= i <= r ==> a[i] == s[i - 1];
    hide Combination, Step;
    a[r] := a[r] + 1;
    if a[r] <= n {
      LastPlaceUp(s, a[1..r + 1], n);
      return r - 1;
    }
    var j := r - 1;
    assert j >= 1;
    while a[j] == n - r + j
      invariant 1 <= j < r
      invariant forall k :: j <= k < r ==> s[k] == Limit(r, n, k)
      decreases j
    {
      j := j - 1;
      assert j >= 1;
    }
    at := j - 1;
    Carry(a, s, n, r, j);
  }

  /** The loop at the end of `nextcomb`: place `j` goes up and the places behind it follow. */
  method Carry(a: array<int>, ghost s: seq<int>, n: int, r: nat, j: nat)
    requires 1 <= j < r == |s| && r < a.Length && s[j - 1] < Limit(r, n, j - 1)
    requires forall k :: 1 <= k < r ==> a[k] == s[k - 1]
    requires forall k :: j <= k < r ==> s[k] == Limit(r, n, k)
    modifies a
    ensures Step(s, a[1..r + 1], n, j - 1)
  {
    var i := r;
    while i >= j
      invariant j - 1 <= i <= r
      invariant forall k :: 1 <= k < j ==> a[k] == s[k - 1]
      invariant i >= j ==> a[j] == s[j - 1]
      invariant forall k :: i < k <= r ==> a[k] == s[j - 1] + (k - j) + 1
      decreases i
    {
      a[i] := a[j] + i - j + 1;
      i := i - 1;
    }
  }
}
