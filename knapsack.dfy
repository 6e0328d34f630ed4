/**
 * Subset-sum reachability over gold bar weights: with repetition
 * (lesson08/A_Knapsack.java, ascending inner loop) and with each bar used at
 * most once (lesson08/B_Knapsack.java, descending inner loop). Both answer the
 * largest reachable weight not above the capacity W.
 */
module Knapsack {

  predicate NonNegative(ws: seq<int>) {
    forall k :: 0 <= k < |ws| ==> ws[k] >= 0
  }

  /** x is reachable from the first i weights, each usable any number of times. */
  predicate Repeat(ws: seq<int>, i: nat, x: int)
    requires i <= |ws| && NonNegative(ws)
    decreases i, x
  {
    x == 0 ||
    (i > 0 && x > 0 &&
     (Repeat(ws, i - 1, x) || (ws[i - 1] > 0 && x >= ws[i - 1] && Repeat(ws, i, x - ws[i - 1]))))
  }

  /** x is reachable from the first i weights, each usable at most once. */
  predicate Once(ws: seq<int>, i: nat, x: int)
    requires i <= |ws|
    decreases i
  {
    x == 0 ||
    (i > 0 && (Once(ws, i - 1, x) || (x >= ws[i - 1] && Once(ws, i - 1, x - ws[i - 1]))))
  }

  /** The total weight of the bars at positions `p`. */
  function Total(ws: seq<int>, p: seq<nat>): int
    requires forall k :: 0 <= k < |p| ==> p[k] < |ws|
  {
    if |p| == 0 then 0 else Total(ws, p[..|p| - 1]) + ws[p[|p| - 1]]
  }

  /** A choice of bars among the first i, repetitions allowed, listed by position. */
  predicate Multichoice(i: nat, p: seq<nat>) {
    (forall k :: 0 <= k < |p| ==> p[k] < i) &&
    (forall a, b :: 0 <= a < b < |p| ==> p[a] <= p[b])
  }

  /** A choice of distinct bars among the first i, listed by position. */
  predicate Choice(i: nat, p: seq<nat>) {
    (forall k :: 0 <= k < |p| ==> p[k] < i) &&
    (forall a, b :: 0 <= a < b < |p| ==> p[a] < p[b])
  }

  lemma TotalNonNegative(ws: seq<int>, p: seq<nat>)
    requires NonNegative(ws) && forall k :: 0 <= k < |p| ==> p[k] < |ws|
    ensures Total(ws, p) >= 0
  {
  }

  /** Repeat(ws, i, x) holds exactly when some multichoice of the first i bars weighs x. */
  lemma {:induction false} RepeatWitness(ws: seq<int>, i: nat, x: int) returns (p: seq<nat>)
    requires i <= |ws| && NonNegative(ws) && Repeat(ws, i, x)
    ensures Multichoice(i, p) && Total(ws, p) == x
    decreases i, x
  {
    if x == 0 {
      p := [];
    } else if Repeat(ws, i - 1, x) {
      p := RepeatWitness(ws, i - 1, x);
    } else {
      var q := RepeatWitness(ws, i, x - ws[i - 1]);
      p := q + [i - 1];
      assert p[..|p| - 1] == q;
    }
  }

  lemma {:induction false} RepeatComplete(ws: seq<int>, i: nat, p: seq<nat>)
    requires i <= |ws| && NonNegative(ws) && Multichoice(i, p)
    ensures Repeat(ws, i, Total(ws, p))
    decreases i, |p|
  {
    if |p| > 0 {
      var last, init := p[|p| - 1], p[..|p| - 1];
      assert Multichoice(i, init);
      TotalNonNegative(ws, init);
      if last < i - 1 {
        assert Multichoice(i - 1, p);
        RepeatComplete(ws, i - 1, p);
        RepeatGrows(ws, i, Total(ws, p));
      } else {
        RepeatComplete(ws, i, init);
      }
    }
  }

  /** One more kind of bar never makes a weight unreachable. */
  lemma RepeatGrows(ws: seq<int>, i: nat, x: int)
    requires 0 < i <= |ws| && NonNegative(ws) && Repeat(ws, i - 1, x)
    ensures Repeat(ws, i, x)
  {
  }

  /** Once(ws, i, x) holds exactly when some choice of distinct bars among the first i weighs x. */
  lemma {:induction false} OnceWitness(ws: seq<int>, i: nat, x: int) returns (p: seq<nat>)
    requires i <= |ws| && Once(ws, i, x)
    ensures Choice(i, p) && Total(ws, p) == x
    decreases i
  {
    if x == 0 {
      p := [];
    } else if Once(ws, i - 1, x) {
      p := OnceWitness(ws, i - 1, x);
    } else {
      var q := OnceWitness(ws, i - 1, x - ws[i - 1]);
      p := q + [i - 1];
      assert p[..|p| - 1] == q;
    }
  }

  lemma {:induction false} OnceComplete(ws: seq<int>, i: nat, p: seq<nat>)
    requires i <= |ws| && NonNegative(ws) && Choice(i, p)
    ensures Once(ws, i, Total(ws, p))
    decreases i
  {
    if |p| > 0 {
      var last, init := p[|p| - 1], p[..|p| - 1];
      if last < i - 1 {
        assert Choice(i - 1, p);
        OnceComplete(ws, i - 1, p);
      } else {
        assert Choice(i - 1, init);
        OnceComplete(ws, i - 1, init);
        TotalNonNegative(ws, init);
      }
    }
  }

  /** The answer both exercises return: the largest reachable weight in [0, W]. */
  predicate IsMaxWeight(reach: int -> bool, w: int, r: int) {
    0 <= r <= w && reach(r) && forall y :: r < y <= w ==> !reach(y)
  }

  /**
   * The answer of A_Knapsack read back in terms of bars: r is the weight of
   * some multichoice, and no multichoice within the capacity weighs more.
   */
  lemma RepeatAnswer(ws: seq<int>, w: int, r: int, p: seq<nat>) returns (q: seq<nat>)
    requires NonNegative(ws) && IsMaxWeight(RepeatOf(ws), w, r) && Multichoice(|ws|, p)
    ensures Multichoice(|ws|, q) && Total(ws, q) == r
    ensures Total(ws, p) <= w ==> Total(ws, p) <= r
  {
    assert RepeatOf(ws)(r);
    q := RepeatWitness(ws, |ws|, r);
    RepeatComplete(ws, |ws|, p);
    assert RepeatOf(ws)(Total(ws, p));
  }

  /**
   * The answer of B_Knapsack read back in terms of bars: r is the weight of
   * some set of distinct bars, and no such set within the capacity weighs more.
   */
  lemma OnceAnswer(ws: seq<int>, w: int, r: int, p: seq<nat>) returns (q: seq<nat>)
    requires NonNegative(ws) && IsMaxWeight(OnceOf(ws), w, r) && Choice(|ws|, p)
    ensures Choice(|ws|, q) && Total(ws, q) == r
    ensures Total(ws, p) <= w ==> Total(ws, p) <= r
  {
    assert OnceOf(ws)(r);
    q := OnceWitness(ws, |ws|, r);
    OnceComplete(ws, |ws|, p);
    assert OnceOf(ws)(Total(ws, p));
  }

  /** The documented sample of B_Knapsack: W = 10 with bars 1, 4, 8 gives 9. */
  lemma OnceSample()
    ensures IsMaxWeight(OnceOf([1, 4, 8]), 10, 9)
  {
    var ws := [1, 4, 8];
    assert Once(ws, 0, 9 - 8 - 1);
    assert Once(ws, 3, 9);
    assert !Once(ws, 3, 10);
  }

  /** The documented samples of A_Knapsack: W = 10 with bars 1, 4, 8 gives 10; W = 15 with 2, 8, 16 gives 14. */
  lemma RepeatSamples()
    ensures IsMaxWeight(RepeatOf([1, 4, 8]), 10, 10)
    ensures IsMaxWeight(RepeatOf([2, 8, 16]), 15, 14)
  {
    var ws := [1, 4, 8];
    assert Repeat(ws, 1, 1) && Repeat(ws, 1, 2);
    assert Repeat(ws, 2, 2) && Repeat(ws, 3, 2);
    assert Repeat(ws, 3, 10);
    var vs := [2, 8, 16];
    assert Repeat(vs, 1, 2) && Repeat(vs, 1, 4) && Repeat(vs, 1, 6);
    assert Repeat(vs, 2, 6) && Repeat(vs, 2, 14) && Repeat(vs, 3, 14);
    EvenOnly(vs, 3, 15);
  }

  /** With only even bars, only even weights are reachable. */
  lemma {:induction false} EvenOnly(ws: seq<int>, i: nat, x: int)
    requires i <= |ws| && NonNegative(ws) && forall k :: 0 <= k < |ws| ==> ws[k] % 2 == 0
    ensures Repeat(ws, i, x) ==> x % 2 == 0
    decreases i, x
  {
    if x != 0 && i > 0 && x > 0 {
      EvenOnly(ws, i - 1, x);
      if ws[i - 1] > 0 && x >= ws[i - 1] {
        EvenOnly(ws, i, x - ws[i - 1]);
      }
    }
  }

  function RepeatOf(ws: seq<int>): int -> bool
    requires NonNegative(ws)
  {
    x => Repeat(ws, |ws|, x)
  }

  function OnceOf(ws: seq<int>): int -> bool {
    x => Once(ws, |ws|, x)
  }

  /**
   * A_Knapsack.getMaxWeight: dp[0] is set, each bar sweeps the capacities
   * upwards (so a bar can be reused), then the largest set dp[x] is returned.
   */
  method MaxWeightRepeat(w: int, gold: seq<int>) returns (r: int)
    requires w >= 0 && NonNegative(gold)
    ensures IsMaxWeight(RepeatOf(gold), w, r)
  {
    var dp := new bool[w + 1](_ => false);
    dp[0] := true;
    FillRepeat(dp, gold);
    r := Largest(dp, RepeatOf(gold));
  }

  method FillRepeat(dp: array<bool>, gold: seq<int>)
    requires dp.Length >= 1 && dp[0] && NonNegative(gold)
    requires forall x :: 0 < x < dp.Length ==> !dp[x]
    modifies dp
    ensures forall x :: 0 <= x < dp.Length ==> dp[x] == Repeat(gold, |gold|, x)
  {
    var i := 0;
    while i < |gold|
      invariant 0 <= i <= |gold|
      invariant forall x :: 0 <= x < dp.Length ==> dp[x] == Repeat(gold, i, x)
    {
      SweepUp(dp, gold, i);
      i := i + 1;
    }
  }

  /** The ascending inner loop for bar i: dp[x] |= dp[x - weight]. */
  method SweepUp(dp: array<bool>, gold: seq<int>, i: nat)
    requires i < |gold| && NonNegative(gold)
    requires forall x :: 0 <= x < dp.Length ==> dp[x] == Repeat(gold, i, x)
    modifies dp
    ensures forall x :: 0 <= x < dp.Length ==> dp[x] == Repeat(gold, i + 1, x)
  {
    var weight := gold[i];
    var current := weight;
    while current <= dp.Length - 1
      invariant weight <= current
      invariant forall x :: 0 <= x < dp.Length && x < current ==> dp[x] == Repeat(gold, i + 1, x)
      invariant forall x :: current <= x < dp.Length ==> dp[x] == Repeat(gold, i, x)
    {
      if dp[current - weight] {
        dp[current] := true;
      }
      current := current + 1;
    }
  }

  /**
   * B_Knapsack.getMaxWeight: dp[0] is set, each bar sweeps the capacities
   * downwards (so a bar is used at most once), then the largest set dp[x] is
   * returned.
   */
  method MaxWeightOnce(w: int, gold: seq<int>) returns (r: int)
    requires w >= 0 && NonNegative(gold)
    ensures IsMaxWeight(OnceOf(gold), w, r)
  {
    var dp := new bool[w + 1](_ => false);
    dp[0] := true;
    FillOnce(dp, gold);
    r := Largest(dp, OnceOf(gold));
  }

  method FillOnce(dp: array<bool>, gold: seq<int>)
    requires dp.Length >= 1 && dp[0] && NonNegative(gold)
    requires forall x :: 0 < x < dp.Length ==> !dp[x]
    modifies dp
    ensures forall x :: 0 <= x < dp.Length ==> dp[x] == Once(gold, |gold|, x)
  {
    var i := 0;
    while i < |gold|
      invariant 0 <= i <= |gold|
      invariant forall x :: 0 <= x < dp.Length ==> dp[x] == Once(gold, i, x)
    {
      SweepDown(dp, gold, i);
      i := i + 1;
    }
  }

  /** The descending inner loop for bar i: dp[x + weight] |= dp[x]. */
  method SweepDown(dp: array<bool>, gold: seq<int>, i: nat)
    requires i < |gold| && NonNegative(gold)
    requires forall x :: 0 <= x < dp.Length ==> dp[x] == Once(gold, i, x)
    modifies dp
    ensures forall x :: 0 <= x < dp.Length ==> dp[x] == Once(gold, i + 1, x)
  {
    var weight := gold[i];
    var current := dp.Length - 1 - weight;
    while current >= 0
      invariant current <= dp.Length - 1 - weight
      invariant forall x :: 0 <= x < dp.Length && current + weight < x ==> dp[x] == Once(gold, i + 1, x)
      invariant forall x :: 0 <= x < dp.Length && x <= current + weight ==> dp[x] == Once(gold, i, x)
    {
      if dp[current] {
        dp[current + weight] := true;
      }
      current := current - 1;
    }
  }

  /** The final loop: the largest x with dp[x] set, scanning down from W. */
  method Largest(dp: array<bool>, reach: int -> bool) returns (r: int)
    requires dp.Length >= 1 && dp[0]
    requires forall x :: 0 <= x < dp.Length ==> dp[x] == reach(x)
    ensures IsMaxWeight(reach, dp.Length - 1, r)
  {
    var x := dp.Length - 1;
    while x >= 0
      invariant -1 <= x < dp.Length
      invariant forall y :: x < y < dp.Length ==> !dp[y]
    {
      if dp[x] {
        return x;
      }
      x := x - 1;
    }
    return 0;
  }
}
