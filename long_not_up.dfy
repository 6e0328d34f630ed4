/**
 * The longest non-increasing subsequence by the quadratic dp/prev tables,
 * with the 1-based positions of one longest subsequence reconstructed from
 * the `prev` links (lesson06/C_LongNotUpSubSeq.java).
 */
module LongNotUp {

  /**
   * `idx` lists 1-based positions of `m` that strictly increase and whose
   * values do not increase: a non-increasing subsequence.
   */
  predicate NotUp(m: seq<int>, idx: seq<int>) {
    (forall k :: 0 <= k < |idx| ==> 1 <= idx[k] <= |m|) &&
    (forall a, b :: 0 <= a < b < |idx| ==> idx[a] < idx[b] && m[idx[a] - 1] >= m[idx[b] - 1])
  }

  /** dp[i]: the longest non-increasing subsequence that ends at index i. */
  function Best(m: seq<int>, i: nat): (r: nat)
    requires i < |m|
    ensures r >= 1
    decreases i, 1
  {
    1 + Ext(m, i, i)
  }

  /**
   * The inner loop after `j` steps: the largest dp[k] over k < j with
   * m[k] >= m[i], or 0 when there is none.
   */
  function Ext(m: seq<int>, i: nat, j: nat): nat
    requires j <= i < |m|
    decreases j, 0
  {
    if j == 0 then 0
    else
      var e := Ext(m, i, j - 1);
      if m[j - 1] >= m[i] && Best(m, j - 1) > e then Best(m, j - 1) else e
  }

  /**
   * prev[i] after `j` steps of the inner loop: the first k < j whose dp[k]
   * is the largest among those with m[k] >= m[i], or -1 when there is none.
   */
  function Prev(m: seq<int>, i: nat, j: nat): (p: int)
    requires j <= i < |m|
    ensures p == -1 <==> Ext(m, i, j) == 0
    ensures p != -1 ==> 0 <= p < j && m[p] >= m[i] && Best(m, p) == Ext(m, i, j)
  {
    if j == 0 then -1
    else
      var e := Ext(m, i, j - 1);
      if m[j - 1] >= m[i] && Best(m, j - 1) > e then j - 1 else Prev(m, i, j - 1)
  }

  /** The subsequence the `prev` links spell out backwards from index i, 1-based. */
  function Trace(m: seq<int>, i: nat): (idx: seq<int>)
    requires i < |m|
    ensures |idx| == Best(m, i) && idx[|idx| - 1] == i + 1
    decreases i
  {
    var p := Prev(m, i, i);
    if p == -1 then [i + 1] else Trace(m, p) + [i + 1]
  }

  /** The traced positions form a non-increasing subsequence ending at index i. */
  lemma {:induction false} TraceNotUp(m: seq<int>, i: nat)
    requires i < |m|
    ensures NotUp(m, Trace(m, i))
    decreases i
  {
    var p := Prev(m, i, i);
    if p != -1 {
      var t := Trace(m, p);
      assert Trace(m, i) == t + [i + 1];
      TraceNotUp(m, p);
      SnocNotUp(m, t, i + 1);
    }
  }

  lemma SnocNotUp(m: seq<int>, t: seq<int>, x: int)
    requires NotUp(m, t) && |t| > 0 && t[|t| - 1] < x <= |m|
    requires m[t[|t| - 1] - 1] >= m[x - 1]
    ensures NotUp(m, t + [x])
  {
  }

  /** Every index k < j that may precede i contributes its dp[k] to the maximum. */
  lemma {:induction false} ExtBound(m: seq<int>, i: nat, j: nat, k: nat)
    requires k < j <= i < |m| && m[k] >= m[i]
    ensures Best(m, k) <= Ext(m, i, j)
    decreases j
  {
    if k < j - 1 {
      ExtBound(m, i, j - 1, k);
    }
  }

  /** No non-increasing subsequence ending at index i is longer than dp[i]. */
  lemma {:induction false} Optimal(m: seq<int>, idx: seq<int>)
    requires NotUp(m, idx) && |idx| > 0
    ensures |idx| <= Best(m, idx[|idx| - 1] - 1)
    decreases |idx|
  {
    if |idx| > 1 {
      var init := idx[..|idx| - 1];
      assert NotUp(m, init);
      Optimal(m, init);
      var j, i := idx[|idx| - 2] - 1, idx[|idx| - 1] - 1;
      ExtBound(m, i, i, j);
    }
  }

  /**
   * (maxLen, maxIndex) after the outer loop has seen the first n elements:
   * the first index whose dp is the largest so far, or (0, -1).
   */
  function Peak(m: seq<int>, n: nat): (r: (nat, int))
    requires n <= |m|
    ensures r.0 == 0 <==> n == 0
    ensures r.0 == 0 <==> r.1 == -1
    ensures n > 0 ==> 0 <= r.1 < n && r.0 == Best(m, r.1)
    ensures forall k :: 0 <= k < n ==> Best(m, k) <= r.0
    ensures forall k :: 0 <= k < r.1 ==> Best(m, k) < r.0
  {
    if n == 0 then (0, -1)
    else
      var r := Peak(m, n - 1);
      if Best(m, n - 1) > r.0 then (Best(m, n - 1), n - 1) else r
  }

  lemma PeakStep(m: seq<int>, n: nat, len: nat, at: int)
    requires n < |m| && (len, at) == Peak(m, n)
    ensures Peak(m, n + 1) == if Best(m, n) > len then (Best(m, n), n) else (len, at)
  {
  }

  /** The reconstructed positions: the trace from maxIndex, or none on empty input. */
  function Answer(m: seq<int>): (idx: seq<int>)
    ensures |idx| == Peak(m, |m|).0
  {
    var p := Peak(m, |m|);
    if p.1 == -1 then [] else Trace(m, p.1)
  }

  /**
   * The answer is a longest non-increasing subsequence: it is one, and no
   * other is longer.
   */
  lemma Longest(m: seq<int>, idx: seq<int>)
    requires NotUp(m, idx)
    ensures NotUp(m, Answer(m))
    ensures |idx| <= |Answer(m)|
  {
    var p := Peak(m, |m|);
    if p.1 != -1 {
      TraceNotUp(m, p.1);
    }
    if |idx| > 0 {
      Optimal(m, idx);
    }
  }

  /**
   * getNotUpSeqSize: fills dp/prev, keeps the first maximum, then walks
   * `prev` back from maxIndex writing 1-based positions from the end.
   */
  method GetNotUpSeqSize(m: array<int>) returns (maxLen: int, sequence: array<int>)
    ensures maxLen == |Answer(m[..])| && sequence[..] == Answer(m[..])
  {
    var dp := new int[m.Length];
    var prev := new int[m.Length];
    var maxIndex;
    maxLen, maxIndex := Tables(m, m[..], dp, prev);
    assert Answer(m[..]) == Chain(m[..], maxIndex);
    sequence := Reconstruct(prev, m[..], maxLen, maxIndex);
  }

  /** The reconstruction loop: positions written from the back, following prev. */
  method Reconstruct(prev: array<int>, ghost s: seq<int>, maxLen: nat, maxIndex: int) returns (sequence: array<int>)
    requires prev.Length == |s| && -1 <= maxIndex < |s| && maxLen == |Chain(s, maxIndex)|
    requires forall k {:trigger prev[k]} :: 0 <= k < |s| ==> prev[k] == Prev(s, k, k)
    ensures sequence[..] == Chain(s, maxIndex)
  {
    sequence := new int[maxLen];
    var k := maxLen - 1;
    var current := maxIndex;
    ghost var whole := Chain(s, maxIndex);
    assert sequence[maxLen..] == [];
    while current != -1
      invariant -1 <= current < |s| && -1 <= k < maxLen
      invariant k + 1 == |Chain(s, current)|
      invariant |sequence[k + 1..]| == maxLen - (k + 1)
      invariant Chain(s, current) + sequence[k + 1..] == whole
      decreases current + 1
    {
      ghost var before := sequence[..];
      ghost var rest := sequence[k + 1..];
      sequence[k] := current + 1;
      WriteSlice(before, sequence[..], k, current + 1);
      ChainStep(s, current);
      assert prev[current] == Prev(s, current, current);
      Regroup(Chain(s, prev[current]), current + 1, rest, whole);
      current := prev[current];
      k := k - 1;
    }
  }

  /** The traced positions up to index c, or none for c == -1. */
  function Chain(s: seq<int>, c: int): (r: seq<int>)
    requires -1 <= c < |s|
    ensures c != -1 ==> |r| >= 1
  {
    if c == -1 then [] else Trace(s, c)
  }

  lemma ChainStep(s: seq<int>, c: nat)
    requires c < |s|
    ensures Chain(s, c) == Chain(s, Prev(s, c, c)) + [c + 1]
  {
  }

  lemma WriteSlice(a: seq<int>, b: seq<int>, k: nat, x: int)
    requires k < |a| && b == a[k := x]
    ensures b[k..] == [x] + a[k + 1..]
  {
  }

  lemma Regroup(a: seq<int>, x: int, rest: seq<int>, whole: seq<int>)
    requires a + [x] + rest == whole
    ensures a + ([x] + rest) == whole
  {
  }

  /** The two DP loops: dp and prev for every index, and the first maximum of dp. */
  method Tables(m: array<int>, ghost s: seq<int>, dp: array<int>, prev: array<int>) returns (maxLen: nat, maxIndex: int)
    requires m[..] == s && dp.Length == prev.Length == |s|
    requires dp != prev && m != dp && m != prev
    modifies dp, prev
    ensures forall k {:trigger dp[k]} :: 0 <= k < |s| ==> dp[k] == Best(s, k)
    ensures forall k {:trigger prev[k]} :: 0 <= k < |s| ==> prev[k] == Prev(s, k, k)
    ensures (maxLen, maxIndex) == Peak(s, |s|)
  {
    maxLen, maxIndex := 0, -1;
    var i := 0;
    while i < m.Length
      invariant 0 <= i <= m.Length
      invariant forall k {:trigger dp[k]} :: 0 <= k < i ==> dp[k] == Best(s, k)
      invariant forall k {:trigger prev[k]} :: 0 <= k < i ==> prev[k] == Prev(s, k, k)
      invariant (maxLen, maxIndex) == Peak(s, i)
    {
      Cell(m, s, dp, prev, i);
      PeakStep(s, i, maxLen, maxIndex);
      if dp[i] > maxLen {
        maxLen := dp[i];
        maxIndex := i;
      }
      i := i + 1;
    }
  }

  /** The inner loop for index i: dp[i] and prev[i] from the earlier cells. */
  method Cell(m: array<int>, ghost s: seq<int>, dp: array<int>, prev: array<int>, i: nat)
    requires dp.Length == prev.Length == m.Length && i < m.Length && m[..] == s
    requires dp != prev && m != dp && m != prev
    requires forall k {:trigger dp[k]} :: 0 <= k < i ==> dp[k] == Best(s, k)
    modifies dp, prev
    ensures dp[i] == Best(s, i) && prev[i] == Prev(s, i, i)
    ensures forall k :: 0 <= k < dp.Length && k != i ==> dp[k] == old(dp[k]) && prev[k] == old(prev[k])
  {
    dp[i] := 1;
    prev[i] := -1;
    var j := 0;
    while j < i
      invariant 0 <= j <= i
      invariant dp[i] == 1 + Ext(s, i, j) && prev[i] == Prev(s, i, j)
      invariant forall k :: 0 <= k < dp.Length && k != i ==> dp[k] == old(dp[k]) && prev[k] == old(prev[k])
    {
      assert dp[j] == Best(s, j) && m[j] == s[j] && m[i] == s[i];
      if m[j] >= m[i] && dp[j] + 1 > dp[i] {
        dp[i] := dp[j] + 1;
        prev[i] := j;
      }
      j := j + 1;
    }
  }
}
