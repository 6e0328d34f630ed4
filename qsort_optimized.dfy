/**
 * Covering counts with segments sorted by a 3-way quicksort and a binary
 * search for a covering segment (lesson05/C_QSortOptimized.java).
 * Segments compare by their start only.
 */
module QSortOptimized {
  import opened Common
  import opened QSort

  predicate SortedByStart(s: seq<Segment>) {
    forall i, j :: 0 <= i < j < |s| ==> s[i].start <= s[j].start
  }

  /** Every segment of `s` starts no later than every segment of `t`. */
  predicate Below(s: seq<Segment>, t: seq<Segment>) {
    forall x, y :: x in s && y in t ==> x.start <= y.start
  }

  predicate AllStartsBelow(s: seq<Segment>, p: int) {
    forall x :: x in s ==> x.start < p
  }

  predicate AllStartsAt(s: seq<Segment>, p: int) {
    forall x :: x in s ==> x.start == p
  }

  predicate AllStartsAbove(s: seq<Segment>, p: int) {
    forall x :: x in s ==> x.start > p
  }

  lemma SortedConcat(a: seq<Segment>, b: seq<Segment>)
    requires SortedByStart(a) && SortedByStart(b) && Below(a, b)
    ensures SortedByStart(a + b)
  {
    forall i, j | 0 <= i < j < |a + b|
      ensures (a + b)[i].start <= (a + b)[j].start
    {
      if j < |a| {
      } else if i >= |a| {
        assert (a + b)[i] == b[i - |a|] && (a + b)[j] == b[j - |a|];
      } else {
        assert (a + b)[i] in a && (a + b)[j] in b;
      }
    }
  }

  /**
   * `a` is `b` with [lo, hi) permuted and everything else left alone: the
   * frame and the permutation every step of quickSort3Way promises.
   */
  predicate Frame(a: seq<Segment>, b: seq<Segment>, lo: int, hi: int) {
    |a| == |b| && 0 <= lo <= hi <= |a| &&
    a[..lo] == b[..lo] && a[hi..] == b[hi..] && multiset(a[lo..hi]) == multiset(b[lo..hi])
  }

  lemma FrameRefl(a: seq<Segment>, lo: int, hi: int)
    requires 0 <= lo <= hi <= |a|
    ensures Frame(a, a, lo, hi)
  {
  }

  lemma FrameTrans(a: seq<Segment>, b: seq<Segment>, c: seq<Segment>, lo: int, hi: int)
    requires Frame(a, b, lo, hi) && Frame(b, c, lo, hi)
    ensures Frame(a, c, lo, hi)
  {
  }

  /** A permutation of [lo, hi) is a permutation of every enclosing range. */
  lemma Widen(a: seq<Segment>, b: seq<Segment>, lo: int, hi: int, lo': int, hi': int)
    requires Frame(a, b, lo, hi) && 0 <= lo' <= lo && hi <= hi' <= |a|
    ensures Frame(a, b, lo', hi')
  {
    assert a[..lo'] == a[..lo][..lo'] && b[..lo'] == b[..lo][..lo'];
    assert a[hi'..] == a[hi..][hi' - hi..] && b[hi'..] == b[hi..][hi' - hi..];
    assert a[lo'..lo] == a[..lo][lo'..] && b[lo'..lo] == b[..lo][lo'..];
    assert a[hi..hi'] == a[hi..][..hi' - hi] && b[hi..hi'] == b[hi..][..hi' - hi];
    assert a[lo'..hi'] == a[lo'..lo] + a[lo..hi] + a[hi..hi'];
    assert b[lo'..hi'] == b[lo'..lo] + b[lo..hi] + b[hi..hi'];
  }

  /** Two sequences that agree outside [lo, hi) agree on every slice outside it. */
  lemma SliceOutside(a: seq<Segment>, b: seq<Segment>, lo: int, hi: int, i: int, j: int)
    requires Frame(a, b, lo, hi) && 0 <= i <= j <= |a|
    requires j <= lo || hi <= i
    ensures a[i..j] == b[i..j]
  {
    forall k | i <= k < j ensures a[k] == b[k] {
      if j <= lo {
        assert a[k] == a[..lo][k] && b[k] == b[..lo][k];
      } else {
        assert a[k] == a[hi..][k - hi] && b[k] == b[hi..][k - hi];
      }
    }
  }

  lemma SwapFrame(s: seq<Segment>, b: seq<Segment>, lo: int, hi: int, i: int, j: int)
    requires Frame(s, b, lo, hi) && lo <= i < hi && lo <= j < hi
    ensures Frame(s[i := s[j]][j := s[i]], b, lo, hi)
  {
    var t := s[i := s[j]][j := s[i]];
    assert t[lo..hi] == s[lo..hi][i - lo := s[j]][j - lo := s[i]];
    assert t[..lo] == s[..lo];
    assert t[hi..] == s[hi..];
  }

  /** swap: exchanges two slots. */
  method Swap(arr: array<Segment>, i: int, j: int)
    requires 0 <= i < arr.Length && 0 <= j < arr.Length
    modifies arr
    ensures arr[..] == old(arr[..])[i := old(arr[j])][j := old(arr[i])]
  {
    var temp := arr[i];
    arr[i] := arr[j];
    arr[j] := temp;
  }

  /** The loop state of the partition pass: [low, lt) < p, [lt, i) = p, (gt, high] > p. */
  predicate Flag(a: seq<Segment>, low: int, lt: int, i: int, gt: int, high: int, p: int)
    requires 0 <= low <= lt <= i <= gt + 1 <= high + 1 <= |a|
  {
    (forall k :: low <= k < lt ==> a[k].start < p) &&
    (forall k :: lt <= k < i ==> a[k].start == p) &&
    (forall k :: gt < k <= high ==> a[k].start > p)
  }

  lemma FlagLess(a: seq<Segment>, low: int, lt: int, i: int, gt: int, high: int, p: int)
    requires 0 <= low <= lt < i <= gt <= high < |a|
    requires Flag(a, low, lt, i, gt, high, p) && a[i].start < p
    ensures Flag(a[lt := a[i]][i := a[lt]], low, lt + 1, i + 1, gt, high, p)
  {
  }

  lemma FlagMore(a: seq<Segment>, low: int, lt: int, i: int, gt: int, high: int, p: int)
    requires 0 <= low <= lt < i <= gt <= high < |a|
    requires Flag(a, low, lt, i, gt, high, p) && a[i].start > p
    ensures Flag(a[i := a[gt]][gt := a[i]], low, lt, i, gt - 1, high, p)
  {
  }

  /**
   * The Dutch-national-flag pass of quickSort3Way: afterwards [low, lt) starts
   * before the pivot, [lt, gt] starts with it and (gt, high] after it.
   */
  method Partition(arr: array<Segment>, low: int, high: int) returns (lt: int, gt: int)
    requires 0 <= low < high < arr.Length
    modifies arr
    ensures low <= lt <= gt <= high
    ensures Frame(arr[..], old(arr[..]), low, high + 1)
    ensures Partitioned(arr[..], low, lt, gt, high, old(arr[low]).start)
  {
    var pivot := arr[low];
    ghost var before := arr[..];
    FrameRefl(before, low, high + 1);
    lt, gt := low, high;
    var i := low + 1;
    while i <= gt
      invariant low <= lt < i <= gt + 1 <= high + 1
      invariant Frame(arr[..], before, low, high + 1)
      invariant Flag(arr[..], low, lt, i, gt, high, pivot.start)
      decreases gt - i
    {
      lt, i, gt := FlagStep(arr, before, low, high, lt, i, gt, pivot.start);
    }
    PartitionedOfIndices(arr[..], low, lt, gt, high, pivot.start);
  }

  lemma LessKeeps(a: seq<Segment>, before: seq<Segment>, low: int, lt: int, i: int, gt: int, high: int, p: int)
    requires 0 <= low <= lt < i <= gt <= high < |a|
    requires Frame(a, before, low, high + 1) && Flag(a, low, lt, i, gt, high, p) && a[i].start < p
    ensures Frame(a[lt := a[i]][i := a[lt]], before, low, high + 1)
    ensures Flag(a[lt := a[i]][i := a[lt]], low, lt + 1, i + 1, gt, high, p)
  {
    SwapFrame(a, before, low, high + 1, lt, i);
    FlagLess(a, low, lt, i, gt, high, p);
  }

  lemma MoreKeeps(a: seq<Segment>, before: seq<Segment>, low: int, lt: int, i: int, gt: int, high: int, p: int)
    requires 0 <= low <= lt < i <= gt <= high < |a|
    requires Frame(a, before, low, high + 1) && Flag(a, low, lt, i, gt, high, p) && a[i].start > p
    ensures Frame(a[i := a[gt]][gt := a[i]], before, low, high + 1)
    ensures Flag(a[i := a[gt]][gt := a[i]], low, lt, i, gt - 1, high, p)
  {
    SwapFrame(a, before, low, high + 1, i, gt);
    FlagMore(a, low, lt, i, gt, high, p);
  }

  /** One iteration of the partition loop: the slot i joins one of the three bands. */
  method FlagStep(arr: array<Segment>, ghost before: seq<Segment>, low: int, high: int,
                  lt: int, i: int, gt: int, p: int)
    returns (lt': int, i': int, gt': int)
    requires low <= lt < i <= gt <= high < arr.Length
    requires Frame(arr[..], before, low, high + 1)
    requires Flag(arr[..], low, lt, i, gt, high, p)
    modifies arr
    ensures low <= lt' < i' <= gt' + 1 <= high + 1
    ensures gt' - i' < gt - i
    ensures Frame(arr[..], before, low, high + 1)
    ensures Flag(arr[..], low, lt', i', gt', high, p)
  {
    ghost var cur := arr[..];
    lt', i', gt' := lt, i, gt;
    if arr[i].start < p {
      Swap(arr, lt, i);
      LessKeeps(cur, before, low, lt, i, gt, high, p);
      lt', i' := lt + 1, i + 1;
    } else if arr[i].start > p {
      Swap(arr, i, gt);
      MoreKeeps(cur, before, low, lt, i, gt, high, p);
      gt' := gt - 1;
    } else {
      i' := i + 1;
    }
  }

  /** The three bands of a partition, stated on their members. */
  predicate Partitioned(a: seq<Segment>, low: int, lt: int, gt: int, high: int, p: int)
    requires 0 <= low <= lt <= gt <= high < |a|
  {
    AllStartsBelow(a[low..lt], p) && AllStartsAt(a[lt..gt + 1], p) &&
    AllStartsAbove(a[gt + 1..high + 1], p)
  }

  lemma PartitionedOfIndices(a: seq<Segment>, low: int, lt: int, gt: int, high: int, p: int)
    requires 0 <= low <= lt <= gt <= high < |a|
    requires Flag(a, low, lt, gt + 1, gt, high, p)
    ensures Partitioned(a, low, lt, gt, high, p)
  {
    forall x | x in a[low..lt] ensures x.start < p {
      var k :| 0 <= k < lt - low && a[low..lt][k] == x;
      assert a[low + k] == x;
    }
    forall x | x in a[lt..gt + 1] ensures x.start == p {
      var k :| 0 <= k < gt + 1 - lt && a[lt..gt + 1][k] == x;
      assert a[lt + k] == x;
    }
    forall x | x in a[gt + 1..high + 1] ensures x.start > p {
      var k :| 0 <= k < high - gt && a[gt + 1..high + 1][k] == x;
      assert a[gt + 1 + k] == x;
    }
  }

  /**
   * quickSort3Way: sorts [low, high] by start, recursing into the smaller
   * side of each partition and looping on the larger one.
   */
  method QuickSort3Way(arr: array<Segment>, low0: int, high0: int)
    requires 0 <= low0 <= high0 + 1 <= arr.Length
    modifies arr
    ensures SortedByStart(arr[low0..high0 + 1])
    ensures Frame(arr[..], old(arr[..]), low0, high0 + 1)
    decreases high0 - low0, 2
  {
    var low, high := low0, high0;
    ghost var init := arr[..];
    FrameRefl(init, low0, high0 + 1);
    while low < high
      invariant low0 <= low <= high + 1 <= high0 + 1
      invariant Frame(arr[..], init, low0, high0 + 1)
      invariant Settled(arr[..], low0, high0, low, high)
      decreases high - low
    {
      low, high := OuterStep(arr, init, low0, high0, low, high);
    }
    FinishSort(arr[..], low0, high0, low, high);
  }

  /**
   * One iteration of quickSort3Way's loop: partition [low, high], sort the
   * smaller side recursively and keep the larger one for the loop.
   */
  method OuterStep(arr: array<Segment>, ghost init: seq<Segment>, low0: int, high0: int, low: int, high: int)
    returns (low': int, high': int)
    requires 0 <= low0 <= low < high <= high0 < arr.Length
    requires Frame(arr[..], init, low0, high0 + 1)
    requires Settled(arr[..], low0, high0, low, high)
    modifies arr
    ensures low <= low' <= high' + 1 <= high + 1 && high' - low' < high - low
    ensures Frame(arr[..], init, low0, high0 + 1)
    ensures Settled(arr[..], low0, high0, low', high')
    decreases high - low, 1
  {
    ghost var a0 := arr[..];
    var lt, gt := Partition(arr, low, high);
    if lt - low < high - gt {
      SortLeft(arr, init, a0, low0, high0, low, high, lt, gt);
      low', high' := gt + 1, high;
    } else {
      SortRight(arr, init, a0, low0, high0, low, high, lt, gt);
      low', high' := low, lt - 1;
    }
  }

  /** The left band is the smaller one: it is sorted recursively. */
  method SortLeft(arr: array<Segment>, ghost init: seq<Segment>, ghost a0: seq<Segment>,
                  low0: int, high0: int, low: int, high: int, lt: int, gt: int)
    requires 0 <= low0 <= low <= lt <= gt <= high <= high0 < arr.Length && |a0| == arr.Length
    requires Frame(a0, init, low0, high0 + 1) && Settled(a0, low0, high0, low, high)
    requires Frame(arr[..], a0, low, high + 1)
    requires Partitioned(arr[..], low, lt, gt, high, a0[low].start)
    modifies arr
    ensures Frame(arr[..], init, low0, high0 + 1)
    ensures Settled(arr[..], low0, high0, gt + 1, high)
    decreases high - low, 0
  {
    ghost var a1 := arr[..];
    QuickSort3Way(arr, low, lt - 1);
    ghost var a2 := arr[..];
    LeftStep(a0, a1, a2, low0, high0, low, high, lt, gt);
    FrameTrans(a2, a0, init, low0, high0 + 1);
  }

  /** The right band is the smaller one: it is sorted recursively. */
  method SortRight(arr: array<Segment>, ghost init: seq<Segment>, ghost a0: seq<Segment>,
                   low0: int, high0: int, low: int, high: int, lt: int, gt: int)
    requires 0 <= low0 <= low <= lt <= gt <= high <= high0 < arr.Length && |a0| == arr.Length
    requires Frame(a0, init, low0, high0 + 1) && Settled(a0, low0, high0, low, high)
    requires Frame(arr[..], a0, low, high + 1)
    requires Partitioned(arr[..], low, lt, gt, high, a0[low].start)
    modifies arr
    ensures Frame(arr[..], init, low0, high0 + 1)
    ensures Settled(arr[..], low0, high0, low, lt - 1)
    decreases high - low, 0
  {
    ghost var a1 := arr[..];
    QuickSort3Way(arr, gt + 1, high);
    ghost var a2 := arr[..];
    RightStep(a0, a1, a2, low0, high0, low, high, lt, gt);
    FrameTrans(a2, a0, init, low0, high0 + 1);
  }

  /**
   * The facts the outer loop of quickSort3Way keeps: outside [low, high]
   * every pair of slots of [low0, high0] is in order.
   */
  predicate Settled(a: seq<Segment>, low0: int, high0: int, low: int, high: int)
    requires 0 <= low0 <= low <= high + 1 <= high0 + 1 <= |a|
  {
    forall i, j :: low0 <= i < j <= high0 && (i < low || high < j) ==> StartOf(a, i) <= StartOf(a, j)
  }

  function StartOf(a: seq<Segment>, i: int): int
    requires 0 <= i < |a|
  {
    a[i].start
  }

  /** Settled, stated on the three slices it splits [low0, high0] into. */
  predicate LoopState(a: seq<Segment>, low0: int, high0: int, low: int, high: int)
    requires 0 <= low0 <= low <= high + 1 <= high0 + 1 <= |a|
  {
    SortedByStart(a[low0..low]) && SortedByStart(a[high + 1..high0 + 1]) &&
    Below(a[low0..low], a[low..high0 + 1]) &&
    Below(a[low..high + 1], a[high + 1..high0 + 1])
  }

  predicate Subset(s: seq<Segment>, t: seq<Segment>) {
    forall x :: x in s ==> x in t
  }

  lemma SliceSubset(a: seq<Segment>, i: int, j: int, i': int, j': int)
    requires 0 <= i' <= i <= j <= j' <= |a|
    ensures Subset(a[i..j], a[i'..j'])
  {
    forall x | x in a[i..j] ensures x in a[i'..j'] {
      var k :| 0 <= k < j - i && a[i..j][k] == x;
      assert a[i'..j'][k + i - i'] == x;
    }
  }

  lemma PermSubset(s: seq<Segment>, t: seq<Segment>)
    requires multiset(s) == multiset(t)
    ensures Subset(s, t) && Subset(t, s)
  {
    forall x | x in s ensures x in t {
      assert x in multiset(s);
    }
    forall x | x in t ensures x in s {
      assert x in multiset(t);
    }
  }

  lemma AtSorted(s: seq<Segment>, p: int)
    requires AllStartsAt(s, p)
    ensures SortedByStart(s)
  {
    forall i, j | 0 <= i < j < |s| ensures s[i].start <= s[j].start {
      assert s[i] in s && s[j] in s;
    }
  }

  /**
   * One step of quickSort3Way on the left: the prefix P stays, the left band
   * (L1, now sorted as L2) and the pivot band E join it, and G and the suffix
   * S remain. M is the range [low, high] before the partition.
   */
  lemma LeftBands(P: seq<Segment>, L1: seq<Segment>, L2: seq<Segment>, E: seq<Segment>,
                  G: seq<Segment>, S: seq<Segment>, M: seq<Segment>, MS: seq<Segment>,
                  LEG: seq<Segment>, p: int)
    requires SortedByStart(P) && SortedByStart(L2)
    requires LEG == L1 + E + G && MS == M + S
    requires multiset(L2) == multiset(L1) && multiset(LEG) == multiset(M)
    requires Below(P, MS) && Below(M, S)
    requires AllStartsBelow(L1, p) && AllStartsAt(E, p) && AllStartsAbove(G, p)
    ensures SortedByStart(P + L2 + E)
    ensures Below(P + L2 + E, G + S) && Below(G, S)
  {
    PermSubset(L2, L1);
    PermSubset(L1 + E + G, M);
    AtSorted(E, p);
    SortedConcat(P, L2);
    SortedConcat(P + L2, E);
  }

  lemma RightBands(P: seq<Segment>, L: seq<Segment>, E: seq<Segment>, G1: seq<Segment>,
                   G2: seq<Segment>, S: seq<Segment>, M: seq<Segment>, MS: seq<Segment>,
                   LEG: seq<Segment>, p: int)
    requires SortedByStart(S) && SortedByStart(G2)
    requires LEG == L + E + G1 && MS == M + S
    requires multiset(G2) == multiset(G1) && multiset(LEG) == multiset(M)
    requires Below(P, MS) && Below(M, S)
    requires AllStartsBelow(L, p) && AllStartsAt(E, p) && AllStartsAbove(G1, p)
    ensures SortedByStart(E + G2 + S)
    ensures Below(P, L + (E + G2 + S)) && Below(L, E + G2 + S)
  {
    PermSubset(G2, G1);
    PermSubset(L + E + G1, M);
    AtSorted(E, p);
    SortedConcat(G2, S);
    SortedConcat(E, G2 + S);
    assert E + G2 + S == E + (G2 + S);
  }

  /** The slices of one outer step, when the left band was sorted recursively. */
  lemma LeftSlices(a0: seq<Segment>, a1: seq<Segment>, a2: seq<Segment>,
                   low0: int, high0: int, low: int, high: int, lt: int, gt: int)
    requires 0 <= low0 <= low <= lt <= gt <= high <= high0 < |a0|
    requires Frame(a1, a0, low, high + 1) && Frame(a2, a1, low, lt)
    ensures Frame(a2, a0, low0, high0 + 1)
    ensures a2[low0..low] == a0[low0..low] && a2[high + 1..high0 + 1] == a0[high + 1..high0 + 1]
    ensures a2[lt..gt + 1] == a1[lt..gt + 1] && a2[gt + 1..high + 1] == a1[gt + 1..high + 1]
    ensures multiset(a2[low..lt]) == multiset(a1[low..lt])
  {
    Widen(a2, a1, low, lt, low, high + 1);
    FrameTrans(a2, a1, a0, low, high + 1);
    Widen(a2, a0, low, high + 1, low0, high0 + 1);
    SliceOutside(a2, a0, low, high + 1, low0, low);
    SliceOutside(a2, a0, low, high + 1, high + 1, high0 + 1);
    SliceOutside(a2, a1, low, lt, lt, gt + 1);
    SliceOutside(a2, a1, low, lt, gt + 1, high + 1);
  }

  lemma RightSlices(a0: seq<Segment>, a1: seq<Segment>, a2: seq<Segment>,
                    low0: int, high0: int, low: int, high: int, lt: int, gt: int)
    requires 0 <= low0 <= low <= lt <= gt <= high <= high0 < |a0|
    requires Frame(a1, a0, low, high + 1) && Frame(a2, a1, gt + 1, high + 1)
    ensures Frame(a2, a0, low0, high0 + 1)
    ensures a2[low0..low] == a0[low0..low] && a2[high + 1..high0 + 1] == a0[high + 1..high0 + 1]
    ensures a2[low..lt] == a1[low..lt] && a2[lt..gt + 1] == a1[lt..gt + 1]
    ensures multiset(a2[gt + 1..high + 1]) == multiset(a1[gt + 1..high + 1])
  {
    Widen(a2, a1, gt + 1, high + 1, low, high + 1);
    FrameTrans(a2, a1, a0, low, high + 1);
    Widen(a2, a0, low, high + 1, low0, high0 + 1);
    SliceOutside(a2, a0, low, high + 1, low0, low);
    SliceOutside(a2, a0, low, high + 1, high + 1, high0 + 1);
    SliceOutside(a2, a1, gt + 1, high + 1, low, lt);
    SliceOutside(a2, a1, gt + 1, high + 1, lt, gt + 1);
  }

  lemma LeftStep(a0: seq<Segment>, a1: seq<Segment>, a2: seq<Segment>,
                 low0: int, high0: int, low: int, high: int, lt: int, gt: int)
    requires 0 <= low0 <= low <= lt <= gt <= high <= high0 < |a0|
    requires Settled(a0, low0, high0, low, high)
    requires Frame(a1, a0, low, high + 1) && Frame(a2, a1, low, lt)
    requires Partitioned(a1, low, lt, gt, high, a0[low].start)
    requires SortedByStart(a2[low..lt])
    ensures Settled(a2, low0, high0, gt + 1, high)
    ensures Frame(a2, a0, low0, high0 + 1)
  {
    SettledToSlices(a0, low0, high0, low, high);
    LeftStepSlices(a0, a1, a2, low0, high0, low, high, lt, gt);
    SlicesToSettled(a2, low0, high0, gt + 1, high);
  }

  lemma LeftStepSlices(a0: seq<Segment>, a1: seq<Segment>, a2: seq<Segment>,
                 low0: int, high0: int, low: int, high: int, lt: int, gt: int)
    requires 0 <= low0 <= low <= lt <= gt <= high <= high0 < |a0|
    requires LoopState(a0, low0, high0, low, high)
    requires Frame(a1, a0, low, high + 1) && Frame(a2, a1, low, lt)
    requires Partitioned(a1, low, lt, gt, high, a0[low].start)
    requires SortedByStart(a2[low..lt])
    ensures LoopState(a2, low0, high0, gt + 1, high)
    ensures Frame(a2, a0, low0, high0 + 1)
  {
    LeftSlices(a0, a1, a2, low0, high0, low, high, lt, gt);
    Split3(a1, low, lt, gt + 1, high + 1);
    Split2(a0, low, high + 1, high0 + 1);
    var P, L2, E := a0[low0..low], a2[low..lt], a1[lt..gt + 1];
    LeftBands(P, a1[low..lt], L2, E, a1[gt + 1..high + 1], a0[high + 1..high0 + 1],
              a0[low..high + 1], a0[low..high0 + 1], a1[low..high + 1], a0[low].start);
    Split3(a2, low0, low, lt, gt + 1);
    LoopStateOf(a2, low0, high0, gt + 1, high, P + L2 + E, a1[gt + 1..high + 1], a0[high + 1..high0 + 1]);
  }


  lemma RightStep(a0: seq<Segment>, a1: seq<Segment>, a2: seq<Segment>,
                 low0: int, high0: int, low: int, high: int, lt: int, gt: int)
    requires 0 <= low0 <= low <= lt <= gt <= high <= high0 < |a0|
    requires Settled(a0, low0, high0, low, high)
    requires Frame(a1, a0, low, high + 1) && Frame(a2, a1, gt + 1, high + 1)
    requires Partitioned(a1, low, lt, gt, high, a0[low].start)
    requires SortedByStart(a2[gt + 1..high + 1])
    ensures Settled(a2, low0, high0, low, lt - 1)
    ensures Frame(a2, a0, low0, high0 + 1)
  {
    SettledToSlices(a0, low0, high0, low, high);
    RightStepSlices(a0, a1, a2, low0, high0, low, high, lt, gt);
    SlicesToSettled(a2, low0, high0, low, lt - 1);
  }

  lemma RightStepSlices(a0: seq<Segment>, a1: seq<Segment>, a2: seq<Segment>,
                  low0: int, high0: int, low: int, high: int, lt: int, gt: int)
    requires 0 <= low0 <= low <= lt <= gt <= high <= high0 < |a0|
    requires LoopState(a0, low0, high0, low, high)
    requires Frame(a1, a0, low, high + 1) && Frame(a2, a1, gt + 1, high + 1)
    requires Partitioned(a1, low, lt, gt, high, a0[low].start)
    requires SortedByStart(a2[gt + 1..high + 1])
    ensures LoopState(a2, low0, high0, low, lt - 1)
    ensures Frame(a2, a0, low0, high0 + 1)
  {
    RightSlices(a0, a1, a2, low0, high0, low, high, lt, gt);
    Split3(a1, low, lt, gt + 1, high + 1);
    Split2(a0, low, high + 1, high0 + 1);
    var L, E, G2, S := a1[low..lt], a1[lt..gt + 1], a2[gt + 1..high + 1], a0[high + 1..high0 + 1];
    RightBands(a0[low0..low], L, E, a1[gt + 1..high + 1], G2, S, a0[low..high + 1],
               a0[low..high0 + 1], a1[low..high + 1], a0[low].start);
    Split3(a2, lt, gt + 1, high + 1, high0 + 1);
    LoopStateOf(a2, low0, high0, low, lt - 1, a0[low0..low], L, E + G2 + S);
  }


  /** LoopState from the three slices it splits [low0, high0] into. */
  lemma LoopStateOf(a: seq<Segment>, low0: int, high0: int, low: int, high: int,
                    A: seq<Segment>, B: seq<Segment>, C: seq<Segment>)
    requires 0 <= low0 <= low <= high + 1 <= high0 + 1 <= |a|
    requires a[low0..low] == A && a[low..high + 1] == B && a[high + 1..high0 + 1] == C
    requires SortedByStart(A) && SortedByStart(C) && Below(A, B + C) && Below(B, C)
    ensures LoopState(a, low0, high0, low, high)
  {
    Split2(a, low, high + 1, high0 + 1);
  }

  lemma Split2(a: seq<Segment>, i: int, j: int, k: int)
    requires 0 <= i <= j <= k <= |a|
    ensures a[i..k] == a[i..j] + a[j..k]
  {
  }

  lemma Split3(a: seq<Segment>, i: int, j: int, k: int, l: int)
    requires 0 <= i <= j <= k <= l <= |a|
    ensures a[i..l] == a[i..j] + a[j..k] + a[k..l]
  {
  }

  /** When the loop of quickSort3Way stops, [low0, high0] is sorted. */
  lemma FinishSort(a: seq<Segment>, low0: int, high0: int, low: int, high: int)
    requires 0 <= low0 <= low <= high + 1 <= high0 + 1 <= |a| && low >= high
    requires Settled(a, low0, high0, low, high)
    ensures SortedByStart(a[low0..high0 + 1])
  {
    var s := a[low0..high0 + 1];
    forall i, j | 0 <= i < j < |s| ensures s[i].start <= s[j].start {
      assert StartOf(a, low0 + i) <= StartOf(a, low0 + j);
    }
  }

  lemma SettledToSlices(a: seq<Segment>, low0: int, high0: int, low: int, high: int)
    requires 0 <= low0 <= low <= high + 1 <= high0 + 1 <= |a|
    requires Settled(a, low0, high0, low, high)
    ensures LoopState(a, low0, high0, low, high)
  {
    var p := a[low0..low];
    forall i, j | 0 <= i < j < |p| ensures p[i].start <= p[j].start {
      assert StartOf(a, low0 + i) <= StartOf(a, low0 + j);
    }
    var s := a[high + 1..high0 + 1];
    forall i, j | 0 <= i < j < |s| ensures s[i].start <= s[j].start {
      assert StartOf(a, high + 1 + i) <= StartOf(a, high + 1 + j);
    }
    forall x, y | x in a[low0..low] && y in a[low..high0 + 1] ensures x.start <= y.start {
      var i :| 0 <= i < low - low0 && a[low0..low][i] == x;
      var j :| 0 <= j < high0 + 1 - low && a[low..high0 + 1][j] == y;
      assert StartOf(a, low0 + i) <= StartOf(a, low + j);
    }
    forall x, y | x in a[low..high + 1] && y in a[high + 1..high0 + 1] ensures x.start <= y.start {
      var i :| 0 <= i < high + 1 - low && a[low..high + 1][i] == x;
      var j :| 0 <= j < high0 - high && a[high + 1..high0 + 1][j] == y;
      assert StartOf(a, low + i) <= StartOf(a, high + 1 + j);
    }
  }

  lemma SlicesToSettled(a: seq<Segment>, low0: int, high0: int, low: int, high: int)
    requires 0 <= low0 <= low <= high + 1 <= high0 + 1 <= |a|
    requires LoopState(a, low0, high0, low, high)
    ensures Settled(a, low0, high0, low, high)
  {
    forall i, j | low0 <= i < j <= high0 && (i < low || high < j)
      ensures StartOf(a, i) <= StartOf(a, j)
    {
      if j < low {
        assert a[i] == a[low0..low][i - low0] && a[j] == a[low0..low][j - low0];
      } else if i < low {
        assert a[i] in a[low0..low] by { assert a[i] == a[low0..low][i - low0]; }
        assert a[j] in a[low..high0 + 1] by { assert a[j] == a[low..high0 + 1][j - low]; }
      } else if i <= high {
        assert a[i] in a[low..high + 1] by { assert a[i] == a[low..high + 1][i - low]; }
        assert a[j] in a[high + 1..high0 + 1] by { assert a[j] == a[high + 1..high0 + 1][j - high - 1]; }
      } else {
        assert a[i] == a[high + 1..high0 + 1][i - high - 1] && a[j] == a[high + 1..high0 + 1][j - high - 1];
      }
    }
  }

  /**
   * What binarySearchFirstCover's loop returns from the state (left, right,
   * result): it keeps the last covering `mid` it met and moves left after a
   * hit, right after a segment that starts in time but ends too early.
   */
  function FirstCoverFrom(s: seq<Segment>, p: int, left: int, right: int, result: int): (r: int)
    requires 0 <= left <= right + 1 <= |s|
    requires result == -1 || (0 <= result < |s| && Covers(s[result], p))
    ensures r == -1 || (0 <= r < |s| && Covers(s[r], p))
    ensures result != -1 ==> r != -1
    decreases right - left + 1
  {
    if left > right then result
    else
      var mid := left + (right - left) / 2;
      if s[mid].start <= p then
        if s[mid].stop >= p then FirstCoverFrom(s, p, left, mid - 1, mid)
        else FirstCoverFrom(s, p, mid + 1, right, result)
      else FirstCoverFrom(s, p, left, mid - 1, result)
  }

  function FirstCover(s: seq<Segment>, p: int): (r: int)
    ensures r == -1 || (0 <= r < |s| && Covers(s[r], p))
  {
    FirstCoverFrom(s, p, 0, |s| - 1, -1)
  }

  /** One unfolding of FirstCoverFrom, as the loop takes it. */
  lemma SearchStep(s: seq<Segment>, p: int, left: int, right: int, result: int)
    requires 0 <= left <= right < |s|
    requires result == -1 || (0 <= result < |s| && Covers(s[result], p))
    ensures var mid := left + (right - left) / 2;
      FirstCoverFrom(s, p, left, right, result) ==
        if s[mid].start <= p then
          if s[mid].stop >= p then FirstCoverFrom(s, p, left, mid - 1, mid)
          else FirstCoverFrom(s, p, mid + 1, right, result)
        else FirstCoverFrom(s, p, left, mid - 1, result)
  {
  }

  /** binarySearchFirstCover: an index of a segment covering `point`, or -1. */
  method BinarySearchFirstCover(segments: array<Segment>, point: int) returns (r: int)
    ensures r == FirstCover(segments[..], point)
    ensures r == -1 || (0 <= r < segments.Length && Covers(segments[r], point))
  {
    ghost var s := segments[..];
    var left, right := 0, segments.Length - 1;
    var result := -1;
    while left <= right
      invariant 0 <= left <= right + 1 <= |s|
      invariant result == -1 || (0 <= result < |s| && Covers(s[result], point))
      invariant FirstCoverFrom(s, point, left, right, result) == FirstCover(s, point)
      decreases right - left
    {
      var mid := left + (right - left) / 2;
      SearchStep(s, point, left, right, result);
      if segments[mid].start <= point {
        if segments[mid].stop >= point {
          result := mid;
          right := mid - 1;
        } else {
          left := mid + 1;
        }
      } else {
        right := mid - 1;
      }
    }
    return result;
  }

  /**
   * The counting loop of getAccessory2: from index j on, while segments
   * still start at or before p, count those that end at or after p.
   */
  function CountFrom(s: seq<Segment>, j: int, p: int): (r: nat)
    requires 0 <= j <= |s|
    ensures r <= |s| - j
    decreases |s| - j
  {
    if j < |s| && s[j].start <= p then
      (if s[j].stop >= p then 1 else 0) + CountFrom(s, j + 1, p)
    else 0
  }

  /** One point's answer as getAccessory2 computes it. */
  function AnswerAsWritten(s: seq<Segment>, p: int): nat {
    var first := FirstCover(s, p);
    if first == -1 then 0 else CountFrom(s, first, p)
  }

  /** On segments sorted by start, the loop from j counts the covering segments from j on. */
  lemma {:induction false} CountFromIsCovering(s: seq<Segment>, j: int, p: int)
    requires SortedByStart(s) && 0 <= j <= |s|
    ensures CountFrom(s, j, p) == Covering(s[j..], p)
    decreases |s| - j
  {
    if j < |s| {
      assert s[j..][1..] == s[j + 1..];
      if s[j].start <= p {
        CountFromIsCovering(s, j + 1, p);
      } else {
        CountPrefix(s[j..], CoversPoint(p), 0);
      }
    }
  }

  /**
   * The answer as written never overcounts, and it is 0 exactly when the
   * binary search finds no covering segment.
   */
  lemma AsWrittenUndercounts(s: seq<Segment>, p: int)
    requires SortedByStart(s)
    ensures AnswerAsWritten(s, p) <= Covering(s, p)
    ensures AnswerAsWritten(s, p) == 0 <==> FirstCover(s, p) == -1
  {
    var first := FirstCover(s, p);
    if first != -1 {
      CountFromIsCovering(s, first, p);
      assert s == s[..first] + s[first..];
      CountAppend(s[..first], s[first..], CoversPoint(p));
    }
  }

  /**
   * The binary search can miss every covering segment: sorted by start,
   * [0, 10], [1, 2], [3, 4] leave point 5 with answer 0 although [0, 10]
   * covers it.
   */
  lemma FirstCoverMisses()
    ensures var s := [Segment(0, 10), Segment(1, 2), Segment(3, 4)];
      SortedByStart(s) && FirstCover(s, 5) == -1 &&
      AnswerAsWritten(s, 5) == 0 && Covering(s, 5) == 1
  {
    var s := [Segment(0, 10), Segment(1, 2), Segment(3, 4)];
    assert FirstCoverFrom(s, 5, 0, 2, -1) == FirstCoverFrom(s, 5, 2, 2, -1);
    assert FirstCoverFrom(s, 5, 2, 2, -1) == FirstCoverFrom(s, 5, 3, 2, -1);
    assert s[1..] == [Segment(1, 2), Segment(3, 4)];
    assert s[1..][1..] == [Segment(3, 4)];
  }

  /** The intended count: scan from the first segment, not from the search's hit. */
  lemma CountFromStartIsCovering(s: seq<Segment>, p: int)
    requires SortedByStart(s)
    ensures CountFrom(s, 0, p) == Covering(s, p)
  {
    CountFromIsCovering(s, 0, p);
    assert s[0..] == s;
  }

  /** The loop `for (j = from; j < n && start <= point; j++)` of getAccessory2. */
  method CountRun(segments: array<Segment>, from: int, point: int) returns (count: int)
    requires 0 <= from <= segments.Length
    ensures count == CountFrom(segments[..], from, point)
  {
    count := 0;
    var j := from;
    while j < segments.Length && segments[j].start <= point
      invariant from <= j <= segments.Length
      invariant count + CountFrom(segments[..], j, point) == CountFrom(segments[..], from, point)
      decreases segments.Length - j
    {
      if segments[j].stop >= point {
        count := count + 1;
      }
      j := j + 1;
    }
  }

  /** One point's answer in getAccessory2: 0 without a hit, else the run from the hit. */
  method AnswerPoint(segments: array<Segment>, point: int) returns (r: int)
    ensures r == AnswerAsWritten(segments[..], point)
  {
    var firstIndex := BinarySearchFirstCover(segments, point);
    if firstIndex == -1 {
      r := 0;
    } else {
      r := CountRun(segments, firstIndex, point);
    }
  }

  method SegmentsOf(s: seq<Segment>) returns (a: array<Segment>)
    ensures fresh(a) && a[..] == s
  {
    a := new Segment[|s|](i requires 0 <= i < |s| => s[i]);
  }

  /** The reading and sorting half of getAccessory2. */
  method SortedSegments(pairs: seq<(int, int)>) returns (segments: array<Segment>)
    ensures fresh(segments) && segments.Length == |pairs|
    ensures SortedByStart(segments[..])
    ensures multiset(segments[..]) == multiset(NormalizeAll(pairs))
  {
    segments := SegmentsOf(NormalizeAll(pairs));
    ghost var before := segments[..];
    QuickSort3Way(segments, 0, segments.Length - 1);
    assert segments[..][0..segments.Length] == segments[..];
    assert before[0..segments.Length] == before;
  }

  /**
   * getAccessory2 as written: each point's answer counts the covering
   * segments from the binary search's hit on. `sorted` is the order
   * quickSort3Way left the segments in.
   */
  method GetAccessory2(pairs: seq<(int, int)>, points: seq<int>)
    returns (result: array<int>, ghost sorted: seq<Segment>)
    ensures SortedByStart(sorted) && multiset(sorted) == multiset(NormalizeAll(pairs))
    ensures result.Length == |points|
    ensures forall i :: 0 <= i < |points| ==> result[i] == AnswerAsWritten(sorted, points[i])
    ensures forall i :: 0 <= i < |points| ==> result[i] <= Covering(NormalizeAll(pairs), points[i])
  {
    var segments := SortedSegments(pairs);
    sorted := segments[..];
    result := AnswersAsWritten(segments, points, NormalizeAll(pairs));
  }

  /** The per-point loop of getAccessory2 over the sorted segments. */
  method AnswersAsWritten(segments: array<Segment>, points: seq<int>, ghost segs: seq<Segment>)
    returns (result: array<int>)
    requires SortedByStart(segments[..]) && multiset(segments[..]) == multiset(segs)
    ensures result.Length == |points|
    ensures forall i :: 0 <= i < |points| ==> result[i] == AnswerAsWritten(segments[..], points[i])
    ensures forall i :: 0 <= i < |points| ==> result[i] <= Covering(segs, points[i])
  {
    result := new int[|points|];
    var i := 0;
    while i < |points|
      invariant 0 <= i <= |points|
      invariant forall k :: 0 <= k < i ==> result[k] == AnswerAsWritten(segments[..], points[k])
      invariant forall k :: 0 <= k < i ==> result[k] <= Covering(segs, points[k])
    {
      var point := points[i];
      result[i] := AnswerPoint(segments, point);
      AsWrittenBound(segments[..], segs, point);
      i := i + 1;
    }
  }

  lemma AsWrittenBound(sorted: seq<Segment>, segs: seq<Segment>, p: int)
    requires SortedByStart(sorted) && multiset(sorted) == multiset(segs)
    ensures AnswerAsWritten(sorted, p) <= Covering(segs, p)
  {
    AsWrittenUndercounts(sorted, p);
    CountPermutation(sorted, segs, CoversPoint(p));
  }

  /** getAccessory2 with the count started at index 0: every answer is exact. */
  method GetAccessory2Corrected(pairs: seq<(int, int)>, points: seq<int>) returns (result: array<int>)
    ensures result.Length == |points|
    ensures forall i :: 0 <= i < |points| ==> result[i] == Covering(NormalizeAll(pairs), points[i])
  {
    var segments := SortedSegments(pairs);
    result := ExactAnswers(segments, points, NormalizeAll(pairs));
  }

  /** The corrected per-point loop: every run starts at index 0. */
  method ExactAnswers(segments: array<Segment>, points: seq<int>, ghost segs: seq<Segment>)
    returns (result: array<int>)
    requires SortedByStart(segments[..]) && multiset(segments[..]) == multiset(segs)
    ensures result.Length == |points|
    ensures forall i :: 0 <= i < |points| ==> result[i] == Covering(segs, points[i])
  {
    result := new int[|points|];
    var i := 0;
    while i < |points|
      invariant 0 <= i <= |points|
      invariant forall k :: 0 <= k < i ==> result[k] == Covering(segs, points[k])
    {
      var point := points[i];
      result[i] := CountRun(segments, 0, point);
      ExactBound(segments[..], segs, point);
      i := i + 1;
    }
  }

  lemma ExactBound(sorted: seq<Segment>, segs: seq<Segment>, p: int)
    requires SortedByStart(sorted) && multiset(sorted) == multiset(segs)
    ensures CountFrom(sorted, 0, p) == Covering(segs, p)
  {
    CountFromStartIsCovering(sorted, p);
    CountPermutation(sorted, segs, CoversPoint(p));
  }
}
