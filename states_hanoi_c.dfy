/**
 * The disjoint-set union of lesson14/StatesHanoiTowerC.java: find by path
 * halving, union by size with a count of components, the component sizes
 * sorted by bubble sort, and the grouping of states that have equal heights.
 */
module StatesHanoiTowerC {
  import opened Common
  import opened DisjointSets

  class Dsu {
    var parent: array<int>
    var size: array<int>
    var count: int
    /** The partition the forest stands for: comp[i] is the root of i. */
    ghost var comp: seq<int>
    /** Levels that grow strictly towards the root, bounded by `top`. */
    ghost var level: seq<int>
    ghost var top: nat

    ghost predicate Valid()
      reads this, parent, size
    {
      parent.Length == size.Length == |comp| == |level| && parent != size &&
      Forest(parent[..], level, size[..], comp, top) &&
      count == RootCount(comp, |comp|)
    }

    /** DSU(n): n singleton components. */
    constructor (n: nat)
      ensures Valid() && comp == Singletons(n) && count == n
      ensures fresh(parent) && fresh(size)
    {
      parent := new int[n];
      size := new int[n];
      count := n;
      comp := Singletons(n);
      level := seq(n, _ => 0);
      top := 0;
      new;
      var i := 0;
      while i < n
        invariant 0 <= i <= n
        invariant forall k :: 0 <= k < i ==> parent[k] == k && size[k] == 1
        modifies parent, size
      {
        parent[i] := i;
        size[i] := 1;
        i := i + 1;
      }
      SingletonForest(n, parent[..], level, size[..]);
      RootCountAll(n, n);
    }

    /**
     * find: walks to the root, pointing each visited node at its
     * grandparent on the way; the partition and the sizes stay as they were.
     */
    method Find(x0: int) returns (x: int)
      requires Valid() && 0 <= x0 < |comp|
      modifies parent
      ensures Valid() && x == comp[x0] && parent[x] == x
    {
      x := x0;
      while parent[x] != x
        invariant Valid() && 0 <= x < |comp| && comp[x] == comp[x0]
        decreases top - level[x]
      {
        ghost var before := parent[..];
        Grandparent(before, level, size[..], comp, top, x);
        parent[x] := parent[parent[x]];
        assert parent[..] == before[x := before[before[x]]];
        Relink(before, level, size[..], comp, top, x, before[before[x]]);
        x := parent[x];
      }
    }

    /**
     * union: a no-op when x and y already share a root. Otherwise the root
     * of the smaller component goes under the other (the root of x wins a
     * tie), the sizes add up and there is one component fewer.
     */
    method Union(x: int, y: int)
      requires Valid() && 0 <= x < |comp| && 0 <= y < |comp|
      modifies this, parent, size
      ensures Valid() && parent == old(parent) && size == old(size)
      ensures var a, b := old(comp[x]), old(comp[y]);
        if a == b then comp == old(comp) && count == old(count)
        else
          var (loser, winner) := if old(size[a]) < old(size[b]) then (a, b) else (b, a);
          comp == Merge(old(comp), loser, winner) && count == old(count) - 1 &&
          size[winner] == old(size[a]) + old(size[b])
    {
      var rootX := Find(x);
      var rootY := Find(y);
      if rootX == rootY {
        return;
      }
      if size[rootX] < size[rootY] {
        Link(rootX, rootY);
      } else {
        Link(rootY, rootX);
      }
    }

    /** Attaches root `loser` under root `winner`, adds up the sizes, and counts one component fewer. */
    method Link(loser: int, winner: int)
      requires Valid() && 0 <= loser < |comp| && 0 <= winner < |comp| && loser != winner
      requires comp[loser] == loser && comp[winner] == winner
      modifies this, parent, size
      ensures Valid() && parent == old(parent) && size == old(size)
      ensures comp == Merge(old(comp), loser, winner) && count == old(count) - 1
      ensures size[winner] == old(size[loser]) + old(size[winner])
    {
      ghost var p, sz := parent[..], size[..];
      parent[loser] := winner;
      size[winner] := size[winner] + size[loser];
      count := count - 1;
      assert parent[..] == p[loser := winner];
      assert size[..] == sz[winner := sz[winner] + sz[loser]];
      ghost var lw := if level[winner] <= level[loser] then level[loser] + 1 else level[winner];
      LinkForest(p, level, sz, comp, top, loser, winner, lw);
      MergeRootCount(comp, loser, winner, |comp|);
      comp := Merge(comp, loser, winner);
      level := level[winner := lw];
      if top < lw {
        top := lw;
      }
    }

    /**
     * getComponentSizes: the sizes of the roots in index order, in an array
     * of exactly `count` entries, then sorted ascending.
     */
    method GetComponentSizes() returns (rootSizes: array<int>)
      requires Valid()
      ensures fresh(rootSizes)
      ensures Ascending(rootSizes[..]) && multiset(rootSizes[..]) == multiset(RootSizes(comp, |comp|))
    {
      rootSizes := new int[count];
      Collect(rootSizes);
      BubbleSort(rootSizes);
    }

    /** The loop over the elements that writes each root's size. */
    method Collect(rootSizes: array<int>)
      requires Valid() && rootSizes.Length == count && rootSizes != parent && rootSizes != size
      modifies rootSizes
      ensures rootSizes[..] == RootSizes(comp, |comp|)
    {
      var index := 0;
      var i := 0;
      RootSizesSum(comp, 0);
      while i < parent.Length
        invariant 0 <= i <= parent.Length && Valid()
        invariant index == RootCount(comp, i) <= rootSizes.Length
        invariant rootSizes[..index] == RootSizes(comp, i)
      {
        RootSizesSum(comp, i + 1);
        RootCountMono(comp, i + 1, |comp|);
        RootAt(parent[..], level, size[..], comp, top, i);
        if parent[i] == i {
          rootSizes[index] := size[i];
          assert rootSizes[..index + 1] == rootSizes[..index] + [size[i]];
          index := index + 1;
        }
        i := i + 1;
      }
      assert rootSizes[..] == rootSizes[..index];
    }
  }

  /** The component sizes add up to the number of states and there are `count` of them. */
  lemma ComponentSizes(comp: seq<int>, sizes: seq<int>)
    requires Closed(comp) && multiset(sizes) == multiset(RootSizes(comp, |comp|))
    ensures Sum(sizes) == |comp| && |sizes| == RootCount(comp, |comp|)
  {
    RootSizesTotal(comp);
    SumPermutation(sizes, RootSizes(comp, |comp|));
    assert |sizes| == |multiset(sizes)|;
  }

  // ----- bubble sort -----

  /** a[lo..] is ascending. */
  ghost predicate SortedFrom(a: seq<int>, lo: int) {
    forall p, q :: 0 <= lo <= p < q < |a| ==> a[p] <= a[q]
  }

  /** Nothing before position m exceeds anything from m on. */
  ghost predicate Split(a: seq<int>, m: int) {
    forall p, q :: 0 <= p < m <= q < |a| ==> a[p] <= a[q]
  }

  /** bubbleSort: the array ends up ascending and a permutation of its input. */
  method BubbleSort(arr: array<int>)
    modifies arr
    ensures Ascending(arr[..]) && multiset(arr[..]) == multiset(old(arr[..]))
  {
    var n := arr.Length;
    var i := 0;
    while i < n - 1
      invariant 0 <= i && (n == 0 || i <= n - 1)
      invariant SortedFrom(arr[..], n - i) && Split(arr[..], n - i)
      invariant multiset(arr[..]) == multiset(old(arr[..]))
    {
      Pass(arr, n - i - 1);
      i := i + 1;
    }
  }

  /** a[j] is the largest of a[..j + 1]. */
  ghost predicate MaxAt(a: seq<int>, j: int)
    requires 0 <= j < |a|
  {
    forall p :: 0 <= p <= j ==> a[p] <= a[j]
  }

  /**
   * The inner loop: adjacent out-of-order pairs are swapped up to position
   * m, which then holds the largest of arr[..m + 1].
   */
  method Pass(arr: array<int>, m: int)
    requires 0 <= m < arr.Length
    requires SortedFrom(arr[..], m + 1) && Split(arr[..], m + 1)
    modifies arr
    ensures SortedFrom(arr[..], m) && Split(arr[..], m)
    ensures multiset(arr[..]) == multiset(old(arr[..]))
  {
    var j := 0;
    while j < m
      invariant 0 <= j <= m && PassInv(arr[..], j, m)
      invariant multiset(arr[..]) == multiset(old(arr[..]))
    {
      ghost var before := arr[..];
      if arr[j] > arr[j + 1] {
        arr[j], arr[j + 1] := arr[j + 1], arr[j];
      }
      PassStep(before, arr[..], j, m);
      j := j + 1;
    }
    PassEnd(arr[..], m);
  }

  /** The inner loop's invariant at column j. */
  ghost predicate PassInv(a: seq<int>, j: int, m: int) {
    0 <= j <= m < |a| && MaxAt(a, j) && SortedFrom(a, m + 1) && Split(a, m + 1)
  }

  /** One compare-and-swap keeps the inner loop's invariant. */
  lemma PassStep(a: seq<int>, b: seq<int>, j: nat, m: nat)
    requires j < m && PassInv(a, j, m)
    requires b == if a[j] > a[j + 1] then a[j := a[j + 1]][j + 1 := a[j]] else a
    ensures PassInv(b, j + 1, m)
    ensures multiset(b) == multiset(a)
  {
    if a[j] > a[j + 1] {
      SwapMultiset(a, b, j);
    }
  }

  /** When the inner loop ends, position m joins the sorted suffix. */
  lemma PassEnd(a: seq<int>, m: nat)
    requires PassInv(a, m, m)
    ensures SortedFrom(a, m) && Split(a, m)
  {
  }

  lemma SwapMultiset(a: seq<int>, b: seq<int>, j: nat)
    requires j + 1 < |a| && b == a[j := a[j + 1]][j + 1 := a[j]]
    ensures multiset(b) == multiset(a)
  {
    assert a == a[..j] + [a[j], a[j + 1]] + a[j + 2..];
    assert b == a[..j] + [a[j + 1], a[j]] + a[j + 2..];
  }

  // ----- grouping the states by height -----

  /**
   * p and q share a component after the grouping loop has finished rows
   * 0..i-1 and, in row i, the columns up to j-1: a height class is joined
   * once its first state's row has been processed, and the class of state i
   * holds i and the states before column j.
   */
  ghost predicate Grouped(h: seq<int>, i: nat, j: nat, p: nat, q: nat)
    requires i <= |h| && p < |h| && q < |h|
  {
    p == q ||
    (h[p] == h[q] && (h[p] in h[..i] || (i < |h| && h[p] == h[i] && p < j && q < j)))
  }

  /** The partition of the first n states matches Grouped(h, i, j). */
  ghost predicate GroupedAt(comp: seq<int>, h: seq<int>, i: nat, j: nat)
    requires i <= |h| == |comp|
  {
    forall p, q :: 0 <= p < |h| && 0 <= q < |h| ==> (comp[p] == comp[q] <==> Grouped(h, i, j, p, q))
  }

  /** Before the loop every state is alone. */
  lemma GroupStart(h: seq<int>)
    ensures GroupedAt(Singletons(|h|), h, 0, 0)
  {
  }

  /** Column j of row i: union(i, j) exactly when the heights agree. */
  lemma GroupStep(comp: seq<int>, comp': seq<int>, h: seq<int>, i: nat, j: nat)
    requires i < j < |h| == |comp| && GroupedAt(comp, h, i, j)
    requires h[i] == h[j] ==>
      (comp[i] == comp[j] && comp' == comp) || (comp[i] != comp[j] &&
        (comp' == Merge(comp, comp[i], comp[j]) || comp' == Merge(comp, comp[j], comp[i])))
    requires h[i] != h[j] ==> comp' == comp
    ensures GroupedAt(comp', h, i, j + 1)
  {
    if h[i] != h[j] {
      forall p, q | 0 <= p < |h| && 0 <= q < |h|
        ensures Grouped(h, i, j, p, q) <==> Grouped(h, i, j + 1, p, q)
      {
      }
    } else if comp[i] == comp[j] {
      // i and j already share a component, so the class of h[i] is joined
      assert Grouped(h, i, j, i, j);
      forall p, q | 0 <= p < |h| && 0 <= q < |h|
        ensures Grouped(h, i, j, p, q) <==> Grouped(h, i, j + 1, p, q)
      {
      }
    } else {
      var (l, w) := if comp' == Merge(comp, comp[i], comp[j]) then (comp[i], comp[j]) else (comp[j], comp[i]);
      forall p, q | 0 <= p < |h| && 0 <= q < |h|
        ensures comp'[p] == comp'[q] <==> Grouped(h, i, j + 1, p, q)
      {
        MergeSame(comp, l, w, p, q);
        assert comp[i] == comp[i] <==> Grouped(h, i, j, i, i);
        assert comp[j] == comp[j] <==> Grouped(h, i, j, j, j);
        assert comp[p] == comp[i] <==> Grouped(h, i, j, p, i);
        assert comp[p] == comp[j] <==> Grouped(h, i, j, p, j);
        assert comp[q] == comp[i] <==> Grouped(h, i, j, q, i);
        assert comp[q] == comp[j] <==> Grouped(h, i, j, q, j);
      }
    }
  }

  /** The end of row i is the start of row i + 1. */
  lemma GroupRow(comp: seq<int>, h: seq<int>, i: nat)
    requires i < |h| == |comp| && GroupedAt(comp, h, i, |h|)
    ensures GroupedAt(comp, h, i + 1, i + 2)
  {
    assert h[..i + 1] == h[..i] + [h[i]];
    forall p, q | 0 <= p < |h| && 0 <= q < |h|
      ensures Grouped(h, i, |h|, p, q) <==> Grouped(h, i + 1, i + 2, p, q)
    {
    }
  }

  /** After every row, two states share a component exactly when their heights agree. */
  lemma GroupEnd(comp: seq<int>, h: seq<int>)
    requires |h| == |comp| && GroupedAt(comp, h, |h|, |h| + 1)
    ensures forall p, q :: 0 <= p < |h| && 0 <= q < |h| ==> (comp[p] == comp[q] <==> h[p] == h[q])
  {
    forall p | 0 <= p < |h|
      ensures h[p] in h[..|h|]
    {
      assert h[..|h|][p] == h[p];
    }
  }

  /**
   * groupStatesByHeight: joins every pair of the first totalSteps states
   * with equal heights, then lists the component sizes in ascending order.
   * The maximum height the source computes first is never used.
   */
  method GroupStatesByHeight(heights: seq<int>, totalSteps: nat) returns (componentSizes: array<int>, ghost comp: seq<int>)
    requires totalSteps <= |heights|
    ensures |comp| == totalSteps && Closed(comp)
    ensures forall p, q :: 0 <= p < totalSteps && 0 <= q < totalSteps ==> (comp[p] == comp[q] <==> heights[p] == heights[q])
    ensures Ascending(componentSizes[..]) && multiset(componentSizes[..]) == multiset(RootSizes(comp, totalSteps))
  {
    var dsu := new Dsu(totalSteps);
    var h := heights[..totalSteps];
    GroupStart(h);
    Pairs(dsu, h);
    componentSizes := dsu.GetComponentSizes();
    comp := dsu.comp;
  }

  /** The nested loops over all pairs i < j. */
  method Pairs(dsu: Dsu, h: seq<int>)
    requires dsu.Valid() && |dsu.comp| == |h| && GroupedAt(dsu.comp, h, 0, 0)
    modifies dsu, dsu.parent, dsu.size
    ensures dsu.Valid() && |dsu.comp| == |h|
    ensures forall p, q :: 0 <= p < |h| && 0 <= q < |h| ==> (dsu.comp[p] == dsu.comp[q] <==> h[p] == h[q])
  {
    var n := |h|;
    assert GroupedAt(dsu.comp, h, 0, 1);
    var i := 0;
    while i < n
      invariant 0 <= i <= n && dsu.Valid() && |dsu.comp| == n
      invariant dsu.parent == old(dsu.parent) && dsu.size == old(dsu.size)
      invariant GroupedAt(dsu.comp, h, i, i + 1)
    {
      Row(dsu, h, i);
      GroupRow(dsu.comp, h, i);
      i := i + 1;
    }
    GroupEnd(dsu.comp, h);
  }

  /** Row i of the nested loops: union(i, j) for every later j of equal height. */
  method Row(dsu: Dsu, h: seq<int>, i: nat)
    requires dsu.Valid() && i < |dsu.comp| == |h| && GroupedAt(dsu.comp, h, i, i + 1)
    modifies dsu, dsu.parent, dsu.size
    ensures dsu.Valid() && |dsu.comp| == |h| && dsu.parent == old(dsu.parent) && dsu.size == old(dsu.size)
    ensures GroupedAt(dsu.comp, h, i, |h|)
  {
    var j := i + 1;
    while j < |h|
      invariant i < j <= |h| && dsu.Valid() && |dsu.comp| == |h|
      invariant dsu.parent == old(dsu.parent) && dsu.size == old(dsu.size)
      invariant GroupedAt(dsu.comp, h, i, j)
    {
      ghost var before := dsu.comp;
      if h[i] == h[j] {
        dsu.Union(i, j);
      }
      GroupStep(before, dsu.comp, h, i, j);
      j := j + 1;
    }
  }
}
