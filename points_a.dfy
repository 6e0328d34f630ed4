/**
 * The array-based disjoint-set union of lesson14/PointsA.java: recursive find
 * with path compression, union by rank with component sizes kept at the
 * roots, and the sorted list of cluster sizes.
 */
module PointsA {
  import opened Common
  import opened DisjointSets

  class Dsu {
    var parent: array<int>
    var rank: array<int>
    var size: array<int>
    /** The partition the forest stands for: comp[i] is the root of i. */
    ghost var comp: seq<int>
    /** An upper bound of the ranks, the measure for the recursion in Find. */
    ghost var top: nat

    ghost predicate Valid()
      reads this, parent, rank, size
    {
      parent.Length == rank.Length == size.Length == |comp| &&
      parent != rank && parent != size && rank != size &&
      Forest(parent[..], rank[..], size[..], comp, top)
    }

    /** DSU(n): every element is its own root with rank 0 and size 1. */
    constructor (n: nat)
      ensures Valid() && comp == Singletons(n)
      ensures forall i :: 0 <= i < n ==> parent[i] == i && rank[i] == 0 && size[i] == 1
      ensures fresh(parent) && fresh(rank) && fresh(size)
    {
      parent := new int[n];
      rank := new int[n];
      size := new int[n];
      comp := Singletons(n);
      top := 0;
      new;
      var i := 0;
      while i < n
        invariant 0 <= i <= n
        invariant forall k :: 0 <= k < i ==> parent[k] == k && rank[k] == 0 && size[k] == 1
        modifies parent, rank, size
      {
        parent[i] := i;
        rank[i] := 0;
        size[i] := 1;
        i := i + 1;
      }
    }

    /**
     * find: the root of x. Every node on the way is re-linked directly to
     * the root; the partition, the ranks and the sizes stay as they were.
     */
    method Find(x: int) returns (r: int)
      requires Valid() && 0 <= x < |comp|
      modifies parent
      ensures Valid() && r == comp[x] && parent[r] == r && parent[x] == r
      ensures forall i :: 0 <= i < |comp| ==> parent[i] == old(parent[i]) || parent[i] == comp[i]
      decreases top - rank[x]
    {
      if parent[x] != x {
        var root := Find(parent[x]);
        ghost var before := parent[..];
        parent[x] := root;
        assert parent[..] == before[x := root];
        Relink(before, rank[..], size[..], comp, top, x, root);
      }
      r := parent[x];
    }

    /**
     * union: a no-op when x and y already share a root. Otherwise the root
     * of lower rank is attached under the other, the rank grows only on a
     * tie (keeping the root of x), and the winner's size is the sum.
     */
    method Union(x: int, y: int)
      requires Valid() && 0 <= x < |comp| && 0 <= y < |comp|
      modifies this, parent, rank, size
      ensures Valid() && parent == old(parent) && rank == old(rank) && size == old(size)
      ensures var a, b := old(comp[x]), old(comp[y]);
        if a == b then comp == old(comp)
        else
          var (loser, winner) := if old(rank[a]) < old(rank[b]) then (a, b) else (b, a);
          comp == Merge(old(comp), loser, winner) &&
          size[winner] == old(size[a]) + old(size[b]) &&
          rank[winner] == old(rank[winner]) + (if old(rank[a]) == old(rank[b]) then 1 else 0)
    {
      var rootX := Find(x);
      var rootY := Find(y);
      if rootX == rootY {
        return;
      }
      if rank[rootX] < rank[rootY] {
        Link(rootX, rootY);
      } else {
        Link(rootY, rootX);
      }
    }

    /**
     * Attaches the root `loser` under the root `winner`, adds up the sizes,
     * and raises the winner's rank on a tie.
     */
    method Link(loser: int, winner: int)
      requires Valid() && 0 <= loser < |comp| && 0 <= winner < |comp| && loser != winner
      requires comp[loser] == loser && comp[winner] == winner && rank[loser] <= rank[winner]
      modifies this, parent, rank, size
      ensures Valid() && parent == old(parent) && size == old(size) && rank == old(rank)
      ensures comp == Merge(old(comp), loser, winner)
      ensures size[winner] == old(size[loser]) + old(size[winner])
      ensures rank[winner] == old(rank[winner]) + if old(rank[loser]) == old(rank[winner]) then 1 else 0
    {
      ghost var p, rk, sz := parent[..], rank[..], size[..];
      parent[loser] := winner;
      size[winner] := size[winner] + size[loser];
      if rank[loser] == rank[winner] {
        rank[winner] := rank[winner] + 1;
        if top < rank[winner] {
          top := rank[winner];
        }
      }
      assert parent[..] == p[loser := winner];
      assert size[..] == sz[winner := sz[winner] + sz[loser]];
      assert rank[..] == if rk[loser] == rk[winner] then rk[winner := rk[winner] + 1] else rk;
      LinkForest(p, rk, sz, comp, old(top), loser, winner, if rk[loser] == rk[winner] then rk[winner] + 1 else rk[winner]);
      comp := Merge(comp, loser, winner);
    }

    /** getSize: the number of elements in the component of x. */
    method GetSize(x: int) returns (s: int)
      requires Valid() && 0 <= x < |comp|
      modifies parent
      ensures Valid() && s == |Members(comp, comp[x])|
    {
      var root := Find(x);
      s := size[root];
    }

    /**
     * getClusterSizes: one size per distinct root, collected in the order
     * the roots are first met, then sorted ascending.
     */
    method GetClusterSizes() returns (sizes: seq<int>)
      requires Valid()
      modifies parent
      ensures Valid()
      ensures sizes == SortInts(FirstSeen(comp, |comp|))
    {
      var roots: set<int> := {};
      var collected: seq<int> := [];
      var i := 0;
      while i < parent.Length
        invariant 0 <= i <= parent.Length && Valid()
        invariant roots == Seen(comp, i)
        invariant collected == FirstSeen(comp, i)
      {
        var root := Find(i);
        assert comp[..i + 1] == comp[..i] + [root];
        assert root in comp[..i] <==> root in roots by {
          SeenIsPrefix(comp, i);
        }
        if root !in roots {
          roots := roots + {root};
          collected := collected + [size[root]];
        }
        i := i + 1;
      }
      sizes := SortInts(collected);
    }
  }

  lemma SeenIsPrefix(comp: seq<int>, k: nat)
    requires k <= |comp|
    ensures forall v :: v in Seen(comp, k) <==> v in comp[..k]
  {
    forall v | v in comp[..k]
      ensures v in Seen(comp, k)
    {
      var j :| 0 <= j < k && comp[..k][j] == v;
      assert comp[j] == v;
    }
  }

  /**
   * The cluster sizes are ascending, one per component, and add up to the
   * number of points.
   */
  lemma ClusterSizes(comp: seq<int>)
    requires Closed(comp)
    ensures Ascending(SortInts(FirstSeen(comp, |comp|)))
    ensures Sum(SortInts(FirstSeen(comp, |comp|))) == |comp|
    ensures |SortInts(FirstSeen(comp, |comp|))| == |Roots(comp)|
  {
    FirstSeenTotal(comp);
    SumPermutation(SortInts(FirstSeen(comp, |comp|)), FirstSeen(comp, |comp|));
  }
}
