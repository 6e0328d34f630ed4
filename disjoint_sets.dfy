/**
 * The meaning shared by the three disjoint-set-union exercises
 * (lesson14/PointsA.java, SitesB.java, StatesHanoiTowerC.java): a forest over
 * 0..n-1 stands for the partition `comp`, where comp[i] is the root that
 * element i reaches by following parent links.
 */
module DisjointSets {
  import opened Common

  /** The elements whose representative is r. */
  ghost function Members(comp: seq<int>, r: int): set<int> {
    set i | 0 <= i < |comp| && comp[i] == r
  }

  /** Every representative is an element that represents itself. */
  ghost predicate Closed(comp: seq<int>) {
    (forall i :: 0 <= i < |comp| ==> 0 <= comp[i] < |comp|) &&
    (forall i {:trigger comp[comp[i]]} :: 0 <= i < |comp| ==> comp[comp[i]] == comp[i])
  }

  /** The partition after the component of `loser` is merged into that of `winner`. */
  ghost function Merge(comp: seq<int>, loser: int, winner: int): (r: seq<int>)
    ensures |r| == |comp|
    ensures forall i :: 0 <= i < |comp| ==> r[i] == if comp[i] == loser then winner else comp[i]
  {
    seq(|comp|, i requires 0 <= i < |comp| => if comp[i] == loser then winner else comp[i])
  }

  /**
   * Merging moves the loser's members to the winner and leaves every other
   * component as it was.
   */
  lemma MergeMembers(comp: seq<int>, loser: int, winner: int, r: int)
    requires loser != winner
    ensures r == winner ==> Members(Merge(comp, loser, winner), r) == Members(comp, loser) + Members(comp, winner)
    ensures r == winner ==> Members(comp, loser) * Members(comp, winner) == {}
    ensures r != winner && r != loser ==> Members(Merge(comp, loser, winner), r) == Members(comp, r)
  {
  }

  /** After a merge the two merged elements share a representative, and the rest are regrouped only by it. */
  lemma MergeSame(comp: seq<int>, loser: int, winner: int, i: nat, j: nat)
    requires i < |comp| && j < |comp| && loser != winner
    ensures var m := Merge(comp, loser, winner);
      m[i] == m[j] <==> comp[i] == comp[j] || ({comp[i], comp[j]} == {loser, winner})
  {
  }

  lemma MergeClosed(comp: seq<int>, loser: int, winner: int)
    requires Closed(comp) && 0 <= loser < |comp| && 0 <= winner < |comp|
    requires comp[loser] == loser && comp[winner] == winner && loser != winner
    ensures Closed(Merge(comp, loser, winner))
  {
  }

  /** The singleton partition of n elements. */
  ghost function Singletons(n: nat): (r: seq<int>)
    ensures |r| == n && Closed(r)
    ensures forall i :: 0 <= i < n ==> r[i] == i && Members(r, i) == {i}
  {
    var r := seq(n, i => i);
    assert forall i :: 0 <= i < n ==> Members(r, i) == {i};
    r
  }

  /** The elements 0, ..., n-1. */
  ghost function Upto(n: nat): (r: set<int>)
    ensures forall i :: i in r <==> 0 <= i < n
    ensures |r| == n
  {
    if n == 0 then {} else Upto(n - 1) + {n - 1}
  }

  // ----- the parent forest over 0..n-1 -----

  /**
   * The representation invariant of an array-based forest: parent links
   * stay in range and lead to the root named by `comp`, the levels grow
   * strictly towards the root (bounded by `top`, which makes following
   * parent links terminate), and each root's size is its member count.
   */
  ghost predicate Forest(parent: seq<int>, level: seq<int>, size: seq<int>, comp: seq<int>, top: int) {
    |parent| == |level| == |size| == |comp| &&
    Closed(comp) &&
    Links(parent, comp) &&
    Levels(parent, level, comp, top) &&
    (forall r {:trigger size[r]} :: 0 <= r < |comp| && comp[r] == r ==> size[r] == |Members(comp, r)|)
  }

  ghost predicate Links(parent: seq<int>, comp: seq<int>)
    requires |parent| == |comp|
  {
    (forall i :: 0 <= i < |comp| ==> 0 <= parent[i] < |comp|) &&
    (forall i :: 0 <= i < |comp| ==> (parent[i] == i <==> comp[i] == i)) &&
    (forall i {:trigger comp[parent[i]]} :: 0 <= i < |comp| ==> comp[parent[i]] == comp[i])
  }

  ghost predicate Levels(parent: seq<int>, level: seq<int>, comp: seq<int>, top: int)
    requires |parent| == |level| == |comp| && Closed(comp) && Links(parent, comp)
  {
    (forall i :: 0 <= i < |comp| ==> 0 <= level[i] <= top) &&
    (forall i {:trigger level[parent[i]]} :: 0 <= i < |comp| && parent[i] != i ==> level[i] < level[parent[i]]) &&
    (forall i {:trigger level[comp[i]]} :: 0 <= i < |comp| && parent[i] != i ==> level[i] < level[comp[i]])
  }

  /** n singletons: every element its own parent, at level 0, of size 1. */
  lemma SingletonForest(n: nat, parent: seq<int>, level: seq<int>, size: seq<int>)
    requires |parent| == |level| == |size| == n
    requires forall i :: 0 <= i < n ==> parent[i] == i && level[i] == 0 && size[i] == 1
    ensures Forest(parent, level, size, Singletons(n), 0)
  {
  }

  /**
   * Re-linking a non-root x to a node t higher up in its own tree (its
   * root, or its grandparent) keeps the forest and its partition.
   */
  lemma Relink(parent: seq<int>, level: seq<int>, size: seq<int>, comp: seq<int>, top: int, x: nat, t: nat)
    requires Forest(parent, level, size, comp, top) && x < |comp| && t < |comp| && parent[x] != x
    requires comp[t] == comp[x] && level[x] < level[t]
    ensures Forest(parent[x := t], level, size, comp, top)
  {
    var p := parent[x := t];
    assert t != x;
    forall i | 0 <= i < |comp| && p[i] != i
      ensures level[i] < level[p[i]]
    {
      if i != x {
        assert level[i] < level[parent[i]];
      }
    }
    forall i | 0 <= i < |comp|
      ensures comp[p[i]] == comp[i]
    {
      if i != x {
        assert comp[parent[i]] == comp[i];
      }
    }
  }

  /** The roots of the forest are the representatives, and they carry their component's size. */
  lemma RootAt(parent: seq<int>, level: seq<int>, size: seq<int>, comp: seq<int>, top: int, i: nat)
    requires Forest(parent, level, size, comp, top) && i < |comp|
    ensures parent[i] == i <==> comp[i] == i
    ensures comp[i] == i ==> size[i] == |Members(comp, i)|
  {
  }

  /** The grandparent of a non-root is in its tree and higher up. */
  lemma Grandparent(parent: seq<int>, level: seq<int>, size: seq<int>, comp: seq<int>, top: int, x: nat)
    requires Forest(parent, level, size, comp, top) && x < |comp| && parent[x] != x
    ensures comp[parent[parent[x]]] == comp[x] && level[x] < level[parent[parent[x]]]
  {
    var y := parent[x];
    assert comp[parent[x]] == comp[x] && level[x] < level[parent[x]];
    assert comp[parent[y]] == comp[y];
    if parent[y] != y {
      assert level[y] < level[parent[y]];
    }
  }

  /**
   * Attaching root `loser` under root `winner` and giving the winner a level
   * above the loser's gives a forest for the merged partition, with the
   * winner's size the sum of both.
   */
  lemma LinkForest(parent: seq<int>, level: seq<int>, size: seq<int>, comp: seq<int>, top: int,
                   loser: nat, winner: nat, lw: int)
    requires Forest(parent, level, size, comp, top) && loser < |comp| && winner < |comp| && loser != winner
    requires comp[loser] == loser && comp[winner] == winner && level[winner] <= lw && level[loser] < lw
    ensures Forest(parent[loser := winner], level[winner := lw], size[winner := size[winner] + size[loser]],
                   Merge(comp, loser, winner), if top < lw then lw else top)
  {
    MergeClosed(comp, loser, winner);
    LinkParents(parent, comp, loser, winner);
    LinkLevels(parent, level, comp, top, loser, winner, lw);
    LinkSizes(size, comp, loser, winner);
  }

  lemma LinkParents(parent: seq<int>, comp: seq<int>, loser: nat, winner: nat)
    requires |parent| == |comp| && Closed(comp) && Links(parent, comp)
    requires loser < |comp| && winner < |comp| && loser != winner
    requires comp[loser] == loser && comp[winner] == winner
    ensures Links(parent[loser := winner], Merge(comp, loser, winner))
  {
    var p, m := parent[loser := winner], Merge(comp, loser, winner);
    forall i | 0 <= i < |m|
      ensures m[p[i]] == m[i]
    {
      if i != loser {
        assert comp[parent[i]] == comp[i];
      }
    }
  }

  lemma LinkLevels(parent: seq<int>, level: seq<int>, comp: seq<int>, top: int, loser: nat, winner: nat, lw: int)
    requires |parent| == |level| == |comp| && Closed(comp) && Links(parent, comp) && Levels(parent, level, comp, top)
    requires loser < |comp| && winner < |comp| && loser != winner
    requires comp[loser] == loser && comp[winner] == winner && level[winner] <= lw && level[loser] < lw
    ensures Closed(Merge(comp, loser, winner)) && Links(parent[loser := winner], Merge(comp, loser, winner))
    ensures Levels(parent[loser := winner], level[winner := lw], Merge(comp, loser, winner), if top < lw then lw else top)
  {
    MergeClosed(comp, loser, winner);
    LinkParents(parent, comp, loser, winner);
    var r := level[winner := lw];
    var p, m := parent[loser := winner], Merge(comp, loser, winner);
    forall i | 0 <= i < |comp| && p[i] != i
      ensures r[i] < r[p[i]] && r[i] < r[m[i]]
    {
      if i != loser {
        assert parent[i] != i;
        assert level[i] < level[parent[i]] && level[i] < level[comp[i]];
        if comp[i] == loser {
          assert m[i] == winner && level[comp[i]] <= r[winner];
        }
      }
    }
  }

  lemma LinkSizes(size: seq<int>, comp: seq<int>, loser: nat, winner: nat)
    requires |size| == |comp| && loser < |comp| && winner < |comp| && loser != winner
    requires comp[loser] == loser && comp[winner] == winner
    requires forall r {:trigger size[r]} :: 0 <= r < |comp| && comp[r] == r ==> size[r] == |Members(comp, r)|
    ensures var s, m := size[winner := size[winner] + size[loser]], Merge(comp, loser, winner);
      forall r {:trigger s[r]} :: 0 <= r < |comp| && m[r] == r ==> s[r] == |Members(m, r)|
  {
    var s, m := size[winner := size[winner] + size[loser]], Merge(comp, loser, winner);
    forall r | 0 <= r < |comp| && m[r] == r
      ensures s[r] == |Members(m, r)|
    {
      MergeMembers(comp, loser, winner, r);
      if r != winner {
        assert r != loser;
        assert size[r] == |Members(comp, r)|;
      } else {
        assert size[loser] == |Members(comp, loser)|;
      }
    }
  }

  // ----- component sizes in order of first appearance (PointsA, SitesB) -----

  /**
   * The component sizes listed while scanning elements 0..k-1, each
   * representative's size taken the first time it is met.
   */
  ghost function FirstSeen(comp: seq<int>, k: nat): seq<int>
    requires k <= |comp|
  {
    if k == 0 then []
    else
      var r := comp[k - 1];
      FirstSeen(comp, k - 1) + if r in comp[..k - 1] then [] else [|Members(comp, r)|]
  }

  /** The elements whose representative occurs among the first k elements. */
  ghost function Covered(comp: seq<int>, k: nat): set<int>
    requires k <= |comp|
  {
    set i | 0 <= i < |comp| && comp[i] in comp[..k]
  }

  /** The representatives met among the first k elements. */
  ghost function Seen(comp: seq<int>, k: nat): set<int>
    requires k <= |comp|
  {
    set i | 0 <= i < k :: comp[i]
  }

  /** Scanning element k - 1 covers its component when its representative is new, and nothing otherwise. */
  lemma CoveredStep(comp: seq<int>, k: nat)
    requires 0 < k <= |comp|
    ensures comp[k - 1] in comp[..k - 1] ==> Covered(comp, k) == Covered(comp, k - 1)
    ensures comp[k - 1] !in comp[..k - 1] ==>
      Covered(comp, k) == Covered(comp, k - 1) + Members(comp, comp[k - 1]) &&
      Covered(comp, k - 1) * Members(comp, comp[k - 1]) == {}
  {
    assert comp[..k] == comp[..k - 1] + [comp[k - 1]];
  }

  lemma {:induction false} FirstSeenSum(comp: seq<int>, k: nat)
    requires k <= |comp|
    ensures Sum(FirstSeen(comp, k)) == |Covered(comp, k)|
  {
    if k == 0 {
      assert Covered(comp, 0) == {};
    } else {
      FirstSeenSum(comp, k - 1);
      CoveredStep(comp, k);
      var r := comp[k - 1];
      if r in comp[..k - 1] {
        assert FirstSeen(comp, k) == FirstSeen(comp, k - 1);
      } else {
        assert FirstSeen(comp, k) == FirstSeen(comp, k - 1) + [|Members(comp, r)|];
        SumAppend(FirstSeen(comp, k - 1), [|Members(comp, r)|]);
      }
    }
  }

  lemma {:induction false} FirstSeenCount(comp: seq<int>, k: nat)
    requires k <= |comp|
    ensures |FirstSeen(comp, k)| == |Seen(comp, k)|
  {
    if k == 0 {
      assert Seen(comp, 0) == {};
    } else {
      FirstSeenCount(comp, k - 1);
      var r := comp[k - 1];
      var prefix := comp[..k - 1];
      assert Seen(comp, k) == Seen(comp, k - 1) + {r};
      if r in prefix {
        var j :| 0 <= j < k - 1 && prefix[j] == r;
        assert comp[j] == r;
        assert Seen(comp, k) == Seen(comp, k - 1);
      } else {
        forall j | 0 <= j < k - 1
          ensures comp[j] != r
        {
          assert prefix[j] == comp[j];
        }
        assert r !in Seen(comp, k - 1);
      }
    }
  }

  /**
   * Scanning every element lists one size per component, and the sizes add
   * up to the number of elements.
   */
  lemma FirstSeenTotal(comp: seq<int>)
    requires Closed(comp)
    ensures Sum(FirstSeen(comp, |comp|)) == |comp|
    ensures |FirstSeen(comp, |comp|)| == |Roots(comp)|
  {
    var n := |comp|;
    FirstSeenSum(comp, n);
    FirstSeenCount(comp, n);
    assert Covered(comp, n) == Upto(n) by {
      forall i | 0 <= i < n
        ensures comp[i] in comp[..n]
      {
        assert comp[..n][i] == comp[i];
      }
    }
    SeenRoots(comp);
  }

  /** Scanning every element meets exactly the representatives. */
  lemma SeenRoots(comp: seq<int>)
    requires Closed(comp)
    ensures Seen(comp, |comp|) == Roots(comp)
  {
    forall r | r in Roots(comp)
      ensures r in Seen(comp, |comp|)
    {
      assert comp[r] == r;
    }
  }

  // ----- component sizes in index order of the roots (StatesHanoiTowerC) -----

  /** The elements that represent themselves. */
  ghost function Roots(comp: seq<int>): set<int> {
    set i | 0 <= i < |comp| && comp[i] == i
  }

  /** The sizes of the components whose representative is below k, by representative. */
  ghost function RootSizes(comp: seq<int>, k: nat): seq<int>
    requires k <= |comp|
  {
    if k == 0 then []
    else RootSizes(comp, k - 1) + if comp[k - 1] == k - 1 then [|Members(comp, k - 1)|] else []
  }

  /** The number of representatives below k. */
  ghost function RootCount(comp: seq<int>, k: nat): nat
    requires k <= |comp|
  {
    if k == 0 then 0 else RootCount(comp, k - 1) + if comp[k - 1] == k - 1 then 1 else 0
  }

  /** The elements whose representative is below k. */
  ghost function Below(comp: seq<int>, k: nat): set<int> {
    set i | 0 <= i < |comp| && comp[i] < k
  }

  /** Raising the bound past k - 1 adds the members of k - 1 when it is a representative, and nothing otherwise. */
  lemma BelowStep(comp: seq<int>, k: nat)
    requires 0 < k <= |comp| && Closed(comp)
    ensures comp[k - 1] == k - 1 ==>
      Below(comp, k) == Below(comp, k - 1) + Members(comp, k - 1) && Below(comp, k - 1) * Members(comp, k - 1) == {}
    ensures comp[k - 1] != k - 1 ==> Below(comp, k) == Below(comp, k - 1)
  {
    if comp[k - 1] != k - 1 {
      forall i | 0 <= i < |comp|
        ensures comp[i] != k - 1
      {
        assert comp[comp[i]] == comp[i];
      }
    }
  }

  lemma {:induction false} RootSizesSum(comp: seq<int>, k: nat)
    requires k <= |comp| && Closed(comp)
    ensures Sum(RootSizes(comp, k)) == |Below(comp, k)|
    ensures |RootSizes(comp, k)| == RootCount(comp, k)
  {
    if k == 0 {
      assert Below(comp, 0) == {};
    } else {
      RootSizesSum(comp, k - 1);
      BelowStep(comp, k);
      SumAppend(RootSizes(comp, k - 1), if comp[k - 1] == k - 1 then [|Members(comp, k - 1)|] else []);
    }
  }

  /** The representatives' sizes add up to the number of elements. */
  lemma RootSizesTotal(comp: seq<int>)
    requires Closed(comp)
    ensures Sum(RootSizes(comp, |comp|)) == |comp|
    ensures |RootSizes(comp, |comp|)| == RootCount(comp, |comp|)
  {
    RootSizesSum(comp, |comp|);
    assert Below(comp, |comp|) == Upto(|comp|);
  }

  /** A merge of two components removes exactly one representative. */
  lemma {:induction false} MergeRootCount(comp: seq<int>, loser: int, winner: int, k: nat)
    requires Closed(comp) && 0 <= loser < |comp| && 0 <= winner < |comp|
    requires comp[loser] == loser && comp[winner] == winner && loser != winner && k <= |comp|
    ensures RootCount(Merge(comp, loser, winner), k) == RootCount(comp, k) - if loser < k then 1 else 0
  {
    if k > 0 {
      MergeRootCount(comp, loser, winner, k - 1);
    }
  }

  lemma {:induction false} RootCountAll(n: nat, k: nat)
    requires k <= n
    ensures RootCount(Singletons(n), k) == k
  {
    if k > 0 {
      RootCountAll(n, k - 1);
    }
  }

  lemma {:induction false} RootCountMono(comp: seq<int>, k: nat, n: nat)
    requires k <= n <= |comp|
    ensures RootCount(comp, k) <= RootCount(comp, n)
    decreases n - k
  {
    if k < n {
      RootCountMono(comp, k, n - 1);
    }
  }

  /** A new element added as its own singleton keeps the forest and adds one representative. */
  lemma AppendSingleton(parent: seq<int>, level: seq<int>, size: seq<int>, comp: seq<int>, top: int)
    requires Forest(parent, level, size, comp, top) && top >= 0
    ensures var n := |comp|;
      Forest(parent + [n], level + [0], size + [1], comp + [n], top) &&
      RootCount(comp + [n], n + 1) == RootCount(comp, n) + 1
  {
    var n := |comp|;
    var c := comp + [n];
    forall r | 0 <= r < |c| && c[r] == r
      ensures |Members(c, r)| == if r == n then 1 else |Members(comp, r)|
    {
      if r == n {
        assert Members(c, r) == {n};
      } else {
        assert Members(c, r) == Members(comp, r);
      }
    }
    RootCountPrefix(comp, [n], n);
  }

  /** The representatives below k do not depend on what comes after k. */
  lemma {:induction false} RootCountPrefix(comp: seq<int>, more: seq<int>, k: nat)
    requires k <= |comp|
    ensures RootCount(comp + more, k) == RootCount(comp, k)
  {
    if k > 0 {
      RootCountPrefix(comp, more, k - 1);
    }
  }

  /** The number of representatives is the size of the set of them. */
  lemma RootCountRoots(comp: seq<int>)
    ensures RootCount(comp, |comp|) == |Roots(comp)|
  {
    RootCountBelow(comp, |comp|);
    assert RootsBelow(comp, |comp|) == Roots(comp);
  }

  /** The representatives below k. */
  ghost function RootsBelow(comp: seq<int>, k: nat): set<int>
    requires k <= |comp|
  {
    set i | 0 <= i < k && comp[i] == i
  }

  lemma {:induction false} RootCountBelow(comp: seq<int>, k: nat)
    requires k <= |comp|
    ensures RootCount(comp, k) == |RootsBelow(comp, k)|
  {
    if k > 0 {
      RootCountBelow(comp, k - 1);
      var below := RootsBelow(comp, k - 1);
      if comp[k - 1] == k - 1 {
        assert RootsBelow(comp, k) == below + {k - 1} && k - 1 !in below;
      } else {
        assert RootsBelow(comp, k) == below;
      }
    }
  }
}
