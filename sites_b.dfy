/**
 * The string-keyed disjoint-set union of lesson14/SitesB.java: sites are
 * added on demand, find compresses paths recursively, union links by rank
 * and keeps sizes at the roots and a count of sets, and the input lines
 * "a+b" ... "end" join pairs of sites into clusters.
 *
 * The three maps of the source (parent, rank and size, all with the same
 * keys) are kept as one list of the sites, in the order they were added,
 * and three sequences along it: the site at position i has the site at
 * position parent[i] as its parent, rank rank[i] and size size[i].
 */
module SitesB {
  import opened Common
  import opened DisjointSets

  // ----- the site list and the index view -----

  /** The sites listed in s. */
  ghost function Elems<K>(s: seq<K>): set<K> {
    set x | x in s
  }

  /** No site is listed twice: there are as many sites as entries. */
  ghost predicate Distinct<K>(s: seq<K>) {
    |Elems(s)| == |s|
  }

  lemma ElemsLast<K>(s: seq<K>)
    requires |s| > 0
    ensures Elems(s) == Elems(s[..|s| - 1]) + {s[|s| - 1]}
  {
    assert s == s[..|s| - 1] + [s[|s| - 1]];
  }

  /** A list never has more sites than entries. */
  lemma {:induction false} ElemsCard<K>(s: seq<K>)
    ensures |Elems(s)| <= |s|
  {
    if |s| > 0 {
      ElemsLast(s);
      ElemsCard(s[..|s| - 1]);
    }
  }

  lemma DistinctAppend<K>(s: seq<K>, x: K)
    requires Distinct(s) && x !in s
    ensures Distinct(s + [x])
  {
    ElemsLast(s + [x]);
    assert (s + [x])[..|s|] == s;
  }

  lemma DistinctInit<K>(s: seq<K>)
    requires Distinct(s) && |s| > 0
    ensures Distinct(s[..|s| - 1]) && s[|s| - 1] !in s[..|s| - 1]
  {
    ElemsLast(s);
    ElemsCard(s[..|s| - 1]);
  }

  /** Different positions hold different sites. */
  lemma DistinctAt<K>(s: seq<K>, i: nat, j: nat)
    requires Distinct(s) && i < |s| && j < |s| && i != j
    ensures s[i] != s[j]
  {
    if s[i] == s[j] {
      var t := s[..j] + s[j + 1..];
      assert s == s[..j] + [s[j]] + s[j + 1..];
      assert Elems(t) == Elems(s) by {
        if i < j {
          assert t[i] == s[j];
        } else {
          assert t[i - 1] == s[j];
        }
      }
      ElemsCard(t);
    }
  }

  /** A listed site is found at its own position. */
  lemma IndexOfDistinct<K>(s: seq<K>, i: nat)
    requires Distinct(s) && i < |s|
    ensures IndexOf(s, s[i]) == i
  {
    var r := IndexOf(s, s[i]);
    if r != i {
      DistinctAt(s, r, i);
    }
  }

  /** s with x added at the end, unless x is listed already. */
  function Added<K(==)>(s: seq<K>, x: K): seq<K> {
    if x in s then s else s + [x]
  }

  /** Adding a site lists it along with those listed before. */
  lemma ElemsAdded<K>(s: seq<K>, x: K)
    ensures Elems(Added(s, x)) == Elems(s) + {x}
  {
    if x !in s {
      ElemsLast(s + [x]);
      assert (s + [x])[..|s|] == s;
    }
  }

  /** The partition c with the elements |c|..n-1 added as singletons. */
  ghost function Grown(c: seq<int>, n: nat): seq<int>
    requires |c| <= n
  {
    c + seq(n - |c|, k => |c| + k)
  }

  /** s padded with v up to length n. */
  ghost function Padded(s: seq<int>, n: nat, v: int): seq<int>
    requires |s| <= n
  {
    s + seq(n - |s|, k => v)
  }

  lemma GrownSteps(c: seq<int>, m: nat, n: nat)
    requires |c| <= m <= n
    ensures Grown(c, |c|) == c && Grown(Grown(c, m), n) == Grown(c, n)
  {
    assert Grown(c, |c|) == c + [];
  }

  lemma PaddedSteps(s: seq<int>, m: nat, n: nat, v: int)
    requires |s| <= m <= n
    ensures Padded(s, |s|, v) == s && Padded(Padded(s, m, v), n, v) == Padded(s, n, v)
  {
    assert Padded(s, |s|, v) == s + [];
  }

  lemma GrownOne(c: seq<int>, s: seq<int>, v: int)
    ensures Grown(c, |c| + 1) == c + [|c|] && Padded(s, |s| + 1, v) == s + [v]
  {
  }

  /**
   * The partition, ranks and sizes after union of the roots a and b:
   * nothing changes when they are the same; otherwise the root of lower
   * rank (b on a tie) is merged into the other, which gets both sizes and,
   * on a tie, a rank one higher.
   */
  ghost function Linked(comp: seq<int>, rank: seq<int>, size: seq<int>, a: nat, b: nat): (seq<int>, seq<int>, seq<int>)
    requires a < |rank| && b < |rank| && a < |size| && b < |size|
  {
    if a == b then (comp, rank, size)
    else
      var (loser, winner) := if rank[a] < rank[b] then (a, b) else (b, a);
      (Merge(comp, loser, winner), rank[winner := rank[winner] + if rank[a] == rank[b] then 1 else 0],
       size[winner := size[a] + size[b]])
  }

  /** Union makes the two roots' sets one and leaves every other pair as it was. */
  lemma LinkedJoins(comp: seq<int>, rank: seq<int>, size: seq<int>, a: nat, b: nat, i: nat, j: nat)
    requires a < |rank| && b < |rank| && a < |size| && b < |size| && i < |comp| && j < |comp|
    ensures var m := Linked(comp, rank, size, a, b).0;
      |m| == |comp| && (m[i] == m[j] <==> comp[i] == comp[j] || {comp[i], comp[j]} == {a, b})
  {
    if a != b {
      var (loser, winner) := if rank[a] < rank[b] then (a, b) else (b, a);
      MergeSame(comp, loser, winner, i, j);
    }
  }

  // ----- the clusters, in the order their roots are first met -----

  /** The representatives of comp[..k], each once, in the order they first occur. */
  ghost function FirstRoots(comp: seq<int>, k: nat): seq<int>
    requires k <= |comp|
  {
    if k == 0 then []
    else FirstRoots(comp, k - 1) + if comp[k - 1] in comp[..k - 1] then [] else [comp[k - 1]]
  }

  lemma {:induction false} FirstRootsIn(comp: seq<int>, k: nat)
    requires k <= |comp|
    ensures forall v :: v in FirstRoots(comp, k) <==> v in comp[..k]
  {
    if k > 0 {
      FirstRootsIn(comp, k - 1);
      assert comp[..k] == comp[..k - 1] + [comp[k - 1]];
    }
  }

  /** The number of elements in each of the components whose representatives are listed. */
  ghost function MemberCounts(comp: seq<int>, roots: seq<int>): (r: seq<int>)
    ensures |r| == |roots|
  {
    seq(|roots|, j requires 0 <= j < |roots| => |Members(comp, roots[j])|)
  }

  lemma MemberCountsAppend(comp: seq<int>, roots: seq<int>, x: int)
    ensures MemberCounts(comp, roots + [x]) == MemberCounts(comp, roots) + [|Members(comp, x)|]
  {
    assert MemberCounts(comp, roots + [x])[|roots|] == |Members(comp, x)|;
  }

  /** The sizes collected in first-seen order are the sizes of the first-met roots' components. */
  lemma {:induction false} FirstSeenCounts(comp: seq<int>, k: nat)
    requires k <= |comp|
    ensures FirstSeen(comp, k) == MemberCounts(comp, FirstRoots(comp, k))
  {
    if k > 0 {
      FirstSeenCounts(comp, k - 1);
      var r := comp[k - 1];
      if r !in comp[..k - 1] {
        MemberCountsAppend(comp, FirstRoots(comp, k - 1), r);
      }
    }
  }

  /** No representative is listed twice among those first met. */
  lemma {:induction false} FirstRootsDistinct(comp: seq<int>, k: nat, a: nat, b: nat)
    requires k <= |comp| && a < |FirstRoots(comp, k)| && b < |FirstRoots(comp, k)| && a != b
    ensures FirstRoots(comp, k)[a] != FirstRoots(comp, k)[b]
  {
    var prev := FirstRoots(comp, k - 1);
    if a < |prev| && b < |prev| {
      FirstRootsDistinct(comp, k - 1, a, b);
    } else {
      FirstRootsIn(comp, k - 1);
      var other := if a < |prev| then a else b;
      assert prev[other] in prev;
    }
  }

  /** The sites among the first k whose representative is c, in order: a cluster of getClusters. */
  ghost function Cluster<K>(sites: seq<K>, comp: seq<int>, c: int, k: nat): seq<K>
    requires k <= |sites| && k <= |comp|
  {
    if k == 0 then []
    else Cluster(sites, comp, c, k - 1) + if comp[k - 1] == c then [sites[k - 1]] else []
  }

  /** The elements among the first k with representative c. */
  ghost function MembersBelow(comp: seq<int>, c: int, k: nat): set<int> {
    set i | 0 <= i < k && i < |comp| && comp[i] == c
  }

  /** A representative not met yet has an empty cluster so far. */
  lemma {:induction false} ClusterNone<K>(sites: seq<K>, comp: seq<int>, c: int, k: nat)
    requires k <= |sites| && k <= |comp| && c !in comp[..k]
    ensures Cluster(sites, comp, c, k) == []
  {
    if k > 0 {
      assert comp[k - 1] == comp[..k][k - 1];
      assert comp[..k - 1] == comp[..k][..k - 1];
      ClusterNone(sites, comp, c, k - 1);
    }
  }

  /** A cluster lists each site whose representative is c once: as many sites as such elements. */
  lemma {:induction false} ClusterLength<K>(sites: seq<K>, comp: seq<int>, c: int, k: nat)
    requires k <= |sites| && k <= |comp|
    ensures |Cluster(sites, comp, c, k)| == |MembersBelow(comp, c, k)|
  {
    if k > 0 {
      ClusterLength(sites, comp, c, k - 1);
      var below := MembersBelow(comp, c, k - 1);
      if comp[k - 1] == c {
        assert MembersBelow(comp, c, k) == below + {k - 1} by {
          assert k - 1 in MembersBelow(comp, c, k);
        }
        assert k - 1 !in below;
      } else {
        assert MembersBelow(comp, c, k) == below;
      }
    }
  }

  /** A cluster lists exactly the sites whose representative is c. */
  lemma {:induction false} ClusterContents<K>(sites: seq<K>, comp: seq<int>, c: int, k: nat, x: K)
    requires k <= |sites| && k <= |comp|
    ensures x in Cluster(sites, comp, c, k) <==> exists i :: 0 <= i < k && comp[i] == c && sites[i] == x
  {
    if k > 0 {
      ClusterContents(sites, comp, c, k - 1, x);
      if comp[k - 1] == c && sites[k - 1] == x {
        assert x in Cluster(sites, comp, c, k);
      }
    }
  }

  /** A full cluster has as many sites as the component has elements. */
  lemma ClusterSize<K>(sites: seq<K>, comp: seq<int>, c: int)
    requires |sites| == |comp|
    ensures |Cluster(sites, comp, c, |comp|)| == |Members(comp, c)|
  {
    ClusterLength(sites, comp, c, |comp|);
    assert MembersBelow(comp, c, |comp|) == Members(comp, c);
  }

  /** The sites at the listed positions. */
  ghost function Names<K>(sites: seq<K>, roots: seq<int>): (r: seq<K>)
    requires forall j :: 0 <= j < |roots| ==> 0 <= roots[j] < |sites|
    ensures |r| == |roots|
  {
    seq(|roots|, j requires 0 <= j < |roots| => sites[roots[j]])
  }

  lemma NamesAppend<K>(sites: seq<K>, roots: seq<int>, x: nat)
    requires (forall j :: 0 <= j < |roots| ==> 0 <= roots[j] < |sites|) && x < |sites|
    ensures Names(sites, roots + [x]) == Names(sites, roots) + [sites[x]]
  {
    assert Names(sites, roots + [x])[|roots|] == sites[x];
  }

  /** Looking up the root of the site at position i among the roots met so far. */
  lemma KeysStep<K>(sites: seq<K>, comp: seq<int>, roots: seq<int>, i: nat)
    requires Distinct(sites) && |sites| == |comp| && i < |comp|
    requires 0 <= comp[i] < |comp| && roots == FirstRoots(comp, i) && forall v :: v in roots <==> v in comp[..i]
    requires forall j :: 0 <= j < |roots| ==> 0 <= roots[j] < |sites|
    ensures sites[comp[i]] in Names(sites, roots) <==> comp[i] in comp[..i]
    ensures sites[comp[i]] in Names(sites, roots) ==> roots[IndexOf(Names(sites, roots), sites[comp[i]])] == comp[i]
  {
    var names, root := Names(sites, roots), sites[comp[i]];
    if root in names {
      var k := IndexOf(names, root);
      if roots[k] != comp[i] {
        DistinctAt(sites, roots[k], comp[i]);
      }
    }
    if comp[i] in comp[..i] {
      var j :| 0 <= j < |roots| && roots[j] == comp[i];
      assert names[j] == root;
    }
  }

  /**
   * A loop over the sites in the order they were added has passed the
   * first i: the roots met so far, each once in the order first met, and
   * their sites as the keys of the map the loop fills.
   */
  ghost predicate Met<K>(sites: seq<K>, comp: seq<int>, i: nat, keys: seq<K>, roots: seq<int>) {
    i <= |comp| == |sites| && roots == FirstRoots(comp, i) && (forall v :: v in roots <==> v in comp[..i]) &&
    (forall j :: 0 <= j < |roots| ==> 0 <= roots[j] < |sites|) && keys == Names(sites, roots)
  }

  /** The root of site i was met before: its key is there, at the root's place. */
  lemma MetOld<K>(sites: seq<K>, comp: seq<int>, i: nat, keys: seq<K>, roots: seq<int>)
    requires Distinct(sites) && Closed(comp) && i < |comp| && Met(sites, comp, i, keys, roots)
    requires sites[comp[i]] in keys
    ensures roots[IndexOf(keys, sites[comp[i]])] == comp[i] && Met(sites, comp, i + 1, keys, roots)
  {
    KeysStep(sites, comp, roots, i);
    FirstRootsIn(comp, i + 1);
  }

  /** The root of site i is met for the first time: it is added, with its site as a new key. */
  lemma MetNew<K>(sites: seq<K>, comp: seq<int>, i: nat, keys: seq<K>, roots: seq<int>)
    requires Distinct(sites) && Closed(comp) && i < |comp| && Met(sites, comp, i, keys, roots)
    requires sites[comp[i]] !in keys
    ensures comp[i] !in roots && Met(sites, comp, i + 1, keys + [sites[comp[i]]], roots + [comp[i]])
  {
    KeysStep(sites, comp, roots, i);
    FirstRootsIn(comp, i + 1);
    NamesAppend(sites, roots, comp[i]);
  }

  /** The first loop of getClusterSizes, after the first i sites: each root met with its size. */
  ghost predicate Collected<K>(sites: seq<K>, comp: seq<int>, i: nat, keys: seq<K>, vals: seq<int>, roots: seq<int>) {
    Met(sites, comp, i, keys, roots) && vals == MemberCounts(comp, roots)
  }

  /** A pass of that loop on a root met before: its value is already its size. */
  lemma CollectMet<K>(sites: seq<K>, comp: seq<int>, i: nat, keys: seq<K>, vals: seq<int>, roots: seq<int>)
    requires Distinct(sites) && Closed(comp) && i < |comp| && Collected(sites, comp, i, keys, vals, roots)
    requires sites[comp[i]] in keys
    ensures vals[IndexOf(keys, sites[comp[i]])] == |Members(comp, comp[i])|
    ensures Collected(sites, comp, i + 1, keys, vals, roots)
  {
    MetOld(sites, comp, i, keys, roots);
  }

  /** A pass of that loop on a root not met before: it is put with its size. */
  lemma CollectNew<K>(sites: seq<K>, comp: seq<int>, i: nat, keys: seq<K>, vals: seq<int>, roots: seq<int>)
    requires Distinct(sites) && Closed(comp) && i < |comp| && Collected(sites, comp, i, keys, vals, roots)
    requires sites[comp[i]] !in keys
    ensures Collected(sites, comp, i + 1, keys + [sites[comp[i]]], vals + [|Members(comp, comp[i])|], roots + [comp[i]])
  {
    MetNew(sites, comp, i, keys, roots);
    MemberCountsAppend(comp, roots, comp[i]);
  }

  /** The loop of getClusters, after the first i sites: each root met with the sites so far in its cluster. */
  ghost predicate Gathered<K>(sites: seq<K>, comp: seq<int>, i: nat, keys: seq<K>, lists: seq<seq<K>>,
                              roots: seq<int>) {
    Met(sites, comp, i, keys, roots) && |lists| == |roots| &&
    forall j :: 0 <= j < |roots| ==> lists[j] == Cluster(sites, comp, roots[j], i)
  }

  /** A pass of that loop on a root met before: site i is appended to its list. */
  lemma GatherMet<K>(sites: seq<K>, comp: seq<int>, i: nat, keys: seq<K>, lists: seq<seq<K>>, roots: seq<int>)
    requires Distinct(sites) && Closed(comp) && i < |comp| && Gathered(sites, comp, i, keys, lists, roots)
    requires sites[comp[i]] in keys
    ensures var k := IndexOf(keys, sites[comp[i]]);
      Gathered(sites, comp, i + 1, keys, lists[k := lists[k] + [sites[i]]], roots)
  {
    MetOld(sites, comp, i, keys, roots);
    var k := IndexOf(keys, sites[comp[i]]);
    forall j | 0 <= j < |roots| && j != k
      ensures roots[j] != comp[i]
    {
      FirstRootsDistinct(comp, i, j, k);
    }
  }

  /** A pass of that loop on a root not met before: a new list holds site i. */
  lemma GatherNew<K>(sites: seq<K>, comp: seq<int>, i: nat, keys: seq<K>, lists: seq<seq<K>>, roots: seq<int>)
    requires Distinct(sites) && Closed(comp) && i < |comp| && Gathered(sites, comp, i, keys, lists, roots)
    requires sites[comp[i]] !in keys
    ensures Gathered(sites, comp, i + 1, keys + [sites[comp[i]]], lists + [[sites[i]]], roots + [comp[i]])
  {
    MetNew(sites, comp, i, keys, roots);
    ClusterNone(sites, comp, comp[i], i);
    var roots', lists' := roots + [comp[i]], lists + [[sites[i]]];
    forall j | 0 <= j < |roots'|
      ensures lists'[j] == Cluster(sites, comp, roots'[j], i + 1)
    {
      if j < |roots| {
        assert roots[j] in roots;
      }
    }
  }

  /** Every root met is a root, found at its own position, with its component's size. */
  lemma RootsFacts<K>(sites: seq<K>, parent: seq<int>, rank: seq<int>, size: seq<int>, comp: seq<int>, top: int,
                   roots: seq<int>)
    requires |sites| == |comp| && Distinct(sites) && Forest(parent, rank, size, comp, top)
    requires roots == FirstRoots(comp, |comp|) && forall v :: v in roots <==> v in comp[..|comp|]
    ensures forall j :: 0 <= j < |roots| ==> 0 <= roots[j] < |sites|
    ensures forall j :: 0 <= j < |roots| ==>
      IndexOf(sites, sites[roots[j]]) == roots[j] && parent[roots[j]] == roots[j] &&
      size[roots[j]] == |Members(comp, roots[j])|
  {
    forall j | 0 <= j < |roots|
      ensures 0 <= roots[j] < |sites| && IndexOf(sites, sites[roots[j]]) == roots[j] && parent[roots[j]] == roots[j]
      ensures size[roots[j]] == |Members(comp, roots[j])|
    {
      assert roots[j] in comp[..|comp|];
      var x :| 0 <= x < |comp| && comp[x] == roots[j];
      assert comp[comp[x]] == comp[x];
      IndexOfDistinct(sites, roots[j]);
    }
  }

  // ----- the DSU object -----

  class Dsu {
    /** The keys of the source's maps, in the order they were added. */
    var sites: seq<string>
    var parent: seq<int>
    var rank: seq<int>
    var size: seq<int>
    var totalSets: int
    /** The partition the forest stands for: sites[comp[i]] is the root of sites[i]. */
    ghost var comp: seq<int>
    /** An upper bound of the ranks, the measure for the recursion in find. */
    ghost var top: nat

    /**
     * No site is listed twice, the parent links form a forest standing for
     * `comp` with the sizes at the roots, and totalSets counts the sets.
     */
    ghost predicate Valid()
      reads this
    {
      |sites| == |comp| && Distinct(sites) && Forest(parent, rank, size, comp, top) &&
      totalSets == RootCount(comp, |comp|)
    }

    /** DSU(): no sites yet. */
    constructor ()
      ensures Valid() && sites == [] && totalSets == 0
    {
      sites, parent, rank, size, totalSets := [], [], [], [], 0;
      comp, top := [], 0;
    }

    /**
     * Replaces the whole state in one step. Every operation below ends its
     * updates with one call to it, so that its proof deals with a single
     * change of state.
     */
    method Commit(sites': seq<string>, parent': seq<int>, rank': seq<int>, size': seq<int>, totalSets': int,
                  ghost comp': seq<int>, ghost top': nat)
      modifies this
      ensures sites == sites' && parent == parent' && rank == rank' && size == size' && totalSets == totalSets'
      ensures comp == comp' && top == top'
    {
      sites, parent, rank, size, totalSets := sites', parent', rank', size', totalSets';
      comp, top := comp', top';
    }

    /** makeSet: a new site becomes a singleton set; a known site changes nothing. */
    method MakeSet(site: string)
      requires Valid()
      modifies this
      ensures Valid() && top == old(top) && sites == Added(old(sites), site)
      ensures comp == Grown(old(comp), |sites|) && parent == Grown(old(parent), |sites|)
      ensures rank == Padded(old(rank), |sites|, 0) && size == Padded(old(size), |sites|, 1)
      ensures totalSets == old(totalSets) + |sites| - |old(sites)|
    {
      GrownSteps(comp, |comp|, |comp|);
      GrownSteps(parent, |parent|, |parent|);
      PaddedSteps(rank, |rank|, |rank|, 0);
      PaddedSteps(size, |size|, |size|, 1);
      if site !in sites {
        var n := |sites|;
        DistinctAppend(sites, site);
        AppendSingleton(parent, rank, size, comp, top);
        GrownOne(comp, rank, 0);
        GrownOne(parent, size, 1);
        Commit(sites + [site], parent + [n], rank + [0], size + [1], totalSets + 1, comp + [n], top);
      }
    }

    /**
     * find: an unknown site is added as a singleton and is its own root;
     * for a known site it is the root, and the site's parent is the root
     * afterwards.
     */
    method Find(site: string) returns (r: string)
      requires Valid()
      modifies this
      ensures Valid() && top == old(top) && sites == Added(old(sites), site)
      ensures comp == Grown(old(comp), |sites|)
      ensures rank == Padded(old(rank), |sites|, 0) && size == Padded(old(size), |sites|, 1)
      ensures totalSets == old(totalSets) + |sites| - |old(sites)|
      ensures site in sites && r == sites[comp[IndexOf(sites, site)]]
      ensures parent[IndexOf(sites, site)] == comp[IndexOf(sites, site)]
    {
      if site !in sites {
        MakeSet(site);
        IndexOfDistinct(sites, |sites| - 1);
        return site;
      }
      GrownSteps(comp, |comp|, |comp|);
      PaddedSteps(rank, |rank|, |rank|, 0);
      PaddedSteps(size, |size|, |size|, 1);
      var root := FindAt(IndexOf(sites, site));
      r := sites[root];
    }

    /**
     * The recursion of find on the site at position i: the site, with every
     * site on its path, is re-linked directly to its root; the partition,
     * the ranks and the sizes stay as they were.
     */
    method FindAt(i: nat) returns (root: nat)
      requires Valid() && i < |sites|
      modifies this
      ensures Valid() && |parent| == |old(parent)|
      ensures sites == old(sites) && rank == old(rank) && size == old(size) && totalSets == old(totalSets)
      ensures comp == old(comp) && top == old(top)
      ensures root == comp[i] && parent[i] == root
      decreases top - rank[i]
    {
      if parent[i] != i {
        var r := FindAt(parent[i]);
        Relink(parent, rank, size, comp, top, i, r);
        Commit(sites, parent[i := r], rank, size, totalSets, comp, top);
      }
      root := parent[i];
    }

    /**
     * union: both sites are found (and added when unknown). Nothing more
     * happens when they share a root. Otherwise the root of lower rank is
     * attached under the other, on a tie the root of site2 under that of
     * site1 whose rank grows, the new root's size is the sum, and there is
     * one set fewer.
     */
    method Union(site1: string, site2: string)
      requires Valid()
      modifies this
      ensures Valid() && sites == Added(Added(old(sites), site1), site2)
      ensures var c := Grown(old(comp), |sites|);
        var a, b := c[IndexOf(sites, site1)], c[IndexOf(sites, site2)];
        (comp, rank, size) == Linked(c, Padded(old(rank), |sites|, 0), Padded(old(size), |sites|, 1), a, b) &&
        totalSets == old(totalSets) + |sites| - |old(sites)| - if a == b then 0 else 1
    {
      ghost var comp0, rank0, size0 := comp, rank, size;
      var root1 := Find(site1);
      ghost var i1, sites1, comp1 := IndexOf(sites, site1), sites, comp;
      var root2 := Find(site2);
      ghost var i2 := IndexOf(sites, site2);
      GrownSteps(comp0, |sites1|, |sites|);
      PaddedSteps(rank0, |sites1|, |sites|, 0);
      PaddedSteps(size0, |sites1|, |sites|, 1);
      assert sites[i1] == sites1[i1] == site1 && comp[i1] == comp1[i1];
      IndexOfDistinct(sites, i1);
      var a, b := IndexOf(sites, root1), IndexOf(sites, root2);
      IndexOfDistinct(sites, comp[i1]);
      IndexOfDistinct(sites, comp[i2]);
      assert comp == Grown(comp0, |sites|) && rank == Padded(rank0, |sites|, 0) && size == Padded(size0, |sites|, 1);
      assert a == comp[IndexOf(sites, site1)] && b == comp[IndexOf(sites, site2)];
      if a == b {
        return;
      }
      LinkRoots(a, b);
    }

    /**
     * The linking step of union on two different roots: the root of lower
     * rank goes under the other; on a tie b goes under a, whose rank
     * grows. The new root's size is the sum and there is one set fewer.
     */
    method LinkRoots(a: nat, b: nat)
      requires Valid() && a < |sites| && b < |sites| && a != b && comp[a] == a && comp[b] == b
      modifies this
      ensures Valid() && sites == old(sites) && totalSets == old(totalSets) - 1
      ensures (comp, rank, size) == Linked(old(comp), old(rank), old(size), a, b)
    {
      if rank[a] < rank[b] {
        LinkForest(parent, rank, size, comp, top, a, b, rank[b]);
        assert rank[b := rank[b]] == rank;
        MergeRootCount(comp, a, b, |comp|);
        assert Linked(comp, rank, size, a, b) == (Merge(comp, a, b), rank, size[b := size[b] + size[a]]);
        Commit(sites, parent[a := b], rank, size[b := size[b] + size[a]], totalSets - 1, Merge(comp, a, b), top);
      } else if rank[a] > rank[b] {
        LinkForest(parent, rank, size, comp, top, b, a, rank[a]);
        assert rank[a := rank[a]] == rank;
        MergeRootCount(comp, b, a, |comp|);
        assert Linked(comp, rank, size, a, b) == (Merge(comp, b, a), rank, size[a := size[a] + size[b]]);
        Commit(sites, parent[b := a], rank, size[a := size[a] + size[b]], totalSets - 1, Merge(comp, b, a), top);
      } else {
        var lw := rank[a] + 1;
        LinkForest(parent, rank, size, comp, top, b, a, lw);
        MergeRootCount(comp, b, a, |comp|);
        assert Linked(comp, rank, size, a, b) == (Merge(comp, b, a), rank[a := lw], size[a := size[a] + size[b]]);
        Commit(sites, parent[b := a], rank[a := lw], size[a := size[a] + size[b]], totalSets - 1, Merge(comp, b, a),
               if top < lw then lw else top);
      }
    }

    /**
     * getClusterSizes: the sizes of the recorded roots, which are all
     * roots, sorted ascending.
     */
    method GetClusterSizes() returns (sizes: seq<int>)
      requires Valid()
      modifies this
      ensures Valid() && sites == old(sites) && comp == old(comp) && rank == old(rank) && size == old(size)
      ensures totalSets == old(totalSets) && top == old(top)
      ensures sizes == SortInts(FirstSeen(comp, |comp|))
    {
      var keys, vals, roots := CollectClusterSizes();
      RootsFacts(sites, parent, rank, size, comp, top, roots);
      var collected: seq<int> := [];
      var j := 0;
      while j < |keys|
        invariant 0 <= j <= |keys| && collected == vals[..j]
      {
        var r := IndexOf(sites, keys[j]);
        if parent[r] == r {
          collected := collected + [size[r]];
        }
        j := j + 1;
      }
      assert collected == vals;
      FirstSeenCounts(comp, |comp|);
      sizes := SortInts(collected);
    }

    /**
     * The first loop of getClusterSizes: find on every site, in the order
     * they were added, and the root put with its size. The map clusterSizes
     * it fills is returned as its keys, in the order they were first put,
     * and their values.
     */
    method CollectClusterSizes() returns (keys: seq<string>, vals: seq<int>, ghost roots: seq<int>)
      requires Valid()
      modifies this
      ensures Valid() && sites == old(sites) && comp == old(comp) && rank == old(rank) && size == old(size)
      ensures totalSets == old(totalSets) && top == old(top)
      ensures Collected(sites, comp, |comp|, keys, vals, roots)
    {
      ghost var s0, c0 := sites, comp;
      keys, vals, roots := [], [], [];
      var i := 0;
      while i < |sites|
        invariant 0 <= i <= |s0| && Valid() && Distinct(s0) && Closed(c0)
        invariant sites == s0 && comp == c0 && rank == old(rank) && size == old(size)
        invariant totalSets == old(totalSets) && top == old(top)
        invariant Collected(s0, c0, i, keys, vals, roots)
      {
        // find on a listed site is the recursion on its position
        var r := FindAt(i);
        var root := sites[r];
        assert c0[r] == r && size[r] == |Members(c0, r)|;
        if root in keys {
          CollectMet(s0, c0, i, keys, vals, roots);
          var k := IndexOf(keys, root);
          assert vals[k := size[r]] == vals;
          vals := vals[k := size[r]];
        } else {
          CollectNew(s0, c0, i, keys, vals, roots);
          keys, vals := keys + [root], vals + [size[r]];
          roots := roots + [r];
        }
        i := i + 1;
      }
    }

    /**
     * getClusters: find on every site, in the order they were added; each
     * site is appended to the list of its root, a new root getting a new
     * list. The map it returns is given as its keys, in the order they were
     * put, and their lists.
     */
    method GetClusters() returns (keys: seq<string>, lists: seq<seq<string>>)
      requires Valid()
      modifies this
      ensures Valid() && sites == old(sites) && comp == old(comp) && rank == old(rank) && size == old(size)
      ensures totalSets == old(totalSets) && top == old(top)
      ensures var roots := FirstRoots(comp, |comp|);
        (forall j :: 0 <= j < |roots| ==> 0 <= roots[j] < |sites|) &&
        keys == Names(sites, roots) && |lists| == |roots| &&
        forall j :: 0 <= j < |roots| ==> lists[j] == Cluster(sites, comp, roots[j], |comp|)
    {
      ghost var s0, c0 := sites, comp;
      keys, lists := [], [];
      ghost var roots: seq<int> := [];
      var i := 0;
      while i < |sites|
        invariant 0 <= i <= |s0| && Valid() && Distinct(s0) && Closed(c0)
        invariant sites == s0 && comp == c0 && rank == old(rank) && size == old(size)
        invariant totalSets == old(totalSets) && top == old(top)
        invariant Gathered(s0, c0, i, keys, lists, roots)
      {
        var r := FindAt(i);
        var root := sites[r];
        if root in keys {
          GatherMet(s0, c0, i, keys, lists, roots);
          var k := IndexOf(keys, root);
          lists := lists[k := lists[k] + [sites[i]]];
        } else {
          GatherNew(s0, c0, i, keys, lists, roots);
          keys, lists := keys + [root], lists + [[sites[i]]];
          roots := roots + [r];
        }
        i := i + 1;
      }
    }
  }
}
