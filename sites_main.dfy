/**
 * The main loop of lesson14/SitesB.java: the disjoint-set union fed with
 * the pairs of the input lines ends up with the groups the pairs join.
 */
module SitesMain {
  import opened Common
  import opened DisjointSets
  import opened SitesB
  import opened SitesInput

  /** A site is joined to itself. */
  lemma {:induction false} JoinedRefl<K>(edges: seq<(K, K)>, x: K)
    ensures Joined(edges, x, x)
    decreases |edges|
  {
    if |edges| > 0 {
      JoinedRefl(edges[..|edges| - 1], x);
    }
  }

  /** The sites and names after one more pair. */
  lemma SitesLast<K>(edges: seq<(K, K)>, a: K, b: K)
    ensures Sites(edges + [(a, b)]) == Sites(edges) + {a, b}
    ensures forall x, y :: Joined(edges + [(a, b)], x, y) <==>
      Joined(edges, x, y) || (Joined(edges, x, a) && Joined(edges, b, y)) || (Joined(edges, x, b) && Joined(edges, a, y))
  {
    assert (edges + [(a, b)])[..|edges|] == edges;
  }

  /** Sites at positions i and j share a set exactly when the pairs join them. */
  ghost predicate Grouped<K>(sites: seq<K>, comp: seq<int>, edges: seq<(K, K)>)
    requires |sites| == |comp|
  {
    forall i, j :: 0 <= i < |sites| && 0 <= j < |sites| ==>
      (comp[i] == comp[j] <==> Joined(edges, sites[i], sites[j]))
  }

  /** The listed sites are those the pairs name, and the sets are the groups the pairs join. */
  ghost predicate Groups<K>(sites: seq<K>, comp: seq<int>, edges: seq<(K, K)>) {
    |sites| == |comp| && Elems(sites) == Sites(edges) && Grouped(sites, comp, edges)
  }

  /** makeSet keeps the sets the groups of the pairs: a new site is joined to no other. */
  lemma GroupedGrow<K>(sites: seq<K>, comp: seq<int>, edges: seq<(K, K)>, x: K)
    requires |sites| == |comp| && Closed(comp) && Sites(edges) <= Elems(sites) && Grouped(sites, comp, edges)
    ensures var s := Added(sites, x); |comp| <= |s| && Grouped(s, Grown(comp, |s|), edges)
  {
    if x in sites {
      GrownSteps(comp, |comp|, |comp|);
    } else {
      var n := |sites|;
      var s, c := sites + [x], comp + [n];
      GrownOne(comp, comp, 0);
      forall i, j | 0 <= i < |s| && 0 <= j < |s|
        ensures c[i] == c[j] <==> Joined(edges, s[i], s[j])
      {
        if i == n && j == n {
          JoinedRefl(edges, x);
        } else if i == n {
          assert s[j] == sites[j] && s[j] != x;
          if Joined(edges, x, s[j]) {
            JoinedSites(edges, x, s[j]);
          }
        } else if j == n {
          assert s[i] == sites[i] && s[i] != x;
          if Joined(edges, s[i], x) {
            JoinedSites(edges, s[i], x);
          }
        }
      }
    }
  }

  /**
   * union of the sites at positions p and q makes the sets the groups of
   * the pairs with the pair of those two sites added.
   */
  lemma GroupedLink<K>(sites: seq<K>, comp: seq<int>, rank: seq<int>, size: seq<int>,
                    edges: seq<(K, K)>, p: nat, q: nat)
    requires |sites| == |comp| && p < |sites| && q < |sites| && Grouped(sites, comp, edges)
    requires 0 <= comp[p] < |rank| && 0 <= comp[q] < |rank| && comp[p] < |size| && comp[q] < |size|
    ensures Grouped(sites, Linked(comp, rank, size, comp[p], comp[q]).0, edges + [(sites[p], sites[q])])
  {
    var m := Linked(comp, rank, size, comp[p], comp[q]).0;
    var a, b := sites[p], sites[q];
    SitesLast(edges, a, b);
    forall i, j | 0 <= i < |sites| && 0 <= j < |sites|
      ensures m[i] == m[j] <==> Joined(edges + [(a, b)], sites[i], sites[j])
    {
      LinkedJoins(comp, rank, size, comp[p], comp[q], i, j);
      assert {comp[i], comp[j]} == {comp[p], comp[q]} <==>
        (comp[i] == comp[p] && comp[j] == comp[q]) || (comp[i] == comp[q] && comp[j] == comp[p]);
    }
  }

  // ----- the main loop -----

  /** makeSet(a) and makeSet(b): both sites are listed and each new one is a set of its own. */
  lemma PairGrown<K>(sites0: seq<K>, comp0: seq<int>, edges: seq<(K, K)>, a: K, b: K)
    requires Groups(sites0, comp0, edges) && Closed(comp0)
    ensures var sites1 := Added(sites0, a); var sites2 := Added(sites1, b);
      |comp0| <= |sites1| <= |sites2| && Closed(Grown(comp0, |sites1|)) &&
      var comp2 := Grown(Grown(comp0, |sites1|), |sites2|);
      Closed(comp2) && Grouped(sites2, comp2, edges) && a in sites2 && b in sites2 &&
      Elems(sites2) == Sites(edges) + {a, b}
  {
    var sites1 := Added(sites0, a);
    var comp1 := Grown(comp0, |sites1|);
    GroupedGrow(sites0, comp0, edges, a);
    ClosedGrown(comp0, |sites1|);
    ElemsAdded(sites0, a);
    GroupedGrow(sites1, comp1, edges, b);
    ClosedGrown(comp1, |Added(sites1, b)|);
    ElemsAdded(sites1, b);
  }

  /**
   * makeSet(a), makeSet(b) and union(a, b) on a forest whose sets are the
   * groups of the pairs give the groups of the pairs with (a, b) added.
   */
  lemma PairGroups<K>(sites2: seq<K>, comp2: seq<int>, edges: seq<(K, K)>, a: K, b: K, rank: seq<int>, size: seq<int>)
    requires |sites2| == |comp2| == |rank| == |size| && Closed(comp2) && Grouped(sites2, comp2, edges)
    requires a in sites2 && b in sites2 && Elems(sites2) == Sites(edges) + {a, b}
    ensures var p, q := IndexOf(sites2, a), IndexOf(sites2, b);
      0 <= p && 0 <= q && Groups(sites2, Linked(comp2, rank, size, comp2[p], comp2[q]).0, edges + [(a, b)])
  {
    var p, q := IndexOf(sites2, a), IndexOf(sites2, b);
    GroupedLink(sites2, comp2, rank, size, edges, p, q);
    SitesLast(edges, a, b);
  }

  /** Singletons added to a closed partition keep it closed. */
  lemma ClosedGrown(c: seq<int>, n: nat)
    requires Closed(c) && |c| <= n
    ensures Closed(Grown(c, n))
  {
  }

  /** One line "a+b": makeSet of both sites, then union of them. */
  method AddPair(dsu: Dsu, a: string, b: string, ghost edges: seq<(string, string)>)
    requires dsu.Valid() && Groups(dsu.sites, dsu.comp, edges)
    modifies dsu
    ensures dsu.Valid() && Groups(dsu.sites, dsu.comp, edges + [(a, b)])
  {
    ghost var sites0, comp0 := dsu.sites, dsu.comp;
    PairGrown(sites0, comp0, edges, a, b);
    dsu.MakeSet(a);
    dsu.MakeSet(b);
    ghost var sites2, comp2, rank2, size2 := dsu.sites, dsu.comp, dsu.rank, dsu.size;
    PairGroups(sites2, comp2, edges, a, b, rank2, size2);
    GrownSteps(comp2, |comp2|, |comp2|);
    PaddedSteps(rank2, |rank2|, |rank2|, 0);
    PaddedSteps(size2, |size2|, |size2|, 1);
    dsu.Union(a, b);
  }

  /** The pairs of one more line: those before, then the line's pair if it is one. */
  lemma EdgesNext(lines: seq<string>, i: nat)
    requires i < |lines|
    ensures var e := ParseLine(lines[i]);
      Edges(lines[..i + 1]) == Edges(lines[..i]) + if e.Some? then [e.value] else []
  {
    assert lines[..i + 1][..i] == lines[..i];
  }

  /** Where the loop stops: at the first "end", or at the end of the input when there is none. */
  lemma FirstEnd(lines: seq<string>, i: nat)
    requires i <= |lines| && forall k :: 0 <= k < i ==> lines[k] != "end"
    ensures i == |lines| ==> "end" !in lines
    ensures i < |lines| && lines[i] == "end" ==> IndexOf(lines, "end") == i
  {
  }

  /**
   * The main loop: lines are read up to "end"; a line that splits at '+'
   * into two parts joins the two trimmed sites, any other line is skipped.
   * Without an "end" line the input runs out (None). Otherwise the result
   * is the sorted list of cluster sizes of the groups the pairs make: it is
   * ascending and adds up to the number of sites named.
   */
  method ProcessLines(lines: seq<string>) returns (out: Option<seq<int>>, ghost sites: seq<string>, ghost comp: seq<int>)
    ensures out.Some? <==> "end" in lines
    ensures out.Some? ==> var edges := Edges(lines[..IndexOf(lines, "end")]);
      Groups(sites, comp, edges) && Closed(comp) && out.value == SortInts(FirstSeen(comp, |comp|)) &&
      Ascending(out.value) && Sum(out.value) == |Sites(edges)|
  {
    var dsu := new Dsu();
    ghost var edges: seq<(string, string)> := [];
    var i := 0;
    while i < |lines| && lines[i] != "end"
      invariant 0 <= i <= |lines| && dsu.Valid() && forall k :: 0 <= k < i ==> lines[k] != "end"
      invariant edges == Edges(lines[..i]) && Groups(dsu.sites, dsu.comp, edges)
      decreases |lines| - i
    {
      EdgesNext(lines, i);
      var pair := ParseLine(lines[i]);
      if pair.Some? {
        AddPair(dsu, pair.value.0, pair.value.1, edges);
        edges := edges + [pair.value];
      }
      i := i + 1;
    }
    FirstEnd(lines, i);
    if i == |lines| {
      return None, [], [];
    }
    var sizes := dsu.GetClusterSizes();
    sites, comp := dsu.sites, dsu.comp;
    FirstSeenTotal(comp);
    SumPermutation(sizes, FirstSeen(comp, |comp|));
    out := Some(sizes);
  }
}
