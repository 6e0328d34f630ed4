/**
 * lesson13/GraphC.java: a directed graph with string vertices, its adjacency
 * map, the map of reversed edges and a sorted vertex set, and Kosaraju's
 * algorithm for the strongly connected components. The first pass searches
 * depth-first in ascending vertex order, each adjacency list sorted in place
 * before it is walked, and pushes each vertex when it finishes; the second
 * pass pops that stack and collects each component with a depth-first search
 * over the reversed edges. The components, each a TreeSet, are then sorted
 * larger first and, among equal sizes, by their first vertex.
 */
module GraphC {
  import opened JavaString
  import opened Digraph
  import opened Kosaraju
  import opened GraphInput
  import SitesInput

  /** Collections.sort on the list stored under vertex, when there is one. */
  function SortAt(g: Graph<string>, vertex: string): (r: Graph<string>)
    ensures SameEdges(g, r)
    ensures vertex in g ==> Sorted(r[vertex])
    ensures forall u :: u in g && u != vertex ==> r[u] == g[u]
  {
    if vertex in g then g[vertex := SortList(g[vertex])] else g
  }

  // ----- the order of the components -----

  /** Integer.compare */
  function IntCompare(a: int, b: int): (r: int)
    ensures r < 0 <==> a < b
    ensures r == 0 <==> a == b
    ensures -1 <= r <= 1
  {
    if a < b then -1 else if a == b then 0 else 1
  }

  /**
   * The comparator the components are sorted with: the larger component
   * first, and among components of one size the one whose first (smallest)
   * vertex comes first.
   */
  function SccCompare(c1: seq<string>, c2: seq<string>): (r: int)
    requires |c1| > 0 && |c2| > 0
    ensures r < 0 <==> |c1| > |c2| || (|c1| == |c2| && Less(c1[0], c2[0]))
    ensures r == 0 <==> |c1| == |c2| && c1[0] == c2[0]
  {
    var sizeCompare := IntCompare(|c2|, |c1|);
    if sizeCompare != 0 then sizeCompare else CompareTo(c1[0], c2[0])
  }

  lemma SccCompareFlip(a: seq<string>, b: seq<string>)
    requires |a| > 0 && |b| > 0
    ensures SccCompare(a, b) > 0 ==> SccCompare(b, a) < 0
  {
    CompareFlip(a[0], b[0]);
  }

  lemma SccCompareTrans(a: seq<string>, b: seq<string>, c: seq<string>)
    requires |a| > 0 && |b| > 0 && |c| > 0
    requires SccCompare(a, b) <= 0 && SccCompare(b, c) <= 0
    ensures SccCompare(a, c) <= 0
  {
    LeqNotLess(b[0], a[0]);
    LeqNotLess(c[0], b[0]);
    if |a| == |c| {
      LeqTrans(a[0], b[0], c[0]);
      LeqNotLess(c[0], a[0]);
    }
  }

  predicate NonEmpty(l: seq<seq<string>>) {
    forall c :: c in l ==> |c| > 0
  }

  /** In the comparator's order, equal neighbours allowed. */
  predicate SccSorted(l: seq<seq<string>>)
    requires NonEmpty(l)
  {
    forall a, b :: 0 <= a < b < |l| ==> SccCompare(l[a], l[b]) <= 0
  }

  /** A component no later than every one of a sorted list can go in front of it. */
  lemma SortedCons(c: seq<string>, l: seq<seq<string>>)
    requires |c| > 0 && NonEmpty(l) && SccSorted(l)
    requires forall b :: 0 <= b < |l| ==> SccCompare(c, l[b]) <= 0
    ensures NonEmpty([c] + l) && SccSorted([c] + l)
  {
    var t := [c] + l;
    forall a, b | 0 <= a < b < |t|
      ensures SccCompare(t[a], t[b]) <= 0
    {
      if a > 0 {
        assert t[a] == l[a - 1] && t[b] == l[b - 1];
      } else {
        assert t[b] == l[b - 1];
      }
    }
  }

  /** A component no later than the head of a sorted list is no later than any of it. */
  lemma BelowSorted(c: seq<string>, l: seq<seq<string>>)
    requires |c| > 0 && |l| > 0 && NonEmpty(l) && SccSorted(l) && SccCompare(c, l[0]) <= 0
    ensures forall b :: 0 <= b < |l| ==> SccCompare(c, l[b]) <= 0
  {
    forall b | 0 < b < |l| {
      SccCompareTrans(c, l[0], l[b]);
    }
  }

  /** A bound on c and on every element of l bounds every element of a list holding c and l's elements. */
  lemma BelowMultiset(h: seq<string>, c: seq<string>, l: seq<seq<string>>, t: seq<seq<string>>)
    requires |h| > 0 && |c| > 0 && NonEmpty(l) && NonEmpty(t)
    requires multiset(t) == multiset(l) + multiset{c}
    requires SccCompare(h, c) <= 0
    requires forall b :: 0 <= b < |l| ==> SccCompare(h, l[b]) <= 0
    ensures forall b :: 0 <= b < |t| ==> SccCompare(h, t[b]) <= 0
  {
    forall b | 0 <= b < |t|
      ensures SccCompare(h, t[b]) <= 0
    {
      assert t[b] in multiset(t);
      if t[b] != c {
        assert t[b] in multiset(l);
        var k :| 0 <= k < |l| && l[k] == t[b];
      }
    }
  }

  /** c put before the first component it does not follow. */
  function InsertScc(c: seq<string>, l: seq<seq<string>>): (r: seq<seq<string>>)
    requires |c| > 0 && NonEmpty(l) && SccSorted(l)
    ensures NonEmpty(r) && SccSorted(r)
    ensures multiset(r) == multiset(l) + multiset{c}
  {
    if |l| == 0 then [c]
    else if SccCompare(c, l[0]) <= 0 then
      BelowSorted(c, l);
      SortedCons(c, l);
      [c] + l
    else
      SccCompareFlip(c, l[0]);
      var t := InsertScc(c, l[1..]);
      assert forall b :: 0 <= b < |l[1..]| ==> SccCompare(l[0], l[1..][b]) <= 0 by {
        forall b | 0 <= b < |l[1..]|
          ensures SccCompare(l[0], l[1..][b]) <= 0
        {
          assert l[1..][b] == l[b + 1];
        }
      }
      BelowMultiset(l[0], c, l[1..], t);
      SortedCons(l[0], t);
      assert l == [l[0]] + l[1..];
      [l[0]] + t
  }

  /** sccs.sort(comparator): the components rearranged into the comparator's order. */
  function SortSccs(l: seq<seq<string>>): (r: seq<seq<string>>)
    requires NonEmpty(l)
    ensures NonEmpty(r) && SccSorted(r)
    ensures multiset(r) == multiset(l)
  {
    if |l| == 0 then []
    else
      assert l == [l[0]] + l[1..];
      InsertScc(l[0], SortSccs(l[1..]))
  }

  /** Components of a graph: each an ascending list holding the component of its first vertex. */
  ghost predicate AreSccs(g: Graph<string>, vs: set<string>, l: seq<seq<string>>) {
    forall c :: c in l ==> |c| > 0 && Ascending(c) && Elems(c) == SccOf(g, vs, c[0])
  }

  /** The vertices of all the components in a list. */
  ghost function Covered(l: seq<seq<string>>): (r: set<string>)
    ensures forall c :: c in l ==> Elems(c) <= r
  {
    if |l| == 0 then {} else Covered(l[..|l| - 1]) + Elems(l[|l| - 1])
  }

  lemma CoveredSnoc(l: seq<seq<string>>, c: seq<string>)
    ensures Covered(l + [c]) == Covered(l) + Elems(c)
  {
    assert (l + [c])[..|l|] == l;
  }

  lemma CoveredPart(l: seq<seq<string>>, a: nat)
    requires a < |l|
    ensures Elems(l[a]) <= Covered(l)
  {
    assert l[a] in l;
  }

  /** A list outside the covered vertices is added as a new component: coverage grows by it, and no two components meet. */
  lemma CoveredAppend(l: seq<seq<string>>, c: seq<string>)
    requires forall a, b :: 0 <= a < b < |l| ==> Elems(l[a]) !! Elems(l[b])
    requires Elems(c) !! Covered(l)
    ensures Covered(l + [c]) == Covered(l) + Elems(c)
    ensures forall a, b :: 0 <= a < b < |l + [c]| ==> Elems((l + [c])[a]) !! Elems((l + [c])[b])
  {
    CoveredSnoc(l, c);
    forall a | 0 <= a < |l|
      ensures Elems(l[a]) !! Elems(c)
    {
      CoveredPart(l, a);
    }
  }

  /** Every covered vertex lies in one of the listed components. */
  lemma {:induction false} CoveredHas(l: seq<seq<string>>, x: string) returns (a: nat)
    requires x in Covered(l)
    ensures a < |l| && x in l[a]
  {
    var front := l[..|l| - 1];
    if x in Elems(l[|l| - 1]) {
      a := |l| - 1;
    } else {
      a := CoveredHas(front, x);
      assert l[a] == front[a];
    }
  }

  /**
   * The state of the second pass after the finish order has been popped
   * down to its first n entries: the visited vertices are those claimed by
   * the popped entries and are exactly the vertices of the components
   * found, which do not overlap.
   */
  ghost predicate Popped(g: Graph<string>, vs: set<string>, fin: seq<string>, n: nat,
                         visited: set<string>, l: seq<seq<string>>) {
    visited == ClaimedSet(g, vs, fin, n) && AreSccs(g, vs, l) && visited == Covered(l)
    && forall a, b :: 0 <= a < b < |l| ==> Elems(l[a]) !! Elems(l[b])
  }

  lemma PoppedStart(g: Graph<string>, vs: set<string>, fin: seq<string>)
    requires Elems(fin) == vs
    ensures Popped(g, vs, fin, |fin|, {}, [])
  {
    ClaimedEnds(g, vs, fin);
  }

  /** A popped entry already visited changes nothing. */
  lemma PoppedClaimed(g: Graph<string>, vs: set<string>, fin: seq<string>, i: nat,
                      visited: set<string>, l: seq<seq<string>>)
    requires 0 < i <= |fin| && Popped(g, vs, fin, i, visited, l) && fin[i - 1] in visited
    ensures Popped(g, vs, fin, i - 1, visited, l)
  {
    PopClaimed(g, vs, fin, i);
  }

  /** Once everything is popped, the components found cover every vertex. */
  lemma PoppedAll(g: Graph<string>, vs: set<string>, fin: seq<string>, visited: set<string>, l: seq<seq<string>>)
    requires Elems(fin) == vs && Popped(g, vs, fin, 0, visited, l)
    ensures AreSccs(g, vs, l)
    ensures forall v :: v in vs ==> exists c :: c in l && v in c
    ensures forall a, b :: 0 <= a < b < |l| ==> Elems(l[a]) !! Elems(l[b])
  {
    ClaimedEnds(g, vs, fin);
    forall v | v in vs
      ensures exists c :: c in l && v in c
    {
      var a := CoveredHas(l, v);
      assert l[a] in l;
    }
  }

  /** Non-empty lists no two of which share an element are all different. */
  lemma DisjointDistinct(l: seq<seq<string>>)
    requires NonEmpty(l)
    requires forall a, b :: 0 <= a < b < |l| ==> Elems(l[a]) !! Elems(l[b])
    ensures Distinct(l)
  {
    forall a, b | 0 <= a < b < |l|
      ensures l[a] != l[b]
    {
      assert l[a] in l;
      assert l[a][0] in Elems(l[a]);
    }
  }

  /** Different components of the list share no vertex, and so the comparator orders them strictly. */
  lemma DistinctSccs(g: Graph<string>, vs: set<string>, r: seq<seq<string>>, a: nat, b: nat)
    requires AreSccs(g, vs, r) && Distinct(r) && a < b < |r|
    ensures Elems(r[a]) !! Elems(r[b])
    ensures SccCompare(r[a], r[b]) != 0
  {
    assert r[a] in r && r[b] in r;
    if Elems(r[a]) == Elems(r[b]) {
      AscendingUnique(r[a], r[b]);
    }
    SccDisjoint(g, vs, r[a][0], r[b][0]);
    assert r[a][0] in Elems(r[a]);
  }

  /** Sorting the components keeps them, and orders them strictly when no two share a vertex. */
  lemma SortedSccs(g: Graph<string>, vs: set<string>, l: seq<seq<string>>)
    requires AreSccs(g, vs, l)
    requires forall a, b :: 0 <= a < b < |l| ==> Elems(l[a]) !! Elems(l[b])
    ensures AreSccs(g, vs, SortSccs(l))
    ensures forall c :: c in l <==> c in SortSccs(l)
    ensures forall a, b :: 0 <= a < b < |SortSccs(l)| ==> Elems(SortSccs(l)[a]) !! Elems(SortSccs(l)[b])
    ensures forall a, b :: 0 <= a < b < |SortSccs(l)| ==> SccCompare(SortSccs(l)[a], SortSccs(l)[b]) < 0
  {
    var r := SortSccs(l);
    forall c
      ensures c in l <==> c in r
    {
      assert c in l <==> c in multiset(l);
      assert c in r <==> c in multiset(r);
    }
    DisjointDistinct(l);
    PermDistinct(l, r);
    forall a, b | 0 <= a < b < |r|
      ensures Elems(r[a]) !! Elems(r[b]) && SccCompare(r[a], r[b]) < 0
    {
      DistinctSccs(g, vs, r, a, b);
    }
  }

  class GraphC {
    /** The adjacency lists; a vertex added alone has an empty list. */
    var graph: Graph<string>
    /** For each vertex, the vertices with an edge to it. */
    var reversedGraph: Graph<string>
    /** The TreeSet of vertices, kept ascending. */
    var vertices: seq<string>

    ghost predicate Valid()
      reads this
    {
      Ascending(vertices) && Within(graph, Elems(vertices)) &&
      Within(reversedGraph, Elems(vertices)) && IsReverse(graph, reversedGraph)
    }

    constructor()
      ensures Valid() && graph == map[] && reversedGraph == map[] && vertices == []
    {
      graph := map[];
      reversedGraph := map[];
      vertices := [];
    }

    /** The edge from -> to is appended to from's list and from to to's reversed list; both ends become vertices. */
    method AddEdge(from: string, to: string)
      modifies this
      requires Valid()
      ensures Valid()
      ensures graph == WithEdge(old(graph), from, to)
      ensures reversedGraph == WithEdge(old(reversedGraph), to, from)
      ensures Elems(vertices) == Elems(old(vertices)) + {from, to}
    {
      var vs := TreeAdd(TreeAdd(vertices, from), to);
      assert Elems(vs) == Elems(vertices) + {from, to};
      EdgeKeepsReverse(graph, reversedGraph, Elems(vertices), from, to);
      graph, reversedGraph, vertices := WithEdge(graph, from, to), WithEdge(reversedGraph, to, from), vs;
    }

    /** The vertex is added, with empty lists in both maps unless it already has them. */
    method AddVertex(vertex: string)
      modifies this
      requires Valid()
      ensures Valid()
      ensures graph == WithVertex(old(graph), vertex)
      ensures reversedGraph == WithVertex(old(reversedGraph), vertex)
      ensures Elems(vertices) == Elems(old(vertices)) + {vertex}
    {
      vertices := TreeAdd(vertices, vertex);
      graph := WithVertex(graph, vertex);
      reversedGraph := WithVertex(reversedGraph, vertex);
    }

    /** graph.getOrDefault(vertex, ...) after Collections.sort on it: the successors of vertex, sorted in place. */
    method SortedSuccessors(vertex: string, ghost g0: Graph<string>) returns (neighbors: seq<string>)
      modifies this
      requires SameEdges(g0, graph)
      ensures SameEdges(g0, graph) && reversedGraph == old(reversedGraph) && vertices == old(vertices)
      ensures forall w :: w in neighbors <==> Edge(g0, vertex, w)
    {
      graph := SortAt(graph, vertex);
      neighbors := Adjacent(graph, vertex);
      SameEdgesEdge(g0, graph);
    }

    /** reversedGraph.getOrDefault(vertex, ...) after Collections.sort on it: the predecessors of vertex, sorted in place. */
    method SortedPredecessors(vertex: string, ghost rg0: Graph<string>) returns (neighbors: seq<string>)
      modifies this
      requires SameEdges(rg0, reversedGraph)
      ensures SameEdges(rg0, reversedGraph) && graph == old(graph) && vertices == old(vertices)
      ensures Sorted(neighbors) && forall w :: w in neighbors <==> Edge(rg0, vertex, w)
    {
      reversedGraph := SortAt(reversedGraph, vertex);
      neighbors := Adjacent(reversedGraph, vertex);
      SameEdgesEdge(rg0, reversedGraph);
    }

    /**
     * findSCCs: the strongly connected components, each once, as ascending
     * lists, together holding every vertex, in the comparator's order.
     */
    method FindSccs() returns (sccs: seq<seq<string>>)
      modifies this
      requires Valid()
      ensures Valid() && vertices == old(vertices)
      ensures SameEdges(old(graph), graph) && SameEdges(old(reversedGraph), reversedGraph)
      ensures AreSccs(old(graph), Elems(vertices), sccs)
      ensures forall v :: v in vertices ==> exists c :: c in sccs && v in c
      ensures forall a, b :: 0 <= a < b < |sccs| ==> Elems(sccs[a]) !! Elems(sccs[b])
      ensures forall a, b :: 0 <= a < b < |sccs| ==> SccCompare(sccs[a], sccs[b]) < 0
    {
      ghost var g0 := graph;
      ghost var rg0 := reversedGraph;
      ghost var vs := Elems(vertices);
      var stack := FirstPass();
      assert stack + Reversed([]) == stack;
      var found := SecondPass(stack, vs, g0, rg0);
      SameEdgesWithin(g0, graph, vs);
      SameEdgesWithin(rg0, reversedGraph, vs);
      SameEdgesEdge(g0, graph);
      SameEdgesEdge(rg0, reversedGraph);
      SortedSccs(g0, vs, found);
      sccs := SortSccs(found);
      forall v | v in vertices
        ensures exists c :: c in sccs && v in c
      {
        var c :| c in found && v in c;
      }
    }

    /** The first pass: every vertex, in ascending order, starts a search unless already visited. */
    method FirstPass() returns (stack: seq<string>)
      modifies this
      requires Valid()
      ensures SameEdges(old(graph), graph) && reversedGraph == old(reversedGraph) && vertices == old(vertices)
      ensures Distinct(stack) && Elems(stack) == Elems(vertices)
      ensures Settled(old(graph), stack, [])
    {
      ghost var g0 := graph;
      ghost var vs := Elems(vertices);
      stack := [];
      var visited: set<string> := {};
      var sortedVertices := SortList(vertices);
      SortListElems(vertices);
      var i := 0;
      while i < |sortedVertices|
        invariant 0 <= i <= |sortedVertices|
        invariant SameEdges(g0, graph) && reversedGraph == old(reversedGraph) && vertices == old(vertices)
        invariant Searching(g0, vs, visited, stack, [])
        invariant forall k :: 0 <= k < i ==> sortedVertices[k] in visited
      {
        var vertex := sortedVertices[i];
        if vertex !in visited {
          visited, stack := DfsFirst(vertex, visited, stack, vs, g0, []);
        }
        i := i + 1;
      }
      forall v | v in vs
        ensures v in visited
      {
        assert v in sortedVertices;
      }
    }

    /**
     * dfsFirstPass: vertex and everything reachable from it not yet visited
     * are visited, and each is pushed when its search finishes. The ghost
     * path is the chain of calls; its vertices are visited but not pushed.
     */
    method DfsFirst(vertex: string, visited: set<string>, stack: seq<string>,
                    ghost vs: set<string>, ghost g0: Graph<string>, ghost path: seq<string>)
      returns (visited': set<string>, stack': seq<string>)
      modifies this
      requires Within(g0, vs) && SameEdges(g0, graph)
      requires vertex in vs && vertex !in visited && Linked(g0, path + [vertex])
      requires Searching(g0, vs, visited, stack, path)
      ensures SameEdges(g0, graph) && reversedGraph == old(reversedGraph) && vertices == old(vertices)
      ensures visited <= visited' && vertex in visited'
      ensures Searching(g0, vs, visited', stack', path)
      decreases vs - visited, 0
    {
      EnterVisit(g0, vs, visited, stack, path, vertex);
      var neighbors := SortedSuccessors(vertex, g0);
      visited', stack' := VisitAllFirst(neighbors, visited + {vertex}, stack, vs, g0, path + [vertex]);
      LeaveVisit(g0, vs, visited', stack', path, vertex);
      stack' := stack' + [vertex];
    }

    /** dfsFirstPass's neighbour loop: each successor in the sorted list is searched unless visited. */
    method VisitAllFirst(neighbors: seq<string>, visited: set<string>, stack: seq<string>,
                         ghost vs: set<string>, ghost g0: Graph<string>, ghost path: seq<string>)
      returns (visited': set<string>, stack': seq<string>)
      modifies this
      requires Within(g0, vs) && SameEdges(g0, graph)
      requires |path| > 0 && Linked(g0, path)
      requires forall w :: w in neighbors ==> Edge(g0, path[|path| - 1], w)
      requires Searching(g0, vs, visited, stack, path)
      ensures SameEdges(g0, graph) && reversedGraph == old(reversedGraph) && vertices == old(vertices)
      ensures visited <= visited' && forall w :: w in neighbors ==> w in visited'
      ensures Searching(g0, vs, visited', stack', path)
      decreases vs - visited, 2
    {
      visited', stack' := visited, stack;
      var j := 0;
      while j < |neighbors|
        invariant 0 <= j <= |neighbors|
        invariant SameEdges(g0, graph) && reversedGraph == old(reversedGraph) && vertices == old(vertices)
        invariant visited <= visited'
        invariant Searching(g0, vs, visited', stack', path)
        invariant forall k :: 0 <= k < j ==> neighbors[k] in visited'
      {
        assert neighbors[j] in neighbors;
        visited', stack' := VisitFirst(neighbors[j], visited', stack', vs, g0, path);
        j := j + 1;
      }
    }

    /** The body of dfsFirstPass's neighbour loop: an unvisited successor is searched. */
    method VisitFirst(neighbor: string, visited: set<string>, stack: seq<string>,
                      ghost vs: set<string>, ghost g0: Graph<string>, ghost path: seq<string>)
      returns (visited': set<string>, stack': seq<string>)
      modifies this
      requires Within(g0, vs) && SameEdges(g0, graph)
      requires |path| > 0 && Linked(g0, path) && Edge(g0, path[|path| - 1], neighbor)
      requires Searching(g0, vs, visited, stack, path)
      ensures SameEdges(g0, graph) && reversedGraph == old(reversedGraph) && vertices == old(vertices)
      ensures visited <= visited' && neighbor in visited'
      ensures Searching(g0, vs, visited', stack', path)
      decreases vs - visited, 1
    {
      visited', stack' := visited, stack;
      if neighbor !in visited {
        LinkedSnoc(g0, path, neighbor);
        visited', stack' := DfsFirst(neighbor, visited, stack, vs, g0, path);
      }
    }

    /**
     * The second pass: the stack is popped, and each vertex not yet visited
     * starts a search over the reversed edges that collects its component.
     */
    method SecondPass(stack0: seq<string>, ghost vs: set<string>, ghost g0: Graph<string>, ghost rg0: Graph<string>)
      returns (sccs: seq<seq<string>>)
      modifies this
      requires Within(g0, vs) && IsReverse(g0, rg0) && SameEdges(rg0, reversedGraph)
      requires Distinct(stack0) && Elems(stack0) == vs && Claims(g0, stack0, |stack0|)
      ensures SameEdges(rg0, reversedGraph) && graph == old(graph) && vertices == old(vertices)
      ensures AreSccs(g0, vs, sccs)
      ensures forall v :: v in vs ==> exists c :: c in sccs && v in c
      ensures forall a, b :: 0 <= a < b < |sccs| ==> Elems(sccs[a]) !! Elems(sccs[b])
    {
      var stack := stack0;
      var visited: set<string> := {};
      sccs := [];
      PoppedStart(g0, vs, stack0);
      while |stack| > 0
        invariant |stack| <= |stack0| && stack == stack0[..|stack|]
        invariant SameEdges(rg0, reversedGraph) && graph == old(graph) && vertices == old(vertices)
        invariant Popped(g0, vs, stack0, |stack|, visited, sccs)
      {
        ghost var i := |stack|;
        var vertex := stack[|stack| - 1];
        stack := stack[..|stack| - 1];
        assert vertex == stack0[i - 1] && stack == stack0[..i - 1];
        if vertex !in visited {
          visited, sccs := PopComponent(vertex, visited, sccs, stack0, i, vs, g0, rg0);
        } else {
          PoppedClaimed(g0, vs, stack0, i, visited, sccs);
        }
      }
      PoppedAll(g0, vs, stack0, visited, sccs);
    }

    /**
     * A popped vertex not yet visited: its component is collected into a new
     * TreeSet and appended, which visits exactly the vertices claimed by
     * that stack entry.
     */
    method PopComponent(vertex: string, visited: set<string>, sccs: seq<seq<string>>,
                        ghost stack0: seq<string>, ghost i: nat, ghost vs: set<string>, ghost g0: Graph<string>, ghost rg0: Graph<string>)
      returns (visited': set<string>, sccs': seq<seq<string>>)
      modifies this
      requires Within(g0, vs) && IsReverse(g0, rg0) && SameEdges(rg0, reversedGraph)
      requires Elems(stack0) == vs && Claims(g0, stack0, |stack0|)
      requires 0 < i <= |stack0| && vertex == stack0[i - 1]
      requires Popped(g0, vs, stack0, i, visited, sccs) && vertex !in visited
      ensures SameEdges(rg0, reversedGraph) && graph == old(graph) && vertices == old(vertices)
      ensures Popped(g0, vs, stack0, i - 1, visited', sccs')
    {
      PopFresh(g0, vs, stack0, i);
      var scc;
      visited', scc := Collect(vertex, visited, vs, g0, rg0);
      CoveredAppend(sccs, scc);
      sccs' := sccs + [scc];
    }

    /**
     * A new TreeSet filled by dfsSecondPass from root: root's component,
     * given that the visited vertices are whole components not holding root
     * and every unvisited vertex reaching root is in its component.
     */
    method Collect(root: string, visited: set<string>, ghost vs: set<string>, ghost g0: Graph<string>, ghost rg0: Graph<string>)
      returns (visited': set<string>, scc: seq<string>)
      modifies this
      requires Within(g0, vs) && IsReverse(g0, rg0) && SameEdges(rg0, reversedGraph)
      requires root in vs && SccOf(g0, vs, root) !! visited
      requires forall x :: x in vs && x !in visited && Reach(g0, x, root) ==> x in SccOf(g0, vs, root)
      ensures SameEdges(rg0, reversedGraph) && graph == old(graph) && vertices == old(vertices)
      ensures visited' == visited + SccOf(g0, vs, root)
      ensures |scc| > 0 && Ascending(scc) && Elems(scc) == SccOf(g0, vs, root) == SccOf(g0, vs, scc[0])
    {
      ghost var s := SccOf(g0, vs, root);
      ReachSelf(g0, root);
      assert root in s;
      SccClosed(g0, rg0, vs, visited, root);
      visited', scc := DfsSecond(root, visited, [], visited, s, rg0);
      Collected(g0, rg0, vs, visited, root, visited' - visited);
      assert scc[0] in scc;
      SccOfMember(g0, vs, root, scc[0]);
    }

    /**
     * dfsSecondPass: vertex and every unvisited vertex with a path of
     * reversed edges to it through unvisited vertices are visited and added
     * to the TreeSet. What this call visits stays inside s, and every
     * reversed edge out of it ends at a visited vertex.
     */
    method DfsSecond(vertex: string, visited: set<string>, scc: seq<string>,
                     ghost visited0: set<string>, ghost s: set<string>, ghost rg0: Graph<string>)
      returns (visited': set<string>, scc': seq<string>)
      modifies this
      requires SameEdges(rg0, reversedGraph)
      requires vertex in s && vertex !in visited
      requires visited0 <= visited && visited - visited0 <= s && s !! visited0
      requires forall y, x :: y in s && Edge(rg0, y, x) && x !in visited0 ==> x in s
      requires Ascending(scc) && Elems(scc) == visited - visited0
      ensures SameEdges(rg0, reversedGraph) && graph == old(graph) && vertices == old(vertices)
      ensures visited <= visited' && vertex in visited' && visited' - visited0 <= s
      ensures Ascending(scc') && Elems(scc') == visited' - visited0
      ensures forall t, x :: t in visited' && t !in visited && Edge(rg0, t, x) ==> x in visited'
      decreases s - visited, 0
    {
      visited' := visited + {vertex};
      scc' := TreeAdd(scc, vertex);
      var neighbors := SortedPredecessors(vertex, rg0);

      var j := 0;
      while j < |neighbors|
        invariant 0 <= j <= |neighbors|
        invariant SameEdges(rg0, reversedGraph) && graph == old(graph) && vertices == old(vertices)
        invariant visited + {vertex} <= visited' && visited' - visited0 <= s
        invariant Ascending(scc') && Elems(scc') == visited' - visited0
        invariant forall t, x :: t in visited' && t !in visited && t != vertex && Edge(rg0, t, x) ==> x in visited'
        invariant forall k :: 0 <= k < j ==> neighbors[k] in visited'
      {
        visited', scc' := VisitSecond(neighbors[j], vertex, visited', scc', visited0, s, rg0);
        j := j + 1;
      }
    }

    /** The body of dfsSecondPass's neighbour loop: an unvisited vertex with a reversed edge from vertex is searched. */
    method VisitSecond(neighbor: string, ghost vertex: string, visited: set<string>, scc: seq<string>,
                       ghost visited0: set<string>, ghost s: set<string>, ghost rg0: Graph<string>)
      returns (visited': set<string>, scc': seq<string>)
      modifies this
      requires SameEdges(rg0, reversedGraph)
      requires vertex in s && Edge(rg0, vertex, neighbor)
      requires visited0 <= visited && visited - visited0 <= s && s !! visited0
      requires forall y, x :: y in s && Edge(rg0, y, x) && x !in visited0 ==> x in s
      requires Ascending(scc) && Elems(scc) == visited - visited0
      ensures SameEdges(rg0, reversedGraph) && graph == old(graph) && vertices == old(vertices)
      ensures visited <= visited' && neighbor in visited' && visited' - visited0 <= s
      ensures Ascending(scc') && Elems(scc') == visited' - visited0
      ensures forall t, x :: t in visited' && t !in visited && Edge(rg0, t, x) ==> x in visited'
      decreases s - visited, 1
    {
      visited', scc' := visited, scc;
      if neighbor !in visited {
        visited', scc' := DfsSecond(neighbor, visited, scc, visited0, s, rg0);
      }
    }
  }

  /** One comma-separated piece: an edge, a lone vertex, or nothing. */
  method ProcessPiece(g: GraphC, edge: string)
    modifies g
    requires g.Valid()
    ensures g.Valid()
    ensures g.graph == Step(old(g.graph), Parse(edge))
    ensures Elems(g.vertices) == Elems(old(g.vertices)) + CommandNames(Parse(edge))
  {
    var vs := Split(edge, "->");
    if |vs| == 2 {
      g.AddEdge(SitesInput.Trim(vs[0]), SitesInput.Trim(vs[1]));
    } else if |vs| == 1 {
      g.AddVertex(SitesInput.Trim(vs[0]));
    }
  }

  /**
   * processInput: the edges and lone vertices of the input line, added in
   * order; pieces that are neither are skipped.
   */
  method ProcessInput(g: GraphC, input: string)
    modifies g
    requires g.Valid()
    ensures g.Valid()
    ensures g.graph == Build(old(g.graph), Commands(input))
    ensures Elems(g.vertices) == Elems(old(g.vertices)) + Names(Commands(input))
  {
    var cleaned := RemoveSpaces(input);
    var edges := Split(cleaned, ",");
    ghost var cmds := Commands(input);
    ghost var vs0 := Elems(g.vertices);
    ghost var g0 := g.graph;
    var i := 0;
    while i < |edges|
      invariant 0 <= i <= |edges| == |cmds|
      invariant g.Valid()
      invariant g.graph == Build(g0, cmds[..i])
      invariant Elems(g.vertices) == vs0 + Names(cmds[..i])
    {
      assert cmds[i] == Parse(edges[i]);
      BuildNext(g0, cmds, i);
      ProcessPiece(g, edges[i]);
      i := i + 1;
    }
    assert cmds[..i] == cmds;
  }
}
