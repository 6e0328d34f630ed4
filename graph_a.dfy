/**
 * lesson13/GraphA.java: a directed graph with string vertices, an
 * adjacency map and a sorted vertex set, and two topological sorts: Kahn's
 * algorithm with a priority queue (the smallest ready vertex first) and a
 * depth-first search that sorts each adjacency list before walking it.
 */
module GraphA {
  import opened JavaString
  import opened Digraph
  import opened GraphInput
  import Common
  import SitesInput

  /** x is ready after the vertices of prefix, and no ready vertex is smaller. */
  ghost predicate LeastReady(g: Graph<string>, vs: set<string>, prefix: seq<string>, x: string) {
    x in Ready(g, vs, Elems(prefix)) &&
    forall w :: w in Ready(g, vs, Elems(prefix)) ==> Leq(x, w)
  }

  /** Each vertex of the order is the smallest one ready when it is output. */
  ghost predicate SmallestFirst(g: Graph<string>, vs: set<string>, order: seq<string>) {
    forall i :: 0 <= i < |order| ==> LeastReady(g, vs, order[..i], order[i])
  }

  /** Two smallest-first orders agree on their common length: the order is unique. */
  lemma {:induction false} SmallestFirstUnique(g: Graph<string>, vs: set<string>, a: seq<string>, b: seq<string>, n: nat)
    requires SmallestFirst(g, vs, a) && SmallestFirst(g, vs, b)
    requires n <= |a| && n <= |b|
    ensures a[..n] == b[..n]
  {
    if n > 0 {
      SmallestFirstUnique(g, vs, a, b, n - 1);
      var p := a[..n - 1];
      assert LeastReady(g, vs, p, a[n - 1]);
      assert LeastReady(g, vs, p, b[n - 1]);
      LeastReadyUnique(g, vs, p, a[n - 1], b[n - 1]);
      assert a[..n] == p + [a[n - 1]] && b[..n] == p + [b[n - 1]];
    }
  }

  /** There is only one smallest ready vertex. */
  lemma LeastReadyUnique(g: Graph<string>, vs: set<string>, prefix: seq<string>, x: string, y: string)
    requires LeastReady(g, vs, prefix, x) && LeastReady(g, vs, prefix, y)
    ensures x == y
  {
    assert Leq(x, y) && Leq(y, x);
    CompareFlip(x, y);
  }

  /** The head of an ascending sequence is its smallest element. */
  lemma AscendingHead(q: seq<string>)
    requires Ascending(q) && |q| > 0
    ensures forall w :: w in q ==> Leq(q[0], w)
    ensures forall w :: w in q[1..] <==> w in q && w != q[0]
  {
    AscendingDistinct(q);
    forall w | w in q
      ensures Leq(q[0], w)
    {
      var k :| 0 <= k < |q| && q[k] == w;
      if k > 0 {
        assert Less(q[0], q[k]);
      }
    }
    forall w | w in q && w != q[0]
      ensures w in q[1..]
    {
      var k :| 0 <= k < |q| && q[k] == w;
      assert q[1..][k - 1] == w;
    }
  }

  /** Appending the smallest ready vertex keeps the order smallest-first. */
  lemma SmallestFirstSnoc(g: Graph<string>, vs: set<string>, order: seq<string>, x: string)
    requires SmallestFirst(g, vs, order) && LeastReady(g, vs, order, x)
    ensures SmallestFirst(g, vs, order + [x])
  {
    var t := order + [x];
    forall i | 0 <= i < |t|
      ensures LeastReady(g, vs, t[..i], t[i])
    {
      if i < |order| {
        assert t[..i] == order[..i];
      } else {
        assert t[..i] == order;
      }
    }
  }

  /**
   * The body of the neighbour loop of Kahn's algorithm: each successor's
   * count drops by one per edge, and a successor whose count reaches zero
   * joins the priority queue. No vertex is offered twice.
   */
  method Release(neighbors: seq<string>, inDegree: map<string, int>, queue: seq<string>)
    returns (degrees: map<string, int>, q: seq<string>)
    requires Ascending(queue)
    requires forall v :: v in queue ==> v in inDegree && inDegree[v] == 0
    requires forall v :: v in neighbors ==> v in inDegree && inDegree[v] >= multiset(neighbors)[v]
    ensures degrees.Keys == inDegree.Keys
    ensures forall v :: v in degrees ==> degrees[v] == inDegree[v] - multiset(neighbors)[v]
    ensures Ascending(q)
    ensures forall v :: v in q <==> v in queue || (v in neighbors && degrees[v] == 0)
  {
    degrees, q := inDegree, queue;
    var j := 0;
    while j < |neighbors|
      invariant 0 <= j <= |neighbors|
      invariant degrees.Keys == inDegree.Keys
      invariant forall v :: v in degrees ==> degrees[v] == inDegree[v] - multiset(neighbors[..j])[v]
      invariant Ascending(q)
      invariant forall v :: v in q <==> v in queue || (v in neighbors[..j] && degrees[v] == 0)
    {
      var neighbor := neighbors[j];
      MultisetSnoc(neighbors, j);
      assert neighbors == neighbors[..j + 1] + neighbors[j + 1..];
      degrees := degrees[neighbor := degrees[neighbor] - 1];
      if degrees[neighbor] == 0 {
        assert neighbor !in q;
        q := TreeAdd(q, neighbor);
      }
      j := j + 1;
    }
    assert neighbors[..j] == neighbors;
  }

  /** The state dfs threads through its calls: whether no cycle was met, the visited set and the finishing order. */
  datatype Search = Search(ok: bool, visited: set<string>, finished: seq<string>)

  /** The successors dfs walks: the vertex's list sorted, or none (getOrDefault). */
  function Successors(g: Graph<string>, v: string): (r: seq<string>)
    ensures forall w :: w in r <==> Edge(g, v, w)
  {
    if v in g then
      SortListElems(g[v]);
      SortList(g[v])
    else []
  }

  /**
   * dfs(v) as a function of the graph it starts from: v is visited, its
   * sorted successors are searched in turn, and v is appended to the
   * finishing order unless a cycle was met below it.
   */
  ghost function SearchFrom(g: Graph<string>, vs: set<string>, v: string, s: Search, onStack: set<string>): (r: Search)
    requires Within(g, vs) && s.visited <= vs && v in vs && v !in s.visited
    ensures s.visited <= r.visited <= vs
    decreases vs - s.visited, 0
  {
    var t := SearchList(g, vs, Successors(g, v), Search(true, s.visited + {v}, s.finished), onStack + {v});
    if t.ok then Search(true, t.visited, t.finished + [v]) else t
  }

  /** One turn of dfs's neighbour loop: search an unvisited vertex, fail on one on the stack, pass over a finished one. */
  ghost function SearchStep(g: Graph<string>, vs: set<string>, w: string, s: Search, onStack: set<string>): (r: Search)
    requires Within(g, vs) && s.visited <= vs && w in vs
    ensures s.visited <= r.visited <= vs
    decreases vs - s.visited, 1
  {
    if w !in s.visited then SearchFrom(g, vs, w, s, onStack)
    else if w in onStack then Search(false, s.visited, s.finished)
    else Search(true, s.visited, s.finished)
  }

  /** dfs's neighbour loop over the rest of the list, stopping at the first failure. */
  ghost function SearchList(g: Graph<string>, vs: set<string>, nbrs: seq<string>, s: Search, onStack: set<string>): (r: Search)
    requires Within(g, vs) && s.visited <= vs && forall w :: w in nbrs ==> w in vs
    ensures s.visited <= r.visited <= vs
    decreases vs - s.visited, 2, |nbrs|
  {
    if |nbrs| == 0 then s
    else
      var t := SearchStep(g, vs, nbrs[0], s, onStack);
      if t.ok then SearchList(g, vs, nbrs[1..], t, onStack) else t
  }

  /** The neighbour loop from position j: one step, then the loop from j + 1 unless it failed. */
  lemma SearchListAt(g: Graph<string>, vs: set<string>, nbrs: seq<string>, j: nat, s: Search, onStack: set<string>)
    requires Within(g, vs) && s.visited <= vs && forall w :: w in nbrs ==> w in vs
    requires j < |nbrs|
    ensures var t := SearchStep(g, vs, nbrs[j], s, onStack);
            SearchList(g, vs, nbrs[j..], s, onStack) == if t.ok then SearchList(g, vs, nbrs[j + 1..], t, onStack) else t
  {
    assert nbrs[j..][0] == nbrs[j] && nbrs[j..][1..] == nbrs[j + 1..];
  }

  /** topologicalSortDFS's loop over the remaining vertices, each unvisited one starting a search. */
  ghost function SearchAll(g: Graph<string>, vs: set<string>, order: seq<string>, s: Search): (r: Search)
    requires Within(g, vs) && s.visited <= vs && forall w :: w in order ==> w in vs
    decreases |order|
  {
    if |order| == 0 then s
    else
      var t := if order[0] in s.visited then s else SearchFrom(g, vs, order[0], s, {});
      if t.ok then SearchAll(g, vs, order[1..], t) else t
  }

  /** The vertex loop from position i: one vertex, then the loop from i + 1 unless it failed. */
  lemma SearchAllAt(g: Graph<string>, vs: set<string>, order: seq<string>, i: nat, s: Search)
    requires Within(g, vs) && s.visited <= vs && forall w :: w in order ==> w in vs
    requires i < |order|
    ensures var t := if order[i] in s.visited then s else SearchFrom(g, vs, order[i], s, {});
            SearchAll(g, vs, order[i..], s) == if t.ok then SearchAll(g, vs, order[i + 1..], t) else t
  {
    assert order[i..][0] == order[i] && order[i..][1..] == order[i + 1..];
  }

  /** The whole depth-first search over the vertices in sorted order, from nothing visited. */
  ghost function DfsSearch(g: Graph<string>, vertices: seq<string>): (r: Search)
    requires Within(g, Elems(vertices))
  {
    SortListElems(vertices);
    SearchAll(g, Elems(vertices), SortList(vertices), Search(true, {}, []))
  }

  /** The graph with edges a -> b and a -> c, and its vertices. */
  function SampleGraph(): Graph<string> {
    map["a" := ["b", "c"]]
  }

  lemma SampleWithin()
    ensures Elems(["a", "b", "c"]) == {"a", "b", "c"}
    ensures Within(SampleGraph(), {"a", "b", "c"})
  {
    assert Elems(["a", "b", "c"]) == {"a", "b", "c"};
  }

  /** b and c have no successors; a's, sorted, are b then c. */
  lemma SampleSuccessors()
    ensures Successors(SampleGraph(), "b") == [] && Successors(SampleGraph(), "c") == []
    ensures Successors(SampleGraph(), "a") == ["b", "c"]
  {
    var bc := ["b", "c"];
    assert CompareTo("b", "c") == -1;
    assert Sorted(bc);
    SortedUnique(SortList(bc), bc);
  }

  /** Below a, b is searched and finished first, then c. */
  lemma SampleBelowA()
    ensures Within(SampleGraph(), {"a", "b", "c"})
    ensures SearchList(SampleGraph(), {"a", "b", "c"}, ["b", "c"], Search(true, {"a"}, []), {"a"})
         == Search(true, {"a", "b", "c"}, ["b", "c"])
  {
    SampleWithin();
    SampleSuccessors();
    var g, vs := SampleGraph(), {"a", "b", "c"};
    var sb := SearchFrom(g, vs, "b", Search(true, {"a"}, []), {"a"});
    assert sb == Search(true, {"a", "b"}, ["b"]);
    var sc := SearchFrom(g, vs, "c", sb, {"a"});
    assert sc == Search(true, {"a", "b", "c"}, ["b", "c"]);
  }

  /** The vertex loop sees a, b, c in that order. */
  lemma SampleOrder()
    ensures SortList(["a", "b", "c"]) == ["a", "b", "c"]
  {
    var abc := ["a", "b", "c"];
    assert CompareTo("a", "b") == -1 && CompareTo("b", "c") == -1 && CompareTo("a", "c") == -2;
    assert Sorted(abc);
    SortedUnique(SortList(abc), abc);
  }

  /** dfs(a) reaches b and c below it and finishes a last. */
  lemma SampleFromA()
    ensures Within(SampleGraph(), {"a", "b", "c"})
    ensures SearchFrom(SampleGraph(), {"a", "b", "c"}, "a", Search(true, {}, []), {})
         == Search(true, {"a", "b", "c"}, ["b", "c", "a"])
  {
    SampleSuccessors();
    SampleBelowA();
    assert {} + {"a"} == {"a"};
  }

  /** Once a is done, b and c are already visited and the loop changes nothing. */
  lemma SampleRest(s: Search)
    requires s == Search(true, {"a", "b", "c"}, ["b", "c", "a"])
    ensures Within(SampleGraph(), {"a", "b", "c"})
    ensures SearchAll(SampleGraph(), {"a", "b", "c"}, ["b", "c"], s) == s
  {
    SampleWithin();
    var g, vs := SampleGraph(), {"a", "b", "c"};
    assert SearchAll(g, vs, [], s) == s;
    assert ["c"][1..] == [];
    assert SearchAll(g, vs, ["c"], s) == s;
    assert ["b", "c"][1..] == ["c"];
  }

  /**
   * With edges a -> b and a -> c, dfs(a) finishes c after b, so the
   * depth-first sort returns a, c, b (the reverse of the finishing order),
   * while Kahn's smallest-first order is a, b, c.
   */
  lemma DfsSample()
    ensures Within(SampleGraph(), Elems(["a", "b", "c"]))
    ensures DfsSearch(SampleGraph(), ["a", "b", "c"]) == Search(true, {"a", "b", "c"}, ["b", "c", "a"])
    ensures Reversed(DfsSearch(SampleGraph(), ["a", "b", "c"]).finished) == ["a", "c", "b"]
  {
    SampleWithin();
    SampleOrder();
    SampleAll();
    assert Reversed(["b", "c", "a"]) == ["a", "c", "b"];
  }

  /** The vertex loop over a, b, c: only a starts a search. */
  lemma SampleAll()
    ensures Within(SampleGraph(), {"a", "b", "c"})
    ensures SearchAll(SampleGraph(), {"a", "b", "c"}, ["a", "b", "c"], Search(true, {}, []))
         == Search(true, {"a", "b", "c"}, ["b", "c", "a"])
  {
    SampleFromA();
    var sa := Search(true, {"a", "b", "c"}, ["b", "c", "a"]);
    SampleRest(sa);
    assert ["a", "b", "c"][1..] == ["b", "c"];
  }

  class GraphA {
    /** The adjacency lists; a vertex added alone has an empty list. */
    var graph: Graph<string>
    /** The TreeSet of vertices, kept ascending. */
    var vertices: seq<string>

    ghost predicate Valid()
      reads this
    {
      Ascending(vertices) && Within(graph, Elems(vertices))
    }

    constructor()
      ensures Valid() && graph == map[] && vertices == []
    {
      graph := map[];
      vertices := [];
    }

    /** The edge from -> to is appended to from's list; both ends become vertices. */
    method AddEdge(from: string, to: string)
      modifies this
      requires Valid()
      ensures Valid()
      ensures graph == WithEdge(old(graph), from, to)
      ensures Elems(vertices) == Elems(old(vertices)) + {from, to}
    {
      graph := WithEdge(graph, from, to);
      vertices := TreeAdd(TreeAdd(vertices, from), to);
    }

    /** The vertex is added, with an empty list unless it already has one. */
    method AddVertex(vertex: string)
      modifies this
      requires Valid()
      ensures Valid()
      ensures graph == WithVertex(old(graph), vertex)
      ensures Elems(vertices) == Elems(old(vertices)) + {vertex}
    {
      vertices := TreeAdd(vertices, vertex);
      graph := WithVertex(graph, vertex);
    }

    /**
     * Kahn's algorithm. It succeeds exactly when the graph has no cycle,
     * and then outputs a topological order in which each vertex is the
     * smallest one ready; otherwise it fails with IllegalStateException.
     */
    method TopologicalSort() returns (r: Common.Result<seq<string>>)
      requires Valid()
      ensures r.Ok? <==> !HasCycle(graph)
      ensures r.Ok? ==> IsTopological(graph, Elems(vertices), r.value)
      ensures r.Ok? ==> SmallestFirst(graph, Elems(vertices), r.value)
      ensures r.Err? ==> r.error == Common.IllegalState
    {
      var vs := Elems(vertices);
      var inDegree;
      ghost var ks;
      inDegree, ks := InDegrees(graph, vs);
      AscendingDistinct(vertices);

      var queue: seq<string> := [];
      var i := 0;
      while i < |vertices|
        invariant 0 <= i <= |vertices|
        invariant Ascending(queue)
        invariant forall v :: v in queue <==> v in vertices[..i] && inDegree[v] == 0
      {
        if inDegree[vertices[i]] == 0 {
          assert vertices[i] !in queue;
          queue := TreeAdd(queue, vertices[i]);
        }
        i := i + 1;
      }
      assert vertices[..i] == vertices;
      forall v | v in vs
        ensures v in queue <==> v in Ready(graph, vs, {})
      {
        ReadyDeg(graph, vs, ks, {}, v);
        assert vs - {} == vs;
      }

      var result: seq<string> := [];
      ghost var done: set<string> := {};
      assert vs - done == vs;
      while |queue| > 0
        invariant Ascending(queue)
        invariant Distinct(result) && done == Elems(result) && done <= vs
        invariant Elems(queue) == Ready(graph, vs, done)
        invariant inDegree.Keys == vs
        invariant forall v :: v in vs && v !in done ==> inDegree[v] == Deg(graph, ks, vs - done, v)
        invariant PredClosed(graph, done)
        invariant SmallestFirst(graph, vs, result)
        decreases vs - done
      {
        var current := queue[0];
        AscendingHead(queue);
        assert current in Ready(graph, vs, done);
        KahnTake(graph, vs, ks, done, inDegree, current);
        SmallestFirstSnoc(graph, vs, result, current);
        var rest := queue[1..];
        queue := rest;
        ghost var degrees0 := inDegree;
        ghost var nbrs: seq<string> := [];
        if current in graph {
          nbrs := graph[current];
          inDegree, queue := Release(graph[current], inDegree, queue);
        }
        KahnRelease(graph, vs, ks, done, degrees0, current, nbrs, inDegree, Elems(queue));
        DistinctSnoc(result, current);
        result := result + [current];
        done := done + {current};
      }

      KahnFinish(graph, vs, vertices, done, result);
      if |result| != |vertices| {
        return Common.Err(Common.IllegalState);
      }
      return Common.Ok(result);
    }

    /**
     * graph.getOrDefault(vertex, new ArrayList<>()) sorted in place: the
     * vertex's list, if it has one, is replaced by its sorted version.
     */
    method SortNeighbors(vertex: string, ghost vs: set<string>, ghost g0: Graph<string>) returns (neighbors: seq<string>)
      modifies this
      requires Within(graph, vs) && SameEdges(g0, graph)
      ensures Within(graph, vs) && SameEdges(g0, graph) && vertices == old(vertices)
      ensures graph == if vertex in old(graph) then old(graph)[vertex := SortList(old(graph)[vertex])] else old(graph)
      ensures neighbors == Successors(g0, vertex)
    {
      neighbors := [];
      if vertex in graph {
        var sorted := SortList(graph[vertex]);
        SortListSame(graph[vertex], g0[vertex]);
        Reordered(graph, graph, vertex, sorted);
        Reordered(g0, graph, vertex, sorted);
        SameEdgesWithin(graph, graph[vertex := sorted], vs);
        graph := graph[vertex := sorted];
        neighbors := sorted;
      }
    }

    /**
     * One call of the recursive dfs: vertex and everything reachable from
     * it that was not yet visited are visited and finished, successors
     * before the vertex. A successor still on the stack closes a cycle, and
     * the search then fails. The ghost path is the chain of calls, so the
     * stack holds exactly the vertices on it.
     */
    method Dfs(vertex: string, visited: set<string>, onStack: set<string>, result: seq<string>,
               ghost vs: set<string>, ghost g0: Graph<string>, ghost path: seq<string>)
      returns (ok: bool, visited': set<string>, onStack': set<string>, result': seq<string>)
      modifies this
      requires Within(graph, vs) && SameEdges(g0, graph)
      requires vertex in vs && vertex !in visited && onStack <= visited <= vs
      requires Distinct(result) && Elems(result) == visited - onStack && FinishedClosed(g0, result)
      requires Elems(path) == onStack && Linked(g0, path + [vertex]) && Within(g0, vs)
      ensures Within(graph, vs) && SameEdges(g0, graph) && vertices == old(vertices)
      ensures Search(ok, visited', result') == SearchFrom(g0, vs, vertex, Search(true, visited, result), onStack)
      ensures !ok ==> HasCycle(g0)
      ensures ok ==> onStack' == onStack && visited <= visited' <= vs && vertex in visited'
      ensures ok ==> Distinct(result') && Elems(result') == visited' - onStack && FinishedClosed(g0, result')
      decreases vs - visited, 0
    {
      visited' := visited + {vertex};
      onStack' := onStack + {vertex};
      var neighbors := SortNeighbors(vertex, vs, g0);
      ghost var path' := path + [vertex];
      assert Elems(path') == onStack';
      ok, visited', result' := VisitAll(neighbors, visited', onStack', result, vs, g0, path');
      if !ok {
        return;
      }
      assert forall w :: Edge(g0, vertex, w) ==> w in Elems(result');
      FinishedSnoc(g0, result', vertex);
      DistinctSnoc(result', vertex);
      onStack' := onStack;
      result' := result' + [vertex];
    }

    /**
     * dfs's loop over the sorted successors of the vertex on top of the
     * path: each is visited in turn, and the loop stops at the first cycle.
     */
    method VisitAll(neighbors: seq<string>, visited: set<string>, onStack: set<string>, result: seq<string>,
                    ghost vs: set<string>, ghost g0: Graph<string>, ghost path: seq<string>)
      returns (ok: bool, visited': set<string>, result': seq<string>)
      modifies this
      requires Within(graph, vs) && SameEdges(g0, graph) && Within(g0, vs)
      requires |path| > 0 && Linked(g0, path) && Elems(path) == onStack
      requires forall w :: w in neighbors <==> Edge(g0, path[|path| - 1], w)
      requires onStack <= visited <= vs
      requires Distinct(result) && Elems(result) == visited - onStack && FinishedClosed(g0, result)
      ensures Within(graph, vs) && SameEdges(g0, graph) && vertices == old(vertices)
      ensures Search(ok, visited', result') == SearchList(g0, vs, neighbors, Search(true, visited, result), onStack)
      ensures !ok ==> HasCycle(g0)
      ensures ok ==> visited <= visited' <= vs
      ensures ok ==> Distinct(result') && Elems(result') == visited' - onStack && FinishedClosed(g0, result')
      ensures ok ==> forall w :: w in neighbors ==> w in Elems(result')
      decreases vs - visited, 2
    {
      visited', result' := visited, result;
      ghost var whole := SearchList(g0, vs, neighbors, Search(true, visited, result), onStack);
      var j := 0;
      while j < |neighbors|
        invariant 0 <= j <= |neighbors|
        invariant Within(graph, vs) && SameEdges(g0, graph) && vertices == old(vertices)
        invariant visited <= visited' <= vs
        invariant Distinct(result') && Elems(result') == visited' - onStack && FinishedClosed(g0, result')
        invariant forall k :: 0 <= k < j ==> neighbors[k] in Elems(result')
        invariant whole == SearchList(g0, vs, neighbors[j..], Search(true, visited', result'), onStack)
      {
        var found;
        ghost var before := Search(true, visited', result');
        SearchListAt(g0, vs, neighbors, j, before, onStack);
        assert neighbors[j] in neighbors && Edge(g0, path[|path| - 1], neighbors[j]);
        found, visited', result' := Visit(neighbors[j], visited', onStack, result', vs, g0, path);
        ghost var after := Search(found, visited', result');
        assert after == SearchStep(g0, vs, neighbors[j], before, onStack);
        if !found {
          assert whole == after;
          return false, visited', result';
        }
        assert whole == SearchList(g0, vs, neighbors[j + 1..], after, onStack);
        j := j + 1;
      }
      assert neighbors[j..] == [];
      ok := true;
    }

    /**
     * The body of dfs's neighbour loop: an unvisited successor is searched,
     * a successor on the stack is a cycle, a finished one is passed over.
     */
    method Visit(neighbor: string, visited: set<string>, onStack: set<string>, result: seq<string>,
                 ghost vs: set<string>, ghost g0: Graph<string>, ghost path: seq<string>)
      returns (ok: bool, visited': set<string>, result': seq<string>)
      modifies this
      requires Within(graph, vs) && SameEdges(g0, graph)
      requires |path| > 0 && Linked(g0, path) && Elems(path) == onStack && Edge(g0, path[|path| - 1], neighbor)
      requires onStack <= visited <= vs
      requires Distinct(result) && Elems(result) == visited - onStack && FinishedClosed(g0, result)
      requires Within(g0, vs) && neighbor in vs
      ensures Within(graph, vs) && SameEdges(g0, graph) && vertices == old(vertices)
      ensures Search(ok, visited', result') == SearchStep(g0, vs, neighbor, Search(true, visited, result), onStack)
      ensures !ok ==> HasCycle(g0)
      ensures ok ==> visited <= visited' <= vs && neighbor in visited' && neighbor !in onStack
      ensures ok ==> Distinct(result') && Elems(result') == visited' - onStack && FinishedClosed(g0, result')
      decreases vs - visited, 1
    {
      visited', result' := visited, result;
      if neighbor !in visited {
        LinkedSnoc(g0, path, neighbor);
        var stack;
        ok, visited', stack, result' := Dfs(neighbor, visited, onStack, result, vs, g0, path);
      } else if neighbor in onStack {
        BackEdgeCycle(g0, path, neighbor);
        ok := false;
      } else {
        ok := true;
      }
    }

    /** One turn of topologicalSortDFS's vertex loop: an unvisited vertex starts a search from an empty stack. */
    method Start(vertex: string, visited: set<string>, result: seq<string>, ghost vs: set<string>, ghost g0: Graph<string>)
      returns (ok: bool, visited': set<string>, result': seq<string>)
      modifies this
      requires Within(graph, vs) && SameEdges(g0, graph) && Within(g0, vs)
      requires vertex in vs && visited <= vs
      requires Distinct(result) && Elems(result) == visited && FinishedClosed(g0, result)
      ensures Within(graph, vs) && SameEdges(g0, graph) && vertices == old(vertices)
      ensures Search(ok, visited', result') ==
              if vertex in visited then Search(true, visited, result)
              else SearchFrom(g0, vs, vertex, Search(true, visited, result), {})
      ensures !ok ==> HasCycle(g0)
      ensures ok ==> visited <= visited' <= vs && vertex in visited'
      ensures ok ==> Distinct(result') && Elems(result') == visited' && FinishedClosed(g0, result')
    {
      ok, visited', result' := true, visited, result;
      if vertex !in visited {
        var onStack;
        assert Linked(g0, [] + [vertex]);
        ok, visited', onStack, result' := Dfs(vertex, visited, {}, result, vs, g0, []);
      }
    }

    /**
     * The depth-first topological sort: every vertex, in ascending order,
     * starts a search unless already visited; the reversed finishing order
     * is returned. It succeeds exactly when the graph has no cycle.
     */
    method TopologicalSortDfs() returns (r: Common.Result<seq<string>>)
      modifies this
      requires Valid()
      ensures Valid() && vertices == old(vertices) && SameEdges(old(graph), graph)
      ensures r.Ok? <==> !HasCycle(old(graph))
      ensures r.Ok? ==> IsTopological(old(graph), Elems(vertices), r.value)
      ensures r.Ok? == DfsSearch(old(graph), vertices).ok
      ensures r.Ok? ==> r.value == Reversed(DfsSearch(old(graph), vertices).finished)
      ensures r.Err? ==> r.error == Common.IllegalState
    {
      ghost var g0 := graph;
      ghost var whole := DfsSearch(g0, vertices);
      var visited: set<string> := {};
      var onStack: set<string> := {};
      var result: seq<string> := [];
      var sortedVertices := SortList(vertices);
      SortListElems(vertices);
      var i := 0;
      while i < |sortedVertices|
        invariant 0 <= i <= |sortedVertices|
        invariant Valid() && SameEdges(g0, graph) && vertices == old(vertices)
        invariant onStack == {} && visited <= Elems(vertices)
        invariant Distinct(result) && Elems(result) == visited && FinishedClosed(g0, result)
        invariant forall k :: 0 <= k < i ==> sortedVertices[k] in visited
        invariant whole == SearchAll(g0, Elems(vertices), sortedVertices[i..], Search(true, visited, result))
      {
        var vertex := sortedVertices[i];
        ghost var before := Search(true, visited, result);
        SearchAllAt(g0, Elems(vertices), sortedVertices, i, before);
        var ok;
        ok, visited, result := Start(vertex, visited, result, Elems(vertices), g0);
        if !ok {
          return Common.Err(Common.IllegalState);
        }
        i := i + 1;
      }
      assert Elems(result) == Elems(vertices) by {
        forall v | v in vertices
          ensures v in visited
        {
          assert v in sortedVertices;
        }
      }
      PostorderReversed(g0, result);
      TopologicalAcyclic(g0, Elems(vertices), Reversed(result));
      return Common.Ok(Reversed(result));
    }
  }

  /** One comma-separated piece: an edge, a lone vertex, or nothing. */
  method ProcessPiece(g: GraphA, edge: string)
    modifies g
    requires g.Valid()
    ensures g.Valid()
    ensures g.graph == Step(old(g.graph), Parse(edge))
    ensures Elems(g.vertices) == Elems(old(g.vertices)) + CommandNames(Parse(edge))
  {
    var vs := Split(edge, "->");
    if |vs| == 2 {
      g.AddEdge(SitesInput.Trim(vs[0]), SitesInput.Trim(vs[1]));
    } else if |vs| == 1 {
      g.AddVertex(SitesInput.Trim(vs[0]));
    }
  }

  /**
   * processInput: the edges and lone vertices of the input line, added in
   * order; pieces that are neither are skipped.
   */
  method ProcessInput(g: GraphA, input: string)
    modifies g
    requires g.Valid()
    ensures g.Valid()
    ensures g.graph == Build(old(g.graph), Commands(input))
    ensures Elems(g.vertices) == Elems(old(g.vertices)) + Names(Commands(input))
  {
    var cleaned := RemoveSpaces(input);
    var edges := Split(cleaned, ",");
    ghost var cmds := Commands(input);
    ghost var vs0 := Elems(g.vertices);
    ghost var g0 := g.graph;
    var i := 0;
    while i < |edges|
      invariant 0 <= i <= |edges| == |cmds|
      invariant g.Valid()
      invariant g.graph == Build(g0, cmds[..i])
      invariant Elems(g.vertices) == vs0 + Names(cmds[..i])
    {
      assert cmds[i] == Parse(edges[i]);
      BuildNext(g0, cmds, i);
      ProcessPiece(g, edges[i]);
      i := i + 1;
    }
    assert cmds[..i] == cmds;
  }
}
