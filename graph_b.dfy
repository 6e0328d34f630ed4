/**
 * lesson13/GraphB.java: a directed graph with string vertices kept in a
 * HashSet, and two cycle tests: a depth-first search with a recursion stack,
 * and Kahn's algorithm with a FIFO queue that counts the vertices it outputs.
 * A HashSet is iterated in an order of its own; the loops over the vertex
 * set here take the vertices in any order, and both tests answer the same
 * whatever that order is.
 */
module GraphB {
  import opened Digraph
  import opened GraphInput
  import SitesInput

  /**
   * The FIFO half of the Kahn loop body: each successor's count is lowered,
   * and one whose count reaches zero is offered at the tail of the queue.
   */
  method Release(neighbors: seq<string>, inDegree: map<string, int>, queue: seq<string>)
    returns (degrees: map<string, int>, q: seq<string>)
    requires Distinct(queue)
    requires forall v :: v in queue ==> v in inDegree && inDegree[v] == 0
    requires forall v :: v in neighbors ==> v in inDegree && inDegree[v] >= multiset(neighbors)[v]
    ensures degrees.Keys == inDegree.Keys
    ensures forall v :: v in degrees ==> degrees[v] == inDegree[v] - multiset(neighbors)[v]
    ensures Distinct(q) && |queue| <= |q| && q[..|queue|] == queue
    ensures forall v :: v in q <==> v in queue || (v in neighbors && degrees[v] == 0)
  {
    degrees, q := inDegree, queue;
    var j := 0;
    while j < |neighbors|
      invariant 0 <= j <= |neighbors|
      invariant degrees.Keys == inDegree.Keys
      invariant forall v :: v in degrees ==> degrees[v] == inDegree[v] - multiset(neighbors[..j])[v]
      invariant Distinct(q) && |queue| <= |q| && q[..|queue|] == queue
      invariant forall v :: v in q <==> v in queue || (v in neighbors[..j] && degrees[v] == 0)
    {
      var neighbor := neighbors[j];
      MultisetSnoc(neighbors, j);
      assert neighbors == neighbors[..j + 1] + neighbors[j + 1..];
      degrees := degrees[neighbor := degrees[neighbor] - 1];
      if degrees[neighbor] == 0 {
        assert neighbor !in q;
        DistinctSnoc(q, neighbor);
        q := q + [neighbor];
      }
      j := j + 1;
    }
    assert neighbors[..j] == neighbors;
  }

  /** The vertices of vs with count zero, offered in the order the HashSet lists them. */
  method ZeroQueue(vs: set<string>, inDegree: map<string, int>) returns (queue: seq<string>)
    requires vs <= inDegree.Keys
    ensures Distinct(queue)
    ensures forall v :: v in queue <==> v in vs && inDegree[v] == 0
  {
    queue := [];
    var rest := vs;
    while rest != {}
      invariant rest <= vs
      invariant Distinct(queue)
      invariant forall v :: v in queue <==> v in vs - rest && inDegree[v] == 0
      decreases |rest|
    {
      var vertex :| vertex in rest;
      if inDegree[vertex] == 0 {
        DistinctSnoc(queue, vertex);
        queue := queue + [vertex];
      }
      rest := rest - {vertex};
    }
  }

  class GraphB {
    /** The adjacency lists; a vertex added alone has an empty list. */
    var graph: Graph<string>
    /** The HashSet of vertices. */
    var vertices: set<string>

    ghost predicate Valid()
      reads this
    {
      Within(graph, vertices)
    }

    constructor()
      ensures Valid() && graph == map[] && vertices == {}
    {
      graph := map[];
      vertices := {};
    }

    /** The edge from -> to is appended to from's list; both ends become vertices. */
    method AddEdge(from: string, to: string)
      modifies this
      requires Valid()
      ensures Valid()
      ensures graph == WithEdge(old(graph), from, to)
      ensures vertices == old(vertices) + {from, to}
    {
      graph := WithEdge(graph, from, to);
      vertices := vertices + {from} + {to};
    }

    /** The vertex is added, with an empty list unless it already has one. */
    method AddVertex(vertex: string)
      modifies this
      requires Valid()
      ensures Valid()
      ensures graph == WithVertex(old(graph), vertex)
      ensures vertices == old(vertices) + {vertex}
    {
      vertices := vertices + {vertex};
      graph := WithVertex(graph, vertex);
    }

    /**
     * The depth-first cycle test: every vertex not yet visited starts a
     * search. The answer is true exactly when the graph has a cycle.
     */
    method HasCycle() returns (r: bool)
      requires Valid()
      ensures r <==> Digraph.HasCycle(graph)
    {
      var visited: set<string> := {};
      var recursionStack: set<string> := {};
      ghost var finished: seq<string> := [];
      var rest := vertices;
      while rest != {}
        invariant rest <= vertices && vertices - rest <= visited <= vertices
        invariant recursionStack == {}
        invariant Distinct(finished) && Elems(finished) == visited && FinishedClosed(graph, finished)
        decreases |rest|
      {
        var vertex :| vertex in rest;
        rest := rest - {vertex};
        if vertex !in visited {
          var cycle;
          cycle, visited, recursionStack, finished := HasCycleDfs(vertex, visited, recursionStack, finished, []);
          if cycle {
            return true;
          }
        }
      }
      PostorderReversed(graph, finished);
      TopologicalAcyclic(graph, vertices, Reversed(finished));
      return false;
    }

    /**
     * hasCycleDFS. The recursion stack holds exactly the vertices of the
     * current search path, which ends at vertex. A true answer comes with a
     * cycle; a false one leaves the stack as it was and every visited vertex
     * off the stack finished: all its successors were finished before it.
     */
    method HasCycleDfs(vertex: string, visited: set<string>, recursionStack: set<string>,
                       ghost finished: seq<string>, ghost path: seq<string>)
      returns (cycle: bool, visited': set<string>, recursionStack': set<string>, ghost finished': seq<string>)
      requires Valid()
      requires vertex in vertices && vertex !in visited && recursionStack <= visited <= vertices
      requires Distinct(finished) && Elems(finished) == visited - recursionStack && FinishedClosed(graph, finished)
      requires Elems(path) == recursionStack && Linked(graph, path + [vertex])
      ensures cycle ==> Digraph.HasCycle(graph)
      ensures !cycle ==> recursionStack' == recursionStack && visited <= visited' <= vertices && vertex in visited'
      ensures !cycle ==> Distinct(finished') && Elems(finished') == visited' - recursionStack && FinishedClosed(graph, finished')
      decreases vertices - visited, 0
    {
      visited' := visited + {vertex};
      recursionStack' := recursionStack + {vertex};
      finished' := finished;
      ghost var path' := path + [vertex];
      assert Elems(path') == recursionStack';
      var neighbors := Adjacent(graph, vertex);

      var j := 0;
      ghost var done: set<string> := {};
      while j < |neighbors|
        invariant 0 <= j <= |neighbors|
        invariant recursionStack' == recursionStack + {vertex}
        invariant vertex in visited' && visited <= visited' <= vertices
        invariant Distinct(finished') && Elems(finished') == visited' - recursionStack' && FinishedClosed(graph, finished')
        invariant done <= visited' - recursionStack'
        invariant forall k :: 0 <= k < j ==> neighbors[k] in done
      {
        var found;
        found, visited', finished' := Visit(neighbors[j], visited', recursionStack', finished', path');
        if found {
          return true, visited', recursionStack', finished';
        }
        done := done + {neighbors[j]};
        j := j + 1;
      }

      assert forall w :: Edge(graph, vertex, w) ==> w in Elems(finished');
      FinishedSnoc(graph, finished', vertex);
      DistinctSnoc(finished', vertex);
      recursionStack' := recursionStack' - {vertex};
      finished' := finished' + [vertex];
      cycle := false;
    }

    /**
     * The body of hasCycleDFS's neighbour loop: an unvisited successor is
     * searched, a successor on the recursion stack closes a cycle, a
     * finished one is passed over.
     */
    method Visit(neighbor: string, visited: set<string>, recursionStack: set<string>,
                 ghost finished: seq<string>, ghost path: seq<string>)
      returns (cycle: bool, visited': set<string>, ghost finished': seq<string>)
      requires Valid()
      requires |path| > 0 && Linked(graph, path) && Elems(path) == recursionStack
      requires Edge(graph, path[|path| - 1], neighbor)
      requires recursionStack <= visited <= vertices
      requires Distinct(finished) && Elems(finished) == visited - recursionStack && FinishedClosed(graph, finished)
      ensures cycle ==> Digraph.HasCycle(graph)
      ensures !cycle ==> visited <= visited' <= vertices && neighbor in visited' && neighbor !in recursionStack
      ensures !cycle ==> Distinct(finished') && Elems(finished') == visited' - recursionStack && FinishedClosed(graph, finished')
      decreases vertices - visited, 1
    {
      visited', finished' := visited, finished;
      if neighbor !in visited {
        LinkedSnoc(graph, path, neighbor);
        var stack;
        cycle, visited', stack, finished' := HasCycleDfs(neighbor, visited, recursionStack, finished, path);
      } else if neighbor in recursionStack {
        BackEdgeCycle(graph, path, neighbor);
        cycle := true;
      } else {
        cycle := false;
      }
    }

    /**
     * hasCycleKahn: the vertices are output from a FIFO queue of vertices
     * with in-degree zero, and counted. The count falls short of the number
     * of vertices exactly when the graph has a cycle.
     */
    method HasCycleKahn() returns (r: bool)
      requires Valid()
      ensures r <==> Digraph.HasCycle(graph)
    {
      var vs := vertices;
      var inDegree;
      ghost var ks;
      inDegree, ks := InDegrees(graph, vs);

      var queue := ZeroQueue(vs, inDegree);
      forall v | v in vs
        ensures v in queue <==> v in Ready(graph, vs, {})
      {
        ReadyDeg(graph, vs, ks, {}, v);
        assert vs - {} == vs;
      }

      var count := 0;
      ghost var order: seq<string> := [];
      ghost var done: set<string> := {};
      assert vs - done == vs;
      while |queue| > 0
        invariant Distinct(queue) && Elems(queue) == Ready(graph, vs, done)
        invariant Distinct(order) && done == Elems(order) && done <= vs && count == |order|
        invariant inDegree.Keys == vs
        invariant forall v :: v in vs && v !in done ==> inDegree[v] == Deg(graph, ks, vs - done, v)
        invariant PredClosed(graph, done)
        invariant ReadyOrder(graph, vs, order)
        decreases vs - done
      {
        var current := queue[0];
        DistinctTail(queue);
        queue := queue[1..];
        count := count + 1;
        KahnTake(graph, vs, ks, done, inDegree, current);
        ReadyOrderSnoc(graph, vs, order, current);
        ghost var degrees0 := inDegree;
        ghost var nbrs: seq<string> := [];
        if current in graph {
          nbrs := graph[current];
          inDegree, queue := Release(graph[current], inDegree, queue);
        }
        KahnRelease(graph, vs, ks, done, degrees0, current, nbrs, inDegree, Elems(queue));
        DistinctSnoc(order, current);
        order := order + [current];
        done := done + {current};
      }

      KahnCount(graph, vs, done, order);
      return count != |vertices|;
    }
  }

  /** One comma-separated piece: an edge, a lone vertex, or nothing. */
  method ProcessPiece(g: GraphB, edge: string)
    modifies g
    requires g.Valid()
    ensures g.Valid()
    ensures g.graph == Step(old(g.graph), Parse(edge))
    ensures g.vertices == old(g.vertices) + CommandNames(Parse(edge))
  {
    var vs := Split(edge, "->");
    if |vs| == 2 {
      g.AddEdge(SitesInput.Trim(vs[0]), SitesInput.Trim(vs[1]));
    } else if |vs| == 1 {
      g.AddVertex(SitesInput.Trim(vs[0]));
    }
  }

  /**
   * processInput: the edges and lone vertices of the input line, added in
   * order; pieces that are neither are skipped.
   */
  method ProcessInput(g: GraphB, input: string)
    modifies g
    requires g.Valid()
    ensures g.Valid()
    ensures g.graph == Build(old(g.graph), Commands(input))
    ensures g.vertices == old(g.vertices) + Names(Commands(input))
  {
    var cleaned := RemoveSpaces(input);
    var edges := Split(cleaned, ",");
    ghost var cmds := Commands(input);
    ghost var vs0 := g.vertices;
    ghost var g0 := g.graph;
    var i := 0;
    while i < |edges|
      invariant 0 <= i <= |edges| == |cmds|
      invariant g.Valid()
      invariant g.graph == Build(g0, cmds[..i])
      invariant g.vertices == vs0 + Names(cmds[..i])
    {
      assert cmds[i] == Parse(edges[i]);
      BuildNext(g0, cmds, i);
      ProcessPiece(g, edges[i]);
      i := i + 1;
    }
    assert cmds[..i] == cmds;
  }
}
