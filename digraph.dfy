/**
 * The directed graphs of the lesson13 exercises: a map from a vertex name to
 * the list of its successors (a Map<String, List<String>>; a list may name a
 * successor more than once), with paths, reachability, cycles, topological
 * orders and in-degrees defined on it.
 */
module Digraph {
  type Graph<V> = map<V, seq<V>>

  /** u -> v is an edge: v is in the list stored under u. */
  predicate Edge<V>(g: Graph<V>, u: V, v: V) {
    u in g && v in g[u]
  }

  /** graph.getOrDefault(u, new ArrayList<>()) */
  function Adjacent<V(!new)>(g: Graph<V>, u: V): (r: seq<V>)
    ensures forall v :: v in r <==> Edge(g, u, v)
  {
    if u in g then g[u] else []
  }

  /** graph.computeIfAbsent(u, k -> new ArrayList<>()).add(v): exactly one edge more. */
  function WithEdge<V(!new)>(g: Graph<V>, u: V, v: V): (r: Graph<V>)
    ensures r.Keys == g.Keys + {u}
    ensures forall a, b :: Edge(r, a, b) <==> Edge(g, a, b) || (a == u && b == v)
    ensures forall a :: a in g && a != u ==> r[a] == g[a]
    ensures multiset(r[u]) == multiset(Adjacent(g, u)) + multiset{v}
  {
    g[u := Adjacent(g, u) + [v]]
  }

  /** graph.putIfAbsent(u, new ArrayList<>()): u becomes a key and no edge changes. */
  function WithVertex<V(!new)>(g: Graph<V>, u: V): (r: Graph<V>)
    ensures r.Keys == g.Keys + {u}
    ensures forall a, b :: Edge(r, a, b) <==> Edge(g, a, b)
    ensures u in g ==> r == g
  {
    if u in g then g else g[u := []]
  }

  /** Every key is a vertex and every edge ends at a vertex. */
  ghost predicate Within<V(!new)>(g: Graph<V>, vs: set<V>) {
    g.Keys <= vs && forall u, v :: Edge(g, u, v) ==> v in vs
  }

  /** Two graphs with the same keys whose lists hold the same elements the same number of times. */
  predicate SameEdges<V>(g: Graph<V>, h: Graph<V>) {
    g.Keys == h.Keys && forall u :: u in g ==> multiset(g[u]) == multiset(h[u])
  }

  /** Reordering one adjacency list in place (Collections.sort on the stored list) keeps the edges. */
  lemma Reordered<V>(g: Graph<V>, h: Graph<V>, u: V, l: seq<V>)
    requires SameEdges(g, h) && u in h && multiset(l) == multiset(h[u])
    ensures SameEdges(g, h[u := l])
  {
  }

  /** Graphs with the same edges have the same edge relation. */
  lemma SameEdgesEdge<V>(g: Graph<V>, h: Graph<V>)
    requires SameEdges(g, h)
    ensures forall u, v :: Edge(g, u, v) <==> Edge(h, u, v)
  {
    forall u, v | u in g
      ensures v in g[u] <==> v in h[u]
    {
      assert v in g[u] <==> v in multiset(g[u]);
      assert v in h[u] <==> v in multiset(h[u]);
    }
  }

  /** Each element and the next joined by an edge. */
  predicate Linked<V>(g: Graph<V>, p: seq<V>) {
    forall i, j :: 0 <= i < |p| && j == i + 1 && j < |p| ==> Edge(g, p[i], p[j])
  }

  /** A path: one or more vertices, consecutive ones joined by edges. */
  predicate IsPath<V>(g: Graph<V>, p: seq<V>) {
    |p| >= 1 && Linked(g, p)
  }

  /** v can be reached from u by a path of zero or more edges. */
  ghost predicate Reach<V(!new)>(g: Graph<V>, u: V, v: V) {
    exists p :: IsPath(g, p) && p[0] == u && p[|p| - 1] == v
  }

  /** Some vertex reaches itself by a path of at least one edge. */
  ghost predicate HasCycle<V(!new)>(g: Graph<V>) {
    exists u, v :: Edge(g, u, v) && Reach(g, v, u)
  }

  /** u and v reach each other: they are in the same strongly connected component. */
  ghost predicate Mutual<V(!new)>(g: Graph<V>, u: V, v: V) {
    Reach(g, u, v) && Reach(g, v, u)
  }

  lemma ReachSelf<V(!new)>(g: Graph<V>, u: V)
    ensures Reach(g, u, u)
  {
    assert IsPath(g, [u]);
  }

  lemma EdgeReach<V(!new)>(g: Graph<V>, u: V, v: V)
    requires Edge(g, u, v)
    ensures Reach(g, u, v)
  {
    assert IsPath(g, [u, v]);
  }

  /** Paths compose. */
  lemma ReachTrans<V(!new)>(g: Graph<V>, u: V, v: V, w: V)
    requires Reach(g, u, v) && Reach(g, v, w)
    ensures Reach(g, u, w)
  {
    var p :| IsPath(g, p) && p[0] == u && p[|p| - 1] == v;
    var q :| IsPath(g, q) && q[0] == v && q[|q| - 1] == w;
    var r := p + q[1..];
    forall i, j | 0 <= i && j == i + 1 && j < |r|
      ensures Edge(g, r[i], r[j])
    {
      if i >= |p| - 1 {
        assert r[i] == q[i - |p| + 1] && r[j] == q[i - |p| + 2];
      } else {
        assert r[i] == p[i] && r[j] == p[j];
      }
    }
    assert IsPath(g, r) && r[0] == u && r[|r| - 1] == w;
  }

  lemma ReachStep<V(!new)>(g: Graph<V>, u: V, v: V, w: V)
    requires Reach(g, u, v) && Edge(g, v, w)
    ensures Reach(g, u, w)
  {
    EdgeReach(g, v, w);
    ReachTrans(g, u, v, w);
  }

  lemma StepReach<V(!new)>(g: Graph<V>, u: V, v: V, w: V)
    requires Edge(g, u, v) && Reach(g, v, w)
    ensures Reach(g, u, w)
  {
    EdgeReach(g, u, v);
    ReachTrans(g, u, v, w);
  }

  /** Graphs with the same edges reach the same vertices and have the same cycles. */
  lemma SameEdgesReach<V(!new)>(g: Graph<V>, h: Graph<V>)
    requires SameEdges(g, h)
    ensures forall u, v :: Reach(g, u, v) <==> Reach(h, u, v)
    ensures HasCycle(g) <==> HasCycle(h)
  {
    SameEdgesEdge(g, h);
    assert forall p :: IsPath(g, p) <==> IsPath(h, p);
  }

  /** A vertex reached from a vertex of vs is in vs. */
  lemma {:induction false} ReachWithin<V(!new)>(g: Graph<V>, vs: set<V>, p: seq<V>)
    requires Within(g, vs) && IsPath(g, p) && p[0] in vs
    ensures forall i :: 0 <= i < |p| ==> p[i] in vs
    decreases |p|
  {
    if |p| > 1 {
      ReachWithin(g, vs, p[..|p| - 1]);
      assert Edge(g, p[|p| - 2], p[|p| - 1]);
    }
  }

  /** The elements of a sequence. */
  function Elems<V(!new)>(s: seq<V>): (r: set<V>)
    ensures forall x :: x in r <==> x in s
  {
    set x | x in s
  }

  /** No element twice. */
  predicate Distinct<V(==)>(s: seq<V>) {
    forall i, j :: 0 <= i < j < |s| ==> s[i] != s[j]
  }

  /** Every vertex once, and every edge u -> v with u before v. */
  predicate IsTopological<V(!new)>(g: Graph<V>, vs: set<V>, order: seq<V>) {
    Distinct(order) && Elems(order) == vs &&
    forall i, j :: 0 <= i < |order| && 0 <= j < |order| && Edge(g, order[i], order[j]) ==> i < j
  }

  /** Along a path the positions in a topological order rise. */
  lemma {:induction false} PathRises<V(!new)>(g: Graph<V>, vs: set<V>, order: seq<V>, p: seq<V>, i: nat)
    requires Within(g, vs) && IsTopological(g, vs, order) && IsPath(g, p)
    requires i < |order| && order[i] == p[0]
    ensures exists j :: i <= j < |order| && order[j] == p[|p| - 1]
    decreases |p|
  {
    if |p| > 1 {
      assert Edge(g, p[0], p[1]);
      assert p[1] in Elems(order);
      var k :| 0 <= k < |order| && order[k] == p[1];
      PathRises(g, vs, order, p[1..], k);
    }
  }

  /** A graph with a topological order has no cycle. */
  lemma TopologicalAcyclic<V(!new)>(g: Graph<V>, vs: set<V>, order: seq<V>)
    requires Within(g, vs) && IsTopological(g, vs, order)
    ensures !HasCycle(g)
  {
    if HasCycle(g) {
      var u, v :| Edge(g, u, v) && Reach(g, v, u);
      var p :| IsPath(g, p) && p[0] == v && p[|p| - 1] == u;
      assert v in Elems(order);
      var i :| 0 <= i < |order| && order[i] == v;
      PathRises(g, vs, order, p, i);
    }
  }

  /** A sequence without repeats has as many elements as its length. */
  lemma {:induction false} DistinctCard<V(!new)>(s: seq<V>)
    requires Distinct(s)
    ensures |Elems(s)| == |s|
  {
    if |s| > 0 {
      var t := s[..|s| - 1];
      DistinctCard(t);
      assert Elems(s) == Elems(t) + {s[|s| - 1]};
      assert s[|s| - 1] !in Elems(t);
    }
  }

  lemma {:induction false} SubsetCard<V>(a: set<V>, b: set<V>)
    requires a <= b
    ensures |a| <= |b|
    decreases |a|
  {
    if a != {} {
      var x :| x in a;
      SubsetCard(a - {x}, b - {x});
    }
  }

  lemma ProperSubsetCard<V>(a: set<V>, b: set<V>)
    requires a <= b && a != b
    ensures |a| < |b|
  {
    var x :| x in b && x !in a;
    SubsetCard(a, b - {x});
  }

  /** A sequence longer than the set holding its elements repeats one. */
  lemma Repeats<V(!new)>(w: seq<V>, r: set<V>)
    requires forall k :: 0 <= k < |w| ==> w[k] in r
    requires |w| > |r|
    ensures !Distinct(w)
  {
    if Distinct(w) {
      DistinctCard(w);
      SubsetCard(Elems(w), r);
    }
  }

  /** Every vertex of r has a predecessor in r. */
  ghost predicate NoSource<V>(g: Graph<V>, r: set<V>) {
    forall v {:trigger HasPredecessor(g, r, v)} :: v in r ==> HasPredecessor(g, r, v)
  }

  ghost predicate HasPredecessor<V>(g: Graph<V>, r: set<V>, v: V) {
    exists u :: u in r && Edge(g, u, v)
  }

  /** A walk of n edges inside r that ends at v. */
  lemma {:induction false} BackWalk<V>(g: Graph<V>, r: set<V>, v: V, n: nat) returns (w: seq<V>)
    requires NoSource(g, r) && v in r
    ensures |w| == n + 1 && w[n] == v
    ensures forall k :: 0 <= k < |w| ==> w[k] in r
    ensures Linked(g, w)
  {
    if n == 0 {
      w := [v];
    } else {
      var t := BackWalk(g, r, v, n - 1);
      assert HasPredecessor(g, r, t[0]);
      var u :| u in r && Edge(g, u, t[0]);
      w := [u] + t;
      forall i, j | 0 <= i && j == i + 1 && j < |w|
        ensures Edge(g, w[i], w[j])
      {
        if i > 0 {
          assert w[i] == t[i - 1] && w[j] == t[i];
        }
      }
    }
  }

  /** A slice of a path is a path. */
  lemma SlicePath<V(!new)>(g: Graph<V>, w: seq<V>, i: nat, j: nat)
    requires i < j <= |w|
    requires Linked(g, w)
    ensures IsPath(g, w[i..j]) && Reach(g, w[i], w[j - 1])
  {
    var p := w[i..j];
    forall a, b | 0 <= a && b == a + 1 && b < |p|
      ensures Edge(g, p[a], p[b])
    {
      assert p[a] == w[i + a] && p[b] == w[i + b];
    }
    assert p[0] == w[i] && p[|p| - 1] == w[j - 1];
  }

  /** A walk extended by an edge from its last vertex is still a walk. */
  lemma LinkedSnoc<V(!new)>(g: Graph<V>, p: seq<V>, x: V)
    requires |p| > 0 && Linked(g, p) && Edge(g, p[|p| - 1], x)
    ensures Linked(g, p + [x])
  {
    var q := p + [x];
    forall a, b | 0 <= a < |q| && b == a + 1 && b < |q|
      ensures Edge(g, q[a], q[b])
    {
      if b < |p| {
        assert q[a] == p[a] && q[b] == p[b];
      }
    }
  }

  /** An edge from the end of a walk back to a vertex on it closes a cycle. */
  lemma BackEdgeCycle<V(!new)>(g: Graph<V>, p: seq<V>, x: V)
    requires |p| > 0 && Linked(g, p) && x in p && Edge(g, p[|p| - 1], x)
    ensures HasCycle(g)
  {
    var i :| 0 <= i < |p| && p[i] == x;
    SlicePath(g, p, i, |p|);
    assert Reach(g, x, p[|p| - 1]);
  }

  /** A non-empty set of vertices each with a predecessor in the set holds a cycle. */
  lemma StuckCycle<V(!new)>(g: Graph<V>, r: set<V>)
    requires r != {} && NoSource(g, r)
    ensures HasCycle(g)
  {
    var v :| v in r;
    var w := BackWalk(g, r, v, |r|);
    Repeats(w, r);
    var i, j :| 0 <= i < j < |w| && w[i] == w[j];
    SlicePath(g, w, i + 1, j + 1);
    assert Edge(g, w[i], w[i + 1]) && Reach(g, w[i + 1], w[i]);
  }

  /**
   * The number of edges into v whose source is a key listed in ks and lies
   * in s, each edge counted as often as its list names v.
   */
  ghost function Deg<V>(g: Graph<V>, ks: seq<V>, s: set<V>, v: V): nat {
    if |ks| == 0 then 0
    else
      var k := ks[|ks| - 1];
      Deg(g, ks[..|ks| - 1], s, v) + (if k in s && k in g then multiset(g[k])[v] else 0)
  }

  /** Taking u out of s removes exactly the edges of u's list. */
  lemma {:induction false} DegRemove<V>(g: Graph<V>, ks: seq<V>, s: set<V>, u: V, v: V)
    requires Distinct(ks) && u in s
    ensures Deg(g, ks, s, v) == Deg(g, ks, s - {u}, v) + (if u in ks && u in g then multiset(g[u])[v] else 0)
  {
    if |ks| > 0 {
      var t := ks[..|ks| - 1];
      DegRemove(g, t, s, u, v);
      assert u in ks <==> u in t || u == ks[|ks| - 1];
      assert ks[|ks| - 1] !in t;
    }
  }

  /** No counted edge into v: no listed source in s names v. */
  lemma {:induction false} DegZero<V>(g: Graph<V>, ks: seq<V>, s: set<V>, v: V)
    ensures Deg(g, ks, s, v) == 0 <==> forall u :: u in s && u in ks ==> !Edge(g, u, v)
  {
    if |ks| > 0 {
      var t := ks[..|ks| - 1];
      var k := ks[|ks| - 1];
      DegZero(g, t, s, v);
      assert forall u :: u in ks <==> u in t || u == k;
      if k in s && k in g {
        assert v in g[k] <==> multiset(g[k])[v] > 0;
      }
    }
  }

  /** The vertices not yet output whose predecessors have all been output. */
  ghost function Ready<V(!new)>(g: Graph<V>, vs: set<V>, done: set<V>): set<V> {
    set v | v in vs && v !in done && forall u :: Edge(g, u, v) ==> u in done
  }

  /** With ks listing the keys, a zero count of the edges from outside done means v is ready. */
  lemma ReadyDeg<V(!new)>(g: Graph<V>, vs: set<V>, ks: seq<V>, done: set<V>, v: V)
    requires Within(g, vs) && Elems(ks) == g.Keys
    requires v in vs && v !in done
    ensures v in Ready(g, vs, done) <==> Deg(g, ks, vs - done, v) == 0
  {
    DegZero(g, ks, vs - done, v);
  }

  /** Each element ready when it is output gives a topological order. */
  lemma ReadyOrderTopological<V(!new)>(g: Graph<V>, vs: set<V>, order: seq<V>)
    requires Distinct(order) && Elems(order) == vs
    requires forall i :: 0 <= i < |order| ==> order[i] in Ready(g, vs, Elems(order[..i]))
    ensures IsTopological(g, vs, order)
  {
    forall i, j | 0 <= i < |order| && 0 <= j < |order| && Edge(g, order[i], order[j])
      ensures i < j
    {
      assert order[j] in Ready(g, vs, Elems(order[..j]));
      assert order[i] in order[..j];
      var k :| 0 <= k < j && order[..j][k] == order[i];
    }
  }

  lemma DegSnoc<V>(g: Graph<V>, ks: seq<V>, s: set<V>, k: V, v: V)
    ensures Deg(g, ks + [k], s, v) == Deg(g, ks, s, v) + (if k in s && k in g then multiset(g[k])[v] else 0)
  {
    assert (ks + [k])[..|ks|] == ks;
  }

  /** for (String to : edges) inDegree.put(to, inDegree.get(to) + 1) */
  method AddCounts<V>(inDegree: map<V, int>, edges: seq<V>) returns (r: map<V, int>)
    requires forall e :: e in edges ==> e in inDegree
    ensures r.Keys == inDegree.Keys
    ensures forall v :: v in r ==> r[v] == inDegree[v] + multiset(edges)[v]
  {
    r := inDegree;
    var j := 0;
    while j < |edges|
      invariant j <= |edges| && r.Keys == inDegree.Keys
      invariant forall v :: v in r ==> r[v] == inDegree[v] + multiset(edges[..j])[v]
    {
      var to := edges[j];
      MultisetSnoc(edges, j);
      r := r[to := r[to] + 1];
      j := j + 1;
    }
    assert edges[..j] == edges;
  }

  lemma MultisetSnoc<V>(s: seq<V>, j: nat)
    requires j < |s|
    ensures multiset(s[..j + 1]) == multiset(s[..j]) + multiset{s[j]}
  {
    assert s[..j + 1] == s[..j] + [s[j]];
  }

  /** for (String vertex : vertices) inDegree.put(vertex, 0) */
  method Zeros<V(!new)>(vs: set<V>) returns (inDegree: map<V, int>)
    ensures inDegree.Keys == vs
    ensures forall v :: v in inDegree ==> inDegree[v] == 0
  {
    inDegree := map[];
    var rest := vs;
    while rest != {}
      invariant rest <= vs
      invariant inDegree.Keys == vs - rest
      invariant forall v :: v in inDegree ==> inDegree[v] == 0
      decreases |rest|
    {
      var v :| v in rest;
      inDegree := inDegree[v := 0];
      rest := rest - {v};
    }
  }

  /**
   * The in-degree count both Kahn methods start with: each vertex of vs
   * mapped to the number of edges into it, counted with multiplicity over
   * the keys in the order ks the HashMap happens to list them.
   */
  method InDegrees<V(!new)>(g: Graph<V>, vs: set<V>) returns (inDegree: map<V, int>, ghost ks: seq<V>)
    requires Within(g, vs)
    ensures Distinct(ks) && Elems(ks) == g.Keys
    ensures inDegree.Keys == vs
    ensures forall v :: v in vs ==> inDegree[v] == Deg(g, ks, vs, v)
  {
    inDegree := Zeros(vs);
    ks := [];
    var keys := g.Keys;
    while keys != {}
      invariant keys <= g.Keys
      invariant Distinct(ks) && forall x :: x in ks <==> x in g && x !in keys
      invariant inDegree.Keys == vs
      invariant forall v :: v in vs ==> inDegree[v] == Deg(g, ks, vs, v)
      decreases |keys|
    {
      var k :| k in keys;
      assert forall e :: e in g[k] ==> Edge(g, k, e);
      inDegree := AddCounts(inDegree, g[k]);
      forall v | v in vs
        ensures inDegree[v] == Deg(g, ks + [k], vs, v)
      {
        DegSnoc(g, ks, vs, k, v);
      }
      ks := ks + [k];
      keys := keys - {k};
    }
    assert Elems(ks) == g.Keys;
  }

  // ----- depth-first postorder -----

  /** Collections.reverse: the same elements, last first. */
  function Reversed<V>(s: seq<V>): (r: seq<V>)
    ensures |r| == |s| && forall i :: 0 <= i < |s| ==> r[i] == s[|s| - 1 - i]
  {
    if |s| == 0 then [] else [s[|s| - 1]] + Reversed(s[..|s| - 1])
  }

  /** Appending an element not yet present keeps the elements distinct. */
  lemma DistinctSnoc<V(!new)>(s: seq<V>, x: V)
    requires Distinct(s) && x !in s
    ensures Distinct(s + [x]) && Elems(s + [x]) == Elems(s) + {x}
  {
  }

  /** Every successor of an element appears before it: the order in which a depth-first search finishes vertices. */
  ghost predicate FinishedClosed<V(!new)>(g: Graph<V>, s: seq<V>) {
    forall i, w :: 0 <= i < |s| && Edge(g, s[i], w) ==> w in s[..i]
  }

  /** Reversing keeps the elements, and keeps them distinct. */
  lemma ReversedElems<V(!new)>(s: seq<V>)
    ensures Elems(Reversed(s)) == Elems(s)
    ensures Distinct(s) ==> Distinct(Reversed(s))
  {
    var r := Reversed(s);
    var n := |s|;
    forall x | x in s
      ensures x in r
    {
      var i :| 0 <= i < n && s[i] == x;
      assert r[n - 1 - i] == x;
    }
    if Distinct(s) {
      forall a, b | 0 <= a < b < n
        ensures r[a] != r[b]
      {
        assert r[a] == s[n - 1 - a] && r[b] == s[n - 1 - b];
      }
    }
  }

  /** In a finishing order without repeats every edge goes back to an earlier position. */
  lemma PostorderBack<V(!new)>(g: Graph<V>, s: seq<V>, i: nat, j: nat)
    requires Distinct(s) && FinishedClosed(g, s)
    requires i < |s| && j < |s| && Edge(g, s[i], s[j])
    ensures j < i
  {
    assert s[j] in s[..i];
    var k :| 0 <= k < i && s[..i][k] == s[j];
  }

  /** A finishing order without repeats, reversed, is a topological order of its elements. */
  lemma PostorderReversed<V(!new)>(g: Graph<V>, s: seq<V>)
    requires Distinct(s) && FinishedClosed(g, s)
    ensures IsTopological(g, Elems(s), Reversed(s))
  {
    var r := Reversed(s);
    var n := |s|;
    ReversedElems(s);
    forall a, b | 0 <= a < n && 0 <= b < n && Edge(g, r[a], r[b])
      ensures a < b
    {
      var i, j := n - 1 - a, n - 1 - b;
      assert r[a] == s[i] && r[b] == s[j];
      PostorderBack(g, s, i, j);
    }
  }

  /** Appending a vertex all of whose successors are already finished keeps the order closed. */
  lemma FinishedSnoc<V(!new)>(g: Graph<V>, s: seq<V>, x: V)
    requires FinishedClosed(g, s)
    requires forall w :: Edge(g, x, w) ==> w in s
    ensures FinishedClosed(g, s + [x])
  {
    var t := s + [x];
    forall i, w | 0 <= i < |t| && Edge(g, t[i], w)
      ensures w in t[..i]
    {
      if i < |s| {
        assert t[..i] == s[..i];
      } else {
        assert t[..i] == s;
      }
    }
  }

  /** Lists reordered in place describe a graph with the same vertices inside vs. */
  lemma SameEdgesWithin<V(!new)>(g: Graph<V>, h: Graph<V>, vs: set<V>)
    requires SameEdges(g, h) && Within(g, vs)
    ensures Within(h, vs)
  {
    SameEdgesEdge(g, h);
  }

  // ----- Kahn's algorithm, one vertex at a time -----

  /** Every predecessor of a vertex of done is in done. */
  ghost predicate PredClosed<V(!new)>(g: Graph<V>, done: set<V>) {
    forall u, v :: v in done && Edge(g, u, v) ==> u in done
  }

  /**
   * Taking a ready vertex out of the queue: the queued vertices have count
   * zero, and every successor of the taken vertex is a vertex not yet output
   * whose count is at least the number of edges to it from the taken vertex.
   */
  lemma KahnTake<V(!new)>(g: Graph<V>, vs: set<V>, ks: seq<V>, done: set<V>, inDegree: map<V, int>, current: V)
    requires Within(g, vs) && Distinct(ks) && Elems(ks) == g.Keys
    requires done <= vs && PredClosed(g, done)
    requires inDegree.Keys == vs
    requires forall v :: v in vs && v !in done ==> inDegree[v] == Deg(g, ks, vs - done, v)
    requires current in Ready(g, vs, done)
    ensures forall v :: v in Ready(g, vs, done) ==> inDegree[v] == 0
    ensures current in g ==> forall v :: v in g[current] ==>
      v in vs && v !in done + {current} && inDegree[v] >= multiset(g[current])[v]
    ensures PredClosed(g, done + {current})
  {
    forall v | v in Ready(g, vs, done)
      ensures inDegree[v] == 0
    {
      ReadyDeg(g, vs, ks, done, v);
    }
    if current in g {
      forall v | v in g[current]
        ensures v in vs && v !in done + {current} && inDegree[v] >= multiset(g[current])[v]
      {
        assert Edge(g, current, v);
        assert v != current && v !in done;
        DegRemove(g, ks, vs - done, current, v);
        assert vs - done - {current} == vs - (done + {current});
      }
    }
  }

  /**
   * After the successors' counts are lowered: each count is again the number
   * of edges from vertices not yet output, and the queue holds exactly the
   * ready vertices.
   */
  lemma KahnRelease<V(!new)>(g: Graph<V>, vs: set<V>, ks: seq<V>, done: set<V>, inDegree: map<V, int>,
                              current: V, nbrs: seq<V>, degrees: map<V, int>, q: set<V>)
    requires Within(g, vs) && Distinct(ks) && Elems(ks) == g.Keys
    requires done <= vs && current in Ready(g, vs, done)
    requires inDegree.Keys == vs
    requires forall v :: v in vs && v !in done ==> inDegree[v] == Deg(g, ks, vs - done, v)
    requires multiset(nbrs) == if current in g then multiset(g[current]) else multiset{}
    requires forall v :: v in nbrs ==> v in vs && v !in done + {current}
    requires degrees.Keys == vs
    requires forall v :: v in degrees ==> degrees[v] == inDegree[v] - multiset(nbrs)[v]
    requires forall v :: v in q <==> (v in Ready(g, vs, done) && v != current) || (v in nbrs && degrees[v] == 0)
    ensures forall v :: v in vs && v !in done + {current} ==> degrees[v] == Deg(g, ks, vs - (done + {current}), v)
    ensures q == Ready(g, vs, done + {current})
  {
    var done' := done + {current};
    assert vs - done - {current} == vs - done';
    forall v | v in vs && v !in done'
      ensures degrees[v] == Deg(g, ks, vs - done', v)
    {
      DegRemove(g, ks, vs - done, current, v);
    }
    forall v | v in q
      ensures v in Ready(g, vs, done')
    {
      if v in nbrs {
        assert v in multiset(nbrs);
        assert Edge(g, current, v);
      }
      ReadyDeg(g, vs, ks, done', v);
      ReadyDeg(g, vs, ks, done, v);
    }
    forall v | v in Ready(g, vs, done')
      ensures v in q
    {
      ReadyDeg(g, vs, ks, done', v);
      ReadyDeg(g, vs, ks, done, v);
      if v !in nbrs {
        assert multiset(nbrs)[v] == 0;
      }
    }
  }

  /** When no vertex is ready any more but some are not output, those left over hold a cycle. */
  lemma KahnStuck<V(!new)>(g: Graph<V>, vs: set<V>, done: set<V>)
    requires Within(g, vs) && done <= vs && done != vs && Ready(g, vs, done) == {}
    ensures HasCycle(g)
  {
    var r := vs - done;
    assert !(vs <= done);
    var x :| x in vs && x !in done;
    assert x in r;
    forall v | v in r
      ensures HasPredecessor(g, r, v)
    {
      assert v !in Ready(g, vs, done);
      var u :| Edge(g, u, v) && u !in done;
      assert u in r;
    }
    StuckCycle(g, r);
  }

  /**
   * When no vertex is ready any more: if every vertex was output, the output
   * is a topological order; otherwise the vertices left over hold a cycle.
   * The output is as long as the vertex list exactly when every vertex was output.
   */
  lemma KahnFinish<V(!new)>(g: Graph<V>, vs: set<V>, vlist: seq<V>, done: set<V>, order: seq<V>)
    requires Within(g, vs) && Distinct(vlist) && Elems(vlist) == vs
    requires done <= vs && Ready(g, vs, done) == {}
    requires Distinct(order) && Elems(order) == done
    requires forall i :: 0 <= i < |order| ==> order[i] in Ready(g, vs, Elems(order[..i]))
    ensures |order| == |vlist| <==> done == vs
    ensures done == vs ==> IsTopological(g, vs, order) && !HasCycle(g)
    ensures done != vs ==> HasCycle(g)
  {
    DistinctCard(order);
    DistinctCard(vlist);
    if done == vs {
      ReadyOrderTopological(g, vs, order);
      TopologicalAcyclic(g, vs, order);
    } else {
      ProperSubsetCard(done, vs);
      KahnStuck(g, vs, done);
    }
  }

  /** Each vertex of the order was ready when it was output. */
  ghost predicate ReadyOrder<V(!new)>(g: Graph<V>, vs: set<V>, order: seq<V>) {
    forall i :: 0 <= i < |order| ==> order[i] in Ready(g, vs, Elems(order[..i]))
  }

  /** Outputting a ready vertex keeps the order ready-first. */
  lemma ReadyOrderSnoc<V(!new)>(g: Graph<V>, vs: set<V>, order: seq<V>, x: V)
    requires ReadyOrder(g, vs, order) && x in Ready(g, vs, Elems(order))
    ensures ReadyOrder(g, vs, order + [x])
  {
    var t := order + [x];
    forall i | 0 <= i < |t|
      ensures t[i] in Ready(g, vs, Elems(t[..i]))
    {
      if i < |order| {
        assert t[..i] == order[..i];
      } else {
        assert t[..i] == order;
      }
    }
  }

  /**
   * When no vertex is ready any more, the number of vertices output equals
   * the number of vertices exactly when the graph has no cycle.
   */
  lemma KahnCount<V(!new)>(g: Graph<V>, vs: set<V>, done: set<V>, order: seq<V>)
    requires Within(g, vs) && done <= vs && Ready(g, vs, done) == {}
    requires Distinct(order) && Elems(order) == done && ReadyOrder(g, vs, order)
    ensures |order| == |vs| <==> !HasCycle(g)
  {
    DistinctCard(order);
    if done == vs {
      ReadyOrderTopological(g, vs, order);
      TopologicalAcyclic(g, vs, order);
    } else {
      ProperSubsetCard(done, vs);
      KahnStuck(g, vs, done);
    }
  }

  /** Polling the head of a queue without repeats leaves the other elements. */
  lemma DistinctTail<V(!new)>(q: seq<V>)
    requires Distinct(q) && |q| > 0
    ensures Distinct(q[1..]) && Elems(q[1..]) == Elems(q) - {q[0]}
  {
    forall w | w in q && w != q[0]
      ensures w in q[1..]
    {
      var i :| 0 <= i < |q| && q[i] == w;
      assert q[1..][i - 1] == w;
    }
  }

  /** No element twice exactly when the multiset counts no element twice. */
  lemma {:induction false} DistinctCount<V>(s: seq<V>)
    ensures Distinct(s) <==> forall x :: multiset(s)[x] <= 1
  {
    if |s| > 0 {
      var t, y := s[..|s| - 1], s[|s| - 1];
      assert s == t + [y];
      DistinctCount(t);
      assert multiset(s) == multiset(t) + multiset{y};
      if Distinct(s) {
        assert Distinct(t) by {
          forall i, j | 0 <= i < j < |t|
            ensures t[i] != t[j]
          {
            assert t[i] == s[i] && t[j] == s[j];
          }
        }
        forall i | 0 <= i < |t|
          ensures t[i] != y
        {
          assert t[i] == s[i];
        }
        assert multiset(t)[y] == 0;
      } else {
        var i, j :| 0 <= i < j < |s| && s[i] == s[j];
        if j < |s| - 1 {
          assert t[i] == t[j];
          assert !Distinct(t);
          var x :| multiset(t)[x] > 1;
          assert multiset(s)[x] > 1;
        } else {
          assert t[i] == y;
          assert y in multiset(t);
          assert multiset(s)[y] == multiset(t)[y] + 1;
        }
      }
    }
  }

  /** A permutation of a sequence without repeats has none. */
  lemma PermDistinct<V>(s: seq<V>, t: seq<V>)
    requires multiset(s) == multiset(t) && Distinct(s)
    ensures Distinct(t)
  {
    DistinctCount(s);
    DistinctCount(t);
  }
}
