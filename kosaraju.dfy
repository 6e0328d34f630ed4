/**
 * Why the two depth-first passes of Kosaraju's algorithm find the strongly
 * connected components, stated over the sequences the passes build.
 *
 * The first pass finishes vertices in an order fin while the vertices of
 * the current search path are still open. Those open vertices will finish in
 * the reverse of the path's order, so fin + Reversed(path) is the order in
 * which everything visited so far will have finished. The invariant kept is
 * Claims: a finished vertex that reaches some vertex of that order shares a
 * component with that vertex or with one finishing later. Once the search is
 * over this says that the component of any vertex finishes, at its latest
 * vertex, no earlier than anything the vertex reaches.
 *
 * The second pass takes the vertices latest-finished first. The visited
 * vertices are then exactly those sharing a component with a vertex already
 * taken (ClaimedSet), and an unvisited vertex reaching the one just taken is
 * in its component, so the backwards search from it collects that component.
 */
module Kosaraju {
  import opened Digraph

  /** rg holds the edges of g turned around. */
  ghost predicate IsReverse<V(!new)>(g: Graph<V>, rg: Graph<V>) {
    forall a, b :: Edge(rg, a, b) <==> Edge(g, b, a)
  }
  /** Adding an edge to a graph and its reverse to the reversed graph keeps them reverses, within the vertices grown by its ends. */
  lemma EdgeKeepsReverse<V(!new)>(g: Graph<V>, rg: Graph<V>, vs: set<V>, u: V, v: V)
    requires Within(g, vs) && Within(rg, vs) && IsReverse(g, rg)
    ensures Within(WithEdge(g, u, v), vs + {u, v}) && Within(WithEdge(rg, v, u), vs + {u, v})
    ensures IsReverse(WithEdge(g, u, v), WithEdge(rg, v, u))
  {
  }


  lemma MutualTrans<V(!new)>(g: Graph<V>, a: V, b: V, c: V)
    requires Mutual(g, a, b) && Mutual(g, b, c)
    ensures Mutual(g, a, c)
  {
    ReachTrans(g, a, b, c);
    ReachTrans(g, c, b, a);
  }

  // ----- the first pass -----

  /** Every successor of a finished vertex is finished or on the search path. */
  ghost predicate FinishedEdges<V(!new)>(g: Graph<V>, fin: seq<V>, path: seq<V>) {
    forall i, w :: 0 <= i < |fin| && Edge(g, fin[i], w) ==> w in fin || w in path
  }

  /**
   * Reach under a name of its own, so that Claims is used only where a
   * proof names the pair it is about.
   */
  ghost predicate Leads<V(!new)>(g: Graph<V>, u: V, v: V) {
    Reach(g, u, v)
  }

  /**
   * Each of the first n vertices of e that reaches a vertex of e shares a
   * component with that vertex or with one after it.
   */
  ghost predicate Claims<V(!new)>(g: Graph<V>, e: seq<V>, n: nat) {
    n <= |e| &&
    forall i, j {:trigger Leads(g, e[i], e[j])} :: 0 <= i < n && 0 <= j < |e| && Leads(g, e[i], e[j]) ==>
      exists k :: j <= k < |e| && Mutual(g, e[i], e[k])
  }

  /** Claims over the finished vertices followed by the open ones, deepest first. */
  ghost predicate Settled<V(!new)>(g: Graph<V>, fin: seq<V>, path: seq<V>) {
    Claims(g, fin + Reversed(path), |fin|)
  }

  lemma ReversedSnoc<V>(s: seq<V>, y: V)
    ensures Reversed(s + [y]) == [y] + Reversed(s)
  {
    assert (s + [y])[..|s|] == s;
  }

  /** A walk that starts inside a set and ends outside it crosses out of it at some step. */
  lemma {:induction false} FirstOut<V>(p: seq<V>, s: seq<V>) returns (i: nat)
    requires |p| > 0 && p[0] in s && p[|p| - 1] !in s
    ensures 0 < i < |p| && p[i - 1] in s && p[i] !in s
    decreases |p|
  {
    if p[1] !in s {
      i := 1;
    } else {
      var i' := FirstOut(p[1..], s);
      i := i' + 1;
    }
  }

  /**
   * A finished vertex reaching a vertex that is not finished reaches a
   * vertex of the search path: the walk leaves the finished vertices
   * through an edge, which ends on the path.
   */
  lemma Exit<V(!new)>(g: Graph<V>, fin: seq<V>, path: seq<V>, u: V, y: V) returns (m: nat)
    requires u in fin && y !in fin && FinishedEdges(g, fin, path) && Reach(g, u, y)
    ensures m < |path| && Reach(g, u, path[m])
  {
    var p :| IsPath(g, p) && p[0] == u && p[|p| - 1] == y;
    var i := FirstOut(p, fin);
    assert Edge(g, p[i - 1], p[i]);
    var a :| 0 <= a < |fin| && fin[a] == p[i - 1];
    assert p[i] in path;
    m :| 0 <= m < |path| && path[m] == p[i];
    SlicePath(g, p, 0, i + 1);
  }

  /** Inserting a vertex at position n keeps Claims when each vertex before n reaching it is claimed from position n on. */
  lemma ClaimsInsert<V(!new)>(g: Graph<V>, e: seq<V>, n: nat, y: V)
    requires Claims(g, e, n)
    requires forall i :: 0 <= i < n && Reach(g, e[i], y) ==> exists k :: n <= k < |e| && Mutual(g, e[i], e[k])
    ensures Claims(g, e[..n] + [y] + e[n..], n)
  {
    var e' := e[..n] + [y] + e[n..];
    forall i, j | 0 <= i < n && 0 <= j < |e'| && Leads(g, e'[i], e'[j])
      ensures exists k :: j <= k < |e'| && Mutual(g, e'[i], e'[k])
    {
      assert e'[i] == e[i];
      if j < n {
        assert e'[j] == e[j];
        assert Leads(g, e[i], e[j]);
        var k :| j <= k < |e| && Mutual(g, e[i], e[k]);
        var k' := if k < n then k else k + 1;
        assert e'[k'] == e[k];
      } else if j == n {
        var k :| n <= k < |e| && Mutual(g, e[i], e[k]);
        assert e'[k + 1] == e[k];
      } else {
        assert e'[j] == e[j - 1];
        assert Leads(g, e[i], e[j - 1]);
        var k :| j - 1 <= k < |e| && Mutual(g, e[i], e[k]);
        assert e'[k + 1] == e[k];
      }
    }
  }

  /** Opening a vertex that is not finished keeps the invariant. */
  lemma SettledPush<V(!new)>(g: Graph<V>, fin: seq<V>, path: seq<V>, y: V)
    requires Settled(g, fin, path) && FinishedEdges(g, fin, path) && y !in fin
    ensures Settled(g, fin, path + [y]) && FinishedEdges(g, fin, path + [y])
  {
    var e := fin + Reversed(path);
    var n := |fin|;
    ReversedSnoc(path, y);
    assert fin + Reversed(path + [y]) == e[..n] + [y] + e[n..];
    forall i | 0 <= i < n && Reach(g, e[i], y)
      ensures exists k :: n <= k < |e| && Mutual(g, e[i], e[k])
    {
      assert e[i] == fin[i];
      var m := Exit(g, fin, path, fin[i], y);
      var j := n + |path| - 1 - m;
      assert e[j] == path[m];
      assert Leads(g, e[i], e[j]);
      var k :| j <= k < |e| && Mutual(g, e[i], e[k]);
    }
    ClaimsInsert(g, e, n, y);
  }

  /**
   * Finishing the deepest open vertex keeps the invariant: the order of
   * what will have finished does not change, and the vertex shares a
   * component with every open vertex it reaches, since each of those
   * reaches it along the path.
   */
  lemma SettledFinish<V(!new)>(g: Graph<V>, fin: seq<V>, path: seq<V>)
    requires |path| > 0 && Linked(g, path) && Settled(g, fin, path)
    ensures Settled(g, fin + [path[|path| - 1]], path[..|path| - 1])
  {
    var x := path[|path| - 1];
    var front := path[..|path| - 1];
    var e := fin + Reversed(path);
    var n := |fin|;
    assert Reversed(path) == [x] + Reversed(front);
    assert (fin + [x]) + Reversed(front) == e;
    assert e[n] == x;
    forall i, j | 0 <= i < n + 1 && 0 <= j < |e| && Leads(g, e[i], e[j])
      ensures exists k :: j <= k < |e| && Mutual(g, e[i], e[k])
    {
      if i == n {
        if j <= n {
          ReachSelf(g, x);
          assert Mutual(g, e[i], e[n]);
        } else {
          var m := |path| - 1 - (j - n);
          assert e[j] == path[m];
          SlicePath(g, path, m, |path|);
          assert Mutual(g, e[i], e[j]);
        }
      }
    }
  }

  /** Finishing a vertex all of whose successors are visited keeps finished edges inside the visited vertices. */
  lemma FinishedEdgesFinish<V(!new)>(g: Graph<V>, fin: seq<V>, path: seq<V>)
    requires |path| > 0 && FinishedEdges(g, fin, path)
    requires forall w :: Edge(g, path[|path| - 1], w) ==> w in fin || w in path
    ensures FinishedEdges(g, fin + [path[|path| - 1]], path[..|path| - 1])
  {
    var x := path[|path| - 1];
    var front := path[..|path| - 1];
    assert path == front + [x];
    var t := fin + [x];
    forall i, w | 0 <= i < |t| && Edge(g, t[i], w)
      ensures w in t || w in front
    {
      if i < |fin| {
        assert t[i] == fin[i];
      }
    }
  }
  /**
   * The state of the first pass while a search is on the call chain path:
   * the visited vertices are those finished (in fin) and those on the path.
   */
  ghost predicate Searching<V(!new)>(g: Graph<V>, vs: set<V>, visited: set<V>, fin: seq<V>, path: seq<V>) {
    visited <= vs && visited == Elems(fin) + Elems(path) && Distinct(fin) && Elems(fin) !! Elems(path)
    && FinishedEdges(g, fin, path) && Settled(g, fin, path)
  }

  /** A vertex not yet visited starts its search: it is visited and joins the path. */
  lemma EnterVisit<V(!new)>(g: Graph<V>, vs: set<V>, visited: set<V>, fin: seq<V>, path: seq<V>, x: V)
    requires Searching(g, vs, visited, fin, path) && x in vs && x !in visited
    ensures Searching(g, vs, visited + {x}, fin, path + [x])
  {
    assert Elems(path + [x]) == Elems(path) + {x};
    SettledPush(g, fin, path, x);
  }

  /** A search whose successors are all visited finishes: its vertex moves from the path to the end of the finish order. */
  lemma LeaveVisit<V(!new)>(g: Graph<V>, vs: set<V>, visited: set<V>, fin: seq<V>, front: seq<V>, x: V)
    requires Linked(g, front + [x]) && x !in front && Searching(g, vs, visited, fin, front + [x])
    requires forall w :: Edge(g, x, w) ==> w in visited
    ensures Searching(g, vs, visited, fin + [x], front)
  {
    var path := front + [x];
    assert path[|path| - 1] == x && path[..|path| - 1] == front;
    assert x in Elems(path) && Elems(path) == Elems(front) + {x};
    FinishedEdgesFinish(g, fin, path);
    SettledFinish(g, fin, path);
    DistinctSnoc(fin, x);
  }



  // ----- the second pass -----

  /** The strongly connected component of r among the vertices vs. */
  ghost function SccOf<V(!new)>(g: Graph<V>, vs: set<V>, r: V): (c: set<V>)
    ensures c <= vs
    ensures forall x :: x in c <==> x in vs && Mutual(g, x, r)
  {
    set x | x in vs && Mutual(g, x, r)
  }

  /** The vertices sharing a component with one of fin[i..]: those visited once fin[i..] are taken. */
  ghost function ClaimedSet<V(!new)>(g: Graph<V>, vs: set<V>, fin: seq<V>, i: nat): set<V> {
    set x | x in vs && exists k :: i <= k < |fin| && Mutual(g, x, fin[k])
  }

  /** Nothing is claimed before any vertex is taken, everything once all are. */
  lemma ClaimedEnds<V(!new)>(g: Graph<V>, vs: set<V>, fin: seq<V>)
    requires Elems(fin) == vs
    ensures ClaimedSet(g, vs, fin, |fin|) == {}
    ensures ClaimedSet(g, vs, fin, 0) == vs
  {
    forall x | x in vs
      ensures x in ClaimedSet(g, vs, fin, 0)
    {
      var k :| 0 <= k < |fin| && fin[k] == x;
      ReachSelf(g, x);
      assert Mutual(g, x, fin[k]);
    }
  }

  /** Taking a vertex already visited claims nothing new. */
  lemma PopClaimed<V(!new)>(g: Graph<V>, vs: set<V>, fin: seq<V>, i: nat)
    requires 0 < i <= |fin| && fin[i - 1] in ClaimedSet(g, vs, fin, i)
    ensures ClaimedSet(g, vs, fin, i - 1) == ClaimedSet(g, vs, fin, i)
  {
    var r := fin[i - 1];
    var k2 :| i <= k2 < |fin| && Mutual(g, r, fin[k2]);
    forall x | x in ClaimedSet(g, vs, fin, i - 1)
      ensures x in ClaimedSet(g, vs, fin, i)
    {
      var k :| i - 1 <= k < |fin| && Mutual(g, x, fin[k]);
      if k == i - 1 {
        MutualTrans(g, x, r, fin[k2]);
      }
    }
  }

  /**
   * Taking a vertex r not yet visited: its component is disjoint from the
   * visited vertices and is what the step claims, and every unvisited vertex
   * reaching r belongs to it.
   */
  lemma PopFresh<V(!new)>(g: Graph<V>, vs: set<V>, fin: seq<V>, i: nat)
    requires Elems(fin) == vs && Claims(g, fin, |fin|)
    requires 0 < i <= |fin| && fin[i - 1] !in ClaimedSet(g, vs, fin, i)
    ensures SccOf(g, vs, fin[i - 1]) !! ClaimedSet(g, vs, fin, i)
    ensures ClaimedSet(g, vs, fin, i - 1) == ClaimedSet(g, vs, fin, i) + SccOf(g, vs, fin[i - 1])
    ensures forall x :: x in vs && x !in ClaimedSet(g, vs, fin, i) && Reach(g, x, fin[i - 1]) ==>
      x in SccOf(g, vs, fin[i - 1])
  {
    var r := fin[i - 1];
    var claimed := ClaimedSet(g, vs, fin, i);
    forall x | x in SccOf(g, vs, r) && x in claimed
      ensures false
    {
      var k :| i <= k < |fin| && Mutual(g, x, fin[k]);
      MutualTrans(g, r, x, fin[k]);
    }
    forall x | x in ClaimedSet(g, vs, fin, i - 1)
      ensures x in claimed + SccOf(g, vs, r)
    {
      var k :| i - 1 <= k < |fin| && Mutual(g, x, fin[k]);
      if k == i - 1 {
        assert x in SccOf(g, vs, r);
      }
    }
    forall x | x in SccOf(g, vs, r)
      ensures x in ClaimedSet(g, vs, fin, i - 1)
    {
      assert Mutual(g, x, fin[i - 1]);
    }
    forall x | x in vs && x !in claimed && Reach(g, x, r)
      ensures x in SccOf(g, vs, r)
    {
      var a :| 0 <= a < |fin| && fin[a] == x;
      assert Leads(g, fin[a], fin[i - 1]);
      var k :| i - 1 <= k < |fin| && Mutual(g, fin[a], fin[k]);
    }
  }

  /**
   * With r's component absorbing every unvisited vertex that reaches r, a
   * reversed edge out of the component to an unvisited vertex stays in it.
   */
  lemma SccClosed<V(!new)>(g: Graph<V>, rg: Graph<V>, vs: set<V>, visited: set<V>, r: V)
    requires IsReverse(g, rg) && Within(g, vs)
    requires forall x :: x in vs && x !in visited && Reach(g, x, r) ==> x in SccOf(g, vs, r)
    ensures forall y, x :: y in SccOf(g, vs, r) && Edge(rg, y, x) && x !in visited ==> x in SccOf(g, vs, r)
  {
    forall y, x | y in SccOf(g, vs, r) && Edge(rg, y, x) && x !in visited
      ensures x in SccOf(g, vs, r)
    {
      assert Edge(g, x, y);
      StepReach(g, x, y, r);
    }
  }

  /** Along a walk whose vertices avoid visited, a set closed under reversed edges that holds the end holds every vertex. */
  lemma {:induction false} BackIn<V(!new)>(g: Graph<V>, rg: Graph<V>, visited: set<V>, t: set<V>, p: seq<V>, k: nat)
    requires IsReverse(g, rg) && Linked(g, p) && k < |p| && p[|p| - 1] in t
    requires forall y, x :: y in t && Edge(rg, y, x) ==> x in visited || x in t
    requires forall m :: k <= m < |p| ==> p[m] !in visited
    ensures p[k] in t
    decreases |p| - k
  {
    if k < |p| - 1 {
      BackIn(g, rg, visited, t, p, k + 1);
      assert Edge(g, p[k], p[k + 1]);
      assert Edge(rg, p[k + 1], p[k]);
    }
  }

  /**
   * A backwards search from r that stops only at visited vertices, and
   * leaves every reversed edge out of what it collected ending at a visited
   * or collected vertex, collected all of r's component.
   */
  lemma Collected<V(!new)>(g: Graph<V>, rg: Graph<V>, vs: set<V>, visited: set<V>, r: V, t: set<V>)
    requires IsReverse(g, rg) && Within(g, vs) && r in t
    requires SccOf(g, vs, r) !! visited
    requires forall y, x :: y in t && Edge(rg, y, x) ==> x in visited || x in t
    ensures SccOf(g, vs, r) <= t
  {
    forall s | s in SccOf(g, vs, r)
      ensures s in t
    {
      var p :| IsPath(g, p) && p[0] == s && p[|p| - 1] == r;
      ReachWithin(g, vs, p);
      forall m | 0 <= m < |p|
        ensures p[m] !in visited
      {
        SlicePath(g, p, m, |p|);
        SlicePath(g, p, 0, m + 1);
        ReachTrans(g, r, s, p[m]);
        assert p[m] in SccOf(g, vs, r);
      }
      BackIn(g, rg, visited, t, p, 0);
    }
  }

  /** Two components are equal or disjoint. */
  lemma SccDisjoint<V(!new)>(g: Graph<V>, vs: set<V>, a: V, b: V)
    requires SccOf(g, vs, a) != SccOf(g, vs, b)
    ensures SccOf(g, vs, a) !! SccOf(g, vs, b)
  {
    forall x | x in SccOf(g, vs, a) && x in SccOf(g, vs, b)
      ensures false
    {
      forall y | y in SccOf(g, vs, a)
        ensures y in SccOf(g, vs, b)
      {
        MutualTrans(g, x, a, y);
        MutualTrans(g, y, x, b);
      }
      forall y | y in SccOf(g, vs, b)
        ensures y in SccOf(g, vs, a)
      {
        MutualTrans(g, x, b, y);
        MutualTrans(g, y, x, a);
      }
    }
  }

  /** Every vertex of a component has that component as its own. */
  lemma SccOfMember<V(!new)>(g: Graph<V>, vs: set<V>, r: V, x: V)
    requires x in SccOf(g, vs, r)
    ensures SccOf(g, vs, x) == SccOf(g, vs, r)
  {
    forall y | y in SccOf(g, vs, x)
      ensures y in SccOf(g, vs, r)
    {
      MutualTrans(g, y, x, r);
    }
    forall y | y in SccOf(g, vs, r)
      ensures y in SccOf(g, vs, x)
    {
      assert Mutual(g, r, x);
      MutualTrans(g, y, r, x);
    }
  }
}
