/**
 * Entry sequences of binary search trees keyed by Java Integers and holding
 * Java Strings: the map an in-order sequence denotes, strict key order, and
 * how both behave when a sequence is cut around one entry. The tree maps of
 * lesson12 describe their content through these.
 */
module SearchTree {
  import opened Common

  /** A Java String that may be null. */
  type Value = Option<string>

  /** A sequence of entries as a map; a later entry wins over an earlier one. */
  ghost function MapOf(s: seq<(int, Value)>): map<int, Value> {
    if |s| == 0 then map[] else MapOf(s[..|s| - 1])[s[|s| - 1].0 := s[|s| - 1].1]
  }

  /** Keys strictly increasing. */
  ghost predicate SortedKeys(s: seq<(int, Value)>) {
    forall i, j :: 0 <= i < j < |s| ==> s[i].0 < s[j].0
  }

  lemma {:induction false} MapOfAppend(a: seq<(int, Value)>, b: seq<(int, Value)>)
    ensures MapOf(a + b) == MapOf(a) + MapOf(b)
    decreases |b|
  {
    if |b| > 0 {
      var b' := b[..|b| - 1];
      assert (a + b)[..|a + b| - 1] == a + b';
      MapOfAppend(a, b');
    } else {
      assert a + b == a;
    }
  }

  lemma {:induction false} MapOfKeys(s: seq<(int, Value)>)
    ensures forall q :: q in MapOf(s) <==> exists i :: 0 <= i < |s| && s[i].0 == q
  {
    if |s| > 0 {
      MapOfKeys(s[..|s| - 1]);
    }
  }

  /** Taking a present key out of a map shrinks it by one; putting a new key in grows it by one. */
  lemma RemoveCard(m: map<int, Value>, k: int)
    requires k in m
    ensures |m - {k}| == |m| - 1
  {
    assert m.Keys == (m - {k}).Keys + {k};
  }

  lemma AddCard(m: map<int, Value>, k: int, v: Value)
    requires k !in m
    ensures |m[k := v]| == |m| + 1
  {
    assert m[k := v].Keys == m.Keys + {k};
  }

  /** The keys of the entries of s are the keys of its map. */
  lemma KeySetOf(s: seq<(int, Value)>)
    ensures (set i | 0 <= i < |s| :: s[i].0) == MapOf(s).Keys
  {
    MapOfKeys(s);
    var ks := set i | 0 <= i < |s| :: s[i].0;
    forall q | q in MapOf(s)
      ensures q in ks
    {
      var i :| 0 <= i < |s| && s[i].0 == q;
    }
  }

  /** A sequence with increasing keys has no key twice: its map has one entry per element. */
  lemma {:induction false} SortedSize(s: seq<(int, Value)>)
    requires SortedKeys(s)
    ensures |MapOf(s)| == |s|
  {
    if |s| > 0 {
      var p := s[..|s| - 1];
      assert SortedKeys(p);
      SortedSize(p);
      MapOfKeys(p);
      assert s[|s| - 1].0 !in MapOf(p);
    }
  }

  /** Keys increasing on both sides of p, and p's key between them: the joined sequence is sorted. */
  lemma SortedJoin(a: seq<(int, Value)>, p: (int, Value), b: seq<(int, Value)>)
    requires SortedKeys(a) && SortedKeys(b)
    requires forall i :: 0 <= i < |a| ==> a[i].0 < p.0
    requires forall j :: 0 <= j < |b| ==> p.0 < b[j].0
    ensures SortedKeys(a + [p] + b)
  {
    var s := a + [p] + b;
    forall i, j | 0 <= i < j < |s|
      ensures s[i].0 < s[j].0
    {
      if j < |a| {
        assert s[i] == a[i] && s[j] == a[j];
      } else if j == |a| {
        assert s[i] == a[i] && s[j] == p;
      } else if i < |a| {
        assert s[i] == a[i] && s[j] == b[j - |a| - 1];
      } else if i == |a| {
        assert s[i] == p && s[j] == b[j - |a| - 1];
      } else {
        assert s[i] == b[i - |a| - 1] && s[j] == b[j - |a| - 1];
      }
    }
  }

  /** The parts of a sorted sequence around p are sorted, below and above p's key. */
  lemma SortedParts(a: seq<(int, Value)>, p: (int, Value), b: seq<(int, Value)>)
    requires SortedKeys(a + [p] + b)
    ensures SortedKeys(a) && SortedKeys(b)
    ensures forall i :: 0 <= i < |a| ==> a[i].0 < p.0
    ensures forall j :: 0 <= j < |b| ==> p.0 < b[j].0
  {
    var s := a + [p] + b;
    assert forall i :: 0 <= i < |a| ==> s[i] == a[i];
    assert forall j :: 0 <= j < |b| ==> s[|a| + 1 + j] == b[j];
    assert s[|a|] == p;
  }

  /** The map of a + [p] + b when p's key is not in b. */
  lemma MapOfJoin(a: seq<(int, Value)>, p: (int, Value), b: seq<(int, Value)>)
    requires p.0 !in MapOf(b)
    ensures MapOf(a + [p] + b) == (MapOf(a) + MapOf(b))[p.0 := p.1]
  {
    MapOfAppend(a + [p], b);
    MapOfAppend(a, [p]);
    assert [p][..0] == [];
  }

  /** Setting a key of the left part commutes with joining, when the right part lacks it. */
  lemma JoinSetLeft(ml: map<int, Value>, mr: map<int, Value>, k: int, v: Value, key: int, value: Value)
    requires key !in mr && key != k
    ensures (ml[key := value] + mr)[k := v] == (ml + mr)[k := v][key := value]
  {
  }

  /** Setting a key of the right part commutes with joining. */
  lemma JoinSetRight(ml: map<int, Value>, mr: map<int, Value>, k: int, v: Value, key: int, value: Value)
    requires key != k
    ensures (ml + mr[key := value])[k := v] == (ml + mr)[k := v][key := value]
  {
  }

  /** Dropping a key of the left part commutes with joining, when the right part lacks it. */
  lemma JoinDropLeft(ml: map<int, Value>, mr: map<int, Value>, k: int, v: Value, key: int)
    requires key !in mr && key != k
    ensures (ml - {key} + mr)[k := v] == (ml + mr)[k := v] - {key}
  {
  }

  /** Dropping a key of the right part commutes with joining, when the left part lacks it. */
  lemma JoinDropRight(ml: map<int, Value>, mr: map<int, Value>, k: int, v: Value, key: int)
    requires key !in ml && key != k
    ensures (ml + (mr - {key}))[k := v] == (ml + mr)[k := v] - {key}
  {
  }

  /** The successor's entry moved up to replace the root entry k. */
  lemma JoinSuccessor(ml: map<int, Value>, mr: map<int, Value>, k: int, v: Value, mk: int)
    requires k !in ml && k !in mr && mk !in ml && mk in mr
    ensures (ml + (mr - {mk}))[mk := mr[mk]] == (ml + mr)[k := v] - {k}
  {
  }

  /**
   * A binary search tree node: key, value, the two sides, and the data the
   * balancing scheme keeps per node (the height of an AVL node, the color of
   * a red-black node).
   */
  datatype Tree<A> = Nil | Node(key: int, value: Value, left: Tree<A>, right: Tree<A>, aux: A)

  /** The entries in key order, as the in-order traversal visits them. */
  function InOrder<A>(t: Tree<A>): seq<(int, Value)> {
    if t.Nil? then [] else InOrder(t.left) + [(t.key, t.value)] + InOrder(t.right)
  }

  /** The key -> value content of a tree. */
  ghost function Map<A>(t: Tree<A>): map<int, Value> {
    MapOf(InOrder(t))
  }

  /** Search-tree order: the in-order keys increase strictly. */
  ghost predicate Ordered<A>(t: Tree<A>) {
    SortedKeys(InOrder(t))
  }

  /** A node in order: both sides in order, and its key between theirs; its map joins theirs. */
  lemma NodeOrder<A>(t: Tree<A>)
    requires t.Node?
    ensures Ordered(t) <==>
      Ordered(t.left) && Ordered(t.right) &&
      (forall q :: q in Map(t.left) ==> q < t.key) && (forall q :: q in Map(t.right) ==> t.key < q)
    ensures Ordered(t) ==> Map(t) == (Map(t.left) + Map(t.right))[t.key := t.value]
  {
    var a, b := InOrder(t.left), InOrder(t.right);
    var p := (t.key, t.value);
    MapOfKeys(a);
    MapOfKeys(b);
    if Ordered(t) {
      SortedParts(a, p, b);
      MapOfJoin(a, p, b);
    }
    if Ordered(t.left) && Ordered(t.right) &&
      (forall q :: q in Map(t.left) ==> q < t.key) && (forall q :: q in Map(t.right) ==> t.key < q)
    {
      assert forall i :: 0 <= i < |a| ==> a[i].0 in Map(t.left);
      assert forall j :: 0 <= j < |b| ==> b[j].0 in Map(t.right);
      SortedJoin(a, p, b);
    }
  }

  /** findMin: the leftmost node. */
  function Leftmost<A>(t: Tree<A>): (r: Tree<A>)
    requires t.Node?
    ensures r.Node?
  {
    if t.left.Nil? then t else Leftmost(t.left)
  }

  /** The leftmost node holds the least key and its value. */
  lemma {:induction false} LeftmostIsMin<A>(t: Tree<A>)
    requires t.Node? && Ordered(t)
    ensures Leftmost(t).key in Map(t) && Map(t)[Leftmost(t).key] == Leftmost(t).value
    ensures forall q :: q in Map(t) ==> Leftmost(t).key <= q
  {
    NodeOrder(t);
    if t.left.Node? {
      LeftmostIsMin(t.left);
    }
  }

  /** The leftmost node is the first entry of the in-order sequence. */
  lemma {:induction false} LeftmostFirst<A>(t: Tree<A>)
    requires t.Node?
    ensures |InOrder(t)| > 0 && InOrder(t)[0] == (Leftmost(t).key, Leftmost(t).value)
  {
    if t.left.Node? {
      LeftmostFirst(t.left);
    }
  }

  /** The rightmost node: the end of the chain of right links. */
  function Rightmost<A>(t: Tree<A>): (r: Tree<A>)
    requires t.Node?
    ensures r.Node?
  {
    if t.right.Nil? then t else Rightmost(t.right)
  }

  /** The rightmost node holds the greatest key and its value. */
  lemma {:induction false} RightmostIsMax<A>(t: Tree<A>)
    requires t.Node? && Ordered(t)
    ensures Rightmost(t).key in Map(t) && Map(t)[Rightmost(t).key] == Rightmost(t).value
    ensures forall q :: q in Map(t) ==> q <= Rightmost(t).key
  {
    NodeOrder(t);
    if t.right.Node? {
      RightmostIsMax(t.right);
    }
  }

  /** findMin, as the loop the source runs. */
  method FindMin<A>(t: Tree<A>) returns (m: Tree<A>)
    requires t.Node?
    ensures m == Leftmost(t)
  {
    m := t;
    while m.left.Node?
      invariant m.Node? && Leftmost(m) == Leftmost(t)
      decreases m
    {
      m := m.left;
    }
  }

  /** getRecursive: the node holding key, or null. */
  function GetRec<A>(t: Tree<A>, key: int): (r: Tree<A>)
    ensures r.Node? ==> r.key == key
  {
    if t.Nil? then Nil
    else if key < t.key then GetRec(t.left, key)
    else if key > t.key then GetRec(t.right, key)
    else t
  }

  /** The search finds exactly the keys of the map, with their values. */
  lemma {:induction false} GetFinds<A>(t: Tree<A>, key: int)
    requires Ordered(t)
    ensures GetRec(t, key).Node? <==> key in Map(t)
    ensures GetRec(t, key).Node? ==> GetRec(t, key).value == Map(t)[key]
  {
    if t.Node? {
      NodeOrder(t);
      if key < t.key {
        GetFinds(t.left, key);
        assert key !in Map(t.right);
      } else if key > t.key {
        GetFinds(t.right, key);
        assert key !in Map(t.left);
      }
    }
  }

  /** A key below the root's lies in the left side, which is in order. */
  lemma KeyInLeft<A>(t: Tree<A>, key: int)
    requires t.Node? && Ordered(t) && key in Map(t) && key < t.key
    ensures Ordered(t.left) && key in Map(t.left)
  {
    NodeOrder(t);
  }

  /** A key above the root's lies in the right side, which is in order. */
  lemma KeyInRight<A>(t: Tree<A>, key: int)
    requires t.Node? && Ordered(t) && key in Map(t) && key > t.key
    ensures Ordered(t.right) && key in Map(t.right)
  {
    NodeOrder(t);
  }

  /** The roots of the two sides lie below and above the root's key. */
  lemma ChildKeys<A>(t: Tree<A>)
    requires t.Node? && Ordered(t)
    ensures t.left.Node? ==> t.left.key < t.key
    ensures t.right.Node? ==> t.key < t.right.key
  {
    NodeOrder(t);
    if t.left.Node? {
      var s := InOrder(t.left);
      assert s[|InOrder(t.left.left)|].0 == t.left.key;
      MapOfKeys(s);
      assert t.left.key in Map(t.left);
    }
    if t.right.Node? {
      var s := InOrder(t.right);
      assert s[|InOrder(t.right.left)|].0 == t.right.key;
      MapOfKeys(s);
      assert t.right.key in Map(t.right);
    }
  }

  /** A new value at the root: the node stays in order and maps its key to the new value. */
  lemma ReplaceHere<A>(t: Tree<A>, value: Value)
    requires t.Node? && Ordered(t)
    ensures Ordered(t.(value := value)) && Map(t.(value := value)) == Map(t)[t.key := value]
  {
    NodeOrder(t);
    NodeOrder(t.(value := value));
  }

  /** A left side that took key: the node stays in order and holds t's map with key set. */
  lemma SetLeft<A>(t: Tree<A>, key: int, value: Value, l: Tree<A>)
    requires t.Node? && Ordered(t) && key < t.key
    requires Ordered(l) && Map(l) == Map(t.left)[key := value]
    ensures Ordered(t.(left := l)) && Map(t.(left := l)) == Map(t)[key := value]
    ensures key in Map(t) <==> key in Map(t.left)
  {
    NodeOrder(t);
    NodeOrder(t.(left := l));
    JoinSetLeft(Map(t.left), Map(t.right), t.key, t.value, key, value);
  }

  /** A right side that took key: the mirror of SetLeft. */
  lemma SetRight<A>(t: Tree<A>, key: int, value: Value, rt: Tree<A>)
    requires t.Node? && Ordered(t) && key > t.key
    requires Ordered(rt) && Map(rt) == Map(t.right)[key := value]
    ensures Ordered(t.(right := rt)) && Map(t.(right := rt)) == Map(t)[key := value]
    ensures key in Map(t) <==> key in Map(t.right)
  {
    NodeOrder(t);
    NodeOrder(t.(right := rt));
    JoinSetRight(Map(t.left), Map(t.right), t.key, t.value, key, value);
  }

  /** A left side that lost key: the node stays in order and holds t's map without key. */
  lemma DropLeft<A>(t: Tree<A>, key: int, l: Tree<A>)
    requires t.Node? && Ordered(t) && key < t.key
    requires Ordered(l) && Map(l) == Map(t.left) - {key}
    ensures Ordered(t.(left := l)) && Map(t.(left := l)) == Map(t) - {key}
    ensures key in Map(t) <==> key in Map(t.left)
  {
    NodeOrder(t);
    NodeOrder(t.(left := l));
    JoinDropLeft(Map(t.left), Map(t.right), t.key, t.value, key);
  }

  /** A right side that lost key: the mirror of DropLeft. */
  lemma DropRight<A>(t: Tree<A>, key: int, rt: Tree<A>)
    requires t.Node? && Ordered(t) && key > t.key
    requires Ordered(rt) && Map(rt) == Map(t.right) - {key}
    ensures Ordered(t.(right := rt)) && Map(t.(right := rt)) == Map(t) - {key}
    ensures key in Map(t) <==> key in Map(t.right)
  {
    NodeOrder(t);
    NodeOrder(t.(right := rt));
    JoinDropRight(Map(t.left), Map(t.right), t.key, t.value, key);
  }

  /** The successor m of the root moved up: the node stays in order and holds t's map without the root key. */
  lemma SuccessorOrder<A>(t: Tree<A>, rt: Tree<A>)
    requires t.Node? && Ordered(t) && t.right.Node?
    requires Ordered(rt) && Map(rt) == Map(t.right) - {Leftmost(t.right).key}
    ensures var m := Leftmost(t.right);
      Ordered(t.(key := m.key, value := m.value, right := rt)) &&
      Map(t.(key := m.key, value := m.value, right := rt)) == Map(t) - {t.key}
  {
    var m := Leftmost(t.right);
    var n := t.(key := m.key, value := m.value, right := rt);
    NodeOrder(t);
    LeftmostIsMin(t.right);
    assert forall q :: q in Map(t.left) ==> q < m.key;
    assert forall q :: q in Map(rt) ==> m.key < q;
    NodeOrder(n);
    assert Ordered(n);
    assert Map(n) == (Map(t.left) + Map(rt))[m.key := m.value];
    JoinSuccessor(Map(t.left), Map(t.right), t.key, t.value, m.key);
  }

  /** A left rotation, whatever per-node data it leaves behind, keeps the in-order sequence. */
  lemma RotateLeftInOrder<A>(x: Tree<A>, below: A, above: A)
    requires x.Node? && x.right.Node?
    ensures var y := x.right;
      InOrder(Node(y.key, y.value, Node(x.key, x.value, x.left, y.left, below), y.right, above)) == InOrder(x)
  {
    var y := x.right;
    var a, b, c := InOrder(x.left), InOrder(y.left), InOrder(y.right);
    var px, py := [(x.key, x.value)], [(y.key, y.value)];
    var x' := Node(x.key, x.value, x.left, y.left, below);
    calc {
      InOrder(Node(y.key, y.value, x', y.right, above));
      InOrder(x') + py + c;
      (a + px + b) + py + c;
      a + px + (b + py + c);
      a + px + InOrder(y);
    }
  }

  /** A right rotation, whatever per-node data it leaves behind, keeps the in-order sequence. */
  lemma RotateRightInOrder<A>(y: Tree<A>, below: A, above: A)
    requires y.Node? && y.left.Node?
    ensures var x := y.left;
      InOrder(Node(x.key, x.value, x.left, Node(y.key, y.value, x.right, y.right, below), above)) == InOrder(y)
  {
    var x := y.left;
    var a, b, c := InOrder(x.left), InOrder(x.right), InOrder(y.right);
    var px, py := [(x.key, x.value)], [(y.key, y.value)];
    var y' := Node(y.key, y.value, x.right, y.right, below);
    calc {
      InOrder(Node(x.key, x.value, x.left, y', above));
      a + px + InOrder(y');
      a + px + (b + py + c);
      (a + px + b) + py + c;
      InOrder(x) + py + c;
    }
  }
}
