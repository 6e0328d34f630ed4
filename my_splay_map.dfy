/**
 * An Integer -> String sorted map on a splay tree (lesson12/MySplayMap.java).
 * Every access brings the node it reaches to the root by rotations: zig
 * when the parent is the root, zig-zig when node and parent are children on
 * the same side, zig-zag otherwise. The parent links are the path from the
 * root down to a node: one frame per ancestor, saying on which side the
 * path goes down and holding the ancestor's entry and its other subtree.
 */
module MySplayMap {
  import opened Common
  import opened SearchTree

  type SplayTree = Tree<()>

  /** One ancestor of a node: whether the node lies in its left subtree, its entry, and its other subtree. */
  datatype Frame = Frame(left: bool, key: int, value: Value, other: SplayTree)

  /** The ancestor's subtree, with t in the place the frame names. */
  function Up(t: SplayTree, f: Frame): SplayTree {
    if f.left then Node(f.key, f.value, t, f.other, ()) else Node(f.key, f.value, f.other, t, ())
  }

  /** The whole tree around t: the frames from the root down to t's parent, the parent last. */
  function Plug(t: SplayTree, path: seq<Frame>): SplayTree
    decreases |path|
  {
    if |path| == 0 then t else Plug(Up(t, path[|path| - 1]), path[..|path| - 1])
  }

  /** The entries before the node's subtree in key order: those of the ancestors it lies right of. */
  function Before(path: seq<Frame>): seq<(int, Value)>
    decreases |path|
  {
    if |path| == 0 then []
    else
      var f := path[|path| - 1];
      Before(path[..|path| - 1]) + (if f.left then [] else InOrder(f.other) + [(f.key, f.value)])
  }

  /** The entries after the node's subtree in key order: those of the ancestors it lies left of. */
  function After(path: seq<Frame>): seq<(int, Value)>
    decreases |path|
  {
    if |path| == 0 then []
    else
      var f := path[|path| - 1];
      (if f.left then [(f.key, f.value)] + InOrder(f.other) else []) + After(path[..|path| - 1])
  }

  /** The in-order entries of the whole tree are those before the subtree, the subtree's, and those after. */
  lemma {:induction false} PlugSplit(t: SplayTree, path: seq<Frame>)
    ensures InOrder(Plug(t, path)) == Before(path) + InOrder(t) + After(path)
    decreases |path|
  {
    if |path| > 0 {
      var f, rest := path[|path| - 1], path[..|path| - 1];
      PlugSplit(Up(t, f), rest);
    }
  }

  /** Going down one more step keeps the whole tree. */
  lemma PlugSnoc(t: SplayTree, path: seq<Frame>, f: Frame)
    ensures Plug(t, path + [f]) == Plug(Up(t, f), path)
  {
    assert (path + [f])[..|path|] == path;
  }

  /** Every subtree of a search tree is a search tree. */
  lemma {:induction false} PlugOrdered(t: SplayTree, path: seq<Frame>)
    requires Ordered(Plug(t, path))
    ensures Ordered(t)
    decreases |path|
  {
    if |path| > 0 {
      var f := path[|path| - 1];
      PlugOrdered(Up(t, f), path[..|path| - 1]);
      NodeOrder(Up(t, f));
    }
  }

  /** The path a search for key takes: left below greater keys, right below smaller ones. */
  ghost predicate KeyPath(path: seq<Frame>, key: int) {
    forall i :: 0 <= i < |path| ==> if path[i].left then key < path[i].key else path[i].key < key
  }

  /** The key is in the tree exactly when it is in the subtree its search reaches, with the same value. */
  lemma {:induction false} PlugHas(t: SplayTree, path: seq<Frame>, key: int)
    requires Ordered(Plug(t, path)) && KeyPath(path, key)
    ensures key in Map(Plug(t, path)) <==> key in Map(t)
    ensures key in Map(t) ==> Map(Plug(t, path))[key] == Map(t)[key]
    decreases |path|
  {
    if |path| > 0 {
      var f, rest := path[|path| - 1], path[..|path| - 1];
      var p := Up(t, f);
      assert KeyPath(rest, key) by {
        forall i | 0 <= i < |rest|
          ensures if rest[i].left then key < rest[i].key else rest[i].key < key
        {
          assert rest[i] == path[i];
        }
      }
      PlugHas(p, rest, key);
      PlugOrdered(p, rest);
      NodeOrder(p);
      assert path[|path| - 1] == f;
    }
  }

  /**
   * Setting key in the subtree its search reaches sets it in the whole
   * tree, which stays a search tree.
   */
  lemma {:induction false} PlugSet(t: SplayTree, path: seq<Frame>, key: int, value: Value, t': SplayTree)
    requires Ordered(Plug(t, path)) && KeyPath(path, key)
    requires Ordered(t') && Map(t') == Map(t)[key := value]
    ensures Ordered(Plug(t', path)) && Map(Plug(t', path)) == Map(Plug(t, path))[key := value]
    decreases |path|
  {
    if |path| > 0 {
      var f, rest := path[|path| - 1], path[..|path| - 1];
      var p, p' := Up(t, f), Up(t', f);
      assert path[|path| - 1] == f;
      assert KeyPath(rest, key) by {
        forall i | 0 <= i < |rest|
          ensures if rest[i].left then key < rest[i].key else rest[i].key < key
        {
          assert rest[i] == path[i];
        }
      }
      PlugOrdered(p, rest);
      if f.left {
        SetLeft(p, key, value, t');
        assert p.(left := t') == p';
      } else {
        SetRight(p, key, value, t');
        assert p.(right := t') == p';
      }
      PlugSet(p, rest, key, value, p');
    }
  }

  /**
   * zig: the node and its parent change places by one rotation; the node
   * keeps its entry and rises one level, and the in-order entries of the
   * whole tree do not change.
   */
  function Zig(x: SplayTree, path: seq<Frame>): (r: (SplayTree, seq<Frame>))
    requires x.Node? && |path| > 0
    ensures r.0.Node? && r.0.key == x.key && r.0.value == x.value && r.1 == path[..|path| - 1]
    ensures InOrder(Plug(r.0, r.1)) == InOrder(Plug(x, path))
  {
    var f, rest := path[|path| - 1], path[..|path| - 1];
    var x' :=
      if f.left then Node(x.key, x.value, x.left, Node(f.key, f.value, x.right, f.other, ()), ())
      else Node(x.key, x.value, Node(f.key, f.value, f.other, x.left, ()), x.right, ());
    assert InOrder(x') == InOrder(Up(x, f));
    PlugSplit(x', rest);
    PlugSplit(Up(x, f), rest);
    (x', rest)
  }

  /** The focus moved to the child on the given side of a node: the node becomes the last frame. */
  function Down(p: SplayTree, left: bool, path: seq<Frame>): (r: (SplayTree, seq<Frame>))
    requires p.Node?
    ensures Plug(r.0, r.1) == Plug(p, path)
    ensures r.0 == (if left then p.left else p.right)
    ensures r.1 == path + [Frame(left, p.key, p.value, if left then p.right else p.left)]
  {
    var r :=
      if left then (p.left, path + [Frame(true, p.key, p.value, p.right)])
      else (p.right, path + [Frame(false, p.key, p.value, p.left)]);
    PlugSnoc(r.0, path, r.1[|path|]);
    assert p.aux == ();
    r
  }

  /**
   * zigZig: node and parent on the same side; the parent is rotated over
   * the grandparent, then the node over the parent. The node rises two
   * levels and the in-order entries do not change.
   */
  function ZigZig(x: SplayTree, path: seq<Frame>): (r: (SplayTree, seq<Frame>))
    requires x.Node? && |path| >= 2 && path[|path| - 1].left == path[|path| - 2].left
    ensures r.0.Node? && r.0.key == x.key && r.0.value == x.value && r.1 == path[..|path| - 2]
    ensures InOrder(Plug(r.0, r.1)) == InOrder(Plug(x, path))
  {
    var f := path[|path| - 1];
    var up := Zig(Up(x, f), path[..|path| - 1]);
    assert path[..|path| - 1][..|path| - 2] == path[..|path| - 2];
    var down := Down(up.0, f.left, up.1);
    assert down.0 == x;
    Zig(down.0, down.1)
  }

  /**
   * zigZag: node and parent on different sides; the node is rotated over
   * its parent and then over its grandparent. The node rises two levels
   * and the in-order entries do not change.
   */
  function ZigZag(x: SplayTree, path: seq<Frame>): (r: (SplayTree, seq<Frame>))
    requires x.Node? && |path| >= 2
    ensures r.0.Node? && r.0.key == x.key && r.0.value == x.value && r.1 == path[..|path| - 2]
    ensures InOrder(Plug(r.0, r.1)) == InOrder(Plug(x, path))
  {
    var first := Zig(x, path);
    assert path[..|path| - 1][..|path| - 2] == path[..|path| - 2];
    Zig(first.0, first.1)
  }

  /** A search tree holds no entries exactly when it is empty. */
  lemma EmptyMap(t: SplayTree)
    ensures t.Nil? <==> Map(t) == map[]
  {
    if t.Node? {
      MapOfKeys(InOrder(t));
      assert InOrder(t)[|InOrder(t.left)|].0 == t.key;
      assert t.key in Map(t);
    }
  }

  /**
   * Cutting the entry p out of the in-order entries a + [p] + b of a search
   * tree leaves a search tree's entries, with the map less p's key.
   */
  lemma SortedRemove(a: seq<(int, Value)>, p: (int, Value), b: seq<(int, Value)>)
    requires SortedKeys(a + [p] + b)
    ensures SortedKeys(a + b) && MapOf(a + b) == MapOf(a + [p] + b) - {p.0}
  {
    SortedParts(a, p, b);
    var s := a + b;
    forall i, j | 0 <= i < j < |s|
      ensures s[i].0 < s[j].0
    {
      if j < |a| {
        assert s[i] == a[i] && s[j] == a[j];
      } else if i < |a| {
        assert s[i] == a[i] && s[j] == b[j - |a|];
      } else {
        assert s[i] == b[i - |a|] && s[j] == b[j - |a|];
      }
    }
    MapOfKeys(a);
    MapOfKeys(b);
    MapOfAppend(a, b);
    MapOfJoin(a, p, b);
  }

  /** Whether q comes before key: below it, or also equal to it when inclusive. */
  predicate Precedes(q: int, key: int, inclusive: bool) {
    if inclusive then q <= key else q < key
  }

  /** The first of two answers that is present. */
  function Combine(a: Option<int>, b: Option<int>): Option<int> {
    if a.Some? then a else b
  }

  /**
   * The key findLower (not inclusive) and findFloor (inclusive) settle on:
   * the last node at which the search turns right, or the node holding key
   * when inclusive.
   */
  function Below(t: SplayTree, key: int, inclusive: bool): Option<int> {
    if t.Nil? then None
    else if key < t.key || (key == t.key && !inclusive) then Below(t.left, key, inclusive)
    else if key == t.key then Some(t.key)
    else Combine(Below(t.right, key, inclusive), Some(t.key))
  }

  /**
   * The key findHigher (not inclusive) and findCeiling (inclusive) settle
   * on: the last node at which the search turns left, or the node holding
   * key when inclusive.
   */
  function Above(t: SplayTree, key: int, inclusive: bool): Option<int> {
    if t.Nil? then None
    else if t.key < key || (key == t.key && !inclusive) then Above(t.right, key, inclusive)
    else if key == t.key then Some(t.key)
    else Combine(Above(t.left, key, inclusive), Some(t.key))
  }

  /** r is the greatest key of m before key, or None when m has no such key. */
  ghost predicate IsGreatestBefore(m: map<int, Value>, key: int, inclusive: bool, r: Option<int>) {
    if r.Some? then r.value in m && Precedes(r.value, key, inclusive) && forall q :: q in m && Precedes(q, key, inclusive) ==> q <= r.value
    else forall q :: q in m ==> !Precedes(q, key, inclusive)
  }

  /** r is the least key of m after key, or None when m has no such key. */
  ghost predicate IsLeastAfter(m: map<int, Value>, key: int, inclusive: bool, r: Option<int>) {
    if r.Some? then r.value in m && Precedes(key, r.value, inclusive) && forall q :: q in m && Precedes(key, q, inclusive) ==> r.value <= q
    else forall q :: q in m ==> !Precedes(key, q, inclusive)
  }

  /** On a search tree the search for lowerKey and floorKey finds the greatest key below key (or at most key). */
  lemma {:induction false} BelowIs(t: SplayTree, key: int, inclusive: bool)
    requires Ordered(t)
    ensures IsGreatestBefore(Map(t), key, inclusive, Below(t, key, inclusive))
  {
    if t.Node? {
      NodeOrder(t);
      if key < t.key || (key == t.key && !inclusive) {
        BelowIs(t.left, key, inclusive);
      } else if key != t.key {
        BelowIs(t.right, key, inclusive);
      }
    }
  }

  /** On a search tree the search for higherKey and ceilingKey finds the least key above key (or at least key). */
  lemma {:induction false} AboveIs(t: SplayTree, key: int, inclusive: bool)
    requires Ordered(t)
    ensures IsLeastAfter(Map(t), key, inclusive, Above(t, key, inclusive))
  {
    if t.Node? {
      NodeOrder(t);
      if t.key < key || (key == t.key && !inclusive) {
        AboveIs(t.right, key, inclusive);
      } else if key != t.key {
        AboveIs(t.left, key, inclusive);
      }
    }
  }

  /** findMin from the given node, with the path it walks. */
  method FindMinPath(t: SplayTree) returns (m: SplayTree, path: seq<Frame>)
    requires t.Node?
    ensures m == Leftmost(t) && m.left.Nil? && Plug(m, path) == t
  {
    m, path := t, [];
    while m.left.Node?
      invariant m.Node? && Leftmost(m) == Leftmost(t) && Plug(m, path) == t
      decreases m
    {
      var d := Down(m, true, path);
      m, path := d.0, d.1;
    }
  }

  /** Every frame goes down to the right. */
  ghost predicate RightSpine(path: seq<Frame>) {
    forall i :: 0 <= i < |path| ==> !path[i].left
  }

  /** A path that only goes right has no entries after it. */
  lemma {:induction false} RightSpineAfter(path: seq<Frame>)
    requires RightSpine(path)
    ensures After(path) == []
    decreases |path|
  {
    if |path| > 0 {
      assert path[|path| - 1] == path[|path| - 1];
      RightSpineAfter(path[..|path| - 1]);
    }
  }

  /** findMax from the given node, with the path it walks. */
  method FindMaxPath(t: SplayTree) returns (m: SplayTree, path: seq<Frame>)
    requires t.Node?
    ensures m == Rightmost(t) && m.right.Nil? && Plug(m, path) == t && RightSpine(path)
  {
    m, path := t, [];
    while m.right.Node?
      invariant m.Node? && Rightmost(m) == Rightmost(t) && Plug(m, path) == t && RightSpine(path)
      decreases m
    {
      var d := Down(m, false, path);
      m, path := d.0, d.1;
    }
  }

  /**
   * The tree delete builds from a root with two sides when the maximum of
   * the left side has been found along spine: the maximum's entry on top,
   * the left side without it, and the old right side.
   */
  lemma JoinUnderMax(root: SplayTree, m: SplayTree, spine: seq<Frame>, newLeft: SplayTree)
    requires root.Node? && Ordered(root) && root.left.Node?
    requires m.Node? && m.right.Nil? && Plug(m, spine) == root.left && RightSpine(spine)
    requires newLeft == Plug(m.left, spine)
    ensures var t := Node(m.key, m.value, newLeft, root.right, ());
      Ordered(t) && Map(t) == Map(root) - {root.key}
  {
    var t := Node(m.key, m.value, newLeft, root.right, ());
    PlugSplit(m, spine);
    PlugSplit(m.left, spine);
    RightSpineAfter(spine);
    var a, b := InOrder(root.left), InOrder(root.right);
    assert InOrder(root) == a + [(root.key, root.value)] + b;
    assert a == InOrder(newLeft) + [(m.key, m.value)];
    assert InOrder(t) == a + b;
    SortedRemove(a, (root.key, root.value), b);
  }

  /**
   * The tree delete leaves once the node to remove is at the root: its
   * right side when it has no left side; otherwise the maximum of the left
   * side on top, over the left side without it and the old right side.
   */
  method Unlink(node: SplayTree) returns (t: SplayTree)
    requires node.Node? && Ordered(node)
    ensures Ordered(t) && Map(t) == Map(node) - {node.key}
  {
    var right := node.right;
    if node.left.Nil? {
      assert InOrder(node) == [] + [(node.key, node.value)] + InOrder(right);
      SortedRemove([], (node.key, node.value), InOrder(right));
      assert InOrder(right) == [] + InOrder(right);
      t := right;
    } else {
      var maxLeft, spine := FindMaxPath(node.left);
      var newLeft;
      if |spine| > 0 {
        newLeft := Plug(maxLeft.left, spine);
      } else {
        newLeft := maxLeft.left;
      }
      JoinUnderMax(node, maxLeft, spine, newLeft);
      t := Node(maxLeft.key, maxLeft.value, newLeft, right, ());
    }
  }

  /** The map: an Integer -> String sorted map on a splay tree, with its size. */
  class MySplayMap {
    var root: SplayTree
    var size: nat

    /** The tree is a search tree and size counts its keys. */
    ghost predicate Valid()
      reads this
    {
      Ordered(root) && size == |Map(root)|
    }

    ghost function Contents(): map<int, Value>
      reads this
    {
      Map(root)
    }

    constructor ()
      ensures Valid() && Contents() == map[]
    {
      root := Nil;
      size := 0;
    }

    /**
     * splay: rotations bring the node to the root, zig when its parent is
     * the root, zigZig when node and parent are children on the same side,
     * zigZag otherwise. The entries and their order do not change.
     */
    method Splay(x: SplayTree, path: seq<Frame>)
      requires Valid() && x.Node? && Plug(x, path) == root
      modifies this
      ensures Valid() && InOrder(root) == old(InOrder(root)) && Contents() == old(Contents())
      ensures root.Node? && root.key == x.key && root.value == x.value
    {
      var node, p := x, path;
      while |p| > 0
        invariant node.Node? && node.key == x.key && node.value == x.value
        invariant InOrder(Plug(node, p)) == InOrder(root)
        decreases |p|
      {
        var parent := p[|p| - 1];
        if |p| == 1 {
          var z := Zig(node, p);
          node, p := z.0, z.1;
        } else if (parent.left && p[|p| - 2].left) || (!parent.left && !p[|p| - 2].left) {
          var z := ZigZig(node, p);
          node, p := z.0, z.1;
        } else {
          var z := ZigZag(node, p);
          node, p := z.0, z.1;
        }
      }
      root := node;
    }

    /** findWithoutSplay: the node holding key, or none. */
    method FindWithoutSplay(key: int) returns (r: SplayTree)
      requires Valid()
      ensures r.Node? <==> key in Contents()
      ensures r.Node? ==> r.key == key && r.value == Contents()[key]
    {
      var current := root;
      ghost var path: seq<Frame> := [];
      while current.Node?
        invariant Plug(current, path) == root && KeyPath(path, key)
        decreases current
      {
        if key < current.key {
          ghost var d := Down(current, true, path);
          current, path := current.left, d.1;
        } else if key > current.key {
          ghost var d := Down(current, false, path);
          current, path := current.right, d.1;
        } else {
          PlugHas(current, path, key);
          PlugOrdered(current, path);
          NodeOrder(current);
          return current;
        }
      }
      PlugHas(current, path, key);
      return Nil;
    }

    /**
     * insert: a search for key; a node holding it gets the new value, or a
     * new node is attached where the search ended and size grows by one;
     * either node is then splayed to the root.
     */
    method Insert(key: int, value: Value)
      requires Valid()
      modifies this
      ensures Valid() && Contents() == old(Contents())[key := value]
      ensures root.Node? && root.key == key
    {
      if root.Nil? {
        root := Node(key, value, Nil, Nil, ());
        size := size + 1;
        return;
      }
      var current := root;
      var path: seq<Frame> := [];
      while current.Node?
        invariant Plug(current, path) == root && KeyPath(path, key)
        decreases current
      {
        if key < current.key {
          var d := Down(current, true, path);
          current, path := d.0, d.1;
        } else if key > current.key {
          var d := Down(current, false, path);
          current, path := d.0, d.1;
        } else {
          PlugOrdered(current, path);
          ReplaceHere(current, value);
          var replaced := current.(value := value);
          PlugSet(current, path, key, value, replaced);
          PlugHas(current, path, key);
          NodeOrder(current);
          ghost var m := Contents();
          root := Plug(replaced, path);
          assert Contents().Keys == m.Keys;
          Splay(replaced, path);
          return;
        }
      }
      var newNode := Node(key, value, Nil, Nil, ());
      assert InOrder(newNode) == [(key, value)];
      PlugSet(current, path, key, value, newNode);
      PlugHas(current, path, key);
      AddCard(Contents(), key, value);
      root := Plug(newNode, path);
      size := size + 1;
      Splay(newNode, path);
    }

    /**
     * find: the node holding key, splayed to the root; on a miss the last
     * node visited is splayed and none is returned.
     */
    method Find(key: int) returns (r: SplayTree)
      requires Valid()
      modifies this
      ensures Valid() && Contents() == old(Contents()) && InOrder(root) == old(InOrder(root))
      ensures r.Node? <==> key in Contents()
      ensures r.Node? ==> r.key == key && r.value == Contents()[key] && root.Node? && root.key == key
    {
      var current := root;
      var path: seq<Frame> := [];
      var lastVisited: Option<(SplayTree, seq<Frame>)> := None;
      while current.Node?
        invariant Plug(current, path) == root && KeyPath(path, key)
        invariant lastVisited.Some? ==> lastVisited.value.0.Node? && Plug(lastVisited.value.0, lastVisited.value.1) == root
        decreases current
      {
        lastVisited := Some((current, path));
        if key < current.key {
          var d := Down(current, true, path);
          current, path := d.0, d.1;
        } else if key > current.key {
          var d := Down(current, false, path);
          current, path := d.0, d.1;
        } else {
          PlugHas(current, path, key);
          PlugOrdered(current, path);
          NodeOrder(current);
          Splay(current, path);
          return current;
        }
      }
      PlugHas(current, path, key);
      if lastVisited.Some? {
        Splay(lastVisited.value.0, lastVisited.value.1);
      }
      return Nil;
    }

    /**
     * delete: key is found and splayed to the root; the root's right side
     * goes under the maximum of its left side, which takes the root's
     * place, or the right side becomes the tree when there is no left side.
     */
    method Delete(key: int)
      requires Valid()
      modifies this
      ensures Valid() && Contents() == old(Contents()) - {key}
    {
      var node := Find(key);
      if node.Nil? {
        return;
      }
      ghost var m := Contents();
      var joined := Unlink(root);
      root := joined;
      RemoveCard(m, key);
      size := size - 1;
      if root.Node? {
        Splay(root, []);
      }
    }

    /** findLower and findFloor: the node the search settles on is splayed to the root. */
    method FindBelow(key: int, inclusive: bool) returns (r: Option<int>)
      requires Valid()
      modifies this
      ensures Valid() && Contents() == old(Contents())
      ensures r == Below(old(root), key, inclusive)
      ensures r.Some? ==> root.Node? && root.key == r.value
    {
      var current := root;
      var path: seq<Frame> := [];
      var result: Option<(SplayTree, seq<Frame>)> := None;
      while current.Node?
        invariant Plug(current, path) == root
        invariant result.Some? ==> result.value.0.Node? && Plug(result.value.0, result.value.1) == root
        invariant Combine(Below(current, key, inclusive), if result.Some? then Some(result.value.0.key) else None)
                  == Below(root, key, inclusive)
        decreases current
      {
        if key < current.key || (key == current.key && !inclusive) {
          var d := Down(current, true, path);
          current, path := d.0, d.1;
        } else if key > current.key {
          result := Some((current, path));
          var d := Down(current, false, path);
          current, path := d.0, d.1;
        } else {
          result := Some((current, path));
          break;
        }
      }
      if result.Some? {
        r := Some(result.value.0.key);
        Splay(result.value.0, result.value.1);
      } else {
        r := None;
      }
    }

    /** findHigher and findCeiling: the node the search settles on is splayed to the root. */
    method FindAbove(key: int, inclusive: bool) returns (r: Option<int>)
      requires Valid()
      modifies this
      ensures Valid() && Contents() == old(Contents())
      ensures r == Above(old(root), key, inclusive)
      ensures r.Some? ==> root.Node? && root.key == r.value
    {
      var current := root;
      var path: seq<Frame> := [];
      var result: Option<(SplayTree, seq<Frame>)> := None;
      while current.Node?
        invariant Plug(current, path) == root
        invariant result.Some? ==> result.value.0.Node? && Plug(result.value.0, result.value.1) == root
        invariant Combine(Above(current, key, inclusive), if result.Some? then Some(result.value.0.key) else None)
                  == Above(root, key, inclusive)
        decreases current
      {
        if current.key < key || (key == current.key && !inclusive) {
          var d := Down(current, false, path);
          current, path := d.0, d.1;
        } else if key < current.key {
          result := Some((current, path));
          var d := Down(current, true, path);
          current, path := d.0, d.1;
        } else {
          result := Some((current, path));
          break;
        }
      }
      if result.Some? {
        r := Some(result.value.0.key);
        Splay(result.value.0, result.value.1);
      } else {
        r := None;
      }
    }

    /** put: null keys are refused; the previous value (or null) is returned and the key ends at the root. */
    method Put(key: Option<int>, value: Value) returns (r: Result<Value>)
      requires Valid()
      modifies this
      ensures Valid()
      ensures key.None? ==> r == Err(NullPointer) && Contents() == old(Contents())
      ensures key.Some? ==> Contents() == old(Contents())[key.value := value] && root.Node? && root.key == key.value
      ensures key.Some? ==> r == Ok(if key.value in old(Contents()) then old(Contents())[key.value] else None)
    {
      if key.None? {
        return Err(NullPointer);
      }
      var existing := FindWithoutSplay(key.value);
      var oldValue := if existing.Node? then existing.value else None;
      Insert(key.value, value);
      r := Ok(oldValue);
    }

    /** remove: null keys are refused; an absent key gives null and no change; otherwise the old value. */
    method Remove(key: Option<int>) returns (r: Result<Value>)
      requires Valid()
      modifies this
      ensures Valid()
      ensures key.None? ==> r == Err(NullPointer) && Contents() == old(Contents())
      ensures key.Some? ==> Contents() == old(Contents()) - {key.value}
      ensures key.Some? ==> r == Ok(if key.value in old(Contents()) then old(Contents())[key.value] else None)
    {
      if key.None? {
        return Err(NullPointer);
      }
      var existing := FindWithoutSplay(key.value);
      if existing.Nil? {
        assert Contents() - {key.value} == Contents();
        return Ok(None);
      }
      var oldValue := existing.value;
      Delete(key.value);
      r := Ok(oldValue);
    }

    /** get: null keys are refused; the value (or null) is returned, and the entries do not change. */
    method Get(key: Option<int>) returns (r: Result<Value>)
      requires Valid()
      modifies this
      ensures Valid() && Contents() == old(Contents())
      ensures key.None? ==> r == Err(NullPointer)
      ensures key.Some? ==> r == Ok(if key.value in Contents() then Contents()[key.value] else None)
    {
      if key.None? {
        return Err(NullPointer);
      }
      var node := Find(key.value);
      r := Ok(if node.Node? then node.value else None);
    }

    /** containsKey: null keys are refused; whether the key is present. */
    method ContainsKey(key: Option<int>) returns (r: Result<bool>)
      requires Valid()
      modifies this
      ensures Valid() && Contents() == old(Contents())
      ensures key.None? ==> r == Err(NullPointer)
      ensures key.Some? ==> r == Ok(key.value in Contents())
    {
      if key.None? {
        return Err(NullPointer);
      }
      var node := Find(key.value);
      r := Ok(node.Node?);
    }

    /** firstKey: NoSuchElement on an empty map; otherwise the least key, splayed to the root. */
    method FirstKey() returns (r: Result<int>)
      requires Valid()
      modifies this
      ensures Valid() && Contents() == old(Contents())
      ensures Contents() == map[] ==> r == Err(NoSuchElement)
      ensures Contents() != map[] ==>
        r.Ok? && r.value in Contents() && (forall q :: q in Contents() ==> r.value <= q) && root.key == r.value
    {
      EmptyMap(root);
      if size == 0 {
        return Err(NoSuchElement);
      }
      var min, path := FindMinPath(root);
      LeftmostIsMin(root);
      Splay(min, path);
      r := Ok(min.key);
    }

    /** lastKey: NoSuchElement on an empty map; otherwise the greatest key, splayed to the root. */
    method LastKey() returns (r: Result<int>)
      requires Valid()
      modifies this
      ensures Valid() && Contents() == old(Contents())
      ensures Contents() == map[] ==> r == Err(NoSuchElement)
      ensures Contents() != map[] ==>
        r.Ok? && r.value in Contents() && (forall q :: q in Contents() ==> q <= r.value) && root.key == r.value
    {
      EmptyMap(root);
      if size == 0 {
        return Err(NoSuchElement);
      }
      var max, path := FindMaxPath(root);
      RightmostIsMax(root);
      Splay(max, path);
      r := Ok(max.key);
    }

    /** lowerKey: null keys are refused; the greatest key below key, or null. */
    method LowerKey(key: Option<int>) returns (r: Result<Option<int>>)
      requires Valid()
      modifies this
      ensures Valid() && Contents() == old(Contents())
      ensures key.None? ==> r == Err(NullPointer)
      ensures key.Some? ==> r.Ok? && IsGreatestBefore(Contents(), key.value, false, r.value)
    {
      if key.None? {
        return Err(NullPointer);
      }
      BelowIs(root, key.value, false);
      var node := FindBelow(key.value, false);
      r := Ok(node);
    }

    /** floorKey: null keys are refused; the greatest key at most key, or null. */
    method FloorKey(key: Option<int>) returns (r: Result<Option<int>>)
      requires Valid()
      modifies this
      ensures Valid() && Contents() == old(Contents())
      ensures key.None? ==> r == Err(NullPointer)
      ensures key.Some? ==> r.Ok? && IsGreatestBefore(Contents(), key.value, true, r.value)
    {
      if key.None? {
        return Err(NullPointer);
      }
      BelowIs(root, key.value, true);
      var node := FindBelow(key.value, true);
      r := Ok(node);
    }

    /** ceilingKey: null keys are refused; the least key at least key, or null. */
    method CeilingKey(key: Option<int>) returns (r: Result<Option<int>>)
      requires Valid()
      modifies this
      ensures Valid() && Contents() == old(Contents())
      ensures key.None? ==> r == Err(NullPointer)
      ensures key.Some? ==> r.Ok? && IsLeastAfter(Contents(), key.value, true, r.value)
    {
      if key.None? {
        return Err(NullPointer);
      }
      AboveIs(root, key.value, true);
      var node := FindAbove(key.value, true);
      r := Ok(node);
    }

    /** higherKey: null keys are refused; the least key above key, or null. */
    method HigherKey(key: Option<int>) returns (r: Result<Option<int>>)
      requires Valid()
      modifies this
      ensures Valid() && Contents() == old(Contents())
      ensures key.None? ==> r == Err(NullPointer)
      ensures key.Some? ==> r.Ok? && IsLeastAfter(Contents(), key.value, false, r.value)
    {
      if key.None? {
        return Err(NullPointer);
      }
      AboveIs(root, key.value, false);
      var node := FindAbove(key.value, false);
      r := Ok(node);
    }
  }
}
