/**
 * An Integer -> String map on an AVL tree (lesson12/MyAvlMap.java). The
 * tree is a value: put and remove rebuild the path they walk, and every
 * rebuilt node goes through `Balance`, which recomputes its stored height
 * and applies the LL, LR, RR or RL rotation once the two sides differ by
 * two.
 */
module MyAvlMap {
  import opened Common
  import opened SearchTree

  /** An AVL node keeps its height as the tree's per-node data. */
  type AvlTree = Tree<nat>

  function Max(a: nat, b: nat): nat {
    if a < b then b else a
  }

  /** height: 0 for null, otherwise the stored height. */
  function Height(t: AvlTree): nat {
    if t.Nil? then 0 else t.aux
  }

  /** balanceFactor: left height minus right height, 0 for null. */
  function BalanceFactor(t: AvlTree): (r: int)
    ensures Exact(t) && t.Node? ==> -(Height(t) as int) < r < Height(t)
  {
    if t.Nil? then 0 else Height(t.left) - Height(t.right)
  }

  /** updateHeight: one more than the taller child. */
  function UpdateHeight(t: AvlTree): (r: AvlTree)
    requires t.Node?
    ensures r.Node? && r.key == t.key && r.value == t.value && r.left == t.left && r.right == t.right
    ensures Exact(t.left) && Exact(t.right) ==> Exact(r)
    ensures Height(t.left) < Height(r) && Height(t.right) < Height(r)
  {
    t.(aux := Max(Height(t.left), Height(t.right)) + 1)
  }

  /** Every stored height is the node's true height. */
  ghost predicate Exact(t: AvlTree) {
    t.Node? ==> Exact(t.left) && Exact(t.right) && t.aux == Max(Height(t.left), Height(t.right)) + 1
  }

  /** The two sides of every node differ in height by at most one. */
  ghost predicate Balanced(t: AvlTree) {
    t.Node? ==> Balanced(t.left) && Balanced(t.right) && -1 <= BalanceFactor(t) <= 1
  }

  /** Exact heights and balance: the AVL shape. */
  ghost predicate Shape(t: AvlTree) {
    Exact(t) && Balanced(t)
  }

  ghost predicate IsAvl(t: AvlTree) {
    Ordered(t) && Shape(t)
  }

  /** rotateRight: the left child x becomes the root and y its right child. */
  function RotateRight(y: AvlTree): (r: AvlTree)
    requires y.Node? && y.left.Node?
    ensures r.Node? && r.right.Node?
  {
    var x := y.left;
    UpdateHeight(x.(right := UpdateHeight(y.(left := x.right))))
  }

  /** rotateLeft: the right child y becomes the root and x its left child. */
  function RotateLeft(x: AvlTree): (r: AvlTree)
    requires x.Node? && x.right.Node?
    ensures r.Node? && r.left.Node?
  {
    var y := x.right;
    UpdateHeight(y.(left := UpdateHeight(x.(right := y.left))))
  }

  /** balance: update the height, then the LL, LR, RR or RL rotation when the factor is beyond one. */
  function Balance(t: AvlTree): (r: AvlTree) {
    if t.Nil? then Nil
    else
      var n := UpdateHeight(t);
      var b := BalanceFactor(n);
      if b > 1 && BalanceFactor(n.left) >= 0 then RotateRight(n)
      else if b > 1 then RotateRight(n.(left := RotateLeft(n.left)))
      else if b < -1 && BalanceFactor(n.right) <= 0 then RotateLeft(n)
      else if b < -1 then RotateLeft(n.(right := RotateRight(n.right)))
      else n
  }

  /** Both rotations keep the in-order sequence. */
  lemma RotationsInOrder(t: AvlTree)
    ensures t.Node? && t.left.Node? ==> InOrder(RotateRight(t)) == InOrder(t)
    ensures t.Node? && t.right.Node? ==> InOrder(RotateLeft(t)) == InOrder(t)
  {
    if t.Node? && t.left.Node? {
      var r := RotateRight(t);
      RotateRightInOrder(t, r.right.aux, r.aux);
    }
    if t.Node? && t.right.Node? {
      var r := RotateLeft(t);
      RotateLeftInOrder(t, r.left.aux, r.aux);
    }
  }

  /** balance keeps the in-order sequence, hence the order and the content. */
  lemma BalanceInOrder(t: AvlTree)
    ensures InOrder(Balance(t)) == InOrder(t)
  {
    if t.Node? {
      var n := UpdateHeight(t);
      var b := BalanceFactor(n);
      if b > 1 && BalanceFactor(n.left) >= 0 {
        RotationsInOrder(n);
      } else if b > 1 {
        RotationsInOrder(n.left);
        RotationsInOrder(n.(left := RotateLeft(n.left)));
      } else if b < -1 && BalanceFactor(n.right) <= 0 {
        RotationsInOrder(n);
      } else if b < -1 {
        RotationsInOrder(n.right);
        RotationsInOrder(n.(right := RotateRight(n.right)));
      }
    }
  }

  /** A node over two AVL-shaped sides at most one level apart, with its height recomputed. */
  lemma Join(t: AvlTree)
    requires t.Node? && Shape(t.left) && Shape(t.right)
    requires -1 <= Height(t.left) - Height(t.right) <= 1
    ensures Shape(UpdateHeight(t))
  {
  }

  /** The sides of an AVL-shaped node are AVL-shaped and at most one level apart. */
  lemma Parts(t: AvlTree)
    requires t.Node? && Shape(t)
    ensures Shape(t.left) && Shape(t.right) && -1 <= Height(t.left) - Height(t.right) <= 1
    ensures Height(t) == Max(Height(t.left), Height(t.right)) + 1
  {
  }

  /** The LL case: one right rotation of a left side two taller and not right-heavy. */
  lemma LeftLeft(n: AvlTree)
    requires n.Node? && n.left.Node? && Shape(n.left) && Shape(n.right)
    requires Height(n.left) == Height(n.right) + 2 && BalanceFactor(n.left) >= 0
    ensures Shape(RotateRight(n))
    ensures Height(n.left) <= Height(RotateRight(n)) <= Height(n.left) + 1
  {
    var l := n.left;
    var y' := n.(left := l.right);
    Join(y');
    Join(l.(right := UpdateHeight(y')));
  }

  /** The LR case: a left rotation of the left side, then a right rotation. */
  lemma LeftRight(n: AvlTree)
    requires n.Node? && n.left.Node? && Shape(n.left) && Shape(n.right)
    requires Height(n.left) == Height(n.right) + 2 && BalanceFactor(n.left) < 0
    ensures n.left.right.Node?
    ensures Shape(RotateRight(n.(left := RotateLeft(n.left))))
    ensures Height(RotateRight(n.(left := RotateLeft(n.left)))) == Height(n.left)
  {
    var l := n.left;
    var lr := l.right;
    var x' := l.(right := lr.left);
    var y' := n.(left := lr.right);
    Parts(l);
    Parts(lr);
    Join(x');
    Join(y');
    assert RotateRight(n.(left := RotateLeft(l))) == UpdateHeight(lr.(left := UpdateHeight(x'), right := UpdateHeight(y')));
    Join(lr.(left := UpdateHeight(x'), right := UpdateHeight(y')));
  }

  /** The RR case: one left rotation of a right side two taller and not left-heavy. */
  lemma RightRight(n: AvlTree)
    requires n.Node? && n.right.Node? && Shape(n.left) && Shape(n.right)
    requires Height(n.right) == Height(n.left) + 2 && BalanceFactor(n.right) <= 0
    ensures Shape(RotateLeft(n))
    ensures Height(n.right) <= Height(RotateLeft(n)) <= Height(n.right) + 1
  {
    var r := n.right;
    var x' := n.(right := r.left);
    Join(x');
    Join(r.(left := UpdateHeight(x')));
  }

  /** The RL case: a right rotation of the right side, then a left rotation. */
  lemma RightLeft(n: AvlTree)
    requires n.Node? && n.right.Node? && Shape(n.left) && Shape(n.right)
    requires Height(n.right) == Height(n.left) + 2 && BalanceFactor(n.right) > 0
    ensures n.right.left.Node?
    ensures Shape(RotateLeft(n.(right := RotateRight(n.right))))
    ensures Height(RotateLeft(n.(right := RotateRight(n.right)))) == Height(n.right)
  {
    var r := n.right;
    var rl := r.left;
    var x' := n.(right := rl.left);
    var y' := r.(left := rl.right);
    Parts(r);
    Parts(rl);
    Join(x');
    Join(y');
    assert RotateLeft(n.(right := RotateRight(r))) == UpdateHeight(rl.(left := UpdateHeight(x'), right := UpdateHeight(y')));
    Join(rl.(left := UpdateHeight(x'), right := UpdateHeight(y')));
  }

  /** A node whose sides differ by at most two comes out of balance with the AVL shape. */
  lemma BalanceShape(t: AvlTree)
    requires t.Node? && Shape(t.left) && Shape(t.right)
    requires -2 <= Height(t.left) - Height(t.right) <= 2
    ensures Shape(Balance(t))
    ensures Max(Height(t.left), Height(t.right)) <= Height(Balance(t)) <= Max(Height(t.left), Height(t.right)) + 1
    ensures -1 <= Height(t.left) - Height(t.right) <= 1 ==>
      Height(Balance(t)) == Max(Height(t.left), Height(t.right)) + 1
  {
    var n := UpdateHeight(t);
    var b := BalanceFactor(n);
    if b > 1 && BalanceFactor(n.left) >= 0 {
      LeftLeft(n);
    } else if b > 1 {
      LeftRight(n);
    } else if b < -1 && BalanceFactor(n.right) <= 0 {
      RightRight(n);
    } else if b < -1 {
      RightLeft(n);
    }
  }

  /** balance keeps the order and the content and restores the AVL shape. */
  lemma BalanceKeeps(t: AvlTree)
    requires t.Node? && Ordered(t) && Shape(t.left) && Shape(t.right)
    requires -2 <= Height(t.left) - Height(t.right) <= 2
    ensures IsAvl(Balance(t)) && Map(Balance(t)) == Map(t)
    ensures Max(Height(t.left), Height(t.right)) <= Height(Balance(t)) <= Max(Height(t.left), Height(t.right)) + 1
    ensures -1 <= Height(t.left) - Height(t.right) <= 1 ==>
      Height(Balance(t)) == Max(Height(t.left), Height(t.right)) + 1
  {
    BalanceInOrder(t);
    BalanceShape(t);
  }

  /**
   * putRecursive: a new leaf for a missing key (where size is bumped), the
   * value replaced without rebalancing for a present one, and every node on
   * the way down rebalanced on the way up.
   */
  function PutRec(t: AvlTree, key: int, value: Value): (r: (AvlTree, bool))
  {
    if t.Nil? then (Node(key, value, Nil, Nil, 1), true)
    else if key < t.key then
      var (l, added) := PutRec(t.left, key, value);
      (Balance(t.(left := l)), added)
    else if key > t.key then
      var (rt, added) := PutRec(t.right, key, value);
      (Balance(t.(right := rt)), added)
    else (t.(value := value), false)
  }

  /** The left side of t took key: the rebalanced node holds t's map with key set, one level taller at most. */
  lemma PutLeft(t: AvlTree, key: int, value: Value, l: AvlTree)
    requires IsAvl(t) && t.Node? && key < t.key
    requires IsAvl(l) && Map(l) == Map(t.left)[key := value]
    requires Height(t.left) <= Height(l) <= Height(t.left) + 1
    ensures IsAvl(Balance(t.(left := l))) && Map(Balance(t.(left := l))) == Map(t)[key := value]
    ensures Height(t) <= Height(Balance(t.(left := l))) <= Height(t) + 1
    ensures key in Map(t) <==> key in Map(t.left)
  {
    NodeOrder(t);
    Parts(t);
    SetLeft(t, key, value, l);
    BalanceKeeps(t.(left := l));
  }

  /** The right side of t took key: the mirror of PutLeft. */
  lemma PutRight(t: AvlTree, key: int, value: Value, rt: AvlTree)
    requires IsAvl(t) && t.Node? && key > t.key
    requires IsAvl(rt) && Map(rt) == Map(t.right)[key := value]
    requires Height(t.right) <= Height(rt) <= Height(t.right) + 1
    ensures IsAvl(Balance(t.(right := rt))) && Map(Balance(t.(right := rt))) == Map(t)[key := value]
    ensures Height(t) <= Height(Balance(t.(right := rt))) <= Height(t) + 1
    ensures key in Map(t) <==> key in Map(t.right)
  {
    Parts(t);
    SetRight(t, key, value, rt);
    BalanceKeeps(t.(right := rt));
  }

  /** put on an empty tree: a single leaf holding key. */
  lemma PutLeaf(key: int, value: Value)
    ensures var n: AvlTree := Node(key, value, Nil, Nil, 1); IsAvl(n) && Map(n) == map[key := value]
  {
    var n: AvlTree := Node(key, value, Nil, Nil, 1);
    assert InOrder(n) == [(key, value)];
    assert [(key, value)][..0] == [];
    assert MapOf([(key, value)]) == MapOf([])[key := value];
  }

  /** put of a key t holds at its root: the value is replaced in place. */
  lemma PutHere(t: AvlTree, value: Value)
    requires IsAvl(t) && t.Node?
    ensures IsAvl(t.(value := value)) && Map(t.(value := value)) == Map(t)[t.key := value]
    ensures Height(t.(value := value)) == Height(t)
  {
    var n := t.(value := value);
    Parts(t);
    Join(n);
    assert UpdateHeight(n) == n;
    NodeOrder(t);
    NodeOrder(n);
  }

  /** put keeps the tree AVL, adds or replaces just this key, and grows by at most one level. */
  lemma {:induction false} PutKeeps(t: AvlTree, key: int, value: Value)
    requires IsAvl(t)
    ensures IsAvl(PutRec(t, key, value).0)
    ensures Map(PutRec(t, key, value).0) == Map(t)[key := value]
    ensures PutRec(t, key, value).1 <==> key !in Map(t)
    ensures Height(t) <= Height(PutRec(t, key, value).0) <= Height(t) + 1
  {
    if t.Nil? {
      PutLeaf(key, value);
    } else {
      NodeOrder(t);
      Parts(t);
      if key < t.key {
        PutKeeps(t.left, key, value);
        PutLeft(t, key, value, PutRec(t.left, key, value).0);
      } else if key > t.key {
        PutKeeps(t.right, key, value);
        PutRight(t, key, value, PutRec(t.right, key, value).0);
      } else {
        PutHere(t, value);
      }
    }
  }

  /**
   * removeRecursive with its count of removed nodes corrected: a node with
   * at most one child is replaced by that child; one with two children takes
   * its successor's key and value, and the successor is removed from the
   * right subtree.
   */
  function RemoveRec(t: AvlTree, key: int): (r: (AvlTree, bool))
  {
    if t.Nil? then (Nil, false)
    else if key < t.key then
      var (l, removed) := RemoveRec(t.left, key);
      (Balance(t.(left := l)), removed)
    else if key > t.key then
      var (rt, removed) := RemoveRec(t.right, key);
      (Balance(t.(right := rt)), removed)
    else if t.left.Nil? || t.right.Nil? then
      var temp := if t.left.Node? then t.left else t.right;
      if temp.Nil? then (Nil, true) else (Balance(temp), true)
    else
      var m := Leftmost(t.right);
      (Balance(t.(key := m.key, value := m.value, right := RemoveRec(t.right, m.key).0)), true)
  }

  /** The left side of t lost key: the rebalanced node holds t's map without key, one level lower at most. */
  lemma RemoveLeft(t: AvlTree, key: int, l: AvlTree)
    requires IsAvl(t) && t.Node? && key < t.key
    requires IsAvl(l) && Map(l) == Map(t.left) - {key}
    requires Height(t.left) - 1 <= Height(l) <= Height(t.left)
    ensures IsAvl(Balance(t.(left := l))) && Map(Balance(t.(left := l))) == Map(t) - {key}
    ensures Height(t) - 1 <= Height(Balance(t.(left := l))) <= Height(t)
    ensures key in Map(t) <==> key in Map(t.left)
  {
    Parts(t);
    DropLeft(t, key, l);
    BalanceKeeps(t.(left := l));
  }

  /** The right side of t lost key: the mirror of RemoveLeft. */
  lemma RemoveRight(t: AvlTree, key: int, rt: AvlTree)
    requires IsAvl(t) && t.Node? && key > t.key
    requires IsAvl(rt) && Map(rt) == Map(t.right) - {key}
    requires Height(t.right) - 1 <= Height(rt) <= Height(t.right)
    ensures IsAvl(Balance(t.(right := rt))) && Map(Balance(t.(right := rt))) == Map(t) - {key}
    ensures Height(t) - 1 <= Height(Balance(t.(right := rt))) <= Height(t)
    ensures key in Map(t) <==> key in Map(t.right)
  {
    Parts(t);
    DropRight(t, key, rt);
    BalanceKeeps(t.(right := rt));
  }

  /** A root with at most one child is replaced by that child, rebalanced. */
  lemma RemoveOneChild(t: AvlTree)
    requires IsAvl(t) && t.Node? && (t.left.Nil? || t.right.Nil?)
    ensures var temp := if t.left.Node? then t.left else t.right;
      var r := if temp.Nil? then Nil else Balance(temp);
      IsAvl(r) && Map(r) == Map(t) - {t.key} && Height(t) - 1 <= Height(r) <= Height(t)
  {
    var temp := if t.left.Node? then t.left else t.right;
    assert IsAvl(temp) && Height(t) == Height(temp) + 1 by {
      Parts(t);
      NodeOrder(t);
    }
    assert Map(t) - {t.key} == Map(temp) by {
      NodeOrder(t);
    }
    if temp.Node? {
      Parts(temp);
      BalanceKeeps(temp);
      assert UpdateHeight(temp) == temp;
    }
  }

  /** A root with two children takes its successor's entry; the successor leaves the right side. */
  lemma RemoveTwoChildren(t: AvlTree, rt: AvlTree)
    requires IsAvl(t) && t.Node? && t.left.Node? && t.right.Node?
    requires IsAvl(rt) && Map(rt) == Map(t.right) - {Leftmost(t.right).key}
    requires Height(t.right) - 1 <= Height(rt) <= Height(t.right)
    ensures var m := Leftmost(t.right);
      var r := Balance(t.(key := m.key, value := m.value, right := rt));
      IsAvl(r) && Map(r) == Map(t) - {t.key} && Height(t) - 1 <= Height(r) <= Height(t)
  {
    var m := Leftmost(t.right);
    Parts(t);
    SuccessorOrder(t, rt);
    BalanceKeeps(t.(key := m.key, value := m.value, right := rt));
  }

  /** remove keeps the tree AVL, drops just this key, and shrinks by at most one level. */
  lemma {:induction false} RemoveKeeps(t: AvlTree, key: int)
    requires IsAvl(t)
    ensures IsAvl(RemoveRec(t, key).0)
    ensures Map(RemoveRec(t, key).0) == Map(t) - {key}
    ensures RemoveRec(t, key).1 <==> key in Map(t)
    ensures Height(t) - 1 <= Height(RemoveRec(t, key).0) <= Height(t)
  {
    if t.Node? {
      NodeOrder(t);
      Parts(t);
      if key < t.key {
        RemoveKeeps(t.left, key);
        RemoveLeft(t, key, RemoveRec(t.left, key).0);
      } else if key > t.key {
        RemoveKeeps(t.right, key);
        RemoveRight(t, key, RemoveRec(t.right, key).0);
      } else if t.left.Nil? || t.right.Nil? {
        RemoveOneChild(t);
      } else {
        RemoveKeeps(t.right, Leftmost(t.right).key);
        RemoveTwoChildren(t, RemoveRec(t.right, Leftmost(t.right).key).0);
      }
    }
  }

  /**
   * removeRecursive as written: `size--` runs where the key is matched, and
   * again inside the recursive call that deletes the successor of a node with
   * two children. The second component counts those decrements.
   */
  function RemoveRecAsWritten(t: AvlTree, key: int): (r: (AvlTree, nat))
  {
    if t.Nil? then (Nil, 0)
    else if key < t.key then
      var (l, n) := RemoveRecAsWritten(t.left, key);
      (Balance(t.(left := l)), n)
    else if key > t.key then
      var (rt, n) := RemoveRecAsWritten(t.right, key);
      (Balance(t.(right := rt)), n)
    else if t.left.Nil? || t.right.Nil? then
      var temp := if t.left.Node? then t.left else t.right;
      if temp.Nil? then (Nil, 1) else (Balance(temp), 1)
    else
      var m := Leftmost(t.right);
      var (rt, n) := RemoveRecAsWritten(t.right, m.key);
      (Balance(t.(key := m.key, value := m.value, right := rt)), 1 + n)
  }

  /** The three-node tree with a and c under b is AVL and maps exactly those three keys. */
  lemma ThreeNodes(a: int, b: int, c: int, va: Value, vb: Value, vc: Value)
    requires a < b < c
    ensures var t: AvlTree := Node(b, vb, Node(a, va, Nil, Nil, 1), Node(c, vc, Nil, Nil, 1), 2);
      IsAvl(t) && Map(t) == map[a := va, b := vb, c := vc]
  {
    var t: AvlTree := Node(b, vb, Node(a, va, Nil, Nil, 1), Node(c, vc, Nil, Nil, 1), 2);
    var s := [(a, va), (b, vb), (c, vc)];
    assert InOrder(t) == s by {
      assert InOrder(t.left) == [(a, va)] && InOrder(t.right) == [(c, vc)];
    }
    assert SortedKeys(s);
    assert MapOf(s) == map[a := va, b := vb, c := vc] by {
      assert s[..2][..1][..0] == [];
      assert MapOf(s[..2][..1]) == map[a := va];
      assert MapOf(s[..2]) == map[a := va, b := vb];
    }
    assert Shape(t) by {
      Join(t.left);
      Join(t.right);
      Join(t);
      assert UpdateHeight(t) == t;
    }
  }

  /**
   * put a, b, c in the order b, a, c gives b at the root with both children;
   * removing b then deletes one key but decrements size twice.
   */
  lemma RemoveCountsTwice(a: int, b: int, c: int, va: Value, vb: Value, vc: Value)
    requires a < b < c
    ensures var t: AvlTree := Node(b, vb, Node(a, va, Nil, Nil, 1), Node(c, vc, Nil, Nil, 1), 2);
      IsAvl(t) && |Map(t)| == 3 &&
      RemoveRecAsWritten(t, b).1 == 2 && |Map(RemoveRecAsWritten(t, b).0)| == 2
  {
    var t: AvlTree := Node(b, vb, Node(a, va, Nil, Nil, 1), Node(c, vc, Nil, Nil, 1), 2);
    ThreeNodes(a, b, c, va, vb, vc);
    assert Map(t).Keys == {a, b, c};
    RemoveKeeps(t, b);
    SameTree(t, b);
    assert Map(RemoveRecAsWritten(t, b).0).Keys == {a, c};
  }

  /** The tree the written code builds is the corrected one; only the count differs. */
  lemma {:induction false} SameTree(t: AvlTree, key: int)
    ensures RemoveRecAsWritten(t, key).0 == RemoveRec(t, key).0
    ensures RemoveRecAsWritten(t, key).1 >= (if RemoveRec(t, key).1 then 1 else 0)
  {
    if t.Node? {
      if key < t.key {
        SameTree(t.left, key);
      } else if key > t.key {
        SameTree(t.right, key);
      } else if t.left.Node? && t.right.Node? {
        SameTree(t.right, Leftmost(t.right).key);
      }
    }
  }

  class MyAvlMap {
    var root: AvlTree
    var size: nat

    ghost predicate Valid()
      reads this
    {
      IsAvl(root) && size == |Map(root)|
    }

    ghost function Contents(): map<int, Value>
      reads this
    {
      Map(root)
    }

    constructor ()
      ensures Valid() && Contents() == map[]
    {
      root := Nil;
      size := 0;
    }

    /** put: null keys are refused; the previous value (or null) is returned. */
    method Put(key: Option<int>, value: Value) returns (r: Result<Value>)
      requires Valid()
      modifies this
      ensures Valid()
      ensures key.None? ==> r == Err(NullPointer) && Contents() == old(Contents())
      ensures key.Some? ==> Contents() == old(Contents())[key.value := value]
      ensures key.Some? ==> r == Ok(if key.value in old(Contents()) then old(Contents())[key.value] else None)
    {
      if key.None? {
        return Err(NullPointer);
      }
      var k := key.value;
      var existing := GetRec(root, k);
      GetFinds(root, k);
      var oldValue := if existing.Node? then existing.value else None;
      PutKeeps(root, k, value);
      var (t, added) := PutRec(root, k, value);
      ghost var m := Map(root);
      root := t;
      if added {
        AddCard(m, k, value);
        size := size + 1;
      } else {
        assert Map(root).Keys == m.Keys;
      }
      r := Ok(oldValue);
    }

    /**
     * remove: null keys are refused; an absent key gives null and no change;
     * otherwise the removed value. size drops by one (the written code drops
     * it by two when the node has two children).
     */
    method Remove(key: Option<int>) returns (r: Result<Value>)
      requires Valid()
      modifies this
      ensures Valid()
      ensures key.None? ==> r == Err(NullPointer) && Contents() == old(Contents())
      ensures key.Some? ==> Contents() == old(Contents()) - {key.value}
      ensures key.Some? ==> r == Ok(if key.value in old(Contents()) then old(Contents())[key.value] else None)
    {
      if key.None? {
        return Err(NullPointer);
      }
      var k := key.value;
      var existing := GetRec(root, k);
      GetFinds(root, k);
      if existing.Nil? {
        return Ok(None);
      }
      var oldValue := existing.value;
      RemoveKeeps(root, k);
      ghost var m := Map(root);
      root := RemoveRec(root, k).0;
      RemoveCard(m, k);
      size := size - 1;
      r := Ok(oldValue);
    }

    /** get: null keys are refused; the value, or null for an absent key. */
    method Get(key: Option<int>) returns (r: Result<Value>)
      requires Valid()
      ensures key.None? ==> r == Err(NullPointer)
      ensures key.Some? ==> r == Ok(if key.value in Contents() then Contents()[key.value] else None)
    {
      if key.None? {
        return Err(NullPointer);
      }
      var node := GetRec(root, key.value);
      GetFinds(root, key.value);
      r := Ok(if node.Node? then node.value else None);
    }

    /** containsKey: null keys are refused. */
    method ContainsKey(key: Option<int>) returns (r: Result<bool>)
      requires Valid()
      ensures key.None? ==> r == Err(NullPointer)
      ensures key.Some? ==> r == Ok(key.value in Contents())
    {
      if key.None? {
        return Err(NullPointer);
      }
      GetFinds(root, key.value);
      r := Ok(GetRec(root, key.value).Node?);
    }

    function Size(): (r: nat)
      reads this
      requires Valid()
      ensures r == |Contents()|
    {
      size
    }

    function IsEmpty(): (r: bool)
      reads this
      requires Valid()
      ensures r <==> Contents() == map[]
    {
      if size == 0 then true
      else
        assert Contents().Keys != {};
        false
    }

    method Clear()
      modifies this
      ensures Valid() && Contents() == map[]
    {
      root := Nil;
      size := 0;
    }
  }
}
