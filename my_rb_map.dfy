/**
 * An Integer -> String sorted map on a left-leaning red-black tree
 * (lesson12/MyRbMap.java). Every node records the color of the link from
 * its parent. The tree keeps four rules: red links lean left, no node has
 * two red links in a row, every path from the root down to a null link
 * crosses the same number of black links, and the root is black.
 * Insertion repairs these rules on the way up with balance; deletion
 * pushes a red link down ahead of the search (moveRedLeft, moveRedRight)
 * and repairs on the way up with fixUp.
 */
module MyRbMap {
  import opened Common
  import opened SearchTree

  /** The per-node data is the color of the link from the parent: true is red, as RED in the source. */
  type RbTree = Tree<bool>

  const Red := true
  const Black := false

  /** isRed: a null link is black. */
  predicate IsRed(t: RbTree) {
    t.Node? && t.aux == Red
  }

  /** The number of black links below the root on the leftmost path; the rules make every path agree. */
  ghost function BlackHeight(t: RbTree): nat {
    if t.Nil? then 0 else BlackHeight(t.left) + (if t.aux == Red then 0 else 1)
  }

  /**
   * The left-leaning red-black rules below the root: both sides of every
   * node have the same black height, no right link is red, and a red node
   * has no red left link.
   */
  ghost predicate Llrb(t: RbTree) {
    t.Nil? ||
    (Llrb(t.left) && Llrb(t.right) && BlackHeight(t.left) == BlackHeight(t.right) &&
     !IsRed(t.right) && (t.aux == Red ==> !IsRed(t.left)))
  }

  /** A red node over a red left link: the one break of the rules an insertion below a red node hands up. */
  ghost predicate TwoReds(t: RbTree) {
    t.Node? && t.aux == Red && IsRed(t.left) && Llrb(t.left) && Llrb(t.right) &&
    !IsRed(t.right) && BlackHeight(t.left) == BlackHeight(t.right)
  }

  /** rotateLeft: the right child rises and takes h's color; h becomes its red left child. */
  function RotateLeft(h: RbTree): (r: RbTree)
    requires h.Node? && h.right.Node?
    ensures r.Node? && r.aux == h.aux && IsRed(r.left) && r.right == h.right.right
    ensures InOrder(r) == InOrder(h)
  {
    var x := h.right;
    RotateLeftInOrder(h, Red, h.aux);
    Node(x.key, x.value, Node(h.key, h.value, h.left, x.left, Red), x.right, h.aux)
  }

  /** rotateRight: the left child rises and takes h's color; h becomes its red right child. */
  function RotateRight(h: RbTree): (r: RbTree)
    requires h.Node? && h.left.Node?
    ensures r.Node? && r.aux == h.aux && IsRed(r.right) && r.left == h.left.left
    ensures InOrder(r) == InOrder(h)
  {
    var x := h.left;
    RotateRightInOrder(h, Red, h.aux);
    Node(x.key, x.value, x.left, Node(h.key, h.value, x.right, h.right, Red), h.aux)
  }

  /** flipColors: h and both its children change color; neither child may be null. */
  function FlipColors(h: RbTree): (r: RbTree)
    requires h.Node? && h.left.Node? && h.right.Node?
    ensures r.Node? && r.left.Node? && r.right.Node?
    ensures r.aux == !h.aux && r.left.aux == !h.left.aux && r.right.aux == !h.right.aux
    ensures InOrder(r) == InOrder(h)
  {
    Node(h.key, h.value, h.left.(aux := !h.left.aux), h.right.(aux := !h.right.aux), !h.aux)
  }

  /** balance: lean a lone red right link left, split two red links in a row, then flip two red links. */
  function Balance(h: RbTree): (r: RbTree)
    requires h.Node?
    ensures r.Node? && InOrder(r) == InOrder(h)
  {
    var h1 := if IsRed(h.right) && !IsRed(h.left) then RotateLeft(h) else h;
    var h2 := if IsRed(h1.left) && IsRed(h1.left.left) then RotateRight(h1) else h1;
    if IsRed(h2.left) && IsRed(h2.right) then FlipColors(h2) else h2
  }

  /** fixUp: as balance, except that any red right link is rotated left. */
  function FixUp(h: RbTree): (r: RbTree)
    requires h.Node?
    ensures r.Node? && InOrder(r) == InOrder(h)
  {
    var h1 := if IsRed(h.right) then RotateLeft(h) else h;
    var h2 := if IsRed(h1.left) && IsRed(h1.left.left) then RotateRight(h1) else h1;
    if IsRed(h2.left) && IsRed(h2.right) then FlipColors(h2) else h2
  }

  /** moveRedLeft: flip, and when the right side's left link is then red, borrow it through two rotations and flip back. */
  function MoveRedLeft(h: RbTree): (r: RbTree)
    requires h.Node? && h.left.Node? && h.right.Node?
    ensures r.Node? && InOrder(r) == InOrder(h)
  {
    var f := FlipColors(h);
    if IsRed(f.right.left) then FlipColors(RotateLeft(f.(right := RotateRight(f.right))))
    else f
  }

  /** moveRedRight: flip, and when the left side's left link is red, rotate right and flip back. */
  function MoveRedRight(h: RbTree): (r: RbTree)
    requires h.Node? && h.left.Node? && h.right.Node?
    ensures r.Node? && InOrder(r) == InOrder(h)
  {
    var f := FlipColors(h);
    if IsRed(f.left.left) then FlipColors(RotateRight(f)) else f
  }

  /** Before going left in deleteMin and removeRecursive: move a red link left when the left side has none. */
  function PushRedLeft(h: RbTree): (r: RbTree)
    requires h.Node? && h.left.Node?
    requires !IsRed(h.left) && !IsRed(h.left.left) ==> h.right.Node?
    ensures r.Node? && InOrder(r) == InOrder(h)
  {
    if !IsRed(h.left) && !IsRed(h.left.left) then MoveRedLeft(h) else h
  }

  /** Before going right in removeRecursive: a red left link is rotated to the right. */
  function LeanRight(h: RbTree): (r: RbTree)
    requires h.Node?
    ensures r.Node? && InOrder(r) == InOrder(h)
  {
    if IsRed(h.left) then RotateRight(h) else h
  }

  /** Then, move a red link right when the right side has none. */
  function PushRedRight(h: RbTree): (r: RbTree)
    requires h.Node? && h.right.Node?
    requires !IsRed(h.right) && !IsRed(h.right.left) ==> h.left.Node?
    ensures r.Node? && InOrder(r) == InOrder(h)
  {
    if !IsRed(h.right) && !IsRed(h.right.left) then MoveRedRight(h) else h
  }

  // ---------------------------------------------------------------------
  // Insertion

  /** putRecursive: the new subtree, and whether a node was added (the source's size++). */
  function PutRec(t: RbTree, key: int, value: Value): (r: (RbTree, bool))
    ensures r.0.Node?
  {
    if t.Nil? then (Node(key, value, Nil, Nil, Red), true)
    else if key < t.key then
      var p := PutRec(t.left, key, value);
      (Balance(t.(left := p.0)), p.1)
    else if key > t.key then
      var p := PutRec(t.right, key, value);
      (Balance(t.(right := p.0)), p.1)
    else (Balance(t.(value := value)), false)
  }

  /** A tree that already keeps the rules comes out of balance and fixUp unchanged. */
  lemma RepairKeepsLlrb(h: RbTree)
    requires h.Node? && Llrb(h)
    ensures Balance(h) == h && FixUp(h) == h
  {
  }

  /** balance at a black node whose sides keep the rules, or whose left side has two reds in a row. */
  lemma BalanceBlack(h: RbTree)
    requires h.Node? && h.aux == Black
    requires Llrb(h.left) || TwoReds(h.left)
    requires Llrb(h.right) && BlackHeight(h.left) == BlackHeight(h.right)
    requires TwoReds(h.left) ==> !IsRed(h.right)
    ensures Llrb(Balance(h)) && BlackHeight(Balance(h)) == BlackHeight(h)
  {
    if TwoReds(h.left) {
      var l := h.left;
      var x := RotateRight(h);
      Recolor(l.left, Black);
      var y: RbTree := Node(h.key, h.value, l.right, h.right, Black);
      assert Llrb(y) && BlackHeight(y) == BlackHeight(l.left) + 1;
      assert Balance(h) == FlipColors(x) == Node(l.key, l.value, l.left.(aux := Black), y, Red);
    } else if IsRed(h.right) && !IsRed(h.left) {
      var r := h.right;
      var y: RbTree := Node(h.key, h.value, h.left, r.left, Red);
      assert Llrb(y) && BlackHeight(y) == BlackHeight(h.left);
      assert Balance(h) == RotateLeft(h) == Node(r.key, r.value, y, r.right, Black);
    } else if IsRed(h.right) {
      Recolor(h.left, Black);
      Recolor(h.right, Black);
      assert Balance(h) == FlipColors(h);
    } else {
      assert Balance(h) == h;
    }
  }

  /** balance at a red node whose sides keep the rules and are not both red. */
  lemma BalanceRed(h: RbTree)
    requires h.Node? && h.aux == Red
    requires Llrb(h.left) && Llrb(h.right) && BlackHeight(h.left) == BlackHeight(h.right)
    requires !(IsRed(h.left) && IsRed(h.right))
    ensures Llrb(Balance(h)) || TwoReds(Balance(h))
    ensures BlackHeight(Balance(h)) == BlackHeight(h)
  {
    if IsRed(h.right) {
      var x := RotateLeft(h);
      assert Balance(h) == x;
      assert TwoReds(x);
    }
  }

  /** A new leaf holds just its entry. */
  lemma PutLeaf(key: int, value: Value)
    ensures var n: RbTree := Node(key, value, Nil, Nil, Red);
      Ordered(n) && Map(n) == map[key := value]
  {
    var n: RbTree := Node(key, value, Nil, Nil, Red);
    assert InOrder(n) == [(key, value)];
    assert MapOf([(key, value)]) == MapOf([])[key := value];
  }

  /** The insertion went left: balance keeps the order, the content and the rules. */
  lemma PutLeft(t: RbTree, key: int, value: Value, l: RbTree)
    requires t.Node? && Llrb(t) && Ordered(t) && key < t.key
    requires Ordered(l) && Map(l) == Map(t.left)[key := value]
    requires BlackHeight(l) == BlackHeight(t.left) && (Llrb(l) || TwoReds(l))
    requires !IsRed(t.left) ==> Llrb(l)
    ensures var r := Balance(t.(left := l));
      Ordered(r) && Map(r) == Map(t)[key := value] && BlackHeight(r) == BlackHeight(t) &&
      (Llrb(r) || TwoReds(r)) && (t.aux == Black ==> Llrb(r))
    ensures key in Map(t) <==> key in Map(t.left)
  {
    SetLeft(t, key, value, l);
    if t.aux == Red {
      BalanceRed(t.(left := l));
    } else {
      BalanceBlack(t.(left := l));
    }
  }

  /** The insertion went right: the mirror of PutLeft. */
  lemma PutRight(t: RbTree, key: int, value: Value, rt: RbTree)
    requires t.Node? && Llrb(t) && Ordered(t) && key > t.key
    requires Ordered(rt) && Map(rt) == Map(t.right)[key := value]
    requires BlackHeight(rt) == BlackHeight(t.right) && Llrb(rt)
    ensures var r := Balance(t.(right := rt));
      Ordered(r) && Map(r) == Map(t)[key := value] && BlackHeight(r) == BlackHeight(t) &&
      (Llrb(r) || TwoReds(r)) && (t.aux == Black ==> Llrb(r))
    ensures key in Map(t) <==> key in Map(t.right)
  {
    SetRight(t, key, value, rt);
    if t.aux == Red {
      BalanceRed(t.(right := rt));
    } else {
      BalanceBlack(t.(right := rt));
    }
  }

  /**
   * put keeps the order and the black height, adds or replaces just this
   * key, and hands up a tree that keeps the rules, except under a red node,
   * where it may be a red node over a red left link.
   */
  lemma {:induction false} PutKeeps(t: RbTree, key: int, value: Value)
    requires Llrb(t) && Ordered(t)
    ensures Ordered(PutRec(t, key, value).0)
    ensures Map(PutRec(t, key, value).0) == Map(t)[key := value]
    ensures PutRec(t, key, value).1 <==> key !in Map(t)
    ensures BlackHeight(PutRec(t, key, value).0) == BlackHeight(t)
    ensures Llrb(PutRec(t, key, value).0) || TwoReds(PutRec(t, key, value).0)
    ensures !IsRed(t) ==> Llrb(PutRec(t, key, value).0)
  {
    if t.Nil? {
      PutLeaf(key, value);
      return;
    }
    NodeOrder(t);
    if key < t.key {
      PutKeeps(t.left, key, value);
      PutLeft(t, key, value, PutRec(t.left, key, value).0);
    } else if key > t.key {
      PutKeeps(t.right, key, value);
      PutRight(t, key, value, PutRec(t.right, key, value).0);
    } else {
      ReplaceHere(t, value);
      RepairKeepsLlrb(t.(value := value));
      NodeOrder(t);
    }
  }

  /** Painting the root black turns either result of put into a tree that keeps all the rules. */
  lemma BlackRoot(t: RbTree)
    requires t.Node? && (Llrb(t) || TwoReds(t))
    ensures Llrb(t.(aux := Black)) && !IsRed(t.(aux := Black))
    ensures InOrder(t.(aux := Black)) == InOrder(t)
  {
  }

  // ---------------------------------------------------------------------
  // Deletion

  /** Recoloring the root of a tree that keeps the rules: still kept, unless red lands on a red left link. */
  lemma Recolor(t: RbTree, c: bool)
    requires t.Node? && Llrb(t) && (c == Red ==> !IsRed(t.left))
    ensures Llrb(t.(aux := c))
    ensures BlackHeight(t.(aux := c)) == BlackHeight(t.left) + (if c == Red then 0 else 1)
  {
  }

  /** What deleteMin and removeRecursive need on the way down: the rules, and a red link at h or at its left. */
  ghost predicate RedAtOrBelow(h: RbTree) {
    h.Node? && Llrb(h) && (IsRed(h) || IsRed(h.left))
  }

  /** A black node whose red link leans right: what moveRedRight hands down after its rotation. */
  ghost predicate RedOnRight(h: RbTree) {
    h.Node? && h.aux == Black && !IsRed(h.left) && IsRed(h.right) &&
    Llrb(h.left) && Llrb(h.right) && BlackHeight(h.left) == BlackHeight(h.right)
  }

  /** removeRecursive's demand on h: key present, order, and a red link where the search goes next. */
  ghost predicate RemovePre(h: RbTree, key: int) {
    Ordered(h) && key in Map(h) && (RedAtOrBelow(h) || (RedOnRight(h) && h.key <= key))
  }

  /** g, the node after the step before going left from h, is ready: its left side has a red link to spend. */
  ghost predicate LeftReady(g: RbTree, h: RbTree) {
    g.Node? && RedAtOrBelow(g.left) && Llrb(g.right) &&
    BlackHeight(g.left) == BlackHeight(g.right) && BlackHeight(g) == BlackHeight(h) &&
    (g.aux == Red ==> !IsRed(g.left) && !IsRed(g.right)) &&
    (!IsRed(h) ==> !IsRed(g) && !IsRed(g.right))
  }

  /** fixUp on a node whose sides keep the rules restores them, and keeps a black node black unless both sides are red. */
  lemma FixUpKeeps(n: RbTree)
    requires n.Node? && Llrb(n.left) && Llrb(n.right)
    requires BlackHeight(n.left) == BlackHeight(n.right)
    requires n.aux == Red ==> !IsRed(n.left) && !IsRed(n.right)
    ensures Llrb(FixUp(n)) && BlackHeight(FixUp(n)) == BlackHeight(n)
    ensures !IsRed(n) && !(IsRed(n.left) && IsRed(n.right)) ==> !IsRed(FixUp(n))
  {
    if n.aux == Red || !IsRed(n.right) {
      RepairKeepsLlrb(n);
    } else if IsRed(n.left) {
      var x := RotateLeft(n);
      var y := RotateRight(x);
      assert FixUp(n) == FlipColors(y);
    }
  }

  /** moveRedLeft when the right side's left link is black: one flip. */
  lemma MoveLeftFlip(h: RbTree)
    requires RedAtOrBelow(h) && h.left.Node? && !IsRed(h.left) && !IsRed(h.left.left)
    requires h.right.Node? && !IsRed(h.right.left)
    ensures LeftReady(MoveRedLeft(h), h) && MoveRedLeft(h).key == h.key
  {
    assert MoveRedLeft(h) == FlipColors(h);
    Recolor(h.left, Red);
    Recolor(h.right, Red);
  }

  /** moveRedLeft when the right side's left link is red: the red link is borrowed from the right. */
  lemma MoveLeftBorrow(h: RbTree)
    requires RedAtOrBelow(h) && h.left.Node? && !IsRed(h.left) && !IsRed(h.left.left)
    requires h.right.Node? && IsRed(h.right.left)
    ensures LeftReady(MoveRedLeft(h), h) && MoveRedLeft(h).key == h.right.left.key
  {
    Recolor(h.left, Red);
    var l, rt, rl := h.left, h.right, h.right.left;
    assert Llrb(rt) && rt.aux == Black && Llrb(rl) && !IsRed(rl.left) && !IsRed(rt.right);
    assert BlackHeight(rl.left) == BlackHeight(rl.right) == BlackHeight(rt.right) == BlackHeight(l) - 1;
    var g := MoveRedLeft(h);
    assert g == Node(rl.key, rl.value,
      Node(h.key, h.value, l.(aux := Red), rl.left, Black),
      Node(rt.key, rt.value, rl.right, rt.right, Black), Red);
  }

  /** The step before going left leaves a node ready for the descent. */
  lemma PushRedLeftReady(h: RbTree)
    requires RedAtOrBelow(h) && h.left.Node?
    ensures !IsRed(h.left) && !IsRed(h.left.left) ==> h.right.Node?
    ensures LeftReady(PushRedLeft(h), h)
    ensures PushRedLeft(h).key == h.key ||
      (h.right.Node? && h.right.left.Node? && PushRedLeft(h).key == h.right.left.key)
  {
    if !IsRed(h.left) && !IsRed(h.left.left) {
      assert h.right.Node? by {
        assert BlackHeight(h.left) > 0;
      }
      if IsRed(h.right.left) {
        MoveLeftBorrow(h);
      } else {
        MoveLeftFlip(h);
      }
    }
  }

  /** The minimum has no left child: it is the whole tree. */
  lemma MinIsLast(h: RbTree)
    requires RedAtOrBelow(h) && h.left.Nil?
    ensures h.right.Nil? && BlackHeight(h) == 0
    ensures Map(h) - {Leftmost(h).key} == map[]
  {
    assert InOrder(h) == [(h.key, h.value)];
    assert MapOf([(h.key, h.value)]) == MapOf([])[h.key := h.value];
  }

  /** After the left side lost its minimum, the node holds h's map without h's least key. */
  lemma MinDropped(h: RbTree, g: RbTree, l: RbTree)
    requires g.Node? && g.left.Node? && InOrder(g) == InOrder(h)
    requires Ordered(g.left) ==> Ordered(l) && Map(l) == Map(g.left) - {Leftmost(g.left).key}
    ensures h.Node?
    ensures Ordered(h) ==> Ordered(g.(left := l)) && Map(g.(left := l)) == Map(h) - {Leftmost(h).key}
  {
    assert h.Node? by {
      assert |InOrder(h)| > 0;
    }
    if Ordered(h) {
      NodeOrder(g);
      SameLeftmost(g, h);
      var k := Leftmost(g.left).key;
      assert k < g.key && k == Leftmost(h).key by {
        LeftmostIsMin(g.left);
        KeyBelowRoot(g, k);
      }
      DropLeft(g, k, l);
    }
  }

  /** Two trees with the same in-order sequence have the same least key. */
  lemma SameLeftmost(g: RbTree, h: RbTree)
    requires g.Node? && h.Node? && InOrder(g) == InOrder(h)
    ensures Leftmost(g).key == Leftmost(h).key
  {
    LeftmostFirst(g);
    LeftmostFirst(h);
  }

  /** A key of the left side lies below the root. */
  lemma KeyBelowRoot(g: RbTree, k: int)
    requires g.Node? && Ordered(g) && k in Map(g.left)
    ensures k < g.key
  {
    NodeOrder(g);
  }

  /** deleteMin: remove the least key of a subtree that has a red link at its root or its left. */
  function DeleteMin(h: RbTree): (r: RbTree)
    requires RedAtOrBelow(h)
    ensures Llrb(r) && BlackHeight(r) == BlackHeight(h)
    ensures !IsRed(h) ==> !IsRed(r)
    ensures Ordered(h) ==> Ordered(r) && Map(r) == Map(h) - {Leftmost(h).key}
    decreases |InOrder(h)|
  {
    if h.left.Nil? then
      MinIsLast(h);
      Nil
    else
      PushRedLeftReady(h);
      var g := PushRedLeft(h);
      var l := DeleteMin(g.left);
      FixUpKeeps(g.(left := l));
      MinDropped(h, g, l);
      FixUp(g.(left := l))
  }

  /** The node after the steps before going right from h is ready for the descent after key. */
  ghost predicate RightReady(g: RbTree, h: RbTree, key: int) {
    g.Node? && g.right.Node? && Llrb(g.left) && Ordered(g) && Ordered(g.right) &&
    BlackHeight(g.left) == BlackHeight(g.right) && BlackHeight(g) == BlackHeight(h) &&
    (g.aux == Red ==> !IsRed(g.left) && !IsRed(g.right)) &&
    (!IsRed(h) ==> !IsRed(g) && !IsRed(g.left)) &&
    g.key <= key &&
    (key == g.key ==> RedAtOrBelow(g.right)) &&
    (key != g.key ==> RemovePre(g.right, key))
  }

  /** The key is the root's and the right side is null: the root is a lone red leaf. */
  lemma RemoveLast(h: RbTree, key: int)
    requires RemovePre(h, key) && h.key <= key
    requires key == LeanRight(h).key && LeanRight(h).right.Nil?
    ensures BlackHeight(h) == 0 && Map(h) - {key} == map[]
  {
    ChildKeys(h);
    assert InOrder(h) == [(h.key, h.value)];
    assert MapOf([(h.key, h.value)]) == MapOf([])[h.key := h.value];
  }

  /** A red left link at h: rotateRight leaves a black node whose red link leans right. */
  lemma RightRotated(h: RbTree)
    requires RedAtOrBelow(h) && IsRed(h.left)
    ensures RedOnRight(RotateRight(h)) && BlackHeight(RotateRight(h)) == BlackHeight(h)
    ensures RedAtOrBelow(RotateRight(h).right)
  {
  }

  /** h red, its right side black with a red left link: nothing to move. */
  lemma RightNoMove(h: RbTree)
    requires RedAtOrBelow(h) && h.aux == Red && h.right.Node? && IsRed(h.right.left)
    ensures RedAtOrBelow(h.right)
  {
  }

  /** moveRedRight when the left side's left link is black: one flip makes both sides red. */
  lemma MoveRightFlip(h: RbTree)
    requires RedAtOrBelow(h) && h.aux == Red && h.right.Node? && !IsRed(h.right.left)
    requires h.left.Node? && !IsRed(h.left.left)
    ensures var g := MoveRedRight(h);
      g.key == h.key && g.aux == Black && Llrb(g.left) && RedAtOrBelow(g.right) &&
      BlackHeight(g.left) == BlackHeight(g.right) && BlackHeight(g) == BlackHeight(h)
  {
    assert MoveRedRight(h) == FlipColors(h);
    Recolor(h.left, Red);
    Recolor(h.right, Red);
  }

  /** moveRedRight when the left side's left link is red: a rotation hands a red-on-right node down. */
  lemma MoveRightRotate(h: RbTree)
    requires RedAtOrBelow(h) && h.aux == Red && h.right.Node? && !IsRed(h.right.left)
    requires h.left.Node? && IsRed(h.left.left)
    ensures var g := MoveRedRight(h);
      g.key == h.left.key && g.aux == Red && g.right.Node? && g.right.key == h.key &&
      Llrb(g.left) && !IsRed(g.left) && RedOnRight(g.right) &&
      BlackHeight(g.left) == BlackHeight(g.right) && BlackHeight(g) == BlackHeight(h)
  {
    var l, rt := h.left, h.right;
    assert Llrb(l) && l.aux == Black && Llrb(rt) && rt.aux == Black;
    assert BlackHeight(l.right) == BlackHeight(l) - 1 == BlackHeight(rt) - 1;
    Recolor(l.left, Black);
    Recolor(rt, Red);
    assert MoveRedRight(h) == Node(l.key, l.value, l.left.(aux := Black),
      Node(h.key, h.value, l.right, rt.(aux := Red), Black), Red);
  }

  /** The steps before going right from a node with a red left link: one rotation, no move. */
  lemma RightReadyRotated(h: RbTree, key: int)
    requires RemovePre(h, key) && h.key <= key && IsRed(h.left)
    ensures LeanRight(h).right.Node? && IsRed(LeanRight(h).right)
    ensures RightReady(PushRedRight(LeanRight(h)), h, key)
  {
    var g := RotateRight(h);
    RightRotated(h);
    assert g.key < key by {
      ChildKeys(h);
    }
    KeyAbove(g, key);
  }

  /** The steps before going right from a black node whose red link leans right: nothing to do. */
  lemma RightReadyAsIs(h: RbTree, key: int)
    requires RemovePre(h, key) && RedOnRight(h) && h.key <= key
    ensures LeanRight(h).right.Node? && IsRed(LeanRight(h).right)
    ensures RightReady(PushRedRight(LeanRight(h)), h, key)
  {
    if key != h.key {
      KeyAbove(h, key);
    } else {
      NodeOrder(h);
    }
  }

  /** The steps before going right from a red node: moveRedRight unless the right side has a red left link. */
  lemma RightReadyRed(h: RbTree, key: int)
    requires RemovePre(h, key) && h.aux == Red && h.key <= key
    requires !(key == h.key && h.right.Nil?)
    ensures h.right.Node? && h.left.Node? && LeanRight(h) == h
    ensures RightReady(PushRedRight(h), h, key)
  {
    assert h.right.Node? by {
      if key != h.key {
        KeyAbove(h, key);
      }
    }
    assert h.left.Node? by {
      assert BlackHeight(h.right) > 0;
    }
    var g2 := PushRedRight(h);
    if IsRed(h.right.left) {
      RightNoMove(h);
      if key != h.key {
        KeyAbove(h, key);
      } else {
        NodeOrder(h);
      }
    } else if IsRed(h.left.left) {
      MoveRightRotate(h);
      assert g2.key < key by {
        ChildKeys(h);
      }
      KeyAbove(g2, key);
    } else {
      MoveRightFlip(h);
      if key != h.key {
        KeyAbove(g2, key);
      } else {
        NodeOrder(g2);
      }
    }
  }

  /** The steps before going right leave a node ready for the descent. */
  lemma RightShape(h: RbTree, key: int)
    requires RemovePre(h, key) && h.key <= key
    requires !(key == LeanRight(h).key && LeanRight(h).right.Nil?)
    ensures LeanRight(h).right.Node?
    ensures !IsRed(LeanRight(h).right) && !IsRed(LeanRight(h).right.left) ==> LeanRight(h).left.Node?
    ensures RightReady(PushRedRight(LeanRight(h)), h, key)
  {
    if IsRed(h.left) {
      RightReadyRotated(h, key);
    } else if RedOnRight(h) && h.key <= key {
      RightReadyAsIs(h, key);
    } else {
      RightReadyRed(h, key);
    }
  }

  /** A present key at or above the root's but not the root's: the right side is in order and holds it. */
  lemma KeyAbove(g: RbTree, key: int)
    requires g.Node? && Ordered(g) && key in Map(g) && g.key < key
    ensures Ordered(g.left) && Ordered(g.right) && key in Map(g.right)
  {
    NodeOrder(g);
  }

  /** The left child of the right child lies above the root. */
  lemma RightLeftKey(t: RbTree)
    requires t.Node? && Ordered(t) && t.right.Node? && t.right.left.Node?
    ensures t.key < t.right.left.key
  {
    NodeOrder(t);
    NodeOrder(t.right);
    var s := InOrder(t.right.left);
    assert s[|InOrder(t.right.left.left)|].0 == t.right.left.key;
    MapOfKeys(s);
    assert t.right.left.key in Map(t.right.left);
    assert t.right.left.key in Map(t.right);
  }

  /** The step before going left, for a key below the root's. */
  lemma LeftShape(h: RbTree, key: int)
    requires RemovePre(h, key) && key < h.key
    ensures h.left.Node?
    ensures !IsRed(h.left) && !IsRed(h.left.left) ==> h.right.Node?
    ensures LeftReady(PushRedLeft(h), h)
    ensures key < PushRedLeft(h).key && RemovePre(PushRedLeft(h).left, key)
  {
    KeyInLeft(h, key);
    PushRedLeftReady(h);
    var g := PushRedLeft(h);
    assert key < g.key by {
      if g.key != h.key {
        RightLeftKey(h);
      }
    }
    assert Ordered(g) && key in Map(g);
    KeyInLeft(g, key);
  }

  /**
   * removeRecursive: remove a present key from a subtree with a red link
   * where the search goes next; the count is the number of times size is
   * decremented.
   */
  function RemoveRec(h: RbTree, key: int): (r: (RbTree, nat))
    requires RemovePre(h, key)
    ensures Llrb(r.0) && BlackHeight(r.0) == BlackHeight(h)
    ensures !IsRed(h) ==> !IsRed(r.0)
    ensures Ordered(r.0) && Map(r.0) == Map(h) - {key}
    ensures r.1 == 1
    decreases |InOrder(h)|
  {
    if key < h.key then
      LeftShape(h, key);
      var g := PushRedLeft(h);
      var p := RemoveRec(g.left, key);
      FixUpKeeps(g.(left := p.0));
      DropLeft(g, key, p.0);
      (FixUp(g.(left := p.0)), p.1)
    else
      var g := LeanRight(h);
      if key == g.key && g.right.Nil? then
        RemoveLast(h, key);
        (Nil, 1)
      else
        RightShape(h, key);
        var g2 := PushRedRight(g);
        if key == g2.key then
          var m := Leftmost(g2.right);
          var rt := DeleteMin(g2.right);
          var n := g2.(key := m.key, value := m.value, right := rt);
          FixUpKeeps(n);
          SuccessorOrder(g2, rt);
          (FixUp(n), 1)
        else
          var p := RemoveRec(g2.right, key);
          FixUpKeeps(g2.(right := p.0));
          DropRight(g2, key, p.0);
          (FixUp(g2.(right := p.0)), p.1)
  }

  // ---------------------------------------------------------------------
  // Queries and views

  /** containsValueRecursive: the node's own value first, then the left side, then the right. */
  function ContainsValueRec(t: RbTree, value: Value): (r: bool)
    ensures r ==> t.Node?
  {
    if t.Nil? then false
    else if t.value == value then true
    else ContainsValueRec(t.left, value) || ContainsValueRec(t.right, value)
  }

  /** A value of a map is the value of some key. */
  lemma ValueHasKey(m: map<int, Value>, v: Value)
    requires v in m.Values
    ensures exists k :: k in m && m[k] == v
  {
    if forall k :: k in m ==> m[k] != v {
      assert false;
    }
  }

  /** The search for a value finds it exactly when some key maps to it. */
  lemma {:induction false} ContainsValueFinds(t: RbTree, value: Value)
    requires Ordered(t)
    ensures ContainsValueRec(t, value) <==> value in Map(t).Values
  {
    if t.Node? {
      NodeOrder(t);
      ContainsValueFinds(t.left, value);
      ContainsValueFinds(t.right, value);
      var ml, mr := Map(t.left), Map(t.right);
      if ContainsValueRec(t, value) {
        if t.value != value && ContainsValueRec(t.left, value) {
          ValueHasKey(ml, value);
          var k :| k in ml && ml[k] == value;
          assert k < t.key && k !in mr;
          assert Map(t)[k] == value;
        } else if t.value != value {
          ValueHasKey(mr, value);
          var k :| k in mr && mr[k] == value;
          assert t.key < k;
          assert Map(t)[k] == value;
        } else {
          assert Map(t)[t.key] == value;
        }
      } else {
        forall k | k in Map(t)
          ensures Map(t)[k] != value
        {
          if k != t.key && k in mr {
            assert Map(t)[k] == mr[k];
          } else if k != t.key {
            assert Map(t)[k] == ml[k];
          }
        }
      }
    }
  }

  /** findFirstKey: follow left links to the end; null for an empty tree. */
  method FindFirstKey(t: RbTree) returns (k: Option<int>)
    ensures t.Nil? ==> k == None
    ensures t.Node? ==> k == Some(Leftmost(t).key)
  {
    if t.Nil? {
      return None;
    }
    var n := t;
    while n.left.Node?
      invariant n.Node? && Leftmost(n) == Leftmost(t)
      decreases n
    {
      n := n.left;
    }
    k := Some(n.key);
  }

  /** findLastKey: follow right links to the end; null for an empty tree. */
  method FindLastKey(t: RbTree) returns (k: Option<int>)
    ensures t.Nil? ==> k == None
    ensures t.Node? ==> k == Some(Rightmost(t).key)
  {
    if t.Nil? {
      return None;
    }
    var n := t;
    while n.right.Node?
      invariant n.Node? && Rightmost(n) == Rightmost(t)
      decreases n
    {
      n := n.right;
    }
    k := Some(n.key);
  }

  /** The entries of m whose keys lie below toKey. */
  ghost function KeysBelow(m: map<int, Value>, toKey: int): map<int, Value> {
    map q | q in m && q < toKey :: m[q]
  }

  /** The entries of m whose keys are fromKey or above. */
  ghost function KeysFrom(m: map<int, Value>, fromKey: int): map<int, Value> {
    map q | q in m && fromKey <= q :: m[q]
  }

  /** Adding an entry before or after joining maps that do not hold its key is the same. */
  lemma UpdateJoin(c: map<int, Value>, a: map<int, Value>, b: map<int, Value>, k: int, v: Value, add: bool)
    requires k !in b
    ensures (if add then (c + a)[k := v] else c + a) + b == c + (if add then (a + b)[k := v] else a + b)
  {
  }

  /** The left side's part, then the root entry when below toKey, then the right side's part. */
  lemma BelowJoin(c: map<int, Value>, ml: map<int, Value>, mr: map<int, Value>, k: int, v: Value, toKey: int)
    requires k !in mr
    ensures (if k < toKey then (c + KeysBelow(ml, toKey))[k := v] else c + KeysBelow(ml, toKey)) +
      KeysBelow(mr, toKey) == c + KeysBelow((ml + mr)[k := v], toKey)
  {
    var a, b := KeysBelow(ml, toKey), KeysBelow(mr, toKey);
    assert KeysBelow((ml + mr)[k := v], toKey) == if k < toKey then (a + b)[k := v] else a + b;
    UpdateJoin(c, a, b, k, v, k < toKey);
  }

  /** The left side's part, then the root entry when fromKey or above, then the right side's part. */
  lemma FromJoin(c: map<int, Value>, ml: map<int, Value>, mr: map<int, Value>, k: int, v: Value, fromKey: int)
    requires k !in mr
    ensures (if fromKey <= k then (c + KeysFrom(ml, fromKey))[k := v] else c + KeysFrom(ml, fromKey)) +
      KeysFrom(mr, fromKey) == c + KeysFrom((ml + mr)[k := v], fromKey)
  {
    var a, b := KeysFrom(ml, fromKey), KeysFrom(mr, fromKey);
    assert KeysFrom((ml + mr)[k := v], fromKey) == if fromKey <= k then (a + b)[k := v] else a + b;
    UpdateJoin(c, a, b, k, v, fromKey <= k);
  }

  /** collectKeysLessThan: put the entries of node below toKey into result, in key order. */
  method CollectKeysLessThan(node: RbTree, toKey: int, result: MyRbMap)
    requires result.Valid() && Ordered(node)
    modifies result
    ensures result.Valid()
    ensures result.Contents() == old(result.Contents()) + KeysBelow(Map(node), toKey)
    decreases node
  {
    if node.Node? {
      NodeOrder(node);
      ghost var c := result.Contents();
      CollectKeysLessThan(node.left, toKey, result);
      if node.key < toKey {
        var _ := result.Put(Some(node.key), node.value);
      }
      CollectKeysLessThan(node.right, toKey, result);
      BelowJoin(c, Map(node.left), Map(node.right), node.key, node.value, toKey);
    }
  }

  /** collectKeysGreaterOrEqual: put the entries of node from fromKey up into result, in key order. */
  method CollectKeysGreaterOrEqual(node: RbTree, fromKey: int, result: MyRbMap)
    requires result.Valid() && Ordered(node)
    modifies result
    ensures result.Valid()
    ensures result.Contents() == old(result.Contents()) + KeysFrom(Map(node), fromKey)
    decreases node
  {
    if node.Node? {
      NodeOrder(node);
      ghost var c := result.Contents();
      CollectKeysGreaterOrEqual(node.left, fromKey, result);
      if fromKey <= node.key {
        var _ := result.Put(Some(node.key), node.value);
      }
      CollectKeysGreaterOrEqual(node.right, fromKey, result);
      FromJoin(c, Map(node.left), Map(node.right), node.key, node.value, fromKey);
    }
  }

  /** In a key-sorted sequence, the prefix before the first key at or above toKey holds exactly the entries below toKey. */
  lemma PrefixBelow(es: seq<(int, Value)>, i: nat, toKey: int)
    requires SortedKeys(es) && i <= |es|
    requires forall j :: 0 <= j < i ==> es[j].0 < toKey
    requires i < |es| ==> toKey <= es[i].0
    ensures MapOf(es[..i]) == KeysBelow(MapOf(es), toKey)
  {
    var a, b := es[..i], es[i..];
    assert es == a + b;
    MapOfAppend(a, b);
    PrefixKeysBelow(es, i, toKey);
    SuffixKeysFrom(es, i, toKey);
    BelowOfJoin(MapOf(a), MapOf(b), toKey);
  }

  lemma PrefixKeysBelow(es: seq<(int, Value)>, i: nat, toKey: int)
    requires i <= |es|
    requires forall j :: 0 <= j < i ==> es[j].0 < toKey
    ensures forall q :: q in MapOf(es[..i]) ==> q < toKey
  {
    MapOfKeys(es[..i]);
  }

  lemma SuffixKeysFrom(es: seq<(int, Value)>, i: nat, toKey: int)
    requires SortedKeys(es) && i <= |es|
    requires i < |es| ==> toKey <= es[i].0
    ensures forall q :: q in MapOf(es[i..]) ==> toKey <= q
  {
    var b := es[i..];
    MapOfKeys(b);
    forall q | q in MapOf(b)
      ensures toKey <= q
    {
      var j :| 0 <= j < |b| && b[j].0 == q;
      assert b[j] == es[i + j];
    }
  }

  /** Joining keys all below toKey with keys all at or above it: the part below toKey is the first map. */
  lemma BelowOfJoin(a: map<int, Value>, b: map<int, Value>, toKey: int)
    requires forall q :: q in a ==> q < toKey
    requires forall q :: q in b ==> toKey <= q
    ensures KeysBelow(a + b, toKey) == a
  {
  }

  /** remove's recoloring of a black root with no red link makes the tree ready for removeRecursive. */
  lemma RootReady(t: RbTree, key: int)
    requires Ordered(t) && Llrb(t) && !IsRed(t) && key in Map(t)
    ensures t.Node?
    ensures RemovePre(if !IsRed(t.left) && !IsRed(t.right) then t.(aux := Red) else t, key)
  {
    if !IsRed(t.left) && !IsRed(t.right) {
      Recolor(t, Red);
      assert InOrder(t.(aux := Red)) == InOrder(t);
    }
  }

  /** The map: an Integer -> String sorted map on a left-leaning red-black tree, with its size. */
  class MyRbMap {
    var root: RbTree
    var size: nat

    /** The tree is a search tree keeping the red-black rules with a black root, and size counts its keys. */
    ghost predicate Valid()
      reads this
    {
      Ordered(root) && Llrb(root) && !IsRed(root) && size == |Map(root)|
    }

    ghost function Contents(): map<int, Value>
      reads this
    {
      Map(root)
    }

    constructor ()
      ensures Valid() && Contents() == map[]
    {
      root := Nil;
      size := 0;
    }

    /** put: null keys are refused; the previous value (or null) is returned; the root ends black. */
    method Put(key: Option<int>, value: Value) returns (r: Result<Value>)
      requires Valid()
      modifies this
      ensures Valid()
      ensures key.None? ==> r == Err(NullPointer) && Contents() == old(Contents())
      ensures key.Some? ==> Contents() == old(Contents())[key.value := value]
      ensures key.Some? ==> r == Ok(if key.value in old(Contents()) then old(Contents())[key.value] else None)
    {
      if key.None? {
        return Err(NullPointer);
      }
      var k := key.value;
      var existing := GetRec(root, k);
      GetFinds(root, k);
      var oldValue := if existing.Node? then existing.value else None;
      PutKeeps(root, k, value);
      var p := PutRec(root, k, value);
      ghost var m := Map(root);
      root := p.0;
      if p.1 {
        AddCard(m, k, value);
        size := size + 1;
      } else {
        assert Map(root).Keys == m.Keys;
      }
      if root.Node? {
        BlackRoot(root);
        root := root.(aux := Black);
      }
      r := Ok(oldValue);
    }

    /**
     * remove: null keys are refused; an absent key gives null and no change;
     * otherwise the root is made red when neither of its links is, the key is
     * removed, size drops by one and the root ends black.
     */
    method Remove(key: Option<int>) returns (r: Result<Value>)
      requires Valid()
      modifies this
      ensures Valid()
      ensures key.None? ==> r == Err(NullPointer) && Contents() == old(Contents())
      ensures key.Some? ==> Contents() == old(Contents()) - {key.value}
      ensures key.Some? ==> r == Ok(if key.value in old(Contents()) then old(Contents())[key.value] else None)
    {
      if key.None? {
        return Err(NullPointer);
      }
      var k := key.value;
      var existing := GetRec(root, k);
      GetFinds(root, k);
      if existing.Nil? {
        return Ok(None);
      }
      var oldValue := existing.value;
      RootReady(root, k);
      if !IsRed(root.left) && !IsRed(root.right) {
        root := root.(aux := Red);
      }
      ghost var m := Map(root);
      var p := RemoveRec(root, k);
      root := p.0;
      size := size - p.1;
      RemoveCard(m, k);
      if root.Node? {
        BlackRoot(root);
        root := root.(aux := Black);
      }
      r := Ok(oldValue);
    }

    /** get: null keys are refused; the value, or null for an absent key. */
    method Get(key: Option<int>) returns (r: Result<Value>)
      requires Valid()
      ensures key.None? ==> r == Err(NullPointer)
      ensures key.Some? ==> r == Ok(if key.value in Contents() then Contents()[key.value] else None)
    {
      if key.None? {
        return Err(NullPointer);
      }
      var node := GetRec(root, key.value);
      GetFinds(root, key.value);
      r := Ok(if node.Node? then node.value else None);
    }

    /** containsKey: null keys are refused. */
    method ContainsKey(key: Option<int>) returns (r: Result<bool>)
      requires Valid()
      ensures key.None? ==> r == Err(NullPointer)
      ensures key.Some? ==> r == Ok(key.value in Contents())
    {
      if key.None? {
        return Err(NullPointer);
      }
      GetFinds(root, key.value);
      r := Ok(GetRec(root, key.value).Node?);
    }

    /** containsValue: a null value is refused; otherwise whether some key maps to it. */
    method ContainsValue(value: Value) returns (r: Result<bool>)
      requires Valid()
      ensures value.None? ==> r == Err(NullPointer)
      ensures value.Some? ==> r == Ok(value in Contents().Values)
    {
      if value.None? {
        return Err(NullPointer);
      }
      ContainsValueFinds(root, value);
      r := Ok(ContainsValueRec(root, value));
    }

    function Size(): (r: nat)
      reads this
      requires Valid()
      ensures r == |Contents()|
    {
      size
    }

    function IsEmpty(): (r: bool)
      reads this
      requires Valid()
      ensures r <==> Contents() == map[]
    {
      if size == 0 then true
      else
        assert Contents().Keys != {};
        false
    }

    method Clear()
      modifies this
      ensures Valid() && Contents() == map[]
    {
      root := Nil;
      size := 0;
    }

    /** entrySet: the entries in key order, one per key. */
    function EntrySet(): (r: seq<(int, Value)>)
      reads this
      requires Valid()
      ensures SortedKeys(r) && MapOf(r) == Contents() && |r| == size
    {
      SortedSize(InOrder(root));
      InOrder(root)
    }

    /** keySet: the keys. */
    function KeySet(): (r: set<int>)
      reads this
      requires Valid()
      ensures r == Contents().Keys
    {
      var s := InOrder(root);
      KeySetOf(s);
      set i | 0 <= i < |s| :: s[i].0
    }

    /** firstKey: the least key; NoSuchElement when empty. */
    method FirstKey() returns (r: Result<int>)
      requires Valid()
      ensures Contents() == map[] ==> r == Err(NoSuchElement)
      ensures Contents() != map[] ==>
        r.Ok? && r.value in Contents() && forall q :: q in Contents() ==> r.value <= q
    {
      if IsEmpty() {
        return Err(NoSuchElement);
      }
      var k := FindFirstKey(root);
      LeftmostIsMin(root);
      r := Ok(k.value);
    }

    /** lastKey: the greatest key; NoSuchElement when empty. */
    method LastKey() returns (r: Result<int>)
      requires Valid()
      ensures Contents() == map[] ==> r == Err(NoSuchElement)
      ensures Contents() != map[] ==>
        r.Ok? && r.value in Contents() && forall q :: q in Contents() ==> q <= r.value
    {
      if IsEmpty() {
        return Err(NoSuchElement);
      }
      var k := FindLastKey(root);
      RightmostIsMax(root);
      r := Ok(k.value);
    }

    /** headMap: a new map with the entries below toKey; a null bound is refused. */
    method HeadMap(toKey: Option<int>) returns (r: Result<MyRbMap>)
      requires Valid()
      ensures toKey.None? ==> r.Err? && r.error == NullPointer
      ensures toKey.Some? ==>
        r.Ok? && fresh(r.value) && r.value.Valid() && r.value.Contents() == KeysBelow(Contents(), toKey.value)
    {
      if toKey.None? {
        return Err(NullPointer);
      }
      var result := new MyRbMap();
      CollectKeysLessThan(root, toKey.value, result);
      r := Ok(result);
    }

    /** tailMap: a new map with the entries from fromKey up; a null bound is refused. */
    method TailMap(fromKey: Option<int>) returns (r: Result<MyRbMap>)
      requires Valid()
      ensures fromKey.None? ==> r.Err? && r.error == NullPointer
      ensures fromKey.Some? ==>
        r.Ok? && fresh(r.value) && r.value.Valid() && r.value.Contents() == KeysFrom(Contents(), fromKey.value)
    {
      if fromKey.None? {
        return Err(NullPointer);
      }
      var result := new MyRbMap();
      CollectKeysGreaterOrEqual(root, fromKey.value, result);
      r := Ok(result);
    }

    /**
     * subMap: a new map with the entries from fromKey up to, not including,
     * toKey, taken from the tail map's entries in key order until the first
     * key at or above toKey; null bounds are refused, and fromKey above toKey
     * is an IllegalArgument.
     */
    method SubMap(fromKey: Option<int>, toKey: Option<int>) returns (r: Result<MyRbMap>)
      requires Valid()
      ensures fromKey.None? || toKey.None? ==> r.Err? && r.error == NullPointer
      ensures fromKey.Some? && toKey.Some? && fromKey.value > toKey.value ==>
        r.Err? && r.error == IllegalArgument
      ensures fromKey.Some? && toKey.Some? && fromKey.value <= toKey.value ==>
        r.Ok? && fresh(r.value) && r.value.Valid() &&
        r.value.Contents() == KeysBelow(KeysFrom(Contents(), fromKey.value), toKey.value)
    {
      if fromKey.None? || toKey.None? {
        return Err(NullPointer);
      }
      if fromKey.value > toKey.value {
        return Err(IllegalArgument);
      }
      var result := new MyRbMap();
      var tail := TailMap(fromKey);
      var es := tail.value.EntrySet();
      var i := 0;
      while i < |es|
        invariant 0 <= i <= |es|
        invariant result.Valid() && result.Contents() == MapOf(es[..i])
        invariant forall j :: 0 <= j < i ==> es[j].0 < toKey.value
        modifies result
      {
        if es[i].0 < toKey.value {
          assert es[..i + 1][..i] == es[..i];
          var _ := result.Put(Some(es[i].0), es[i].1);
          i := i + 1;
        } else {
          break;
        }
      }
      PrefixBelow(es, i, toKey.value);
      r := Ok(result);
    }
  }
}
