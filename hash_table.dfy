// The bucket table shared by MyHashSet and MyLinkedHashSet: a power-of-two array of
// separate chains, each chain a list of nodes that remember their item's spread hash.

module HashTable {
  import opened Common

  /** A chain node: the spread hash of its item and the item itself. */
  datatype Node<E> = Node(hash: nat, item: E)

  const DefaultCapacity: nat := 16
  /** The largest capacity a Java int can double from (oldCapacity << 1 overflows beyond it). */
  const MaxCapacity: nat := 0x4000_0000

  /** Load factor 0.75: the threshold is three quarters of the capacity, rounded down. */
  function Threshold(capacity: nat): (r: nat)
    ensures 4 * r <= 3 * capacity < 4 * r + 4
  {
    capacity * 3 / 4
  }

  /** Doubling the capacity raises the threshold above the old one. */
  lemma ThresholdGrows(capacity: nat)
    requires capacity >= 2
    ensures Threshold(capacity) < Threshold(2 * capacity)
  {
  }

  /** The 32 bits of a Java int, read as an unsigned number. */
  const Word: nat := 0x1_0000_0000

  function Unsigned(h: int): (r: nat)
    ensures r < Word
  {
    h % Word
  }

  function Pow2(k: nat): (r: nat)
    ensures r >= 1
  {
    if k == 0 then 1 else 2 * Pow2(k - 1)
  }

  /** Logical right shift by k bits: k halvings. */
  function Shr(a: nat, k: nat): (r: nat)
    ensures r <= a
  {
    if k == 0 then a else Shr(a / 2, k - 1)
  }

  /** Bitwise exclusive or of two naturals. */
  function Xor(a: nat, b: nat): (r: nat)
    decreases a + b
  {
    if a == 0 && b == 0 then 0
    else 2 * Xor(a / 2, b / 2) + (if a % 2 == b % 2 then 0 else 1)
  }

  /** Bitwise and of two naturals. */
  function And(a: nat, b: nat): (r: nat)
    decreases a
  {
    if a == 0 || b == 0 then 0
    else 2 * And(a / 2, b / 2) + (if a % 2 == 1 && b % 2 == 1 then 1 else 0)
  }

  lemma {:induction false} XorZero(a: nat)
    ensures Xor(a, 0) == a
    decreases a
  {
    if a != 0 {
      XorZero(a / 2);
    }
  }

  lemma {:induction false} XorInverse(a: nat, b: nat)
    ensures Xor(Xor(a, b), b) == a
    decreases a + b
  {
    if a == 0 && b == 0 {
    } else {
      var r := Xor(a, b);
      XorInverse(a / 2, b / 2);
      assert r / 2 == Xor(a / 2, b / 2);
      assert r % 2 == (if a % 2 == b % 2 then 0 else 1);
    }
  }

  lemma {:induction false} XorShift(a: nat, b: nat, k: nat)
    ensures Shr(Xor(a, b), k) == Xor(Shr(a, k), Shr(b, k))
    decreases k
  {
    if k > 0 {
      XorShift(a / 2, b / 2, k - 1);
      if a == 0 && b == 0 {
      } else {
        assert Xor(a, b) / 2 == Xor(a / 2, b / 2);
      }
    }
  }

  lemma {:induction false} XorBelow(a: nat, b: nat, k: nat)
    requires a < Pow2(k) && b < Pow2(k)
    ensures Xor(a, b) < Pow2(k)
    decreases k
  {
    if k > 0 && !(a == 0 && b == 0) {
      XorBelow(a / 2, b / 2, k - 1);
    }
  }

  lemma {:induction false} ShrBelow(a: nat, k: nat, j: nat)
    requires a < Pow2(k + j)
    ensures Shr(a, k) < Pow2(j)
    decreases k
  {
    if k > 0 {
      assert Pow2(k + j) == 2 * Pow2(k - 1 + j);
      ShrBelow(a / 2, k - 1, j);
    }
  }

  lemma {:induction false} ShrZero(k: nat)
    ensures Shr(0, k) == 0
  {
    if k > 0 {
      ShrZero(k - 1);
    }
  }

  lemma {:induction false} AndBelow(a: nat, b: nat)
    ensures And(a, b) <= b
    decreases a
  {
    if a != 0 && b != 0 {
      AndBelow(a / 2, b / 2);
    }
  }

  lemma {:induction false} AndMask(a: nat, k: nat)
    ensures And(a, Pow2(k) - 1) == a % Pow2(k)
    decreases k
  {
    var p := Pow2(k);
    if k == 0 {
      assert p - 1 == 0 && a % p == 0;
    } else if a == 0 {
      DivModUnique(0, 0, 0, p);
    } else {
      var m := Pow2(k - 1);
      AndMask(a / 2, k - 1);
      AndOdd(a, m);
      ModDouble(a, m);
    }
  }

  /** Masking with 2m - 1 keeps the lowest bit and masks the rest with m - 1. */
  lemma AndOdd(a: nat, m: nat)
    requires a != 0 && m >= 1
    ensures And(a, 2 * m - 1) == 2 * And(a / 2, m - 1) + a % 2
  {
    var c := 2 * m - 1;
    assert c / 2 == m - 1 && c % 2 == 1;
  }

  /** The remainder modulo 2m from the remainder of the halved number modulo m. */
  lemma ModDouble(a: nat, m: nat)
    requires m >= 1
    ensures a % (2 * m) == 2 * (a / 2 % m) + a % 2
  {
    Regroup(a, m);
    DivModUnique(a, a / 2 / m, 2 * (a / 2 % m) + a % 2, 2 * m);
  }



  /** a == 2*(a/2) + a%2 and a/2 == (a/2/m)*m + a/2%m, regrouped around 2*m. */
  lemma Regroup(a: nat, m: nat)
    requires m >= 1
    ensures a == (a / 2 / m) * (2 * m) + (2 * (a / 2 % m) + a % 2)
  {
    var q := a / 2;
    var d, r := q / m, q % m;
    var dm := d * m;
    assert q == dm + r;
    assert a == 2 * q + a % 2;
    assert d * (2 * m) == 2 * dm;
  }

  lemma Word32()
    ensures Pow2(16) == 0x1_0000 && Pow2(32) == Word
  {
    assert Pow2(4) == 16;
    assert Pow2(8) == 256;
    assert Pow2(12) == 4096;
    assert Pow2(16) == 0x1_0000;
    assert Pow2(20) == 0x10_0000;
    assert Pow2(24) == 0x100_0000;
    assert Pow2(28) == 0x1000_0000;
  }

  lemma MaxCapacityIsPow2()
    ensures Pow2(30) == MaxCapacity
  {
    Word32();
    assert Pow2(30) == 4 * Pow2(28);
  }

  /** hash(): the hashCode with its high half folded into its low half, h ^ (h >>> 16). */
  function Spread(h: nat): (r: nat)
    requires h < Word
    ensures r < Word && Shr(r, 16) == Shr(h, 16)
  {
    Word32();
    ShrBelow(h, 16, 16);
    ShrBelow(Shr(h, 16), 16, 0);
    XorBelow(h, Shr(h, 16), 32);
    XorShift(h, Shr(h, 16), 16);
    XorZero(Shr(h, 16));
    Xor(h, Shr(h, 16))
  }

  /** Spreading twice gives the hashCode back: no information is lost. */
  lemma SpreadInvolution(h: nat)
    requires h < Word
    ensures Spread(Spread(h)) == h
  {
    XorInverse(h, Shr(h, 16));
  }

  /** indexFor: hash & (length - 1). */
  function IndexFor(hash: nat, length: nat): (r: nat)
    requires 0 < length
    ensures r < length
  {
    AndBelow(hash, length - 1);
    And(hash, length - 1)
  }

  /** For a power-of-two length the mask keeps exactly the remainder modulo the length. */
  lemma IndexForIsMod(hash: nat, k: nat)
    ensures IndexFor(hash, Pow2(k)) == hash % Pow2(k)
  {
    AndMask(hash, k);
  }

  /** The items of one chain. */
  ghost function Items<E>(chain: seq<Node<E>>): (r: set<E>)
    ensures forall k :: 0 <= k < |chain| ==> chain[k].item in r
    ensures forall x :: x in r ==> exists k :: 0 <= k < |chain| && chain[k].item == x
  {
    set k | 0 <= k < |chain| :: chain[k].item
  }

  /** The items of every chain of the table. */
  ghost function Elements<E>(t: seq<seq<Node<E>>>): set<E> {
    set i, k | 0 <= i < |t| && 0 <= k < |t[i]| :: t[i][k].item
  }

  /** hash(x) for a non-null x: the spread of its hashCode's 32 bits. */
  function Hash<E>(hashOf: E -> int, x: E): (r: nat)
    ensures r < Word
  {
    Spread(Unsigned(hashOf(x)))
  }

  /** The bucket a hash set of capacity |t| keeps x in. */
  function Slot<E>(hashOf: E -> int, x: E, length: nat): (r: nat)
    requires 0 < length
    ensures r < length
  {
    IndexFor(Hash(hashOf, x), length)
  }

  /** Every node stores its item's spread hash and sits in the bucket that hash selects. */
  ghost predicate Placed<E>(t: seq<seq<Node<E>>>, hashOf: E -> int) {
    0 < |t| &&
    forall i, k :: 0 <= i < |t| && 0 <= k < |t[i]| ==>
      t[i][k].hash == Hash(hashOf, t[i][k].item) && IndexFor(t[i][k].hash, |t|) == i
  }

  /** No chain holds two nodes with equal items. */
  ghost predicate Distinct<E>(t: seq<seq<Node<E>>>) {
    forall i, k, l :: 0 <= i < |t| && 0 <= k < l < |t[i]| ==> t[i][k].item != t[i][l].item
  }

  ghost predicate DistinctChain<E>(chain: seq<Node<E>>) {
    forall k, l :: 0 <= k < l < |chain| ==> chain[k].item != chain[l].item
  }

  ghost predicate Hashed<E>(chain: seq<Node<E>>, hashOf: E -> int) {
    forall k :: 0 <= k < |chain| ==> chain[k].hash == Hash(hashOf, chain[k].item)
  }

  /** In a well-placed table, x is an element exactly when its own bucket's chain holds it. */
  lemma Lookup<E>(t: seq<seq<Node<E>>>, hashOf: E -> int, x: E)
    requires Placed(t, hashOf)
    ensures x in Elements(t) <==> x in Items(t[Slot(hashOf, x, |t|)])
  {
    var b := Slot(hashOf, x, |t|);
    if x in Elements(t) {
      var i, k :| 0 <= i < |t| && 0 <= k < |t[i]| && t[i][k].item == x;
      assert i == b;
    }
    if x in Items(t[b]) {
      var k :| 0 <= k < |t[b]| && t[b][k].item == x;
      assert t[b][k].item in Elements(t);
    }
  }

  /**
   * The walk of a chain in contains/add/remove: the first position whose node matches hash
   * and item, or |chain| when none does.
   */
  method Scan<E(==)>(chain: seq<Node<E>>, hash: nat, x: E) returns (j: nat)
    ensures j <= |chain|
    ensures j < |chain| ==> chain[j].hash == hash && chain[j].item == x
    ensures forall k :: 0 <= k < j ==> !(chain[k].hash == hash && chain[k].item == x)
  {
    j := 0;
    while j < |chain| && !(chain[j].hash == hash && chain[j].item == x)
      invariant j <= |chain|
      invariant forall k :: 0 <= k < j ==> !(chain[k].hash == hash && chain[k].item == x)
    {
      j := j + 1;
    }
  }

  /** When the nodes of a chain carry their items' hashes, Scan finds x exactly when x is there. */
  lemma ScanFinds<E>(chain: seq<Node<E>>, hashOf: E -> int, x: E, j: nat)
    requires Hashed(chain, hashOf) && j <= |chain|
    requires forall k :: 0 <= k < j ==> !(chain[k].hash == Hash(hashOf, x) && chain[k].item == x)
    requires j < |chain| ==> chain[j].item == x
    ensures j < |chain| <==> x in Items(chain)
  {
    if x in Items(chain) {
      var k :| 0 <= k < |chain| && chain[k].item == x;
      assert j <= k;
    }
  }

  lemma PlacedChain<E>(t: seq<seq<Node<E>>>, hashOf: E -> int, b: nat)
    requires Placed(t, hashOf) && Distinct(t) && b < |t|
    ensures Hashed(t[b], hashOf) && DistinctChain(t[b])
  {
  }

  /** add: a new node at the head of its bucket adds exactly its item. */
  lemma Prepend<E>(t: seq<seq<Node<E>>>, hashOf: E -> int, x: E)
    requires Placed(t, hashOf) && Distinct(t) && x !in Elements(t)
    ensures var b := Slot(hashOf, x, |t|);
      var u := t[b := [Node(Hash(hashOf, x), x)] + t[b]];
      Placed(u, hashOf) && Distinct(u) && Elements(u) == Elements(t) + {x}
  {
    var b := Slot(hashOf, x, |t|);
    var u := t[b := [Node(Hash(hashOf, x), x)] + t[b]];
    Lookup(t, hashOf, x);
    PrependDistinct(t, b, Node(Hash(hashOf, x), x));
    PrependElements(t, b, Node(Hash(hashOf, x), x));
  }

  lemma PrependDistinct<E>(t: seq<seq<Node<E>>>, b: nat, n: Node<E>)
    requires Distinct(t) && b < |t| && n.item !in Items(t[b])
    ensures Distinct(t[b := [n] + t[b]])
  {
    var u: seq<seq<Node<E>>> := t[b := [n] + t[b]];
    forall i, k, l | 0 <= i < |u| && 0 <= k < l < |u[i]|
      ensures u[i][k].item != u[i][l].item
    {
      if i == b {
        assert u[i][l] == t[b][l - 1];
        if k > 0 {
          assert u[i][k] == t[b][k - 1];
        }
      }
    }
  }

  lemma PrependElements<E>(t: seq<seq<Node<E>>>, b: nat, n: Node<E>)
    requires b < |t|
    ensures Elements(t[b := [n] + t[b]]) == Elements(t) + {n.item}
  {
    var u: seq<seq<Node<E>>> := t[b := [n] + t[b]];
    forall y | y in Elements(u)
      ensures y in Elements(t) + {n.item}
    {
      var i, k :| 0 <= i < |u| && 0 <= k < |u[i]| && u[i][k].item == y;
      if i == b && k > 0 {
        assert u[i][k] == t[b][k - 1];
      }
    }
    forall y | y in Elements(t)
      ensures y in Elements(u)
    {
      var i, k :| 0 <= i < |t| && 0 <= k < |t[i]| && t[i][k].item == y;
      if i == b {
        assert u[b][k + 1] == t[b][k];
      } else {
        assert u[i][k] == t[i][k];
      }
    }
    assert u[b][0].item == n.item;
  }

  /** remove: splicing the matching node out of its bucket removes exactly its item. */
  lemma Unlink<E>(t: seq<seq<Node<E>>>, hashOf: E -> int, b: nat, j: nat)
    requires Placed(t, hashOf) && Distinct(t) && b < |t| && j < |t[b]|
    ensures var u := t[b := t[b][..j] + t[b][j + 1..]];
      Placed(u, hashOf) && Distinct(u) && Elements(u) == Elements(t) - {t[b][j].item}
  {
    UnlinkKeeps(t, hashOf, b, j);
    UnlinkElements(t, hashOf, b, j);
  }

  lemma UnlinkKeeps<E>(t: seq<seq<Node<E>>>, hashOf: E -> int, b: nat, j: nat)
    requires Placed(t, hashOf) && Distinct(t) && b < |t| && j < |t[b]|
    ensures var u := t[b := t[b][..j] + t[b][j + 1..]];
      Placed(u, hashOf) && Distinct(u)
  {
    var c := t[b][..j] + t[b][j + 1..];
    assert forall k {:trigger c[k]} :: 0 <= k < |c| ==> c[k] == t[b][if k < j then k else k + 1];
  }

  lemma UnlinkElements<E>(t: seq<seq<Node<E>>>, hashOf: E -> int, b: nat, j: nat)
    requires Placed(t, hashOf) && Distinct(t) && b < |t| && j < |t[b]|
    ensures Elements(t[b := t[b][..j] + t[b][j + 1..]]) == Elements(t) - {t[b][j].item}
  {
    UnlinkDrops(t, hashOf, b, j);
    UnlinkKeepsOthers(t, b, j);
  }

  /** The spliced-out item is gone, because no other node anywhere holds it. */
  lemma UnlinkDrops<E>(t: seq<seq<Node<E>>>, hashOf: E -> int, b: nat, j: nat)
    requires Placed(t, hashOf) && Distinct(t) && b < |t| && j < |t[b]|
    ensures Elements(t[b := t[b][..j] + t[b][j + 1..]]) <= Elements(t) - {t[b][j].item}
  {
    var x := t[b][j].item;
    var c := t[b][..j] + t[b][j + 1..];
    var u: seq<seq<Node<E>>> := t[b := c];
    forall y | y in Elements(u)
      ensures y in Elements(t) - {x}
    {
      var i, k :| 0 <= i < |u| && 0 <= k < |u[i]| && u[i][k].item == y;
      if i == b {
        assert u[i][k] == t[b][if k < j then k else k + 1];
      } else {
        assert u[i][k] == t[i][k];
        assert IndexFor(t[i][k].hash, |t|) == i;
      }
    }
  }

  /** Every other item is still there. */
  lemma UnlinkKeepsOthers<E>(t: seq<seq<Node<E>>>, b: nat, j: nat)
    requires b < |t| && j < |t[b]|
    ensures Elements(t) - {t[b][j].item} <= Elements(t[b := t[b][..j] + t[b][j + 1..]])
  {
    var x := t[b][j].item;
    var u: seq<seq<Node<E>>> := t[b := t[b][..j] + t[b][j + 1..]];
    forall y | y in Elements(t) - {x}
      ensures y in Elements(u)
    {
      var i, k :| 0 <= i < |t| && 0 <= k < |t[i]| && t[i][k].item == y;
      if i == b {
        assert u[b][if k < j then k else k - 1] == t[b][k];
      } else {
        assert u[i][k] == t[i][k];
      }
    }
  }

  /** Elements of a growing prefix of the buckets. */
  lemma ElementsSnoc<E>(t: seq<seq<Node<E>>>, i: nat)
    requires i < |t|
    ensures Elements(t[..i + 1]) == Elements(t[..i]) + Items(t[i])
  {
    var p: seq<seq<Node<E>>>, q: seq<seq<Node<E>>> := t[..i + 1], t[..i];
    forall y | y in Elements(p)
      ensures y in Elements(q) + Items(t[i])
    {
      var a, k :| 0 <= a < |p| && 0 <= k < |p[a]| && p[a][k].item == y;
      if a < i {
        assert q[a][k] == p[a][k];
      }
    }
    forall y | y in Elements(q)
      ensures y in Elements(p)
    {
      var a, k :| 0 <= a < |q| && 0 <= k < |q[a]| && q[a][k].item == y;
      assert p[a][k] == q[a][k];
    }
    forall y | y in Items(t[i])
      ensures y in Elements(p)
    {
      var k :| 0 <= k < |t[i]| && t[i][k].item == y;
      assert p[i][k] == t[i][k];
    }
  }

  /** A bucket's items lie in no earlier bucket. */
  lemma Separate<E>(t: seq<seq<Node<E>>>, hashOf: E -> int, i: nat)
    requires Placed(t, hashOf) && i < |t|
    ensures Items(t[i]) !! Elements(t[..i])
  {
    forall y | y in Elements(t[..i])
      ensures y !in Items(t[i])
    {
      var a, l :| 0 <= a < i && 0 <= l < |t[a]| && t[..i][a][l].item == y;
      assert t[..i][a][l] == t[a][l];
    }
  }


  /** The number of nodes over all chains. */
  ghost function NodeCount<E>(t: seq<seq<Node<E>>>): nat {
    if |t| == 0 then 0 else NodeCount(t[..|t| - 1]) + |t[|t| - 1]|
  }

  lemma {:induction false} ItemsCount<E>(chain: seq<Node<E>>)
    requires DistinctChain(chain)
    ensures |Items(chain)| == |chain|
  {
    if |chain| > 0 {
      var init := chain[..|chain| - 1];
      var last := chain[|chain| - 1];
      ItemsCount(init);
      assert Items(chain) == Items(init) + {last.item} by {
        assert chain == init + [last];
      }
    }
  }

  lemma {:induction false} NodeCountPrefix<E>(t: seq<seq<Node<E>>>, hashOf: E -> int, i: nat)
    requires Placed(t, hashOf) && Distinct(t) && i <= |t|
    ensures NodeCount(t[..i]) == |Elements(t[..i])|
  {
    if i == 0 {
      assert Elements(t[..0]) == {};
    } else {
      NodeCountPrefix(t, hashOf, i - 1);
      assert t[..i][..i - 1] == t[..i - 1];
      ElementsSnoc(t, i - 1);
      Separate(t, hashOf, i - 1);
      PlacedChain(t, hashOf, i - 1);
      ItemsCount(t[i - 1]);
    }
  }

  /** In a well-formed table the node count is the number of distinct elements. */
  lemma NodeCountIsSize<E>(t: seq<seq<Node<E>>>, hashOf: E -> int)
    requires Placed(t, hashOf) && Distinct(t)
    ensures NodeCount(t) == |Elements(t)|
  {
    NodeCountPrefix(t, hashOf, |t|);
    assert t[..|t|] == t;
  }

  /** The empty table of a given capacity. */
  lemma EmptyTable<E>(t: seq<seq<Node<E>>>, hashOf: E -> int)
    requires 0 < |t| && forall i :: 0 <= i < |t| ==> t[i] == []
    ensures Placed(t, hashOf) && Distinct(t) && Elements(t) == {}
  {
  }

  /**
   * The inner do-while of resize: each node of one old chain, in chain order, goes to the
   * head of the new bucket its stored hash selects.
   */
  method Transfer<E>(nt: array<seq<Node<E>>>, chain: seq<Node<E>>, ghost hashOf: E -> int)
    requires Placed(nt[..], hashOf) && Distinct(nt[..])
    requires Hashed(chain, hashOf) && DistinctChain(chain) && Items(chain) !! Elements(nt[..])
    modifies nt
    ensures Placed(nt[..], hashOf) && Distinct(nt[..])
    ensures Elements(nt[..]) == old(Elements(nt[..])) + Items(chain)
  {
    ghost var start := Elements(nt[..]);
    var k := 0;
    while k < |chain|
      invariant k <= |chain| && Placed(nt[..], hashOf) && Distinct(nt[..])
      invariant Elements(nt[..]) == start + Items(chain[..k])
    {
      var e := chain[k];
      var index := IndexFor(e.hash, nt.Length);
      Prepend(nt[..], hashOf, e.item);
      nt[index] := [e] + nt[index];
      assert Items(chain[..k + 1]) == Items(chain[..k]) + {e.item} by {
        assert chain[..k + 1] == chain[..k] + [e];
      }
      k := k + 1;
    }
    assert chain[..k] == chain;
  }

  /** resize: a table of capacity newCapacity holding the nodes of every old chain. */
  method Rehash<E>(table: array<seq<Node<E>>>, newCapacity: nat, ghost hashOf: E -> int)
      returns (nt: array<seq<Node<E>>>)
    requires Placed(table[..], hashOf) && Distinct(table[..])
    requires 0 < newCapacity
    ensures fresh(nt) && nt.Length == newCapacity
    ensures Placed(nt[..], hashOf) && Distinct(nt[..]) && Elements(nt[..]) == Elements(table[..])
  {
    nt := new seq<Node<E>>[newCapacity](_ => []);
    EmptyTable(nt[..], hashOf);
    assert Elements(table[..][..0]) == {};
    for i := 0 to table.Length
      invariant Placed(nt[..], hashOf) && Distinct(nt[..])
      invariant Elements(nt[..]) == Elements(table[..][..i])
    {
      PlacedChain(table[..], hashOf, i);
      Separate(table[..], hashOf, i);
      ElementsSnoc(table[..], i);
      Transfer(nt, table[i], hashOf);
    }
    assert table[..][..table.Length] == table[..];
  }
}
