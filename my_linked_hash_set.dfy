// MyLinkedHashSet: the bucket table of MyHashSet plus a chain through every node in
// insertion order (head, tail and the before/after links), which iteration follows.

module MyLinkedHashSet {
  import opened Common
  import opened HashTable

  /** No element occurs twice. */
  ghost predicate NoDup<E>(s: seq<E>) {
    forall i, j :: 0 <= i < j < |s| ==> s[i] != s[j]
  }

  ghost function Members<E>(s: seq<E>): set<E> {
    set x | x in s
  }

  /** linkNodeLast: the new node becomes the tail, after every node already linked. */
  function LinkLast<E>(order: seq<E>, x: E): (r: seq<E>)
    ensures |r| == |order| + 1 && r[..|order|] == order && r[|order|] == x
    ensures Members(r) == Members(order) + {x}
    ensures NoDup(order) && x !in order ==> NoDup(r)
  {
    assert (order + [x])[..|order|] == order;
    order + [x]
  }

  /**
   * unlinkNode: the node of x leaves the chain; its neighbours are joined, and head or tail
   * moves when x was at an end.
   */
  function Unlinked<E(==)>(order: seq<E>, x: E): (r: seq<E>)
    requires NoDup(order)
    ensures NoDup(r) && Members(r) == Members(order) - {x}
    ensures x in order ==> |r| == |order| - 1 && r == RemoveAt(order, IndexOf(order, x))
    ensures x !in order ==> r == order
  {
    if x in order then
      var i := IndexOf(order, x);
      var r := RemoveAt(order, i);
      assert forall k :: 0 <= k < |r| ==> r[k] == order[if k < i then k else k + 1];
      r
    else order
  }

  /** Unlinking the element at position i of a duplicate-free chain drops exactly that position. */
  lemma UnlinkedAt<E>(order: seq<E>, i: nat)
    requires NoDup(order) && i < |order|
    ensures Unlinked(order, order[i]) == RemoveAt(order, i)
  {
    assert order[i] in order;
  }

  /** A duplicate-free chain is as long as the set of its members is large. */
  lemma {:induction false} NoDupLength<E>(s: seq<E>)
    requires NoDup(s)
    ensures |Members(s)| == |s|
  {
    if |s| > 0 {
      var init := s[..|s| - 1];
      NoDupLength(init);
      assert s == init + [s[|s| - 1]];
      assert Members(s) == Members(init) + {s[|s| - 1]};
    }
  }

  class MyLinkedHashSet<E(==)> {
    var table: array<seq<Node<E>>>
    /** The insertion-order chain from head to tail. */
    var order: seq<E>
    var size: nat
    var threshold: nat
    ghost var capacityLog: nat
    const hashCode: E -> int

    ghost predicate Inv()
      reads this, table
    {
      table.Length == Pow2(capacityLog) && 4 <= capacityLog <= 30 &&
      threshold == Threshold(table.Length) &&
      Placed(table[..], hashCode) && Distinct(table[..]) && size == |Elements(table[..])| &&
      NoDup(order) && Members(order) == Elements(table[..])
    }

    ghost predicate Valid()
      reads this, table
    {
      Inv() && size < threshold
    }

    /** The elements in insertion order: what toString and the iterator walk. */
    function Contents(): seq<E>
      reads this
    {
      order
    }

    /** The chain visits each element of the table exactly once. */
    lemma OrderIsTable()
      requires Inv()
      ensures |order| == size && forall x :: x in order <==> x in Elements(table[..])
    {
      NoDupLength(order);
    }

    constructor (hashCode: E -> int)
      ensures Valid() && Contents() == [] && table.Length == DefaultCapacity
    {
      table := new seq<Node<E>>[DefaultCapacity](_ => []);
      order := [];
      size := 0;
      threshold := Threshold(DefaultCapacity);
      capacityLog := 4;
      this.hashCode := hashCode;
      new;
      EmptyTable(table[..], hashCode);
    }

    /** resize: the buckets are rebuilt; the before/after chain is not touched. */
    method Resize()
      requires Inv() && capacityLog < 30
      modifies this
      ensures Inv() && fresh(table) && table.Length == 2 * old(table.Length)
      ensures capacityLog == old(capacityLog) + 1 && threshold == Threshold(table.Length)
      ensures order == old(order) && size == old(size)
    {
      var newCapacity := 2 * table.Length;
      var newTable := Rehash(table, newCapacity, hashCode);
      table := newTable;
      threshold := Threshold(newCapacity);
      capacityLog := capacityLog + 1;
    }

    function Size(): (r: nat)
      reads this, table
      requires Valid()
      ensures r == |Contents()|
    {
      OrderIsTable();
      size
    }

    function IsEmpty(): (r: bool)
      reads this, table
      requires Valid()
      ensures r <==> Contents() == []
    {
      OrderIsTable();
      size == 0
    }

    method Clear()
      requires Valid()
      modifies this, table
      ensures Valid() && Contents() == [] && table == old(table)
    {
      OrderIsTable();
      if size > 0 {
        forall i | 0 <= i < table.Length {
          table[i] := [];
        }
        order := [];
        size := 0;
        EmptyTable(table[..], hashCode);
      }
    }

    method Locate(x: E) returns (hash: nat, index: nat, j: nat)
      requires Valid()
      ensures hash == Hash(hashCode, x) && index == Slot(hashCode, x, table.Length)
      ensures j <= |table[index]| && (j < |table[index]| <==> x in Contents())
      ensures j < |table[index]| ==> table[index][j].item == x
    {
      hash := Hash(hashCode, x);
      index := IndexFor(hash, table.Length);
      var chain := table[index];
      j := Scan(chain, hash, x);
      PlacedChain(table[..], hashCode, index);
      ScanFinds(chain, hashCode, x, j);
      Lookup(table[..], hashCode, x);
      OrderIsTable();
    }

    /**
     * add: null is refused; a present element leaves everything unchanged; a new one heads
     * its bucket and becomes the tail of the insertion order.
     */
    method Add(o: Option<E>) returns (r: Result<bool>)
      requires Valid() && size + 1 < Threshold(MaxCapacity)
      modifies this, table
      ensures Valid()
      ensures o.None? ==> r == Err(NullPointer) && Contents() == old(Contents())
      ensures o.Some? ==> r == Ok(o.value !in old(Contents()))
      ensures o.Some? && o.value in old(Contents()) ==> Contents() == old(Contents())
      ensures o.Some? && o.value !in old(Contents()) ==> Contents() == LinkLast(old(Contents()), o.value)
    {
      if o.None? {
        return Err(NullPointer);
      }
      var x := o.value;
      var hash, index, j := Locate(x);
      if j < |table[index]| {
        return Ok(false);
      }
      Link(x, hash, index);
      if size >= threshold {
        CanGrow();
        Resize();
      }
      r := Ok(true);
    }

    lemma CanGrow()
      requires Inv() && threshold <= size < Threshold(MaxCapacity)
      ensures capacityLog < 30 && threshold < Threshold(2 * table.Length)
    {
      MaxCapacityIsPow2();
      ThresholdGrows(table.Length);
    }

    /** The new node heads bucket index and is linked after the tail. */
    method Link(x: E, hash: nat, index: nat)
      requires Valid() && x !in Contents()
      requires hash == Hash(hashCode, x) && index == Slot(hashCode, x, table.Length)
      modifies this, table
      ensures Inv() && size == old(size) + 1 <= threshold && table == old(table)
      ensures unchanged(`capacityLog) && order == LinkLast(old(order), x)
    {
      Prepend(table[..], hashCode, x);
      table[index] := [Node(hash, x)] + table[index];
      order := LinkLast(order, x);
      size := size + 1;
    }

    /** remove: null is refused; a present element leaves its bucket and the order chain. */
    method Remove(o: Option<E>) returns (r: Result<bool>)
      requires Valid()
      modifies this, table
      ensures Valid() && table == old(table)
      ensures o.None? ==> r == Err(NullPointer) && Contents() == old(Contents())
      ensures o.Some? ==> r == Ok(o.value in old(Contents()))
      ensures o.Some? ==> Contents() == Unlinked(old(Contents()), o.value)
    {
      if o.None? {
        return Err(NullPointer);
      }
      var x := o.value;
      var hash, index, j := Locate(x);
      if j == |table[index]| {
        return Ok(false);
      }
      RemoveNode(x, index, j);
      r := Ok(true);
    }

    /** The node at position j of bucket index leaves its bucket and the order chain. */
    method RemoveNode(x: E, index: nat, j: nat)
      requires Valid() && index < table.Length && j < |table[index]| && table[index][j].item == x
      requires x in order
      modifies this, table
      ensures Valid() && table == old(table) && order == Unlinked(old(order), x)
    {
      OrderIsTable();
      Unlink(table[..], hashCode, index, j);
      table[index] := table[index][..j] + table[index][j + 1..];
      order := Unlinked(order, x);
      size := size - 1;
    }

    /** contains: null is refused; otherwise a walk of the element's own bucket. */
    method Contains(o: Option<E>) returns (r: Result<bool>)
      requires Valid()
      ensures o.None? ==> r == Err(NullPointer)
      ensures o.Some? ==> r == Ok(o.value in Contents())
    {
      if o.None? {
        return Err(NullPointer);
      }
      var hash, index, j := Locate(o.value);
      r := Ok(j < |table[index]|);
    }

    method Iterator() returns (it: LinkedHashSetIterator<E>)
      requires Valid()
      ensures fresh(it) && it.Valid() && it.owner == this && it.cursor == 0 && it.current.None?
    {
      it := new LinkedHashSetIterator(this);
    }
  }

  /**
   * The insertion-order iterator. `cursor` is the position of the node `next` points at
   * (|order| when it is null) and `current` is the item last returned, if any. It stays
   * valid while the set changes only through it.
   */
  class LinkedHashSetIterator<E(==)> {
    const owner: MyLinkedHashSet<E>
    var cursor: nat
    var current: Option<E>

    ghost predicate Valid()
      reads this, owner, owner.table
    {
      owner.Valid() && cursor <= |owner.order| &&
      (current.Some? ==> 0 < cursor && owner.order[cursor - 1] == current.value)
    }

    constructor (owner: MyLinkedHashSet<E>)
      requires owner.Valid()
      ensures Valid() && this.owner == owner && cursor == 0 && current.None?
    {
      this.owner := owner;
      cursor := 0;
      current := None;
    }

    method HasNext() returns (r: bool)
      requires Valid()
      ensures r <==> cursor < |owner.Contents()|
    {
      r := cursor < |owner.order|;
    }

    /** next: the following element in insertion order; NoSuchElementException past the tail. */
    method Next() returns (r: Result<E>)
      requires Valid()
      modifies this
      ensures Valid()
      ensures r.Ok? <==> old(cursor) < |owner.Contents()|
      ensures r.Ok? ==> r.value == owner.Contents()[old(cursor)] && cursor == old(cursor) + 1
      ensures r.Ok? ==> current == Some(r.value)
      ensures r.Err? ==> r.error == NoSuchElement && cursor == old(cursor) && current == old(current)
    {
      if cursor == |owner.order| {
        return Err(NoSuchElement);
      }
      var item := owner.order[cursor];
      current := Some(item);
      cursor := cursor + 1;
      r := Ok(item);
    }

    /**
     * remove: the node last returned leaves its bucket and the order chain; the walk goes
     * on with the node after it. IllegalStateException when there is no such node.
     */
    method Remove() returns (o: Outcome)
      requires Valid()
      modifies this, owner, owner.table
      ensures Valid() && owner.table == old(owner.table)
      ensures o.Pass? <==> old(current).Some?
      ensures o.Pass? ==> owner.Contents() == RemoveAt(old(owner.Contents()), old(cursor) - 1)
      ensures o.Pass? ==> cursor == old(cursor) - 1 && current.None?
      ensures o.Fail? ==> o.error == IllegalState && owner.Contents() == old(owner.Contents())
      ensures o.Fail? ==> cursor == old(cursor) && current == old(current)
    {
      if current.None? {
        return Fail(IllegalState);
      }
      var item := current.value;
      current := None;
      var hash, index, j := owner.Locate(item);
      UnlinkedAt(owner.order, cursor - 1);
      owner.RemoveNode(item, index, j);
      cursor := cursor - 1;
      o := Pass;
    }
  }
}
