/**
 * MyLinkedList: a deque on a doubly linked chain of nodes. `first` and
 * `last` are the ends of the chain and `size` its length. The ghost field
 * `nodes` lists the chain's nodes first to last, and `Valid()` says that the
 * `next` and `prev` links walk exactly that list in the two directions.
 * Elements are never null, since `addFirst`/`addLast` refuse null; a Java
 * `null` argument is `None`.
 */
module MyLinkedList {
  import opened Common

  /** A node of the chain. Its item is never changed while it is in the chain. */
  class Node<E> {
    const item: E
    var next: Node?<E>
    var prev: Node?<E>

    constructor (prev: Node?<E>, item: E, next: Node?<E>)
      ensures this.prev == prev && this.item == item && this.next == next
    {
      this.item := item;
      this.next := next;
      this.prev := prev;
    }
  }

  /** The items of a run of nodes, in order. */
  function Items<E>(ns: seq<Node<E>>): (r: seq<E>)
    ensures |r| == |ns|
    ensures forall i :: 0 <= i < |ns| ==> r[i] == ns[i].item
  {
    seq(|ns|, i requires 0 <= i < |ns| => ns[i].item)
  }

  /** Dropping a node from the run drops its item from the items. */
  lemma ItemsRemoveAt<E>(ns: seq<Node<E>>, i: nat)
    requires i < |ns|
    ensures Items(RemoveAt(ns, i)) == RemoveAt(Items(ns), i)
  {
  }

  /**
   * No node occurs twice. The pairs are compared through `Differ`, so the
   * verifier looks at a pair only where a proof names it (see DistinctAt).
   */
  ghost predicate Distinct<E>(ns: seq<Node<E>>) {
    forall i, j {:trigger Differ(ns, i, j)} :: 0 <= i < j < |ns| ==> Differ(ns, i, j)
  }

  ghost predicate Differ<E>(ns: seq<Node<E>>, i: int, j: int)
    requires 0 <= i < |ns| && 0 <= j < |ns|
  {
    ns[i] != ns[j]
  }

  /**
   * The links of the run: each node's `prev` is the node before it (null for
   * the first) and its `next` the node after it (null for the last).
   */
  ghost predicate Linked<E>(ns: seq<Node<E>>)
    reads ns
  {
    (forall i {:trigger ns[i].prev} :: 0 <= i < |ns| ==> ns[i].prev == Before(ns, i)) &&
    (forall i {:trigger ns[i].next} :: 0 <= i < |ns| ==> ns[i].next == After(ns, i))
  }

  /** The node before position i of the run, or null for the first. */
  function Before<E>(ns: seq<Node<E>>, i: nat): Node?<E>
    requires i < |ns|
  {
    if i == 0 then null else ns[i - 1]
  }

  /** The node after position i of the run, or null for the last. */
  function After<E>(ns: seq<Node<E>>, i: nat): Node?<E>
    requires i < |ns|
  {
    if i == |ns| - 1 then null else ns[i + 1]
  }

  /** The two links of node i of a linked run. */
  lemma LinkAt<E>(ns: seq<Node<E>>, i: nat)
    requires Linked(ns) && i < |ns|
    ensures ns[i].prev == (if i == 0 then null else ns[i - 1])
    ensures ns[i].next == (if i == |ns| - 1 then null else ns[i + 1])
  {
  }

  class MyLinkedList<E(==)> {
    var first: Node?<E>
    var last: Node?<E>
    var size: nat
    ghost var nodes: seq<Node<E>>
    ghost var Repr: set<Node<E>>

    ghost predicate Valid()
      reads this, Repr
    {
      (forall i :: 0 <= i < |nodes| ==> nodes[i] in Repr) &&
      size == |nodes| && Distinct(nodes) && Linked(nodes) &&
      (size == 0 ==> first == null && last == null) &&
      (size > 0 ==> first == nodes[0] && last == nodes[size - 1])
    }

    /** The list, first element first. */
    ghost function Contents(): (s: seq<E>)
      reads this
    {
      Items(nodes)
    }

    constructor ()
      ensures Valid() && fresh(Repr) && Contents() == []
    {
      first := null;
      last := null;
      size := 0;
      nodes := [];
      Repr := {};
    }

    method Size() returns (n: nat)
      requires Valid()
      ensures n == |Contents()|
    {
      n := size;
    }

    /** addFirst (also push, offerFirst): a new first node holds e; NullPointerException for null. */
    method AddFirst(e: Option<E>) returns (o: Outcome)
      requires Valid()
      modifies this, Repr
      ensures Valid() && fresh(Repr - old(Repr))
      ensures o.Pass? <==> e.Some?
      ensures o.Fail? ==> o.error == NullPointer && Contents() == old(Contents())
      ensures o.Pass? ==> Contents() == [e.value] + old(Contents())
    {
      if e.None? {
        return Fail(NullPointer);
      }
      var newNode := new Node(null, e.value, first);
      LinkFront(newNode);
      o := Pass;
    }

    /** Puts a node that is not in the chain in front of it. */
    method LinkFront(newNode: Node<E>)
      requires Valid() && newNode !in Repr
      requires newNode.prev == null && newNode.next == first
      modifies this, Repr
      ensures Valid() && Repr == old(Repr) + {newNode}
      ensures nodes == [newNode] + old(nodes)
    {
      ghost var ns := nodes;
      if first != null {
        first.prev := newNode;
      } else {
        last := newNode;
      }
      first := newNode;
      size := size + 1;
      nodes := [newNode] + ns;
      Repr := Repr + {newNode};
      forall k {:trigger nodes[k].prev} {:trigger nodes[k].next} | 1 <= k < |nodes|
        ensures nodes[k].prev == Before(nodes, k) && nodes[k].next == After(nodes, k)
      {
        var m := k - 1;
        ConsLinks(newNode, ns, k);
        if m > 0 {
          DistinctAt(ns, m, 0);
        }
      }
      ConsLinks(newNode, ns, 0);
      DistinctCons(newNode, ns);
    }

    /** addLast (also add, offer, offerLast): a new last node holds e; NullPointerException for null. */
    method AddLast(e: Option<E>) returns (o: Outcome)
      requires Valid()
      modifies this, Repr
      ensures Valid() && fresh(Repr - old(Repr))
      ensures o.Pass? <==> e.Some?
      ensures o.Fail? ==> o.error == NullPointer && Contents() == old(Contents())
      ensures o.Pass? ==> Contents() == old(Contents()) + [e.value]
    {
      if e.None? {
        return Fail(NullPointer);
      }
      var newNode := new Node(last, e.value, null);
      LinkBack(newNode);
      o := Pass;
    }

    /** Puts a node that is not in the chain after its last node. */
    method LinkBack(newNode: Node<E>)
      requires Valid() && newNode !in Repr
      requires newNode.prev == last && newNode.next == null
      modifies this, Repr
      ensures Valid() && Repr == old(Repr) + {newNode}
      ensures nodes == old(nodes) + [newNode]
    {
      ghost var ns := nodes;
      if last != null {
        last.next := newNode;
      } else {
        first := newNode;
      }
      last := newNode;
      size := size + 1;
      nodes := ns + [newNode];
      Repr := Repr + {newNode};
      forall k {:trigger nodes[k].prev} {:trigger nodes[k].next} | 0 <= k < |ns|
        ensures nodes[k].prev == Before(nodes, k) && nodes[k].next == After(nodes, k)
      {
        SnocLinks(ns, newNode, k);
        if k < |ns| - 1 {
          DistinctAt(ns, k, |ns| - 1);
        }
      }
      SnocLinks(ns, newNode, |ns|);
      DistinctCons(newNode, ns);
    }

    /** getFirst (also element): the first element; NoSuchElementException when empty. */
    method GetFirst() returns (r: Result<E>)
      requires Valid()
      ensures r.Ok? <==> Contents() != []
      ensures r.Ok? ==> r.value == Contents()[0]
      ensures r.Err? ==> r.error == NoSuchElement
    {
      if first == null {
        return Err(NoSuchElement);
      }
      r := Ok(first.item);
    }

    /** getLast: the last element; NoSuchElementException when empty. */
    method GetLast() returns (r: Result<E>)
      requires Valid()
      ensures r.Ok? <==> Contents() != []
      ensures r.Ok? ==> r.value == Contents()[|Contents()| - 1]
      ensures r.Err? ==> r.error == NoSuchElement
    {
      if last == null {
        return Err(NoSuchElement);
      }
      r := Ok(last.item);
    }

    /**
     * node(index): the node at `index`, walked to from `first` when the index
     * is in the front half and from `last` otherwise.
     */
    method NodeAt(index: nat) returns (x: Node<E>)
      requires Valid() && index < size
      ensures x == nodes[index]
    {
      if index < size / 2 {
        x := first;
        var i := 0;
        while i < index
          invariant 0 <= i <= index && x == nodes[i]
        {
          LinkAt(nodes, i);
          x := x.next;
          i := i + 1;
        }
      } else {
        x := last;
        var i := size - 1;
        while i > index
          invariant index <= i < size && x == nodes[i]
        {
          LinkAt(nodes, i);
          x := x.prev;
          i := i - 1;
        }
      }
    }

    /**
     * unlink(x): takes node x out of the chain by linking its neighbours to
     * each other (or moving `first`/`last` when x is an end) and returns its item.
     */
    method Unlink(x: Node<E>, ghost i: nat) returns (element: E)
      requires Valid() && i < size && x == nodes[i]
      modifies this, Repr
      ensures Valid() && Repr == old(Repr)
      ensures nodes == RemoveAt(old(nodes), i)
      ensures element == old(Contents())[i] && Contents() == RemoveAt(old(Contents()), i)
    {
      ghost var ns := nodes;
      element := x.item;
      var next := x.next;
      var prev := x.prev;
      assert prev == Before(ns, i) && next == After(ns, i);
      ghost var prevs, nexts := Prevs(ns), Nexts(ns);
      Snapshot(ns);
      Bypass(x, prev, next, ns, i, prevs, nexts);
      ItemsRemoveAt(ns, i);
      ValidAfterUnlink(ns, i, prevs, nexts);
    }

    /** The chain is valid again once node i is out of it and its neighbours point past it. */
    lemma ValidAfterUnlink(ns: seq<Node<E>>, i: nat, prevs: seq<Node?<E>>, nexts: seq<Node?<E>>)
      requires i < |ns| && Distinct(ns) && nodes == RemoveAt(ns, i) && size == |nodes|
      requires forall j :: 0 <= j < |ns| ==> ns[j] in Repr
      requires |prevs| == |ns| && |nexts| == |ns|
      requires forall j :: 0 <= j < |ns| ==> prevs[j] == Before(ns, j) && nexts[j] == After(ns, j)
      requires forall j {:trigger ns[j].prev} :: 0 <= j < |ns| && j != i - 1 && j != i && j != i + 1 ==>
        ns[j].prev == prevs[j]
      requires forall j {:trigger ns[j].next} :: 0 <= j < |ns| && j != i - 1 && j != i && j != i + 1 ==>
        ns[j].next == nexts[j]
      requires i > 0 ==> ns[i - 1].prev == prevs[i - 1] && ns[i - 1].next == After(ns, i)
      requires i < |ns| - 1 ==> ns[i + 1].prev == Before(ns, i) && ns[i + 1].next == nexts[i + 1]
      requires first == (if i == 0 then After(ns, i) else ns[0])
      requires last == (if i == |ns| - 1 then Before(ns, i) else ns[|ns| - 1])
      ensures Valid()
    {
      UnlinkedValid(ns, i);
      RemovedLinked(ns, i, prevs, nexts);
    }

    /**
     * The pointer surgery of unlink: the neighbours of x = ns[i] (or the
     * list's ends where x has none) point past x, and x lets go of them.
     * `prevs` and `nexts` are the links of the run before the surgery; the
     * nodes away from x keep theirs.
     */
    method Bypass(x: Node<E>, prev: Node?<E>, next: Node?<E>,
                  ghost ns: seq<Node<E>>, ghost i: nat, ghost prevs: seq<Node?<E>>, ghost nexts: seq<Node?<E>>)
      requires Distinct(ns) && i < |ns| && x == ns[i]
      requires prev == Before(ns, i) && next == After(ns, i)
      requires prevs == Prevs(ns) && nexts == Nexts(ns) && size == |ns|
      modifies this, x, prev, next
      ensures first == (if i == 0 then next else old(first))
      ensures last == (if i == |ns| - 1 then prev else old(last))
      ensures i > 0 ==> ns[i - 1].prev == prevs[i - 1] && ns[i - 1].next == After(ns, i)
      ensures i < |ns| - 1 ==> ns[i + 1].prev == Before(ns, i) && ns[i + 1].next == nexts[i + 1]
      ensures forall j {:trigger ns[j].prev} :: 0 <= j < |ns| && j != i - 1 && j != i && j != i + 1 ==>
        ns[j].prev == prevs[j]
      ensures forall j {:trigger ns[j].next} :: 0 <= j < |ns| && j != i - 1 && j != i && j != i + 1 ==>
        ns[j].next == nexts[j]
      ensures size == |ns| - 1 && nodes == RemoveAt(ns, i) && Repr == old(Repr)
    {
      DistinctAt(ns, i, i - 1);
      DistinctAt(ns, i, i + 1);
      if 0 < i < |ns| - 1 {
        DistinctAt(ns, i - 1, i + 1);
      }
      if prev == null {
        first := next;
      } else {
        prev.next := next;
        x.prev := null;
      }
      if next == null {
        last := prev;
      } else {
        next.prev := prev;
        x.next := null;
      }
      size := size - 1;
      nodes := RemoveAt(ns, i);
      forall j {:trigger ns[j].prev} {:trigger ns[j].next} | 0 <= j < |ns| && j != i - 1 && j != i && j != i + 1
        ensures ns[j].prev == prevs[j] && ns[j].next == nexts[j]
      {
        DistinctAt(ns, j, i);
        DistinctAt(ns, j, i - 1);
        DistinctAt(ns, j, i + 1);
      }
    }

    /** unlinkFirst: takes the first node out and returns its item; null when empty. */
    method UnlinkFirst() returns (r: Option<E>)
      requires Valid()
      modifies this, Repr
      ensures Valid() && Repr == old(Repr)
      ensures r.Some? <==> old(Contents()) != []
      ensures r.Some? ==> old(Contents()) == [r.value] + Contents()
      ensures r.None? ==> Contents() == old(Contents())
    {
      var f := first;
      if f == null {
        return None;
      }
      ghost var ns := nodes;
      var element := f.item;
      var next := f.next;
      assert next == After(ns, 0);
      ghost var prevs, nexts := Prevs(ns), Nexts(ns);
      Snapshot(ns);
      Bypass(f, null, next, ns, 0, prevs, nexts);
      ItemsRemoveAt(ns, 0);
      ValidAfterUnlink(ns, 0, prevs, nexts);
      r := Some(element);
    }

    /** unlinkLast: takes the last node out and returns its item; null when empty. */
    method UnlinkLast() returns (r: Option<E>)
      requires Valid()
      modifies this, Repr
      ensures Valid() && Repr == old(Repr)
      ensures r.Some? <==> old(Contents()) != []
      ensures r.Some? ==> old(Contents()) == Contents() + [r.value]
      ensures r.None? ==> Contents() == old(Contents())
    {
      var l := last;
      if l == null {
        return None;
      }
      ghost var ns := nodes;
      ghost var n := |ns| - 1;
      var element := l.item;
      var prev := l.prev;
      assert prev == Before(ns, n);
      ghost var prevs, nexts := Prevs(ns), Nexts(ns);
      Snapshot(ns);
      Bypass(l, prev, null, ns, n, prevs, nexts);
      ItemsRemoveAt(ns, n);
      ValidAfterUnlink(ns, n, prevs, nexts);
      r := Some(element);
    }

    /** pollFirst (also poll): the first element, removed; null when empty. */
    method PollFirst() returns (r: Option<E>)
      requires Valid()
      modifies this, Repr
      ensures Valid() && Repr == old(Repr)
      ensures r.Some? <==> old(Contents()) != []
      ensures r.Some? ==> old(Contents()) == [r.value] + Contents()
      ensures r.None? ==> Contents() == old(Contents())
    {
      if first == null {
        return None;
      }
      r := UnlinkFirst();
    }

    /** pollLast: the last element, removed; null when empty. */
    method PollLast() returns (r: Option<E>)
      requires Valid()
      modifies this, Repr
      ensures Valid() && Repr == old(Repr)
      ensures r.Some? <==> old(Contents()) != []
      ensures r.Some? ==> old(Contents()) == Contents() + [r.value]
      ensures r.None? ==> Contents() == old(Contents())
    {
      if last == null {
        return None;
      }
      r := UnlinkLast();
    }

    /** removeFirst (also remove, pop): the first element, removed; NoSuchElementException when empty. */
    method RemoveFirst() returns (r: Result<E>)
      requires Valid()
      modifies this, Repr
      ensures Valid() && Repr == old(Repr)
      ensures r.Ok? <==> old(Contents()) != []
      ensures r.Ok? ==> old(Contents()) == [r.value] + Contents()
      ensures r.Err? ==> r.error == NoSuchElement && Contents() == old(Contents())
    {
      if first == null {
        return Err(NoSuchElement);
      }
      var x := UnlinkFirst();
      r := Ok(x.value);
    }

    /** removeLast: the last element, removed; NoSuchElementException when empty. */
    method RemoveLast() returns (r: Result<E>)
      requires Valid()
      modifies this, Repr
      ensures Valid() && Repr == old(Repr)
      ensures r.Ok? <==> old(Contents()) != []
      ensures r.Ok? ==> old(Contents()) == Contents() + [r.value]
      ensures r.Err? ==> r.error == NoSuchElement && Contents() == old(Contents())
    {
      if last == null {
        return Err(NoSuchElement);
      }
      var x := UnlinkLast();
      r := Ok(x.value);
    }

    /** peekFirst (also peek): the first element, or null when empty. */
    method PeekFirst() returns (r: Option<E>)
      requires Valid()
      ensures r.Some? <==> Contents() != []
      ensures r.Some? ==> r.value == Contents()[0]
    {
      r := if first == null then None else Some(first.item);
    }

    /** peekLast: the last element, or null when empty. */
    method PeekLast() returns (r: Option<E>)
      requires Valid()
      ensures r.Some? <==> Contents() != []
      ensures r.Some? ==> r.value == Contents()[|Contents()| - 1]
    {
      r := if last == null then None else Some(last.item);
    }

    /** remove(int): the element at `index`, removed; IndexOutOfBoundsException unless 0 <= index < size. */
    method RemoveIndex(index: int) returns (r: Result<E>)
      requires Valid()
      modifies this, Repr
      ensures Valid() && Repr == old(Repr)
      ensures r.Ok? <==> 0 <= index < |old(Contents())|
      ensures r.Ok? ==> r.value == old(Contents())[index] && Contents() == RemoveAt(old(Contents()), index)
      ensures r.Err? ==> r.error == IndexOutOfBounds && Contents() == old(Contents())
    {
      if index < 0 || index >= size {
        return Err(IndexOutOfBounds);
      }
      var x := NodeAt(index);
      var element := Unlink(x, index);
      r := Ok(element);
    }

    /**
     * The first node, walking forward from `first`, whose item equals o, with
     * its position; null (and -1) when there is none. No item is null, so a
     * null o matches nothing.
     */
    method FindForward(o: Option<E>) returns (x: Node?<E>, ghost i: int)
      requires Valid()
      ensures o.Some? ==> i == IndexOf(Contents(), o.value)
      ensures o.None? ==> i == -1
      ensures i == -1 <==> x == null
      ensures 0 <= i ==> i < size && x == nodes[i]
    {
      if o.None? {
        return null, -1;
      }
      x := first;
      i := 0;
      while x != null && x.item != o.value
        invariant 0 <= i <= size
        invariant i < size ==> x == nodes[i]
        invariant i == size ==> x == null
        invariant forall k :: 0 <= k < i ==> Contents()[k] != o.value
        decreases size - i
      {
        LinkAt(nodes, i);
        x := x.next;
        i := i + 1;
      }
      if x == null {
        i := -1;
      }
    }

    /**
     * The last node, walking backward from `last`, whose item equals o, with
     * its position; null (and -1) when there is none.
     */
    method FindBackward(o: Option<E>) returns (x: Node?<E>, ghost i: int)
      requires Valid()
      ensures o.Some? ==> i == LastIndexOf(Contents(), o.value)
      ensures o.None? ==> i == -1
      ensures i == -1 <==> x == null
      ensures 0 <= i ==> i < size && x == nodes[i]
    {
      if o.None? {
        return null, -1;
      }
      x := last;
      i := size - 1;
      while x != null && x.item != o.value
        invariant -1 <= i < size
        invariant 0 <= i ==> x == nodes[i]
        invariant i == -1 ==> x == null
        invariant forall k :: i < k < size ==> Contents()[k] != o.value
        decreases i
      {
        LinkAt(nodes, i);
        x := x.prev;
        i := i - 1;
      }
    }

    /** remove(Object) (also removeFirstOccurrence): removes the first element equal to o, if any. */
    method RemoveObject(o: Option<E>) returns (r: bool)
      requires Valid()
      modifies this, Repr
      ensures Valid() && Repr == old(Repr)
      ensures r <==> o.Some? && o.value in old(Contents())
      ensures r ==> Contents() == RemoveAt(old(Contents()), IndexOf(old(Contents()), o.value))
      ensures !r ==> Contents() == old(Contents())
    {
      var x, i := FindForward(o);
      if x == null {
        return false;
      }
      var _ := Unlink(x, i);
      r := true;
    }

    /** removeLastOccurrence: removes the last element equal to o, if any. */
    method RemoveLastOccurrence(o: Option<E>) returns (r: bool)
      requires Valid()
      modifies this, Repr
      ensures Valid() && Repr == old(Repr)
      ensures r <==> o.Some? && o.value in old(Contents())
      ensures r ==> Contents() == RemoveAt(old(Contents()), LastIndexOf(old(Contents()), o.value))
      ensures !r ==> Contents() == old(Contents())
    {
      var x, i := FindBackward(o);
      if x == null {
        return false;
      }
      var _ := Unlink(x, i);
      r := true;
    }

    method IsEmpty() returns (r: bool)
      requires Valid()
      ensures r <==> Contents() == []
    {
      r := size == 0;
    }

    /** indexOf: the position of the first element equal to o, or -1. */
    method IndexOfElement(o: Option<E>) returns (r: int)
      requires Valid()
      ensures r == if o.None? then -1 else IndexOf(Contents(), o.value)
    {
      r := 0;
      var x := first;
      if o.None? {
        return -1;
      }
      while x != null
        invariant 0 <= r <= size
        invariant r < size ==> x == nodes[r]
        invariant r == size ==> x == null
        invariant forall k :: 0 <= k < r ==> Contents()[k] != o.value
        decreases size - r
      {
        LinkAt(nodes, r);
        if x.item == o.value {
          return r;
        }
        r := r + 1;
        x := x.next;
      }
      r := -1;
    }

    /** lastIndexOf: the position of the last element equal to o, or -1. */
    method LastIndexOfElement(o: Option<E>) returns (r: int)
      requires Valid()
      ensures r == if o.None? then -1 else LastIndexOf(Contents(), o.value)
    {
      var index := size;
      var x := last;
      if o.None? {
        return -1;
      }
      while x != null
        invariant 0 <= index <= size
        invariant 0 < index ==> x == nodes[index - 1]
        invariant index == 0 ==> x == null
        invariant forall k :: index <= k < size ==> Contents()[k] != o.value
        decreases index
      {
        index := index - 1;
        LinkAt(nodes, index);
        if x.item == o.value {
          return index;
        }
        x := x.prev;
      }
      r := -1;
    }

    /** contains: indexOf(o) >= 0. */
    method Contains(o: Option<E>) returns (r: bool)
      requires Valid()
      ensures r <==> o.Some? && o.value in Contents()
    {
      var i := IndexOfElement(o);
      r := i >= 0;
    }

    /** toArray: a new array of the elements, walking the chain from `first`. */
    method ToArray() returns (a: array<E>)
      requires Valid()
      ensures fresh(a) && a[..] == Contents()
    {
      if size == 0 {
        a := new E[0];
        return;
      }
      var x0 := first.item;
      a := new E[size](_ => x0);
      var x := first;
      var i := 0;
      while x != null
        invariant 0 <= i <= size
        invariant i < size ==> x == nodes[i]
        invariant i == size ==> x == null
        invariant forall k :: 0 <= k < i ==> a[k] == Contents()[k]
        decreases size - i
      {
        LinkAt(nodes, i);
        a[i] := x.item;
        i := i + 1;
        x := x.next;
      }
    }

    /** clear: the list becomes empty. */
    method Clear()
      requires Valid()
      modifies this
      ensures Valid() && Contents() == []
    {
      first := null;
      last := null;
      size := 0;
      nodes := [];
      Repr := {};
    }

    /** iterator(): a forward cursor at the first node. */
    method Iterator() returns (it: ListIterator<E>)
      requires Valid()
      ensures fresh(it) && it.Valid() && it.list == this && it.nextIndex == 0 && it.lastReturned == null
    {
      it := new ListIterator(this);
    }

    /** descendingIterator(): a backward cursor at the last node. */
    method DescendingIterator() returns (it: DescendingIterator<E>)
      requires Valid()
      ensures fresh(it) && it.Valid() && it.list == this && it.pos == |Contents()| - 1
    {
      it := new DescendingIterator(this);
    }
  }

  /** A node that is not in a distinct run can go in front of it or after it. */
  lemma DistinctCons<E>(n: Node<E>, ns: seq<Node<E>>)
    requires Distinct(ns) && n !in ns
    ensures Distinct([n] + ns) && Distinct(ns + [n])
  {
    var c := [n] + ns;
    forall a, b | 0 <= a < b < |c|
      ensures Differ(c, a, b)
    {
      if a > 0 {
        assert Differ(ns, a - 1, b - 1);
      }
    }
    var d := ns + [n];
    forall a, b | 0 <= a < b < |d|
      ensures Differ(d, a, b)
    {
      if b < |ns| {
        assert Differ(ns, a, b);
      }
    }
  }

  /** The neighbours in the run with n put in front: position k was k - 1. */
  lemma ConsLinks<E>(n: Node<E>, ns: seq<Node<E>>, k: nat)
    requires k <= |ns|
    ensures k > 0 ==> ([n] + ns)[k] == ns[k - 1]
    ensures Before([n] + ns, k) == (if k == 0 then null else if k == 1 then n else Before(ns, k - 1))
    ensures After([n] + ns, k) == (if k == 0 then (if ns == [] then null else ns[0]) else After(ns, k - 1))
  {
  }

  /** The neighbours in the run with n put at the end. */
  lemma SnocLinks<E>(ns: seq<Node<E>>, n: Node<E>, k: nat)
    requires k <= |ns|
    ensures k < |ns| ==> (ns + [n])[k] == ns[k]
    ensures Before(ns + [n], k) == (if k == |ns| then (if ns == [] then null else ns[|ns| - 1]) else Before(ns, k))
    ensures After(ns + [n], k) == (if k == |ns| then null else if k == |ns| - 1 then n else After(ns, k))
  {
  }

  /** Two positions of a distinct run hold different nodes. */
  lemma DistinctAt<E>(ns: seq<Node<E>>, a: int, b: int)
    requires Distinct(ns) && 0 <= a < |ns| && a != b
    ensures 0 <= b < |ns| ==> ns[a] != ns[b]
  {
    if 0 <= b < |ns| {
      if a < b {
        assert Differ(ns, a, b);
      } else {
        assert Differ(ns, b, a);
      }
    }
  }

  /** The `prev` links of a run, read in the current state. */
  ghost function Prevs<E>(ns: seq<Node<E>>): (r: seq<Node?<E>>)
    reads ns
    ensures |r| == |ns| && forall j {:trigger r[j]} :: 0 <= j < |ns| ==> r[j] == ns[j].prev
  {
    seq(|ns|, j requires 0 <= j < |ns| reads ns => ns[j].prev)
  }

  /** The `next` links of a run, read in the current state. */
  ghost function Nexts<E>(ns: seq<Node<E>>): (r: seq<Node?<E>>)
    reads ns
    ensures |r| == |ns| && forall j {:trigger r[j]} :: 0 <= j < |ns| ==> r[j] == ns[j].next
  {
    seq(|ns|, j requires 0 <= j < |ns| reads ns => ns[j].next)
  }

  /** The links of a linked run, read into sequences, are its neighbours. */
  lemma Snapshot<E>(ns: seq<Node<E>>)
    requires Linked(ns)
    ensures forall j :: 0 <= j < |ns| ==> Prevs(ns)[j] == Before(ns, j) && Nexts(ns)[j] == After(ns, j)
  {
  }

  /**
   * Unlinking node i of a linked run: when the nodes away from i keep the
   * links they had (`prevs`, `nexts`), and the neighbours of i now point
   * past it, the run without node i is linked.
   */
  lemma RemovedLinked<E>(ns: seq<Node<E>>, i: nat, prevs: seq<Node?<E>>, nexts: seq<Node?<E>>)
    requires i < |ns| && |prevs| == |ns| && |nexts| == |ns|
    requires forall j :: 0 <= j < |ns| ==> prevs[j] == Before(ns, j) && nexts[j] == After(ns, j)
    requires forall j {:trigger ns[j].prev} :: 0 <= j < |ns| && j != i - 1 && j != i && j != i + 1 ==>
      ns[j].prev == prevs[j]
    requires forall j {:trigger ns[j].next} :: 0 <= j < |ns| && j != i - 1 && j != i && j != i + 1 ==>
      ns[j].next == nexts[j]
    requires i > 0 ==> ns[i - 1].prev == prevs[i - 1] && ns[i - 1].next == After(ns, i)
    requires i < |ns| - 1 ==> ns[i + 1].prev == Before(ns, i) && ns[i + 1].next == nexts[i + 1]
    ensures Linked(RemoveAt(ns, i))
  {
    var r := RemoveAt(ns, i);
    forall k | 0 <= k < |r|
      ensures r[k].prev == Before(r, k) && r[k].next == After(r, k)
    {
      RemoveLinks(ns, i, k);
    }
  }

  /**
   * The neighbours in the run without node i: element k is old element m
   * (k below i, k + 1 from i on), and only the nodes on either side of i get
   * new neighbours, each other.
   */
  lemma RemoveLinks<E>(ns: seq<Node<E>>, i: nat, k: nat)
    requires i < |ns| && k < |ns| - 1
    ensures var m := if k < i then k else k + 1;
      RemoveAt(ns, i)[k] == ns[m] &&
      Before(RemoveAt(ns, i), k) == (if m == i + 1 then Before(ns, i) else Before(ns, m)) &&
      After(RemoveAt(ns, i), k) == (if m == i - 1 then After(ns, i) else After(ns, m))
  {
  }

  /**
   * After the links around node i are rewritten as unlink does, the chain
   * without node i is linked, distinct and inside the same footprint.
   */
  lemma UnlinkedValid<E>(ns: seq<Node<E>>, i: nat)
    requires i < |ns| && Distinct(ns)
    ensures Distinct(RemoveAt(ns, i))
  {
    var r := RemoveAt(ns, i);
    forall a, b | 0 <= a < b < |r|
      ensures Differ(r, a, b)
    {
      var a' := if a < i then a else a + 1;
      var b' := if b < i then b else b + 1;
      assert r[a] == ns[a'] && r[b] == ns[b'];
      assert Differ(ns, a', b');
    }
  }

  /**
   * The forward cursor: `next` is the node at position `nextIndex` (null at
   * the end) and `lastReturned` the node last returned by next(), or null.
   */
  class ListIterator<E(==)> {
    const list: MyLinkedList<E>
    var next: Node?<E>
    var lastReturned: Node?<E>
    var nextIndex: int

    ghost predicate Valid()
      reads this, list, list.Repr
    {
      list.Valid() && 0 <= nextIndex <= list.size &&
      (next == if nextIndex < list.size then list.nodes[nextIndex] else null) &&
      (lastReturned != null ==> 0 < nextIndex && lastReturned == list.nodes[nextIndex - 1])
    }

    constructor (list: MyLinkedList<E>)
      requires list.Valid()
      ensures Valid() && this.list == list && nextIndex == 0 && lastReturned == null
    {
      this.list := list;
      next := list.first;
      lastReturned := null;
      nextIndex := 0;
    }

    method HasNext() returns (r: bool)
      requires Valid()
      ensures r <==> nextIndex < |list.Contents()|
    {
      r := nextIndex < list.size;
    }

    /** next(): the element at the cursor, which moves past it; NoSuchElementException at the end. */
    method Next() returns (r: Result<E>)
      requires Valid()
      modifies this
      ensures Valid()
      ensures r.Ok? <==> old(nextIndex) < |list.Contents()|
      ensures r.Ok? ==> r.value == list.Contents()[old(nextIndex)] && nextIndex == old(nextIndex) + 1 && lastReturned != null
      ensures r.Err? ==> r.error == NoSuchElement && nextIndex == old(nextIndex) && lastReturned == old(lastReturned)
    {
      if nextIndex >= list.size {
        return Err(NoSuchElement);
      }
      assert next.next == After(list.nodes, nextIndex);
      lastReturned := next;
      next := next.next;
      nextIndex := nextIndex + 1;
      r := Ok(lastReturned.item);
    }

    /**
     * remove(): unlinks the node last returned; the cursor keeps its node, one
     * position earlier. IllegalStateException when there is no such node.
     */
    method Remove() returns (o: Outcome)
      requires Valid()
      modifies this, list, list.Repr
      ensures Valid() && list.Repr == old(list.Repr)
      ensures o.Pass? <==> old(lastReturned) != null
      ensures o.Pass? ==> list.Contents() == RemoveAt(old(list.Contents()), old(nextIndex) - 1)
      ensures o.Pass? ==> nextIndex == old(nextIndex) - 1 && lastReturned == null
      ensures o.Fail? ==> o.error == IllegalState && list.Contents() == old(list.Contents())
      ensures o.Fail? ==> nextIndex == old(nextIndex) && lastReturned == old(lastReturned)
    {
      if lastReturned == null {
        return Fail(IllegalState);
      }
      DistinctAt(list.nodes, nextIndex - 1, nextIndex);
      var lastNext := lastReturned.next;
      var _ := list.Unlink(lastReturned, nextIndex - 1);
      if next == lastReturned {
        // next() always moves the cursor past the node it returns
        assert false;
      } else {
        nextIndex := nextIndex - 1;
      }
      lastReturned := null;
      o := Pass;
    }
  }

  /** The backward cursor: `current` is the node at position `pos` (null before the first). */
  class DescendingIterator<E(==)> {
    const list: MyLinkedList<E>
    var current: Node?<E>
    ghost var pos: int

    ghost predicate Valid()
      reads this, list, list.Repr
    {
      list.Valid() && -1 <= pos < list.size &&
      current == (if pos >= 0 then list.nodes[pos] else null)
    }

    constructor (list: MyLinkedList<E>)
      requires list.Valid()
      ensures Valid() && this.list == list && pos == list.size - 1
    {
      this.list := list;
      current := list.last;
      pos := list.size - 1;
    }

    method HasNext() returns (r: bool)
      requires Valid()
      ensures r <==> pos >= 0
    {
      r := current != null;
    }

    /** next(): the element at the cursor, which moves one back; NoSuchElementException before the first. */
    method Next() returns (r: Result<E>)
      requires Valid()
      modifies this
      ensures Valid()
      ensures r.Ok? <==> old(pos) >= 0
      ensures r.Ok? ==> r.value == list.Contents()[old(pos)] && pos == old(pos) - 1
      ensures r.Err? ==> r.error == NoSuchElement && pos == old(pos)
    {
      if current == null {
        return Err(NoSuchElement);
      }
      LinkAt(list.nodes, pos);
      var item := current.item;
      current := current.prev;
      pos := pos - 1;
      r := Ok(item);
    }
  }
}
