/**
 * A binary min-heap priority queue over an array (lesson10/MyPriorityQueue.java).
 * The heap lives in `heap[..size]`; the children of slot k are 2k + 1 and
 * 2k + 2.  Sifting moves a "hole" through the array: `siftUp(k, x)` and
 * `siftDown(k, x)` treat slot k as holding x while they shift other elements
 * into it, and write x once at the end.
 */
module MyPriorityQueue {
  import opened Common

  /**
   * What the queue demands of its ordering (the Comparator contract): the
   * signs of compare(a, b) and compare(b, a) are opposite, and "at most" is
   * transitive.
   */
  ghost predicate IsComparator<E(!new)>(cmp: (E, E) -> int) {
    (forall a, b :: cmp(a, b) < 0 <==> cmp(b, a) > 0) &&
    (forall a, b, c {:trigger Chain(cmp, a, b, c)} :: Chain(cmp, a, b, c) ==> cmp(a, c) <= 0)
  }

  /** a is at most b and b at most c. */
  ghost predicate Chain<E>(cmp: (E, E) -> int, a: E, b: E, c: E) {
    cmp(a, b) <= 0 && cmp(b, c) <= 0
  }

  /** Transitivity, on request: the method contexts do not see it. */
  lemma Trans<E(!new)>(cmp: (E, E) -> int, a: E, b: E, c: E)
    requires IsComparator(cmp) && cmp(a, b) <= 0 && cmp(b, c) <= 0
    ensures cmp(a, c) <= 0
  {
    assert Chain(cmp, a, b, c);
  }

  /** (k - 1) >>> 1. */
  function Parent(k: nat): nat
    requires k > 0
  {
    (k - 1) / 2
  }

  /** Every element is at least its parent. */
  ghost predicate IsHeap<E(!new)>(cmp: (E, E) -> int, h: seq<E>) {
    forall c :: 0 < c < |h| ==> cmp(h[Parent(c)], h[c]) <= 0
  }

  /**
   * The heap order with a hole at k: every edge that does not touch k is in
   * order, and k's parent is at most k's children.
   */
  ghost predicate Hole<E(!new)>(cmp: (E, E) -> int, h: seq<E>, k: nat) {
    (forall c :: 0 < c < |h| && c != k && Parent(c) != k ==> cmp(h[Parent(c)], h[c]) <= 0) &&
    (0 < k ==> forall c :: 0 < c < |h| && Parent(c) == k ==> cmp(h[Parent(k)], h[c]) <= 0)
  }

  /** The element at k is at most its children. */
  ghost predicate Above<E(!new)>(cmp: (E, E) -> int, h: seq<E>, k: nat) {
    forall c :: 0 < c < |h| && Parent(c) == k ==> cmp(h[k], h[c]) <= 0
  }

  /** The element at k is at least its parent. */
  ghost predicate Below<E(!new)>(cmp: (E, E) -> int, h: seq<E>, k: nat) {
    0 < k < |h| ==> cmp(h[Parent(k)], h[k]) <= 0
  }

  /** x is in m and at most every element of m. */
  ghost predicate IsLeast<E(!new)>(cmp: (E, E) -> int, x: E, m: multiset<E>) {
    x in m && forall y :: y in m ==> cmp(x, y) <= 0
  }

  /** The child siftDown descends to: the right one only when it is strictly smaller. */
  function SmallerChild<E(!new)>(cmp: (E, E) -> int, h: seq<E>, k: nat): (j: nat)
    requires 2 * k + 1 < |h|
    ensures (j == 2 * k + 1 || j == 2 * k + 2) && j < |h|
  {
    if 2 * k + 2 < |h| && cmp(h[2 * k + 1], h[2 * k + 2]) > 0 then 2 * k + 2 else 2 * k + 1
  }

  function Swap<E>(h: seq<E>, i: nat, j: nat): (r: seq<E>)
    requires i < |h| && j < |h|
    ensures |r| == |h| && multiset(r) == multiset(h)
    ensures r[i] == h[j] && r[j] == h[i]
    ensures forall k :: 0 <= k < |h| && k != i && k != j ==> r[k] == h[k]
  {
    h[i := h[j]][j := h[i]]
  }

  /**
   * The slots of h after removeAt(i) moves the last element into slot i
   * (before any sifting): the multiset loses exactly h[i].
   */
  function Detach<E>(h: seq<E>, i: nat): (r: seq<E>)
    requires i < |h|
    ensures |r| == |h| - 1
    ensures multiset(r) == multiset(h) - multiset{h[i]}
  {
    var s := |h| - 1;
    assert h == h[..s] + [h[s]];
    if i == s then h[..s] else h[..s][i := h[s]]
  }

  /** Writing x into the last slot of a appends x to the rest, and writing it twice changes nothing. */
  lemma UpdateLast<E>(a: seq<E>, x: E)
    requires 0 < |a|
    ensures a[|a| - 1 := x] == a[..|a| - 1] + [x]
    ensures a[|a| - 1 := x][|a| - 1 := x] == a[|a| - 1 := x]
    ensures multiset(a[|a| - 1 := x]) == multiset(a[..|a| - 1]) + multiset{x}
  {
    assert a[|a| - 1 := x] == a[..|a| - 1] + [x];
  }

  /** Shifting the element at j into the hole at k moves the hole to j. */
  lemma MoveHole<E>(a: seq<E>, k: nat, j: nat, x: E)
    requires k < |a| && j < |a|
    ensures a[k := a[j]][j := x] == Swap(a[k := x], k, j)
  {
  }

  /** k < size >>> 1 exactly when k has a child below size. */
  lemma Half(k: nat, size: nat)
    ensures k < size / 2 <==> 2 * k + 1 < size
  {
  }

  /** The children of k are exactly 2k + 1 and 2k + 2. */
  lemma Children(k: nat, c: nat)
    requires c > 0
    ensures Parent(c) == k <==> c == 2 * k + 1 || c == 2 * k + 2
  {
  }

  /** The root of a heap is a least element. */
  lemma {:induction false} RootIsLeast<E(!new)>(cmp: (E, E) -> int, h: seq<E>, k: nat)
    requires IsComparator(cmp) && IsHeap(cmp, h) && k < |h|
    ensures cmp(h[0], h[k]) <= 0
    decreases k
  {
    if k == 0 {
      assert cmp(h[0], h[0]) < 0 <==> cmp(h[0], h[0]) > 0;
    } else {
      RootIsLeast(cmp, h, Parent(k));
      Trans(cmp, h[0], h[Parent(k)], h[k]);
    }
  }

  /** The root of a non-empty heap is least in its multiset. */
  lemma RootIsLeastOf<E(!new)>(cmp: (E, E) -> int, h: seq<E>)
    requires IsComparator(cmp) && IsHeap(cmp, h) && 0 < |h|
    ensures IsLeast(cmp, h[0], multiset(h))
  {
    forall y | y in multiset(h)
      ensures cmp(h[0], y) <= 0
    {
      var k :| 0 <= k < |h| && h[k] == y;
      RootIsLeast(cmp, h, k);
    }
  }

  /** Dropping slots from the end of a heap leaves a heap. */
  lemma Prefix<E(!new)>(cmp: (E, E) -> int, h: seq<E>, m: nat)
    requires IsHeap(cmp, h) && m <= |h|
    ensures IsHeap(cmp, h[..m])
  {
    forall c | 0 < c < m
      ensures cmp(h[..m][Parent(c)], h[..m][c]) <= 0
    {
      assert h[..m][Parent(c)] == h[Parent(c)];
    }
  }

  /** A heap has the hole shape at every slot, whatever it holds there. */
  lemma HoleAt<E(!new)>(cmp: (E, E) -> int, h: seq<E>, k: nat, x: E)
    requires IsComparator(cmp) && IsHeap(cmp, h) && k < |h|
    ensures Hole(cmp, h[k := x], k)
  {
    if 0 < k {
      forall c | 0 < c < |h| && Parent(c) == k
        ensures cmp(h[Parent(k)], h[c]) <= 0
      {
        Trans(cmp, h[Parent(k)], h[k], h[c]);
      }
    }
  }

  /** A heap is in order on both sides of every slot. */
  lemma Unsettle<E(!new)>(cmp: (E, E) -> int, h: seq<E>, k: nat)
    requires IsComparator(cmp) && IsHeap(cmp, h) && k < |h|
    ensures Hole(cmp, h, k) && Above(cmp, h, k)
  {
    HoleAt(cmp, h, k, h[k]);
    assert h[k := h[k]] == h;
  }

  /** A hole in order on both sides closes into a heap. */
  lemma Settle<E(!new)>(cmp: (E, E) -> int, h: seq<E>, k: nat)
    requires Hole(cmp, h, k) && Above(cmp, h, k) && Below(cmp, h, k)
    ensures IsHeap(cmp, h)
  {
  }

  /** A new last element of a heap is a hole with no children. */
  lemma Append<E(!new)>(cmp: (E, E) -> int, h: seq<E>, x: E)
    requires IsHeap(cmp, h)
    ensures Hole(cmp, h + [x], |h|) && Above(cmp, h + [x], |h|)
  {
    var g := h + [x];
    forall c | 0 < c < |g| && c != |h| && Parent(c) != |h|
      ensures cmp(g[Parent(c)], g[c]) <= 0
    {
      assert g[Parent(c)] == h[Parent(c)] && g[c] == h[c];
    }
  }

  /** One step of siftUp: x, smaller than its parent, trades places with it. */
  lemma UpStep<E(!new)>(cmp: (E, E) -> int, h: seq<E>, k: nat)
    requires IsComparator(cmp) && 0 < k < |h|
    requires Hole(cmp, h, k) && Above(cmp, h, k) && cmp(h[k], h[Parent(k)]) < 0
    ensures Hole(cmp, Swap(h, k, Parent(k)), Parent(k)) && Above(cmp, Swap(h, k, Parent(k)), Parent(k))
  {
    var p := Parent(k);
    var s := Swap(h, k, p);
    assert cmp(h[k], h[p]) <= 0;
    forall c | 0 < c < |h| && c != p && Parent(c) != p
      ensures cmp(s[Parent(c)], s[c]) <= 0
    {
      if Parent(c) == k {
        assert s[Parent(c)] == h[p] && s[c] == h[c];
      } else {
        assert c != k;
        assert s[Parent(c)] == h[Parent(c)] && s[c] == h[c];
      }
    }
    if 0 < p {
      forall c | 0 < c < |h| && Parent(c) == p
        ensures cmp(s[Parent(p)], s[c]) <= 0
      {
        assert cmp(h[Parent(p)], h[p]) <= 0;
        if c != k {
          Trans(cmp, h[Parent(p)], h[p], h[c]);
        }
      }
    }
    forall c | 0 < c < |h| && Parent(c) == p
      ensures cmp(s[p], s[c]) <= 0
    {
      if c != k {
        Trans(cmp, h[k], h[p], h[c]);
      }
    }
  }

  /** siftUp stops at the root or below a parent that is not larger: a heap. */
  lemma UpDone<E(!new)>(cmp: (E, E) -> int, h: seq<E>, k: nat)
    requires IsComparator(cmp) && k < |h|
    requires Hole(cmp, h, k) && Above(cmp, h, k) && (k == 0 || cmp(h[k], h[Parent(k)]) >= 0)
    ensures IsHeap(cmp, h)
  {
    if 0 < k {
      assert cmp(h[Parent(k)], h[k]) < 0 <==> cmp(h[k], h[Parent(k)]) > 0;
    }
    Settle(cmp, h, k);
  }

  /** The child siftDown picks is at most both children. */
  lemma SmallerChildIsLeast<E(!new)>(cmp: (E, E) -> int, h: seq<E>, k: nat)
    requires IsComparator(cmp) && 2 * k + 1 < |h|
    ensures forall c :: 0 < c < |h| && Parent(c) == k ==> cmp(h[SmallerChild(cmp, h, k)], h[c]) <= 0
  {
    var j := SmallerChild(cmp, h, k);
    forall c | 0 < c < |h| && Parent(c) == k
      ensures cmp(h[j], h[c]) <= 0
    {
      Children(k, c);
      if c == j {
        assert cmp(h[c], h[c]) < 0 <==> cmp(h[c], h[c]) > 0;
      } else {
        assert 2 * k + 2 < |h|;
        assert cmp(h[2 * k + 1], h[2 * k + 2]) > 0 <==> cmp(h[2 * k + 2], h[2 * k + 1]) < 0;
      }
    }
  }

  /** One step of siftDown: x, larger than the least child j, trades places with it. */
  lemma DownStep<E(!new)>(cmp: (E, E) -> int, h: seq<E>, k: nat, j: nat)
    requires IsComparator(cmp) && 0 < j < |h| && Parent(j) == k && Hole(cmp, h, k)
    requires forall c :: 0 < c < |h| && Parent(c) == k ==> cmp(h[j], h[c]) <= 0
    requires cmp(h[k], h[j]) > 0
    ensures Hole(cmp, Swap(h, k, j), j) && Below(cmp, Swap(h, k, j), j)
  {
    var s := Swap(h, k, j);
    assert cmp(h[j], h[k]) < 0;
    forall c | 0 < c < |h| && c != j && Parent(c) != j
      ensures cmp(s[Parent(c)], s[c]) <= 0
    {
      if c == k {
        assert s[Parent(c)] == h[Parent(k)] && s[c] == h[j];
      } else if Parent(c) == k {
        assert s[Parent(c)] == h[j] && s[c] == h[c];
      } else {
        assert s[Parent(c)] == h[Parent(c)] && s[c] == h[c];
      }
    }
    forall c | 0 < c < |h| && Parent(c) == j
      ensures cmp(s[Parent(j)], s[c]) <= 0
    {
      assert c != k && Parent(c) != k;
    }
  }

  /** siftDown stops above a least child that is not smaller than x. */
  lemma DownStop<E(!new)>(cmp: (E, E) -> int, h: seq<E>, k: nat, j: nat)
    requires IsComparator(cmp) && 0 < j < |h| && Parent(j) == k
    requires forall c :: 0 < c < |h| && Parent(c) == k ==> cmp(h[j], h[c]) <= 0
    requires cmp(h[k], h[j]) <= 0
    ensures Above(cmp, h, k)
  {
    forall c | 0 < c < |h| && Parent(c) == k
      ensures cmp(h[k], h[c]) <= 0
    {
      Trans(cmp, h[k], h[j], h[c]);
    }
  }

  /**
   * siftDown's loop step on the array a with x in the hole k: the smaller
   * child j of k moves up into k and the hole moves down to j.
   */
  lemma SiftDownStep<E(!new)>(cmp: (E, E) -> int, a: seq<E>, k: nat, x: E, j: nat)
    requires IsComparator(cmp) && 2 * k + 1 < |a| && Hole(cmp, a[k := x], k)
    requires j == SmallerChild(cmp, a, k) && cmp(x, a[j]) > 0
    ensures Hole(cmp, a[k := a[j]][j := x], j) && Below(cmp, a[k := a[j]][j := x], j)
    ensures multiset(a[k := a[j]][j := x]) == multiset(a[k := x])
  {
    var h := a[k := x];
    assert SmallerChild(cmp, h, k) == j;
    SmallerChildIsLeast(cmp, h, k);
    DownStep(cmp, h, k, j);
    MoveHole(a, k, j, x);
  }

  /** siftDown's loop exit on the array a: x in the hole k is at most its children. */
  lemma SiftDownStop<E(!new)>(cmp: (E, E) -> int, a: seq<E>, k: nat, x: E, j: nat)
    requires IsComparator(cmp) && 2 * k + 1 < |a|
    requires j == SmallerChild(cmp, a, k) && cmp(x, a[j]) <= 0
    ensures Above(cmp, a[k := x], k)
  {
    var h := a[k := x];
    assert SmallerChild(cmp, h, k) == j;
    SmallerChildIsLeast(cmp, h, k);
    DownStop(cmp, h, k, j);
  }

  /**
   * siftDown's end: x settled at k.  If it left its starting slot k0 the
   * heap is whole; either way k0 is in order with its children.
   */
  lemma SiftDownDone<E(!new)>(cmp: (E, E) -> int, h: seq<E>, k0: nat, k: nat, x: E)
    requires IsComparator(cmp) && k0 < |h| && k < |h| && h[k] == x
    requires Hole(cmp, h, k) && Above(cmp, h, k) && (k != k0 ==> Below(cmp, h, k))
    ensures Hole(cmp, h, k0) && Above(cmp, h, k0)
    ensures h[k0] != x ==> IsHeap(cmp, h)
  {
    if k != k0 {
      Settle(cmp, h, k);
      Unsettle(cmp, h, k0);
    }
  }

  /** siftDown stops at a leaf. */
  lemma Leaf<E(!new)>(cmp: (E, E) -> int, h: seq<E>, k: nat)
    requires |h| <= 2 * k + 1
    ensures Above(cmp, h, k)
  {
  }

  /** DEFAULT_CAPACITY. */
  const DefaultCapacity: nat := 10

  class MyPriorityQueue<E(0,==,!new)> {
    var heap: array<E>
    var size: nat
    /**
     * compare(a, b): the comparator given to the constructor, or the
     * elements' natural order when there is none.
     */
    const order: (E, E) -> int

    ghost predicate Valid()
      reads this, heap
    {
      IsComparator(order) && size <= heap.Length && IsHeap(order, heap[..size])
    }

    /** The queue as a multiset. */
    ghost function Contents(): multiset<E>
      reads this, heap
      requires size <= heap.Length
    {
      multiset(heap[..size])
    }

    /**
     * MyPriorityQueue() and MyPriorityQueue(comparator): an empty heap of
     * DEFAULT_CAPACITY slots ordered by the comparator, or by compareTo when
     * the comparator is null.
     */
    constructor (comparator: Option<(E, E) -> int>, compareTo: (E, E) -> int)
      requires IsComparator(comparator.GetOr(compareTo))
      ensures Valid() && fresh(heap) && heap.Length == DefaultCapacity
      ensures order == comparator.GetOr(compareTo) && Contents() == multiset{}
    {
      heap := new E[DefaultCapacity];
      size := 0;
      order := comparator.GetOr(compareTo);
    }

    /** ensureCapacity: at least doubles the array once it has fewer than minCapacity slots. */
    method EnsureCapacity(minCapacity: nat)
      requires Valid()
      modifies this
      ensures Valid() && size == old(size) && heap[..size] == old(heap[..size])
      ensures minCapacity <= old(heap.Length) ==> heap == old(heap)
      ensures minCapacity > old(heap.Length) ==> fresh(heap)
      ensures heap.Length == if minCapacity <= old(heap.Length) then old(heap.Length)
                             else if 2 * old(heap.Length) < minCapacity then minCapacity
                             else 2 * old(heap.Length)
    {
      if minCapacity > heap.Length {
        var newCapacity := heap.Length * 2;
        if newCapacity < minCapacity {
          newCapacity := minCapacity;
        }
        var newHeap := new E[newCapacity];
        forall i | 0 <= i < heap.Length {
          newHeap[i] := heap[i];
        }
        assert newHeap[..size] == heap[..size];
        heap := newHeap;
      }
    }

    /** heap[k] = v, seen as an update of the first n slots. */
    method Put(k: nat, v: E, ghost n: nat)
      requires k < n <= heap.Length
      modifies heap
      ensures heap[..n] == old(heap[..n])[k := v]
      ensures forall i :: n <= i < heap.Length ==> heap[i] == old(heap[i])
    {
      heap[k] := v;
    }

    /**
     * siftUp(k, x): the slots above k that are larger than x move down one
     * level along k's path to the root, and x lands where the first
     * parent that is not larger stops it.  Slots from n on are untouched.
     */
    method SiftUp(k0: nat, x: E, ghost n: nat)
      requires IsComparator(order) && k0 < n <= heap.Length
      requires Hole(order, heap[..n][k0 := x], k0) && Above(order, heap[..n][k0 := x], k0)
      modifies heap
      ensures IsHeap(order, heap[..n])
      ensures multiset(heap[..n]) == multiset(old(heap[..n])[k0 := x])
      ensures forall i :: n <= i < heap.Length ==> heap[i] == old(heap[i])
    {
      var k: nat := k0;
      while k > 0
        invariant k <= k0
        invariant Hole(order, heap[..n][k := x], k) && Above(order, heap[..n][k := x], k)
        invariant multiset(heap[..n][k := x]) == multiset(old(heap[..n])[k0 := x])
        invariant forall i :: n <= i < heap.Length ==> heap[i] == old(heap[i])
      {
        var parent := (k - 1) / 2;
        var e := heap[parent];
        if order(x, e) >= 0 {
          break;
        }
        ghost var a := heap[..n];
        UpStep(order, a[k := x], k);
        Put(k, e, n);
        MoveHole(a, k, parent, x);
        k := parent;
      }
      ghost var h := heap[..n][k := x];
      UpDone(order, h, k);
      Put(k, x, n);
    }

    /**
     * siftDown(k, x): x descends from k, each time trading places with the
     * smaller of the children below size, until no child is smaller.  When
     * x leaves slot k0 the whole heap is in order; otherwise at least the
     * edges below k0 are.
     */
    method SiftDown(k0: nat, x: E)
      requires IsComparator(order) && k0 < size <= heap.Length
      requires Hole(order, heap[..size][k0 := x], k0)
      modifies heap
      ensures Hole(order, heap[..size], k0) && Above(order, heap[..size], k0)
      ensures heap[k0] != x ==> IsHeap(order, heap[..size])
      ensures multiset(heap[..size]) == multiset(old(heap[..size])[k0 := x])
      ensures forall i :: size <= i < heap.Length ==> heap[i] == old(heap[i])
    {
      var k: nat := k0;
      var half := size / 2;
      while k < half
        invariant k0 <= k < size
        invariant Hole(order, heap[..size][k := x], k)
        invariant k != k0 ==> Below(order, heap[..size][k := x], k)
        invariant multiset(heap[..size][k := x]) == multiset(old(heap[..size])[k0 := x])
        invariant forall i :: size <= i < heap.Length ==> heap[i] == old(heap[i])
        decreases size - k
      {
        Half(k, size);
        ghost var a := heap[..size];
        var child := SmallerChild(order, heap[..size], k);
        var c := heap[child];
        if order(x, c) <= 0 {
          SiftDownStop(order, a, k, x, child);
          break;
        }
        SiftDownStep(order, a, k, x, child);
        Put(k, c, size);
        k := child;
      }
      Half(k, size);
      ghost var h := heap[..size][k := x];
      if half <= k {
        Leaf(order, h, k);
      }
      SiftDownDone(order, h, k0, k, x);
      Put(k, x, size);
    }
  
    /**
     * offer: null is refused with a NullPointerException; otherwise the
     * element goes into the first free slot (growing the array first when it
     * is full) and sifts up.
     */
    method Offer(e: Option<E>) returns (r: Result<bool>)
      requires Valid()
      modifies this, heap
      ensures Valid() && (heap == old(heap) || fresh(heap))
      ensures e.None? ==> r == Err(NullPointer) && Contents() == old(Contents())
      ensures e.Some? ==> r == Ok(true) && Contents() == old(Contents()) + multiset{e.value}
    {
      if e.None? {
        return Err(NullPointer);
      }
      EnsureCapacity(size + 1);
      Insert(e.value);
      r := Ok(true);
    }

    /** The part of offer after the capacity check: x enters slot size and sifts up. */
    method Insert(x: E)
      requires Valid() && size < heap.Length
      modifies this, heap
      ensures Valid() && heap == old(heap)
      ensures Contents() == old(Contents()) + multiset{x}
    {
      ghost var a := heap[..size + 1];
      assert a[..size] == heap[..size];
      Put(size, x, size + 1);
      UpdateLast(a, x);
      Append(order, a[..size], x);
      SiftUp(size, x, size + 1);
      ghost var sifted := heap[..size + 1];
      size := size + 1;
      assert heap[..size] == sifted;
    }

    /** add: the same as offer. */
    method Add(e: Option<E>) returns (r: Result<bool>)
      requires Valid()
      modifies this, heap
      ensures Valid() && (heap == old(heap) || fresh(heap))
      ensures e.None? ==> r == Err(NullPointer) && Contents() == old(Contents())
      ensures e.Some? ==> r == Ok(true) && Contents() == old(Contents()) + multiset{e.value}
    {
      r := Offer(e);
    }

    /**
     * poll: null on an empty queue; otherwise the root, a least element, is
     * taken out, and the last element fills the root and sifts down.
     */
    method Poll() returns (r: Option<E>)
      requires Valid()
      modifies this, heap
      ensures Valid() && heap == old(heap)
      ensures r.None? <==> old(Contents()) == multiset{}
      ensures r.None? ==> Contents() == old(Contents())
      ensures r.Some? ==> IsLeast(order, r.value, old(Contents()))
      ensures r.Some? ==> Contents() == old(Contents()) - multiset{r.value}
    {
      if size == 0 {
        return None;
      }
      ghost var h := heap[..size];
      RootIsLeastOf(order, h);
      var s := size - 1;
      size := s;
      var result := heap[0];
      var x := heap[s];
      Prefix(order, h, s);
      if s != 0 {
        assert heap[..s][0 := x] == Detach(h, 0);
        HoleAt(order, h[..s], 0, x);
        SiftDown(0, x);
        Settle(order, heap[..size], 0);
      } else {
        assert heap[..s] == Detach(h, 0);
      }
      r := Some(result);
    }

    /** peek: null on an empty queue, otherwise the root: a least element. */
    function Peek(): (r: Option<E>)
      reads this, heap
      requires Valid()
      ensures r.None? <==> Contents() == multiset{}
      ensures r.Some? ==> IsLeast(order, r.value, Contents())
    {
      if size == 0 then None
      else
        RootIsLeastOf(order, heap[..size]);
        Some(heap[0])
    }

    /** element: peek, but a NoSuchElementException on an empty queue. */
    function Element(): (r: Result<E>)
      reads this, heap
      requires Valid()
      ensures r.Err? <==> Contents() == multiset{}
      ensures r.Err? ==> r.error == NoSuchElement
      ensures r.Ok? ==> IsLeast(order, r.value, Contents())
    {
      match Peek()
      case None => Err(NoSuchElement)
      case Some(x) => Ok(x)
    }

    /** remove(): poll, but a NoSuchElementException on an empty queue. */
    method RemoveHead() returns (r: Result<E>)
      requires Valid()
      modifies this, heap
      ensures Valid() && heap == old(heap)
      ensures r.Err? <==> old(Contents()) == multiset{}
      ensures r.Err? ==> r.error == NoSuchElement && Contents() == old(Contents())
      ensures r.Ok? ==> IsLeast(order, r.value, old(Contents()))
      ensures r.Ok? ==> Contents() == old(Contents()) - multiset{r.value}
    {
      var x := Poll();
      if x.None? {
        return Err(NoSuchElement);
      }
      r := Ok(x.value);
    }

    /** size. */
    function Size(): (n: nat)
      reads this, heap
      requires Valid()
      ensures n == |Contents()|
    {
      size
    }

    /** isEmpty. */
    function IsEmpty(): (b: bool)
      reads this, heap
      requires Valid()
      ensures b <==> Contents() == multiset{}
    {
      size == 0
    }

    /** indexOf: -1 for null, otherwise the first slot holding an equal element, or -1. */
    method IndexOf(o: Option<E>) returns (r: int)
      requires size <= heap.Length
      ensures o.None? ==> r == -1
      ensures o.Some? ==> r == Common.IndexOf(heap[..size], o.value)
    {
      if o.Some? {
        var i := 0;
        while i < size
          invariant i <= size
          invariant forall j :: 0 <= j < i ==> heap[j] != o.value
        {
          if o.value == heap[i] {
            IndexOfFirst(heap[..size], o.value, i);
            return i;
          }
          i := i + 1;
        }
        assert o.value !in heap[..size];
      }
      return -1;
    }

    /** contains: indexOf finds the element. */
    method Contains(o: Option<E>) returns (b: bool)
      requires size <= heap.Length
      ensures b <==> o.Some? && o.value in Contents()
    {
      var i := IndexOf(o);
      b := i != -1;
    }

    /**
     * removeAt(i): the last element fills slot i and sifts down; if it is
     * still at i it sifts up instead.  Removing the last slot moves nothing.
     */
    method RemoveAt(i: nat)
      requires Valid() && i < size
      modifies this, heap
      ensures Valid() && heap == old(heap) && size == old(size) - 1
      ensures Contents() == old(Contents()) - multiset{old(heap[i])}
    {
      ghost var h := heap[..size];
      var s := size - 1;
      size := s;
      assert heap[..s] == h[..s];
      Prefix(order, h, s);
      if s == i {
        assert h[..s] == Detach(h, i);
      } else {
        var moved := heap[s];
        assert h[..s][i := moved] == Detach(h, i);
        HoleAt(order, h[..s], i, moved);
        Refill(i, moved);
      }
    }

    /**
     * The end of removeAt: moved, written into slot i, sifts down, and if
     * it stayed at i it sifts up.
     */
    method Refill(i: nat, moved: E)
      requires IsComparator(order) && i < size <= heap.Length
      requires Hole(order, heap[..size][i := moved], i)
      modifies heap
      ensures IsHeap(order, heap[..size])
      ensures multiset(heap[..size]) == multiset(old(heap[..size])[i := moved])
    {
      SiftDown(i, moved);
      if heap[i] == moved {
        assert heap[..size][i := moved] == heap[..size];
        SiftUp(i, moved, size);
      }
    }

    /** remove(o): removes one element equal to o, if there is one. */
    method Remove(o: Option<E>) returns (removed: bool)
      requires Valid()
      modifies this, heap
      ensures Valid() && heap == old(heap)
      ensures removed <==> o.Some? && o.value in old(Contents())
      ensures removed ==> Contents() == old(Contents()) - multiset{o.value}
      ensures !removed ==> Contents() == old(Contents())
    {
      var i := IndexOf(o);
      if i == -1 {
        return false;
      }
      RemoveAt(i);
      return true;
    }

    /** clear: the queue becomes empty; the array keeps its length. */
    method Clear()
      requires Valid()
      modifies this
      ensures Valid() && heap == old(heap) && Contents() == multiset{}
    {
      size := 0;
    }

    /**
     * containsAll: every element of c is contained (a null element never
     * is); iterating a null collection throws a NullPointerException.
     */
    method ContainsAll(c: Option<seq<Option<E>>>) returns (r: Result<bool>)
      requires size <= heap.Length
      ensures c.None? <==> r == Err(NullPointer)
      ensures c.Some? ==> r == Ok(forall j :: 0 <= j < |c.value| ==> c.value[j].Some? && c.value[j].value in Contents())
    {
      if c.None? {
        return Err(NullPointer);
      }
      var i := 0;
      while i < |c.value|
        invariant i <= |c.value|
        invariant forall j :: 0 <= j < i ==> c.value[j].Some? && c.value[j].value in Contents()
      {
        var b := Contains(c.value[i]);
        if !b {
          return Ok(false);
        }
        i := i + 1;
      }
      return Ok(true);
    }

    /**
     * addAll: offers the elements of c in order.  A null collection throws
     * at once; a null element throws when it is reached, after the elements
     * before it went in.  The result says whether anything was added.
     */
    method AddAll(c: Option<seq<Option<E>>>) returns (r: Result<bool>)
      requires Valid()
      modifies this, heap
      ensures Valid() && (heap == old(heap) || fresh(heap))
      ensures c.None? ==> r == Err(NullPointer) && Contents() == old(Contents())
      ensures c.Some? ==> r == if None in c.value then Err(NullPointer) else Ok(|c.value| > 0)
      ensures c.Some? ==> Contents() == old(Contents()) + multiset(Present(BeforeNull(c.value)))
    {
      if c.None? {
        return Err(NullPointer);
      }
      r := OfferAll(c.value);
    }

    /** The loop of addAll: offers each element in turn and stops at the first null. */
    method OfferAll(s: seq<Option<E>>) returns (r: Result<bool>)
      requires Valid()
      modifies this, heap
      ensures Valid() && (heap == old(heap) || fresh(heap))
      ensures r == if None in s then Err(NullPointer) else Ok(|s| > 0)
      ensures Contents() == old(Contents()) + multiset(Present(BeforeNull(s)))
    {
      var modified := false;
      var i := 0;
      // offer(null) throws before it changes anything, so the walk stops at the first null
      while i < |s| && s[i].Some?
        invariant i <= |s| && Valid() && (heap == old(heap) || fresh(heap))
        invariant None !in s[..i] && modified == (0 < i)
        invariant Contents() == old(Contents()) + multiset(Present(s[..i]))
      {
        var _ := Offer(s[i]);
        PresentNext(s, i);
        modified := true;
        i := i + 1;
      }
      StopAt(s, i);
      r := if i < |s| then Err(NullPointer) else Ok(modified);
    }

    /** toArray: a copy of the occupied slots, in heap order. */
    method ToArray() returns (a: array<E>)
      requires Valid()
      ensures fresh(a) && a[..] == heap[..size]
    {
      a := new E[size];
      forall i | 0 <= i < size {
        a[i] := heap[i];
      }
    }
  }

  /** The elements of s that are not null, in order. */
  function Present<E>(s: seq<Option<E>>): (r: seq<E>)
    ensures |r| <= |s|
    ensures None !in s ==> |r| == |s| && forall j :: 0 <= j < |s| ==> r[j] == s[j].value
  {
    if |s| == 0 then []
    else
      var init := Present(s[..|s| - 1]);
      assert None !in s ==> None !in s[..|s| - 1];
      match s[|s| - 1]
      case None => init
      case Some(x) => init + [x]
  }

  /** The elements of s before its first null: what addAll offers before it throws. */
  function BeforeNull<E(==)>(s: seq<Option<E>>): (r: seq<Option<E>>)
    ensures None !in r && r <= s
    ensures None in s ==> |r| < |s| && s[|r|] == None
    ensures None !in s ==> r == s
  {
    if None in s then s[..Common.IndexOf(s, None)] else s
  }

  /** One more element of s, when it is not null, adds its value to Present. */
  lemma PresentNext<E>(s: seq<Option<E>>, i: nat)
    requires i < |s| && s[i].Some?
    ensures Present(s[..i + 1]) == Present(s[..i]) + [s[i].value]
    ensures None !in s[..i] ==> None !in s[..i + 1]
  {
    assert s[..i + 1][..i] == s[..i];
  }

  /** Where the walk of addAll stops: at the first null, or at the end. */
  lemma StopAt<E>(s: seq<Option<E>>, i: nat)
    requires i <= |s| && None !in s[..i] && (i < |s| ==> s[i] == None)
    ensures BeforeNull(s) == s[..i]
    ensures None in s <==> i < |s|
  {
    if i < |s| {
      assert s[i] in s;
      IndexOfFirst(s, None, i);
    } else {
      assert s[..i] == s;
    }
  }

  /** What the loop of indexOf returns is the first position of x. */
  lemma IndexOfFirst<E>(s: seq<E>, x: E, i: nat)
    requires i < |s| && s[i] == x && forall j :: 0 <= j < i ==> s[j] != x
    ensures Common.IndexOf(s, x) == i
  {
  }
}
