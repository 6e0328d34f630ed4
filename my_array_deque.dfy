/**
 * MyArrayDeque: a deque in a circular array whose length is a power of two.
 * `head` is the slot of the first element, `tail` the slot after the last,
 * and the deque is the `size` slots from `head` on, wrapping at the end of
 * the array. Elements are never null; a Java `null` argument is `None`, and
 * the methods that return `null` on an empty deque return `None`.
 */
module MyArrayDeque {
  import opened Common

  const DefaultCapacity: nat := 8

  /** 1, 2, 4, 8, ... */
  ghost predicate Pow2(n: nat) {
    if n <= 1 then n == 1 else n % 2 == 0 && Pow2(n / 2)
  }

  lemma {:induction false} Pow2Double(n: nat)
    requires Pow2(n)
    ensures Pow2(2 * n)
  {
    assert (2 * n) / 2 == n;
  }

  lemma Pow2Default()
    ensures Pow2(DefaultCapacity)
  {
    assert Pow2(1) && Pow2(2) && Pow2(4);
  }

  /**
   * wrapIndex: index & (length - 1). For a power-of-two length this keeps the
   * low bits of the two's-complement index, which is its Euclidean remainder.
   */
  function WrapIndex(index: int, length: nat): (r: int)
    requires length > 0
    ensures 0 <= r < length
  {
    index % length
  }

  /** Near the array the wrap is a single step up or down. */
  lemma {:induction false} WrapNear(index: int, length: int)
    requires length > 0 && -length <= index < 2 * length
    ensures WrapIndex(index, length) == if index < 0 then index + length else if index < length then index else index - length
  {
    var r := if index < 0 then index + length else if index < length then index else index - length;
    var q := if index < 0 then -1 else if index < length then 0 else 1;
    DivModUnique(index, q, r, length);
  }

  /** The slot of the element `i` places after slot `h`, in an array of length `n`. */
  function Slot(h: nat, i: nat, n: nat): (r: nat)
    requires h < n && i <= n
  {
    if h + i < n then h + i else h + i - n
  }

  /** The slot is (h + i) mod n: the position that wrapIndex(h + i) gives. */
  lemma SlotWrap(h: nat, i: nat, n: nat)
    requires h < n && i <= n
    ensures Slot(h, i, n) == WrapIndex(h + i, n) && Slot(h, i, n) < n
  {
    WrapNear(h + i, n);
  }

  /** Starting one slot later and one element shorter ends at the same slot. */
  lemma SlotAdvance(h: nat, size: nat, n: nat)
    requires h < n && 0 < size <= n
    ensures Slot(h, 1, n) < n && Slot(Slot(h, 1, n), size - 1, n) == Slot(h, size, n)
  {
  }

  /** The slot before the end of a non-empty window is that of its last element. */
  lemma SlotRetreat(h: nat, size: nat, n: nat)
    requires h < n && 0 < size <= n
    ensures WrapIndex(Slot(h, size, n) - 1, n) == Slot(h, size - 1, n)
  {
    WrapNear(Slot(h, size, n) - 1, n);
  }

  /** Different positions of a window shorter than the array use different slots. */
  lemma SlotInjective(h: nat, i: nat, j: nat, n: nat)
    requires h < n && i < n && j < n && i != j
    ensures Slot(h, i, n) != Slot(h, j, n)
  {
  }

  /** The `size` elements that start at slot `h` of `a`, wrapping at its end. */
  function Window<E>(a: seq<E>, h: nat, size: nat): (r: seq<E>)
    requires h < |a| && size <= |a|
    ensures |r| == size
    ensures forall i :: 0 <= i < size ==> r[i] == a[Slot(h, i, |a|)]
  {
    seq(size, i requires 0 <= i < size => a[Slot(h, i, |a|)])
  }

  /** A window that starts one slot later is the window without its first element. */
  lemma WindowTail<E>(a: seq<E>, h: nat, size: nat)
    requires h < |a| && 0 < size <= |a|
    ensures Window(a, Slot(h, 1, |a|), size - 1) == Window(a, h, size)[1..]
  {
  }

  /** Writing one slot of the window changes that one element of it. */
  lemma WindowUpdate<E>(a: seq<E>, h: nat, size: nat, j: nat, x: E)
    requires h < |a| && size <= |a| && j < size
    ensures Window(a[Slot(h, j, |a|) := x], h, size) == Window(a, h, size)[j := x]
  {
    var n := |a|;
    var b := a[Slot(h, j, n) := x];
    var w := Window(a, h, size);
    var v := Window(b, h, size);
    forall k | 0 <= k < size
      ensures v[k] == w[j := x][k]
    {
      if k != j {
        SlotInjective(h, j, k, n);
      }
    }
  }

  /** A window without its last element is the shorter window. */
  lemma WindowInit<E>(a: seq<E>, h: nat, size: nat)
    requires h < |a| && 0 < size <= |a|
    ensures Window(a, h, size - 1) == Window(a, h, size)[..size - 1]
  {
  }

  /** Writing slot g and starting the window there puts x in front of the window that starts one slot on. */
  lemma WindowPushFront<E>(a: seq<E>, g: nat, size: nat, x: E)
    requires g < |a| && size < |a|
    ensures Window(a[g := x], g, size + 1) == [x] + Window(a, Slot(g, 1, |a|), size)
  {
    var n := |a|;
    var w := Window(a, Slot(g, 1, n), size);
    var v := Window(a[g := x], g, size + 1);
    forall k | 1 <= k < size + 1
      ensures v[k] == w[k - 1]
    {
      SlotAdvance(g, k, n);
      SlotInjective(g, 0, k, n);
    }
  }

  /** Writing the slot after the window and widening it puts x at the back. */
  lemma WindowPushBack<E>(a: seq<E>, h: nat, size: nat, x: E)
    requires h < |a| && size < |a|
    ensures Window(a[Slot(h, size, |a|) := x], h, size + 1) == Window(a, h, size) + [x]
  {
    var n := |a|;
    var w := Window(a, h, size);
    var v := Window(a[Slot(h, size, n) := x], h, size + 1);
    forall k | 0 <= k < size
      ensures v[k] == w[k]
    {
      SlotInjective(h, k, size, n);
    }
  }

  /** After shifting the front part one place on, dropping the front leaves s0 without element i. */
  lemma ShiftedFront<E>(w: seq<E>, s0: seq<E>, i: nat)
    requires |w| == |s0| && i < |w| && w[0] == s0[0]
    requires forall k :: 0 < k <= i ==> w[k] == s0[k - 1]
    requires forall k :: i < k < |w| ==> w[k] == s0[k]
    ensures w[1..] == RemoveAt(s0, i)
  {
  }

  /** After shifting the back part one place back, dropping the back leaves s0 without element i. */
  lemma ShiftedBack<E>(w: seq<E>, s0: seq<E>, i: nat)
    requires |w| == |s0| && i < |w|
    requires forall k :: 0 <= k < i ==> w[k] == s0[k]
    requires forall k :: i <= k < |w| - 1 ==> w[k] == s0[k + 1]
    ensures w[..|w| - 1] == RemoveAt(s0, i)
  {
  }

  /** System.arraycopy between two different arrays. */
  method ArrayCopy<E>(src: array<E>, srcPos: nat, dst: array<E>, dstPos: nat, n: nat)
    requires src != dst && srcPos + n <= src.Length && dstPos + n <= dst.Length
    modifies dst
    ensures forall k :: dstPos <= k < dstPos + n ==> dst[k] == src[k - dstPos + srcPos]
    ensures forall k :: 0 <= k < dst.Length && !(dstPos <= k < dstPos + n) ==> dst[k] == old(dst[k])
  {
    var i := 0;
    while i < n
      invariant 0 <= i <= n
      invariant forall k :: dstPos <= k < dstPos + i ==> dst[k] == src[k - dstPos + srcPos]
      invariant forall k :: 0 <= k < dst.Length && !(dstPos <= k < dstPos + i) ==> dst[k] == old(dst[k])
    {
      dst[dstPos + i] := src[srcPos + i];
      i := i + 1;
    }
  }

  class MyArrayDeque<E(0,==)> {
    var elements: array<E>
    var head: nat
    var tail: nat
    var size: nat

    ghost predicate Valid()
      reads this
    {
      Pow2(elements.Length) && head < elements.Length && size <= elements.Length &&
      tail == Slot(head, size, elements.Length) && tail < elements.Length
    }

    /** The deque, first element first. */
    function Contents(): (s: seq<E>)
      reads this, elements
      requires Valid()
    {
      Window(elements[..], head, size)
    }

    constructor ()
      ensures Valid() && fresh(elements) && elements.Length == DefaultCapacity
      ensures Contents() == [] && head == 0 && tail == 0
    {
      elements := new E[DefaultCapacity];
      head, tail, size := 0, 0, 0;
      Pow2Default();
    }

    /**
     * resize: the elements move, in order, to the front of a new array;
     * head becomes 0 and tail the size.
     */
    method Resize(newCapacity: nat)
      requires Valid() && size < newCapacity && Pow2(newCapacity)
      modifies this
      ensures Valid() && fresh(elements) && elements.Length == newCapacity
      ensures head == 0 && tail == size && size == old(size)
      ensures Contents() == old(Contents())
    {
      var n := elements.Length;
      ghost var s0 := Contents();
      var newElements := new E[newCapacity];
      if head < tail {
        ArrayCopy(elements, head, newElements, 0, size);
      } else if size > 0 {
        var firstPart := n - head;
        ArrayCopy(elements, head, newElements, 0, firstPart);
        ArrayCopy(elements, 0, newElements, firstPart, tail);
      }
      forall k | 0 <= k < size
        ensures newElements[k] == s0[k]
      {
        assert s0[k] == elements[Slot(head, k, n)];
      }
      elements := newElements;
      head := 0;
      tail := size;
      assert Contents() == s0;
    }

    /** ensureCapacity: doubles the array, only when it has fewer than `minCapacity` slots. */
    method EnsureCapacity(minCapacity: nat)
      requires Valid() && minCapacity <= size + 1
      modifies this
      ensures Valid() && size == old(size) && Contents() == old(Contents())
      ensures minCapacity <= old(elements.Length) ==> elements == old(elements) && head == old(head) && tail == old(tail)
      ensures minCapacity > old(elements.Length) ==> fresh(elements) && elements.Length == 2 * old(elements.Length)
      ensures minCapacity <= elements.Length
    {
      if minCapacity > elements.Length {
        var newCapacity := elements.Length * 2;
        if newCapacity < minCapacity {
          newCapacity := minCapacity;
        }
        Pow2Double(elements.Length);
        Resize(newCapacity);
      }
    }

    method Size() returns (n: nat)
      requires Valid()
      ensures n == |Contents()|
    {
      n := size;
    }

    /** The step of addFirst after the capacity check: head moves back one slot, onto v. */
    method PushFront(v: E)
      requires Valid() && size < elements.Length
      modifies this, elements
      ensures Valid() && elements == old(elements)
      ensures Contents() == [v] + old(Contents())
    {
      var n := elements.Length;
      WrapNear(head - 1, n);
      var h := WrapIndex(head - 1, n);
      assert Slot(h, 1, n) == head;
      SlotAdvance(h, size + 1, n);
      ghost var a0 := elements[..];
      ghost var s0 := Window(a0, head, size);
      WindowPushFront(a0, h, size, v);
      elements[h] := v;
      ghost var a1 := elements[..];
      assert a1 == a0[h := v];
      head := h;
      size := size + 1;
      assert elements[..] == a1;
      assert Contents() == Window(a1, head, size) == [v] + s0;
    }

    /** The step of addLast after the capacity check: v goes to slot tail, which moves on one slot. */
    method PushBack(v: E)
      requires Valid() && size < elements.Length
      modifies this, elements
      ensures Valid() && elements == old(elements)
      ensures Contents() == old(Contents()) + [v]
    {
      var n := elements.Length;
      ghost var a0 := elements[..];
      ghost var s0 := Window(a0, head, size);
      WindowPushBack(a0, head, size, v);
      elements[tail] := v;
      ghost var a1 := elements[..];
      assert a1 == a0[tail := v];
      SlotWrap(head, size + 1, n);
      WrapNear(tail + 1, n);
      tail := WrapIndex(tail + 1, n);
      size := size + 1;
      assert elements[..] == a1;
      assert Contents() == Window(a1, head, size) == s0 + [v];
    }

    /** addFirst (also push, offerFirst): e becomes the first element; NullPointerException for null. */
    method AddFirst(e: Option<E>) returns (o: Outcome)
      requires Valid()
      modifies this, elements
      ensures Valid() && (elements == old(elements) || fresh(elements))
      ensures o.Pass? <==> e.Some?
      ensures o.Fail? ==> o.error == NullPointer && Contents() == old(Contents())
      ensures o.Pass? ==> Contents() == [e.value] + old(Contents())
    {
      if e.None? {
        return Fail(NullPointer);
      }
      EnsureCapacity(size + 1);
      PushFront(e.value);
      o := Pass;
    }

    /** addLast (also add, offer, offerLast): e becomes the last element; NullPointerException for null. */
    method AddLast(e: Option<E>) returns (o: Outcome)
      requires Valid()
      modifies this, elements
      ensures Valid() && (elements == old(elements) || fresh(elements))
      ensures o.Pass? <==> e.Some?
      ensures o.Fail? ==> o.error == NullPointer && Contents() == old(Contents())
      ensures o.Pass? ==> Contents() == old(Contents()) + [e.value]
    {
      if e.None? {
        return Fail(NullPointer);
      }
      EnsureCapacity(size + 1);
      PushBack(e.value);
      o := Pass;
    }

    /** getFirst (also element): the first element; NoSuchElementException when empty. */
    method GetFirst() returns (r: Result<E>)
      requires Valid()
      ensures r.Ok? <==> Contents() != []
      ensures r.Ok? ==> r.value == Contents()[0]
      ensures r.Err? ==> r.error == NoSuchElement
    {
      if size == 0 {
        return Err(NoSuchElement);
      }
      r := Ok(elements[head]);
    }

    /** getLast: the last element; NoSuchElementException when empty. */
    method GetLast() returns (r: Result<E>)
      requires Valid()
      ensures r.Ok? <==> Contents() != []
      ensures r.Ok? ==> r.value == Contents()[|Contents()| - 1]
      ensures r.Err? ==> r.error == NoSuchElement
    {
      if size == 0 {
        return Err(NoSuchElement);
      }
      var n := elements.Length;
      WrapNear(tail - 1, n);
      var lastIndex := WrapIndex(tail - 1, n);
      assert lastIndex == Slot(head, size - 1, n);
      r := Ok(elements[lastIndex]);
    }

    /** pollFirst (also poll): removes and returns the first element; null when empty. */
    method PollFirst() returns (r: Option<E>)
      requires Valid()
      modifies this
      ensures Valid() && elements == old(elements)
      ensures r.Some? <==> old(Contents()) != []
      ensures r.Some? ==> r.value == old(Contents())[0] && Contents() == old(Contents())[1..]
      ensures r.None? ==> Contents() == old(Contents())
    {
      if size == 0 {
        return None;
      }
      ghost var s0 := Contents();
      var n := elements.Length;
      r := Some(elements[head]);
      WindowTail(elements[..], head, size);
      WrapNear(head + 1, n);
      head := WrapIndex(head + 1, n);
      size := size - 1;
    }

    /** pollLast: removes and returns the last element; null when empty. */
    method PollLast() returns (r: Option<E>)
      requires Valid()
      modifies this
      ensures Valid() && elements == old(elements)
      ensures r.Some? <==> old(Contents()) != []
      ensures r.Some? ==> r.value == old(Contents())[|old(Contents())| - 1]
      ensures r.Some? ==> Contents() == old(Contents())[..|old(Contents())| - 1]
      ensures r.None? ==> Contents() == old(Contents())
    {
      if size == 0 {
        return None;
      }
      var n := elements.Length;
      WrapNear(tail - 1, n);
      tail := WrapIndex(tail - 1, n);
      assert tail == Slot(head, size - 1, n);
      r := Some(elements[tail]);
      size := size - 1;
    }

    /** removeFirst (also remove, pop): the first element, removed; NoSuchElementException when empty. */
    method RemoveFirst() returns (r: Result<E>)
      requires Valid()
      modifies this
      ensures Valid() && elements == old(elements)
      ensures r.Ok? <==> old(Contents()) != []
      ensures r.Ok? ==> r.value == old(Contents())[0] && Contents() == old(Contents())[1..]
      ensures r.Err? ==> r.error == NoSuchElement && Contents() == old(Contents())
    {
      if size == 0 {
        return Err(NoSuchElement);
      }
      var x := PollFirst();
      r := Ok(x.value);
    }

    /** removeLast: the last element, removed; NoSuchElementException when empty. */
    method RemoveLast() returns (r: Result<E>)
      requires Valid()
      modifies this
      ensures Valid() && elements == old(elements)
      ensures r.Ok? <==> old(Contents()) != []
      ensures r.Ok? ==> r.value == old(Contents())[|old(Contents())| - 1]
      ensures r.Ok? ==> Contents() == old(Contents())[..|old(Contents())| - 1]
      ensures r.Err? ==> r.error == NoSuchElement && Contents() == old(Contents())
    {
      if size == 0 {
        return Err(NoSuchElement);
      }
      var x := PollLast();
      r := Ok(x.value);
    }

    /** peekFirst (also peek): the first element, or null when empty. */
    method PeekFirst() returns (r: Option<E>)
      requires Valid()
      ensures r.Some? <==> Contents() != []
      ensures r.Some? ==> r.value == Contents()[0]
    {
      if size == 0 {
        return None;
      }
      var x := GetFirst();
      r := Some(x.value);
    }

    /** peekLast: the last element, or null when empty. */
    method PeekLast() returns (r: Option<E>)
      requires Valid()
      ensures r.Some? <==> Contents() != []
      ensures r.Some? ==> r.value == Contents()[|Contents()| - 1]
    {
      if size == 0 {
        return None;
      }
      var x := GetLast();
      r := Some(x.value);
    }

    method IsEmpty() returns (r: bool)
      requires Valid()
      ensures r <==> Contents() == []
    {
      r := size == 0;
    }

    /** contains: whether an element equals `o`; no element equals null. */
    method Contains(o: Option<E>) returns (r: bool)
      requires Valid()
      ensures r <==> o.Some? && o.value in Contents()
    {
      var n := elements.Length;
      var i := 0;
      while i < size
        invariant 0 <= i <= size
        invariant forall k :: 0 <= k < i ==> Some(Contents()[k]) != o
      {
        SlotWrap(head, i, n);
        var index := WrapIndex(head + i, n);
        if Some(elements[index]) == o {
          return true;
        }
        i := i + 1;
      }
      return false;
    }

    /** toArray(): a new array holding the elements, first to last. */
    method ToArray() returns (a: array<E>)
      requires Valid()
      ensures fresh(a) && a[..] == Contents()
    {
      var n := elements.Length;
      a := new E[size];
      var i := 0;
      while i < size
        invariant 0 <= i <= size
        invariant forall k :: 0 <= k < i ==> a[k] == Contents()[k]
      {
        SlotWrap(head, i, n);
        a[i] := elements[WrapIndex(head + i, n)];
        i := i + 1;
      }
    }

    /** clear: the deque becomes empty with head = tail = 0; the array keeps its length. */
    method Clear()
      requires Valid()
      modifies this
      ensures Valid() && elements == old(elements)
      ensures Contents() == [] && head == 0 && tail == 0
    {
      head, tail, size := 0, 0, 0;
    }

    /**
     * The copying loop of the front-half case of the iterator's remove: the
     * elements before position `i` move one slot on, over it.
     */
    method ShiftFrontHalf(i: nat)
      requires Valid() && i < size
      modifies elements
      ensures Valid() && |Contents()| == size
      ensures Contents()[1..] == RemoveAt(old(Contents()), i)
    {
      ghost var s0 := Contents();
      var n := elements.Length;
      var j := i;
      ghost var w := s0;
      while j > 0
        invariant 0 <= j <= i && Contents() == w && |w| == |s0|
        invariant forall k :: 0 <= k <= j ==> w[k] == s0[k]
        invariant forall k :: j < k <= i ==> w[k] == s0[k - 1]
        invariant forall k :: i < k < |w| ==> w[k] == s0[k]
      {
        SlotWrap(head, j - 1, n);
        SlotWrap(head, j, n);
        var from := WrapIndex(head + j - 1, n);
        var to := WrapIndex(head + j, n);
        assert elements[from] == w[j - 1];
        WindowUpdate(elements[..], head, size, j, elements[from]);
        elements[to] := elements[from];
        w := w[j := w[j - 1]];
        j := j - 1;
      }
      ShiftedFront(w, s0, i);
    }

    /**
     * The front-half case of the iterator's remove: after the copying loop,
     * head moves one slot on.
     */
    method CloseFromHead(i: nat)
      requires Valid() && i < size
      modifies this, elements
      ensures Valid() && elements == old(elements)
      ensures Contents() == RemoveAt(old(Contents()), i)
    {
      ShiftFrontHalf(i);
      var n := elements.Length;
      ghost var a := elements[..];
      ghost var w := Contents();
      var h := WrapIndex(head + 1, n);
      assert h == Slot(head, 1, n) by { SlotWrap(head, 1, n); }
      assert Window(a, h, size - 1) == w[1..] by { WindowTail(a, head, size); }
      assert tail == Slot(h, size - 1, n) by { SlotAdvance(head, size, n); }
      head := h;
      size := size - 1;
      assert elements[..] == a;
    }

    /**
     * The copying loop of the back-half case of the iterator's remove: the
     * elements after position `i` move one slot back, over it.
     */
    method ShiftBackHalf(i: nat)
      requires Valid() && i < size
      modifies elements
      ensures Valid() && |Contents()| == size
      ensures Contents()[..size - 1] == RemoveAt(old(Contents()), i)
    {
      ghost var s0 := Contents();
      var n := elements.Length;
      var j := i;
      ghost var w := s0;
      while j < size - 1
        invariant i <= j <= size - 1 && Contents() == w && |w| == |s0| == size
        invariant forall k :: 0 <= k < i ==> w[k] == s0[k]
        invariant forall k :: i <= k < j ==> w[k] == s0[k + 1]
        invariant forall k :: j <= k < |w| ==> w[k] == s0[k]
      {
        SlotWrap(head, j + 1, n);
        SlotWrap(head, j, n);
        var from := WrapIndex(head + j + 1, n);
        var to := WrapIndex(head + j, n);
        assert elements[from] == w[j + 1];
        WindowUpdate(elements[..], head, size, j, elements[from]);
        elements[to] := elements[from];
        w := w[j := w[j + 1]];
        j := j + 1;
      }
      ShiftedBack(w, s0, i);
    }

    /**
     * The back-half case of the iterator's remove: after the copying loop,
     * tail moves one slot back.
     */
    method CloseFromTail(i: nat)
      requires Valid() && i < size
      modifies this, elements
      ensures Valid() && elements == old(elements)
      ensures Contents() == RemoveAt(old(Contents()), i)
    {
      ShiftBackHalf(i);
      var n := elements.Length;
      ghost var a := elements[..];
      ghost var w := Contents();
      var t := WrapIndex(tail - 1, n);
      assert t == Slot(head, size - 1, n) by { SlotRetreat(head, size, n); }
      assert Window(a, head, size - 1) == w[..size - 1] by { WindowInit(a, head, size); }
      tail := t;
      size := size - 1;
      assert elements[..] == a;
    }

    /** iterator(): a cursor before the first element. */
    method Iterator() returns (it: DequeIterator<E>)
      requires Valid()
      ensures fresh(it) && it.Valid() && it.deque == this && it.cursor == 0 && it.lastRet == -1
    {
      it := new DequeIterator(this);
    }

    /** descendingIterator(): a cursor on the last element. */
    method DescendingIterator() returns (it: DescendingIterator<E>)
      requires Valid()
      ensures fresh(it) && it.Valid() && it.deque == this && it.cursor == |Contents()| - 1
    {
      it := new DescendingIterator(this);
    }
  }

  /**
   * The forward cursor: `cursor` is the position of the next element and
   * `lastRet` the position of the element last returned, or -1.
   */
  class DequeIterator<E(0,==)> {
    const deque: MyArrayDeque<E>
    var cursor: int
    var lastRet: int

    ghost predicate Valid()
      reads this, deque
    {
      deque.Valid() && 0 <= cursor <= deque.size && -1 <= lastRet < deque.size
    }

    constructor (deque: MyArrayDeque<E>)
      requires deque.Valid()
      ensures Valid() && this.deque == deque && cursor == 0 && lastRet == -1
    {
      this.deque := deque;
      cursor := 0;
      lastRet := -1;
    }

    method HasNext() returns (r: bool)
      requires Valid()
      ensures r <==> cursor < |deque.Contents()|
    {
      r := cursor < deque.size;
    }

    /** next(): the element at the cursor, which moves past it; NoSuchElementException at the end. */
    method Next() returns (r: Result<E>)
      requires Valid()
      modifies this
      ensures Valid()
      ensures r.Ok? <==> old(cursor) < |deque.Contents()|
      ensures r.Ok? ==> r.value == deque.Contents()[old(cursor)] && cursor == old(cursor) + 1 && lastRet == old(cursor)
      ensures r.Err? ==> r.error == NoSuchElement && cursor == old(cursor) && lastRet == old(lastRet)
    {
      if cursor >= deque.size {
        return Err(NoSuchElement);
      }
      var n := deque.elements.Length;
      SlotWrap(deque.head, cursor, n);
      var index := WrapIndex(deque.head + cursor, n);
      lastRet := cursor;
      cursor := cursor + 1;
      r := Ok(deque.elements[index]);
    }

    /**
     * remove(): removes the element last returned by moving the shorter side
     * over it: the elements before it one slot on when it is in the front
     * half, the elements after it one slot back otherwise. The cursor goes
     * back to its position; IllegalStateException when there is no such element.
     */
    method Remove() returns (o: Outcome)
      requires Valid()
      modifies this, deque, deque.elements
      ensures Valid() && deque.elements == old(deque.elements)
      ensures o.Pass? <==> old(lastRet) >= 0
      ensures o.Pass? ==> deque.Contents() == RemoveAt(old(deque.Contents()), old(lastRet))
      ensures o.Pass? ==> cursor == old(lastRet) && lastRet == -1
      ensures o.Fail? ==> o.error == IllegalState && deque.Contents() == old(deque.Contents())
      ensures o.Fail? ==> cursor == old(cursor) && lastRet == old(lastRet)
    {
      if lastRet < 0 {
        return Fail(IllegalState);
      }
      if lastRet < deque.size / 2 {
        deque.CloseFromHead(lastRet);
      } else {
        deque.CloseFromTail(lastRet);
      }
      cursor := lastRet;
      lastRet := -1;
      o := Pass;
    }
  }

  /** The backward cursor: `cursor` is the position of the next element to return. */
  class DescendingIterator<E(0,==)> {
    const deque: MyArrayDeque<E>
    var cursor: int

    ghost predicate Valid()
      reads this, deque
    {
      deque.Valid() && -1 <= cursor < deque.size
    }

    constructor (deque: MyArrayDeque<E>)
      requires deque.Valid()
      ensures Valid() && this.deque == deque && cursor == deque.size - 1
    {
      this.deque := deque;
      cursor := deque.size - 1;
    }

    method HasNext() returns (r: bool)
      requires Valid()
      ensures r <==> cursor >= 0
    {
      r := cursor >= 0;
    }

    /** next(): the element at the cursor, which moves one back; NoSuchElementException before the first. */
    method Next() returns (r: Result<E>)
      requires Valid()
      modifies this
      ensures Valid()
      ensures r.Ok? <==> old(cursor) >= 0
      ensures r.Ok? ==> r.value == deque.Contents()[old(cursor)] && cursor == old(cursor) - 1
      ensures r.Err? ==> r.error == NoSuchElement && cursor == old(cursor)
    {
      if cursor < 0 {
        return Err(NoSuchElement);
      }
      var n := deque.elements.Length;
      SlotWrap(deque.head, cursor, n);
      var index := WrapIndex(deque.head + cursor, n);
      cursor := cursor - 1;
      r := Ok(deque.elements[index]);
    }
  }
}
