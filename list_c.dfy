/**
 * ListC: the growable array list of ListB, with bulk operations that reject a
 * null collection, a sized subList, both toArray forms and list cursors.
 * Its single-element operations are ListB's code line for line; the
 * sequence operations and the array shifting they use are ListB's.
 */
module ListC {
  import opened Common
  import L = ListB

  class ListC<E(0,==,!new)> {
    var elements: array<E>
    var size: nat

    ghost predicate Valid()
      reads this
    {
      size <= elements.Length
    }

    /** The list: the first `size` slots. */
    function Contents(): (s: seq<E>)
      reads this, elements
      requires Valid()
    {
      elements[..size]
    }

    constructor ()
      ensures Valid() && fresh(elements) && elements.Length == L.DefaultCapacity
      ensures Contents() == []
    {
      elements := new E[L.DefaultCapacity];
      size := 0;
    }

    /** Grows the array, only when it holds fewer than `minCapacity` slots, to twice its length or `minCapacity` if that is more. */
    method EnsureCapacity(minCapacity: int)
      requires Valid()
      modifies this
      ensures Valid() && size == old(size) && Contents() == old(Contents())
      ensures minCapacity <= old(elements.Length) ==> elements == old(elements)
      ensures minCapacity > old(elements.Length) ==>
        fresh(elements) && elements.Length == if 2 * old(elements.Length) < minCapacity then minCapacity else 2 * old(elements.Length)
    {
      if minCapacity > elements.Length {
        var newCapacity := elements.Length * 2;
        if newCapacity < minCapacity {
          newCapacity := minCapacity;
        }
        var newElements := new E[newCapacity];
        var i := 0;
        while i < size
          invariant 0 <= i <= size
          invariant newElements[..i] == elements[..i]
          modifies newElements
        {
          newElements[i] := elements[i];
          i := i + 1;
        }
        elements := newElements;
      }
    }

    /** add(e): appends e and returns true. */
    method Add(e: E) returns (r: bool)
      requires Valid()
      modifies this, elements
      ensures Valid() && (elements == old(elements) || fresh(elements))
      ensures r && Contents() == old(Contents()) + [e]
    {
      EnsureCapacity(size + 1);
      elements[size] := e;
      size := size + 1;
      r := true;
    }

    /** remove(int): the element at `index`, removed; IndexOutOfBoundsException outside [0, size). */
    method RemoveIndex(index: int) returns (r: Result<E>)
      requires Valid()
      modifies this, elements
      ensures Valid() && elements == old(elements)
      ensures r.Ok? <==> 0 <= index < old(size)
      ensures r.Ok? ==> r.value == old(Contents())[index] && Contents() == RemoveAt(old(Contents()), index)
      ensures r.Err? ==> r.error == IndexOutOfBounds && Contents() == old(Contents())
    {
      if index < 0 || index >= size {
        return Err(IndexOutOfBounds);
      }
      var removed := elements[index];
      ghost var s0 := Contents();
      L.ShiftDown(elements, index, size);
      size := size - 1;
      L.IsRemoveAt(Contents(), s0, index);
      r := Ok(removed);
    }

    method Size() returns (n: nat)
      requires Valid()
      ensures n == |Contents()|
    {
      n := size;
    }

    /** add(int, E): e inserted before `index`; IndexOutOfBoundsException outside [0, size]. */
    method AddAt(index: int, e: E) returns (o: Outcome)
      requires Valid()
      modifies this, elements
      ensures Valid() && (elements == old(elements) || fresh(elements))
      ensures o.Pass? <==> 0 <= index <= old(size)
      ensures o.Pass? ==> Contents() == InsertAt(old(Contents()), index, e)
      ensures o.Fail? ==> o.error == IndexOutOfBounds && Contents() == old(Contents())
    {
      if index < 0 || index > size {
        return Fail(IndexOutOfBounds);
      }
      EnsureCapacity(size + 1);
      L.InsertIn(elements, index, size, e);
      size := size + 1;
      o := Pass;
    }

    /** remove(Object): removes the first element equal to `x` and says whether there was one. */
    method RemoveElement(x: E) returns (r: bool)
      requires Valid()
      modifies this, elements
      ensures Valid() && elements == old(elements)
      ensures r <==> x in old(Contents())
      ensures r ==> Contents() == RemoveAt(old(Contents()), IndexOf(old(Contents()), x))
      ensures !r ==> Contents() == old(Contents())
    {
      var i := 0;
      while i < size
        invariant 0 <= i <= size
        invariant x !in elements[..i]
      {
        if elements[i] == x {
          assert IndexOf(Contents(), x) == i;
          var _ := RemoveIndex(i);
          return true;
        }
        i := i + 1;
      }
      return false;
    }

    /** set(int, E): replaces the element at `index` and returns the one it replaced. */
    method Set(index: int, e: E) returns (r: Result<E>)
      requires Valid()
      modifies elements
      ensures Valid()
      ensures r.Ok? <==> 0 <= index < size
      ensures r.Ok? ==> r.value == old(Contents())[index] && Contents() == old(Contents())[index := e]
      ensures r.Err? ==> r.error == IndexOutOfBounds && Contents() == old(Contents())
    {
      if index < 0 || index >= size {
        return Err(IndexOutOfBounds);
      }
      r := Ok(elements[index]);
      elements[index] := e;
    }

    method IsEmpty() returns (r: bool)
      requires Valid()
      ensures r <==> Contents() == []
    {
      r := size == 0;
    }

    /** clear(): the list becomes empty; the array keeps its length. */
    method Clear()
      requires Valid()
      modifies this
      ensures Valid() && elements == old(elements) && Contents() == []
    {
      size := 0;
    }

    /** indexOf(Object): the first position holding `x`, or -1. */
    method IndexOfElement(x: E) returns (r: int)
      requires Valid()
      ensures r == IndexOf(Contents(), x)
    {
      var i := 0;
      while i < size
        invariant 0 <= i <= size
        invariant x !in elements[..i]
      {
        if elements[i] == x {
          return i;
        }
        i := i + 1;
      }
      return -1;
    }

    /** get(int): the element at `index`; IndexOutOfBoundsException outside [0, size). */
    method Get(index: int) returns (r: Result<E>)
      requires Valid()
      ensures r.Ok? <==> 0 <= index < |Contents()|
      ensures r.Ok? ==> r.value == Contents()[index]
      ensures r.Err? ==> r.error == IndexOutOfBounds
    {
      if index < 0 || index >= size {
        return Err(IndexOutOfBounds);
      }
      r := Ok(elements[index]);
    }

    method Contains(x: E) returns (r: bool)
      requires Valid()
      ensures r <==> x in Contents()
    {
      var i := IndexOfElement(x);
      r := i >= 0;
    }

    /** lastIndexOf(Object): the last position holding `x`, or -1. */
    method LastIndexOfElement(x: E) returns (r: int)
      requires Valid()
      ensures r == LastIndexOf(Contents(), x)
    {
      var i := size - 1;
      while i >= 0
        invariant -1 <= i < size
        invariant x !in elements[i + 1..size]
      {
        if elements[i] == x {
          return i;
        }
        i := i - 1;
      }
      return -1;
    }

    /** containsAll: whether every element of `c` is in the list; NullPointerException for a null `c`. */
    method ContainsAll(c: Option<seq<E>>) returns (r: Result<bool>)
      requires Valid()
      ensures c.None? <==> r.Err?
      ensures r.Err? ==> r.error == NullPointer
      ensures r.Ok? ==> (r.value <==> forall k :: 0 <= k < |c.value| ==> c.value[k] in Contents())
    {
      if c.None? {
        return Err(NullPointer);
      }
      var i := 0;
      while i < |c.value|
        invariant 0 <= i <= |c.value|
        invariant forall k :: 0 <= k < i ==> c.value[k] in Contents()
      {
        var found := Contains(c.value[i]);
        if !found {
          return Ok(false);
        }
        i := i + 1;
      }
      r := Ok(true);
    }

    /** addAll(Collection): appends `c`; NullPointerException for a null `c`, false with no change for an empty one. */
    method AddAll(c: Option<seq<E>>) returns (r: Result<bool>)
      requires Valid()
      modifies this, elements
      ensures Valid() && (elements == old(elements) || fresh(elements))
      ensures r.Err? <==> c.None?
      ensures r.Err? ==> r.error == NullPointer
      ensures r.Ok? ==> (r.value <==> c.value != [])
      ensures Contents() == if r == Ok(true) then old(Contents()) + c.value else old(Contents())
    {
      if c.None? {
        return Err(NullPointer);
      }
      if |c.value| == 0 {
        return Ok(false);
      }
      EnsureCapacity(size + |c.value|);
      ghost var s0 := Contents();
      var i := 0;
      while i < |c.value|
        invariant 0 <= i <= |c.value|
        invariant Valid() && (elements == old(elements) || fresh(elements))
        invariant Contents() == s0 + c.value[..i]
      {
        var _ := Add(c.value[i]);
        assert c.value[..i + 1] == c.value[..i] + [c.value[i]];
        i := i + 1;
      }
      assert c.value[..i] == c.value;
      r := Ok(true);
    }

    /**
     * addAll(int, Collection): `c` spliced in before `index`; IndexOutOfBoundsException
     * outside [0, size], then NullPointerException for a null `c`, and false with
     * no change for an empty one.
     */
    method AddAllAt(index: int, c: Option<seq<E>>) returns (r: Result<bool>)
      requires Valid()
      modifies this, elements
      ensures Valid() && (elements == old(elements) || fresh(elements))
      ensures r == Err(IndexOutOfBounds) <==> !(0 <= index <= old(size))
      ensures r == Err(NullPointer) <==> 0 <= index <= old(size) && c.None?
      ensures r.Ok? ==> (r.value <==> c.value != [])
      ensures Contents() == if r == Ok(true) then L.InsertAllAt(old(Contents()), index, c.value) else old(Contents())
    {
      if index < 0 || index > size {
        return Err(IndexOutOfBounds);
      }
      if c.None? {
        return Err(NullPointer);
      }
      if |c.value| == 0 {
        return Ok(false);
      }
      var items := c.value;
      var newSize := size + |items|;
      EnsureCapacity(newSize);
      L.SpliceIn(elements, index, size, items);
      size := newSize;
      r := Ok(true);
    }

    /**
     * Walks from the last position down to the first and removes every element
     * whose membership in `c` is not `inC`; afterwards the list is
     * Sift(old list, c, inC).
     */
    method SiftInPlace(c: seq<E>, inC: bool) returns (modified: bool)
      requires Valid()
      modifies this, elements
      ensures Valid() && elements == old(elements)
      ensures Contents() == L.Sift(old(Contents()), c, inC)
      ensures modified <==> Contents() != old(Contents())
    {
      ghost var s0 := Contents();
      modified := false;
      var i := size - 1;
      while i >= 0
        invariant -1 <= i < |s0| && Valid() && elements == old(elements)
        invariant Contents() == s0[..i + 1] + L.Sift(s0[i + 1..], c, inC)
        invariant modified <==> L.Sift(s0[i + 1..], c, inC) != s0[i + 1..]
      {
        L.SiftStep(s0, i, Contents(), c, inC);
        if (elements[i] in c) != inC {
          var _ := RemoveIndex(i);
          modified := true;
        }
        i := i - 1;
      }
      assert s0[0..] == s0;
    }

    /**
     * removeAll: every element contained in `c` removed; NullPointerException for
     * a null `c`, false with no change for an empty one.
     */
    method RemoveAll(c: Option<seq<E>>) returns (r: Result<bool>)
      requires Valid()
      modifies this, elements
      ensures Valid() && elements == old(elements)
      ensures r.Err? <==> c.None?
      ensures r.Err? ==> r.error == NullPointer
      ensures r.Ok? ==> Contents() == L.Sift(old(Contents()), c.value, false)
      ensures r.Err? ==> Contents() == old(Contents())
      ensures r.Ok? ==> (r.value <==> exists k :: 0 <= k < |old(Contents())| && old(Contents())[k] in c.value)
    {
      if c.None? {
        return Err(NullPointer);
      }
      if |c.value| == 0 {
        L.SiftKeepsAll(Contents(), c.value, false);
        return Ok(false);
      }
      var modified := SiftInPlace(c.value, false);
      L.SiftKeepsAll(old(Contents()), c.value, false);
      r := Ok(modified);
    }

    /** retainAll: every element not contained in `c` removed; NullPointerException for a null `c`. */
    method RetainAll(c: Option<seq<E>>) returns (r: Result<bool>)
      requires Valid()
      modifies this, elements
      ensures Valid() && elements == old(elements)
      ensures r.Err? <==> c.None?
      ensures r.Err? ==> r.error == NullPointer && Contents() == old(Contents())
      ensures r.Ok? ==> Contents() == L.Sift(old(Contents()), c.value, true)
      ensures r.Ok? ==> (r.value <==> exists k :: 0 <= k < |old(Contents())| && old(Contents())[k] !in c.value)
    {
      if c.None? {
        return Err(NullPointer);
      }
      var modified := SiftInPlace(c.value, true);
      L.SiftKeepsAll(old(Contents()), c.value, true);
      r := Ok(modified);
    }

    /**
     * subList(from, to): a new list, its array sized for the range first, holding
     * [from, to); IndexOutOfBoundsException for a bad range.
     */
    method SubList(from: int, to: int) returns (r: Result<ListC<E>>)
      requires Valid()
      ensures r.Err? <==> from < 0 || to > size || from > to
      ensures r.Err? ==> r.error == IndexOutOfBounds
      ensures r.Ok? ==> fresh(r.value) && fresh(r.value.elements) && r.value.Valid()
      ensures r.Ok? ==> r.value.Contents() == Contents()[from..to]
    {
      if from < 0 || to > size || from > to {
        return Err(IndexOutOfBounds);
      }
      ghost var s := Contents();
      var sub := new ListC<E>();
      sub.EnsureCapacity(to - from);
      var i := from;
      while i < to
        invariant from <= i <= to
        invariant fresh(sub) && fresh(sub.elements) && sub.Valid()
        invariant sub.Contents() == s[from..i]
      {
        var _ := sub.Add(elements[i]);
        assert s[from..i + 1] == s[from..i] + [s[i]];
        i := i + 1;
      }
      r := Ok(sub);
    }

    /** listIterator(int): a cursor before position `index`; IndexOutOfBoundsException outside [0, size]. */
    method ListIterator(index: int) returns (r: Result<ListItr<E>>)
      requires Valid()
      ensures r.Err? <==> !(0 <= index <= size)
      ensures r.Err? ==> r.error == IndexOutOfBounds
      ensures r.Ok? ==> fresh(r.value) && r.value.Valid() && r.value.list == this
      ensures r.Ok? ==> r.value.cursor == index && r.value.lastRet == -1
    {
      if index < 0 || index > size {
        return Err(IndexOutOfBounds);
      }
      var it := new ListItr(this, index);
      r := Ok(it);
    }

    /** iterator() and listIterator(): a cursor before the first element. */
    method Iterator() returns (it: ListItr<E>)
      requires Valid()
      ensures fresh(it) && it.Valid() && it.list == this && it.cursor == 0 && it.lastRet == -1
    {
      it := new ListItr(this, 0);
    }

    /** toArray(): a new array holding exactly the elements, in order. */
    method ToArray() returns (a: array<E>)
      requires Valid()
      ensures fresh(a) && a[..] == Contents()
    {
      a := new E[size];
      var i := 0;
      while i < size
        invariant 0 <= i <= size
        invariant a[..i] == elements[..i]
      {
        a[i] := elements[i];
        i := i + 1;
      }
    }

    /**
     * toArray(T[]): the elements copied into `a` when it is long enough, and
     * into a new array of exactly `size` slots otherwise.
     */
    method ToArrayInto(a: array<E>) returns (r: array<E>)
      requires Valid() && a != elements
      modifies a
      ensures a.Length < size ==> fresh(r) && r[..] == Contents() && a[..] == old(a[..])
      ensures a.Length >= size ==> r == a && a[..size] == Contents()
      ensures a.Length >= size ==> forall k :: size < k < a.Length ==> a[k] == old(a[k])
    {
      if a.Length < size {
        r := ToArray();
        return;
      }
      var i := 0;
      while i < size
        invariant 0 <= i <= size
        invariant a[..i] == elements[..i]
        invariant forall k :: size < k < a.Length ==> a[k] == old(a[k])
      {
        a[i] := elements[i];
        i := i + 1;
      }
      r := a;
    }
  }

  /**
   * ListC's cursors. Itr keeps `cursor`, the position of the next element, and
   * `lastRet`, the position of the element last returned or -1; ListItr adds
   * moving backwards, `set` and `add`. Both are this one class here.
   */
  class ListItr<E(0,==,!new)> {
    const list: ListC<E>
    var cursor: int
    var lastRet: int

    ghost predicate Valid()
      reads this, list
    {
      list.Valid() && 0 <= cursor <= list.size && -1 <= lastRet < list.size
    }

    constructor (list: ListC<E>, index: int)
      requires list.Valid() && 0 <= index <= list.size
      ensures Valid() && this.list == list && cursor == index && lastRet == -1
    {
      this.list := list;
      cursor := index;
      lastRet := -1;
    }

    method HasNext() returns (r: bool)
      requires Valid()
      ensures r <==> cursor < |list.Contents()|
    {
      r := cursor != list.size;
    }

    /** next(): the element at the cursor, which moves past it; NoSuchElementException at the end. */
    method Next() returns (r: Result<E>)
      requires Valid()
      modifies this
      ensures Valid()
      ensures r.Ok? <==> old(cursor) < |list.Contents()|
      ensures r.Ok? ==> r.value == list.Contents()[old(cursor)] && cursor == old(cursor) + 1 && lastRet == old(cursor)
      ensures r.Err? ==> r.error == NoSuchElement && cursor == old(cursor) && lastRet == old(lastRet)
    {
      if cursor == list.size {
        return Err(NoSuchElement);
      }
      lastRet := cursor;
      r := Ok(list.elements[cursor]);
      cursor := cursor + 1;
    }

    /**
     * remove(): removes the element last returned; the cursor goes back to its
     * position. IllegalStateException when no element was returned since the last change.
     */
    method Remove() returns (o: Outcome)
      requires Valid()
      modifies this, list, list.elements
      ensures Valid() && list.elements == old(list.elements)
      ensures o.Pass? <==> old(lastRet) >= 0
      ensures o.Pass? ==> list.Contents() == RemoveAt(old(list.Contents()), old(lastRet))
      ensures o.Pass? ==> cursor == old(lastRet) && lastRet == -1
      ensures o.Fail? ==> o.error == IllegalState && list.Contents() == old(list.Contents())
      ensures o.Fail? ==> cursor == old(cursor) && lastRet == old(lastRet)
    {
      if lastRet < 0 {
        return Fail(IllegalState);
      }
      var _ := list.RemoveIndex(lastRet);
      cursor := lastRet;
      lastRet := -1;
      o := Pass;
    }

    method HasPrevious() returns (r: bool)
      requires Valid()
      ensures r <==> cursor > 0
    {
      r := cursor != 0;
    }

    /** previous(): the cursor moves back over one element and returns it; NoSuchElementException at the start. */
    method Previous() returns (r: Result<E>)
      requires Valid()
      modifies this
      ensures Valid()
      ensures r.Ok? <==> old(cursor) > 0
      ensures r.Ok? ==> cursor == old(cursor) - 1 && lastRet == cursor && r.value == list.Contents()[cursor]
      ensures r.Err? ==> r.error == NoSuchElement && cursor == old(cursor) && lastRet == old(lastRet)
    {
      if cursor == 0 {
        return Err(NoSuchElement);
      }
      cursor := cursor - 1;
      lastRet := cursor;
      r := Ok(list.elements[cursor]);
    }

    method NextIndex() returns (r: int)
      requires Valid()
      ensures r == cursor
    {
      r := cursor;
    }

    method PreviousIndex() returns (r: int)
      requires Valid()
      ensures r == cursor - 1
    {
      r := cursor - 1;
    }

    /** set(e): replaces the element last returned; IllegalStateException when there is none. */
    method Set(e: E) returns (o: Outcome)
      requires Valid()
      modifies list.elements
      ensures Valid()
      ensures o.Pass? <==> lastRet >= 0
      ensures o.Pass? ==> list.Contents() == old(list.Contents())[lastRet := e]
      ensures o.Fail? ==> o.error == IllegalState && list.Contents() == old(list.Contents())
    {
      if lastRet < 0 {
        return Fail(IllegalState);
      }
      var _ := list.Set(lastRet, e);
      o := Pass;
    }

    /** add(e): inserts e before the cursor, which moves past it; no element counts as last returned. */
    method Add(e: E)
      requires Valid()
      modifies this, list, list.elements
      ensures Valid() && (list.elements == old(list.elements) || fresh(list.elements))
      ensures list.Contents() == InsertAt(old(list.Contents()), old(cursor), e)
      ensures cursor == old(cursor) + 1 && lastRet == -1
    {
      var i := cursor;
      var _ := list.AddAt(i, e);
      cursor := i + 1;
      lastRet := -1;
    }
  }
}
