/**
 * ListB: a list kept in an array that doubles when it runs out of room;
 * inserting and removing shift the later elements by one slot.
 * The abstract value of a list is the sequence `Contents()`, the first
 * `size` slots of the array. A Java collection argument is the sequence of
 * its elements in iteration order, and `None` when it is `null`.
 */
module ListB {
  import opened Common

  const DefaultCapacity: nat := 10

  // ----- the sequence operations the lists implement -----

  /** `s` with the whole of `c` spliced in before position `i` (List.addAll(int, Collection)). */
  function InsertAllAt<T>(s: seq<T>, i: nat, c: seq<T>): (r: seq<T>)
    requires i <= |s|
    ensures |r| == |s| + |c|
    ensures forall k :: 0 <= k < i ==> r[k] == s[k]
    ensures forall k :: 0 <= k < |c| ==> r[i + k] == c[k]
    ensures forall k :: i <= k < |s| ==> r[k + |c|] == s[k]
  {
    s[..i] + c + s[i..]
  }

  /** Removing what was just inserted gives the list back. */
  lemma RemoveInserted<T>(s: seq<T>, i: nat, x: T)
    requires i <= |s|
    ensures RemoveAt(InsertAt(s, i, x), i) == s
  {
    var r := RemoveAt(InsertAt(s, i, x), i);
    assert forall k :: 0 <= k < |s| ==> r[k] == s[k];
  }

  /** Inserting a one-element collection is inserting its element. */
  lemma InsertOne<T>(s: seq<T>, i: nat, x: T)
    requires i <= |s|
    ensures InsertAllAt(s, i, [x]) == InsertAt(s, i, x)
  {
  }

  /** The spliced collection sits at [i, i + |c|); cutting it out gives the list back. */
  lemma InsertAllCut<T>(s: seq<T>, i: nat, c: seq<T>)
    requires i <= |s|
    ensures var r := InsertAllAt(s, i, c); r[i..i + |c|] == c && r[..i] + r[i + |c|..] == s
  {
    var r := InsertAllAt(s, i, c);
    assert r[..i] == s[..i];
    assert r[i + |c|..] == s[i..];
  }

  /** Removing the first occurrence of `x` takes exactly one `x` out of the multiset. */
  lemma RemoveFirstMultiset<T>(s: seq<T>, x: T)
    requires x in s
    ensures multiset(RemoveAt(s, IndexOf(s, x))) == multiset(s) - multiset{x}
  {
    MultisetRemove(s, IndexOf(s, x));
  }

  /** The first occurrence is at or before the last, and they coincide exactly when `x` occurs once. */
  lemma {:induction false} FirstBeforeLast<T>(s: seq<T>, x: T)
    requires x in s
    ensures IndexOf(s, x) <= LastIndexOf(s, x)
    ensures IndexOf(s, x) == LastIndexOf(s, x) <==> multiset(s)[x] == 1
  {
    var i, j := IndexOf(s, x), LastIndexOf(s, x);
    var a, t := s[..i], s[i + 1..];
    MultisetAround(s, i);
    assert multiset(a)[x] == 0 by {
      assert x !in a;
    }
    if i == j {
      assert x !in t by {
        forall k | 0 <= k < |t|
          ensures t[k] != x
        {
          assert t[k] == s[i + 1 + k];
        }
      }
    } else {
      assert t[j - i - 1] == x;
    }
  }

  /** The multiset of `s` split around position `i`. */
  lemma MultisetAround<T>(s: seq<T>, i: nat)
    requires i < |s|
    ensures multiset(s) == multiset(s[..i]) + multiset{s[i]} + multiset(s[i + 1..])
  {
    assert s == s[..i] + [s[i]] + s[i + 1..];
  }

  /**
   * The elements of `s` whose membership in `c` is `inC`, in their original
   * order: removeAll keeps those with `inC` false, retainAll those with `inC` true.
   */
  function Sift<T(==)>(s: seq<T>, c: seq<T>, inC: bool): (r: seq<T>)
    ensures |r| <= |s|
  {
    if |s| == 0 then []
    else
      var rest := Sift(s[1..], c, inC);
      if (s[0] in c) == inC then [s[0]] + rest else rest
  }

  /** The sifted list holds exactly the elements of `s` whose membership in `c` is `inC`. */
  lemma {:induction false} SiftMembers<T(!new)>(s: seq<T>, c: seq<T>, inC: bool)
    ensures forall x :: x in Sift(s, c, inC) <==> x in s && (x in c) == inC
  {
    if |s| > 0 {
      SiftMembers(s[1..], c, inC);
      assert forall x :: x in s <==> x == s[0] || x in s[1..];
    }
  }

  /** What removeAll keeps and what retainAll keeps are, together, the whole list. */
  lemma {:induction false} SiftSplit<T>(s: seq<T>, c: seq<T>)
    ensures multiset(Sift(s, c, false)) + multiset(Sift(s, c, true)) == multiset(s)
  {
    if |s| > 0 {
      SiftSplit(s[1..], c);
      assert s == [s[0]] + s[1..];
    }
  }

  /** Sifting twice with the same collection changes nothing more. */
  lemma {:induction false} SiftTwice<T>(s: seq<T>, c: seq<T>, inC: bool)
    ensures Sift(Sift(s, c, inC), c, inC) == Sift(s, c, inC)
  {
    if |s| > 0 {
      SiftTwice(s[1..], c, inC);
      if (s[0] in c) == inC {
        assert ([s[0]] + Sift(s[1..], c, inC))[1..] == Sift(s[1..], c, inC);
      }
    }
  }

  /** Sifting a suffix that has one more element at the front. */
  lemma SiftFrom<T>(s: seq<T>, i: nat, c: seq<T>, inC: bool)
    requires i < |s|
    ensures Sift(s[i..], c, inC) == (if (s[i] in c) == inC then [s[i]] else []) + Sift(s[i + 1..], c, inC)
  {
    assert s[i..][1..] == s[i + 1..];
  }

  /** The list is kept whole exactly when every element has the kept membership. */
  lemma {:induction false} SiftKeepsAll<T>(s: seq<T>, c: seq<T>, inC: bool)
    ensures Sift(s, c, inC) == s <==> forall k :: 0 <= k < |s| ==> (s[k] in c) == inC
  {
    if |s| > 0 {
      SiftKeepsAll(s[1..], c, inC);
      if (s[0] in c) != inC {
        assert |Sift(s, c, inC)| < |s|;
      } else {
        assert forall k :: 1 <= k < |s| ==> s[k] == s[1..][k - 1];
      }
    }
  }

  /**
   * One step of sifting from the back: with the suffix after `i` already sifted,
   * position `i` holds s[i], and dropping it or keeping it sifts the suffix from `i`.
   */
  lemma SiftStep<T>(s: seq<T>, i: nat, cur: seq<T>, c: seq<T>, inC: bool)
    requires i < |s| && cur == s[..i + 1] + Sift(s[i + 1..], c, inC)
    ensures i < |cur| && cur[i] == s[i]
    ensures (s[i] in c) != inC ==> RemoveAt(cur, i) == s[..i] + Sift(s[i..], c, inC)
    ensures (s[i] in c) == inC ==> cur == s[..i] + Sift(s[i..], c, inC)
    ensures Sift(s[i..], c, inC) != s[i..] <==> (s[i] in c) != inC || Sift(s[i + 1..], c, inC) != s[i + 1..]
  {
    var rest := Sift(s[i + 1..], c, inC);
    SiftFrom(s, i, c, inC);
    assert s[i..] == [s[i]] + s[i + 1..];
    assert cur[..i] == s[..i] && cur[i + 1..] == rest;
    if (s[i] in c) == inC {
      assert Sift(s[i..], c, inC) == [s[i]] + rest;
      assert cur == s[..i] + ([s[i]] + rest) by {
        assert cur == cur[..i] + ([cur[i]] + cur[i + 1..]);
      }
      assert ([s[i]] + rest)[1..] == rest;
    } else {
      assert Sift(s[i..], c, inC) == rest;
      assert |rest| < |s[i..]|;
    }
  }

  /** A sequence that agrees with InsertAt position by position is InsertAt. */
  lemma IsInsertAt<T>(r: seq<T>, s: seq<T>, i: nat, x: T)
    requires i <= |s| && |r| == |s| + 1 && r[i] == x
    requires forall k :: 0 <= k < i ==> r[k] == s[k]
    requires forall k :: i < k < |r| ==> r[k] == s[k - 1]
    ensures r == InsertAt(s, i, x)
  {
  }

  /** A sequence that agrees with RemoveAt position by position is RemoveAt. */
  lemma IsRemoveAt<T>(r: seq<T>, s: seq<T>, i: nat)
    requires i < |s| && |r| == |s| - 1
    requires forall k :: 0 <= k < i ==> r[k] == s[k]
    requires forall k :: i <= k < |r| ==> r[k] == s[k + 1]
    ensures r == RemoveAt(s, i)
  {
  }

  /** A sequence that agrees with InsertAllAt position by position is InsertAllAt. */
  lemma IsInsertAllAt<T>(r: seq<T>, s: seq<T>, i: nat, c: seq<T>)
    requires i <= |s| && |r| == |s| + |c|
    requires forall k :: 0 <= k < i ==> r[k] == s[k]
    requires forall k :: i <= k < i + |c| ==> r[k] == c[k - i]
    requires forall k :: i + |c| <= k < |r| ==> r[k] == s[k - |c|]
    ensures r == InsertAllAt(s, i, c)
  {
    var t := InsertAllAt(s, i, c);
    forall k | 0 <= k < |r|
      ensures r[k] == t[k]
    {
      if i + |c| <= k {
        assert t[(k - |c|) + |c|] == s[k - |c|];
      } else if i <= k {
        assert t[i + (k - i)] == c[k - i];
      }
    }
  }

  // ----- moving a block of slots inside an array -----

  /** Moves slots (index, n) one place down, over slot `index`; the other slots keep their values. */
  method ShiftDown<E>(a: array<E>, index: nat, n: nat)
    requires index < n <= a.Length
    modifies a
    ensures forall k :: 0 <= k < index ==> a[k] == old(a[k])
    ensures forall k :: index <= k < n - 1 ==> a[k] == old(a[k + 1])
    ensures forall k :: n - 1 <= k < a.Length ==> a[k] == old(a[k])
  {
    var i := index;
    while i < n - 1
      invariant index <= i <= n - 1
      invariant forall k :: 0 <= k < index ==> a[k] == old(a[k])
      invariant forall k :: index <= k < i ==> a[k] == old(a[k + 1])
      invariant forall k :: i <= k < a.Length ==> a[k] == old(a[k])
    {
      a[i] := a[i + 1];
      i := i + 1;
    }
  }

  /** Moves slots [index, n) `shift` places up; the slots below `index` keep their values. */
  method ShiftUp<E>(a: array<E>, index: nat, n: nat, shift: nat)
    requires index <= n && n + shift <= a.Length
    modifies a
    ensures forall k :: 0 <= k < index ==> a[k] == old(a[k])
    ensures forall k :: index + shift <= k < n + shift ==> a[k] == old(a[k - shift])
  {
    var i := n;
    while i > index
      invariant index <= i <= n
      invariant forall k :: 0 <= k < i ==> a[k] == old(a[k])
      invariant forall k :: i + shift <= k < n + shift ==> a[k] == old(a[k - shift])
    {
      a[i - 1 + shift] := a[i - 1];
      i := i - 1;
    }
  }

  /** Opens a one-slot gap at `index` in the first `n` slots and writes `e` into it. */
  method InsertIn<E>(a: array<E>, index: nat, n: nat, e: E)
    requires index <= n < a.Length
    modifies a
    ensures a[..n + 1] == InsertAt(old(a[..n]), index, e)
  {
    ghost var s0 := a[..n];
    ShiftUp(a, index, n, 1);
    assert forall k :: 0 <= k < index ==> a[k] == s0[k];
    assert forall k :: index + 1 <= k < n + 1 ==> a[k] == s0[k - 1];
    a[index] := e;
    IsInsertAt(a[..n + 1], s0, index, e);
  }

  /** Opens a gap of |items| slots at `index` in the first `n` slots and copies `items` into it. */
  method SpliceIn<E>(a: array<E>, index: nat, n: nat, items: seq<E>)
    requires index <= n && n + |items| <= a.Length
    modifies a
    ensures a[..n + |items|] == InsertAllAt(old(a[..n]), index, items)
  {
    ghost var s0 := a[..n];
    var shift := |items|;
    ShiftUp(a, index, n, shift);
    var j := index;
    while j < index + shift
      invariant index <= j <= index + shift
      invariant forall k :: 0 <= k < index ==> a[k] == s0[k]
      invariant forall k :: index <= k < j ==> a[k] == items[k - index]
      invariant forall k :: index + shift <= k < n + shift ==> a[k] == s0[k - shift]
    {
      a[j] := items[j - index];
      j := j + 1;
    }
    IsInsertAllAt(a[..n + shift], s0, index, items);
  }

  class ListB<E(0,==,!new)> {
    var elements: array<E>
    var size: nat

    ghost predicate Valid()
      reads this
    {
      size <= elements.Length
    }

    /** The list: the first `size` slots. */
    function Contents(): (s: seq<E>)
      reads this, elements
      requires Valid()
    {
      elements[..size]
    }

    constructor ()
      ensures Valid() && fresh(elements) && elements.Length == DefaultCapacity
      ensures Contents() == []
    {
      elements := new E[DefaultCapacity];
      size := 0;
    }

    /** Grows the array, only when it holds fewer than `minCapacity` slots, to twice its length or `minCapacity` if that is more. */
    method EnsureCapacity(minCapacity: int)
      requires Valid()
      modifies this
      ensures Valid() && size == old(size) && Contents() == old(Contents())
      ensures minCapacity <= old(elements.Length) ==> elements == old(elements)
      ensures minCapacity > old(elements.Length) ==>
        fresh(elements) && elements.Length == if 2 * old(elements.Length) < minCapacity then minCapacity else 2 * old(elements.Length)
    {
      if minCapacity > elements.Length {
        var newCapacity := elements.Length * 2;
        if newCapacity < minCapacity {
          newCapacity := minCapacity;
        }
        var newElements := new E[newCapacity];
        var i := 0;
        while i < size
          invariant 0 <= i <= size
          invariant newElements[..i] == elements[..i]
          modifies newElements
        {
          newElements[i] := elements[i];
          i := i + 1;
        }
        elements := newElements;
      }
    }

    /** add(e): appends e and returns true. */
    method Add(e: E) returns (r: bool)
      requires Valid()
      modifies this, elements
      ensures Valid() && (elements == old(elements) || fresh(elements))
      ensures r && Contents() == old(Contents()) + [e]
    {
      EnsureCapacity(size + 1);
      elements[size] := e;
      size := size + 1;
      r := true;
    }

    /** remove(int): the element at `index`, removed; IndexOutOfBoundsException outside [0, size). */
    method RemoveIndex(index: int) returns (r: Result<E>)
      requires Valid()
      modifies this, elements
      ensures Valid() && elements == old(elements)
      ensures r.Ok? <==> 0 <= index < old(size)
      ensures r.Ok? ==> r.value == old(Contents())[index] && Contents() == RemoveAt(old(Contents()), index)
      ensures r.Err? ==> r.error == IndexOutOfBounds && Contents() == old(Contents())
    {
      if index < 0 || index >= size {
        return Err(IndexOutOfBounds);
      }
      var removed := elements[index];
      ghost var s0 := Contents();
      ShiftDown(elements, index, size);
      size := size - 1;
      IsRemoveAt(Contents(), s0, index);
      r := Ok(removed);
    }

    method Size() returns (n: nat)
      requires Valid()
      ensures n == |Contents()|
    {
      n := size;
    }

    /** add(int, E): e inserted before `index`; IndexOutOfBoundsException outside [0, size]. */
    method AddAt(index: int, e: E) returns (o: Outcome)
      requires Valid()
      modifies this, elements
      ensures Valid() && (elements == old(elements) || fresh(elements))
      ensures o.Pass? <==> 0 <= index <= old(size)
      ensures o.Pass? ==> Contents() == InsertAt(old(Contents()), index, e)
      ensures o.Fail? ==> o.error == IndexOutOfBounds && Contents() == old(Contents())
    {
      if index < 0 || index > size {
        return Fail(IndexOutOfBounds);
      }
      EnsureCapacity(size + 1);
      InsertIn(elements, index, size, e);
      size := size + 1;
      o := Pass;
    }

    /** remove(Object): removes the first element equal to `x` and says whether there was one. */
    method RemoveElement(x: E) returns (r: bool)
      requires Valid()
      modifies this, elements
      ensures Valid() && elements == old(elements)
      ensures r <==> x in old(Contents())
      ensures r ==> Contents() == RemoveAt(old(Contents()), IndexOf(old(Contents()), x))
      ensures !r ==> Contents() == old(Contents())
    {
      var i := 0;
      while i < size
        invariant 0 <= i <= size
        invariant x !in elements[..i]
      {
        if elements[i] == x {
          assert IndexOf(Contents(), x) == i;
          var _ := RemoveIndex(i);
          return true;
        }
        i := i + 1;
      }
      return false;
    }

    /** set(int, E): replaces the element at `index` and returns the one it replaced. */
    method Set(index: int, e: E) returns (r: Result<E>)
      requires Valid()
      modifies elements
      ensures Valid()
      ensures r.Ok? <==> 0 <= index < size
      ensures r.Ok? ==> r.value == old(Contents())[index] && Contents() == old(Contents())[index := e]
      ensures r.Err? ==> r.error == IndexOutOfBounds && Contents() == old(Contents())
    {
      if index < 0 || index >= size {
        return Err(IndexOutOfBounds);
      }
      r := Ok(elements[index]);
      elements[index] := e;
    }

    method IsEmpty() returns (r: bool)
      requires Valid()
      ensures r <==> Contents() == []
    {
      r := size == 0;
    }

    /** clear(): the list becomes empty; the array keeps its length. */
    method Clear()
      requires Valid()
      modifies this
      ensures Valid() && elements == old(elements) && Contents() == []
    {
      size := 0;
    }

    /** indexOf(Object): the first position holding `x`, or -1. */
    method IndexOfElement(x: E) returns (r: int)
      requires Valid()
      ensures r == IndexOf(Contents(), x)
    {
      var i := 0;
      while i < size
        invariant 0 <= i <= size
        invariant x !in elements[..i]
      {
        if elements[i] == x {
          return i;
        }
        i := i + 1;
      }
      return -1;
    }

    /** get(int): the element at `index`; IndexOutOfBoundsException outside [0, size). */
    method Get(index: int) returns (r: Result<E>)
      requires Valid()
      ensures r.Ok? <==> 0 <= index < |Contents()|
      ensures r.Ok? ==> r.value == Contents()[index]
      ensures r.Err? ==> r.error == IndexOutOfBounds
    {
      if index < 0 || index >= size {
        return Err(IndexOutOfBounds);
      }
      r := Ok(elements[index]);
    }

    method Contains(x: E) returns (r: bool)
      requires Valid()
      ensures r <==> x in Contents()
    {
      var i := IndexOfElement(x);
      r := i >= 0;
    }

    /** lastIndexOf(Object): the last position holding `x`, or -1. */
    method LastIndexOfElement(x: E) returns (r: int)
      requires Valid()
      ensures r == LastIndexOf(Contents(), x)
    {
      var i := size - 1;
      while i >= 0
        invariant -1 <= i < size
        invariant x !in elements[i + 1..size]
      {
        if elements[i] == x {
          return i;
        }
        i := i - 1;
      }
      return -1;
    }

    /** containsAll: whether every element of `c` is in the list; a null `c` throws when iterated. */
    method ContainsAll(c: Option<seq<E>>) returns (r: Result<bool>)
      requires Valid()
      ensures c.None? <==> r.Err?
      ensures r.Err? ==> r.error == NullPointer
      ensures r.Ok? ==> (r.value <==> forall k :: 0 <= k < |c.value| ==> c.value[k] in Contents())
    {
      if c.None? {
        return Err(NullPointer);
      }
      var i := 0;
      while i < |c.value|
        invariant 0 <= i <= |c.value|
        invariant forall k :: 0 <= k < i ==> c.value[k] in Contents()
      {
        var found := Contains(c.value[i]);
        if !found {
          return Ok(false);
        }
        i := i + 1;
      }
      r := Ok(true);
    }

    /** addAll(Collection): appends `c`; false, with no change, for a null or empty `c`. */
    method AddAll(c: Option<seq<E>>) returns (r: bool)
      requires Valid()
      modifies this, elements
      ensures Valid() && (elements == old(elements) || fresh(elements))
      ensures r <==> c.Some? && c.value != []
      ensures Contents() == if r then old(Contents()) + c.value else old(Contents())
    {
      if c.None? || |c.value| == 0 {
        return false;
      }
      EnsureCapacity(size + |c.value|);
      ghost var s0 := Contents();
      r := false;
      var i := 0;
      while i < |c.value|
        invariant 0 <= i <= |c.value| && (r <==> i > 0)
        invariant Valid() && (elements == old(elements) || fresh(elements))
        invariant Contents() == s0 + c.value[..i]
      {
        var _ := Add(c.value[i]);
        assert c.value[..i + 1] == c.value[..i] + [c.value[i]];
        r := true;
        i := i + 1;
      }
      assert c.value[..i] == c.value;
    }

    /**
     * addAll(int, Collection): `c` spliced in before `index`; IndexOutOfBoundsException
     * outside [0, size], and false with no change for a null or empty `c`.
     */
    method AddAllAt(index: int, c: Option<seq<E>>) returns (r: Result<bool>)
      requires Valid()
      modifies this, elements
      ensures Valid() && (elements == old(elements) || fresh(elements))
      ensures r.Err? <==> !(0 <= index <= old(size))
      ensures r.Err? ==> r.error == IndexOutOfBounds
      ensures r.Ok? ==> (r.value <==> c.Some? && c.value != [])
      ensures Contents() == if r == Ok(true) then InsertAllAt(old(Contents()), index, c.value) else old(Contents())
    {
      if index < 0 || index > size {
        return Err(IndexOutOfBounds);
      }
      if c.None? || |c.value| == 0 {
        return Ok(false);
      }
      var items := c.value;
      EnsureCapacity(size + |items|);
      SpliceIn(elements, index, size, items);
      size := size + |items|;
      r := Ok(true);
    }

    /**
     * Walks from the last position down to the first and removes every element
     * whose membership in `c` is not `inC`; afterwards the list is
     * Sift(old list, c, inC).
     */
    method SiftInPlace(c: seq<E>, inC: bool) returns (modified: bool)
      requires Valid()
      modifies this, elements
      ensures Valid() && elements == old(elements)
      ensures Contents() == Sift(old(Contents()), c, inC)
      ensures modified <==> Contents() != old(Contents())
    {
      ghost var s0 := Contents();
      modified := false;
      var i := size - 1;
      while i >= 0
        invariant -1 <= i < |s0| && Valid() && elements == old(elements)
        invariant Contents() == s0[..i + 1] + Sift(s0[i + 1..], c, inC)
        invariant modified <==> Sift(s0[i + 1..], c, inC) != s0[i + 1..]
      {
        SiftStep(s0, i, Contents(), c, inC);
        if (elements[i] in c) != inC {
          var _ := RemoveIndex(i);
          modified := true;
        }
        i := i - 1;
      }
      assert s0[0..] == s0;
    }

    /** removeAll: every element contained in `c` removed; false, with no change, for a null or empty `c`. */
    method RemoveAll(c: Option<seq<E>>) returns (r: bool)
      requires Valid()
      modifies this, elements
      ensures Valid() && elements == old(elements)
      ensures c.None? || c.value == [] ==> !r && Contents() == old(Contents())
      ensures c.Some? && c.value != [] ==> Contents() == Sift(old(Contents()), c.value, false)
      ensures r <==> exists k :: 0 <= k < |old(Contents())| && old(Contents())[k] in c.GetOr([])
    {
      if c.None? || |c.value| == 0 {
        return false;
      }
      r := SiftInPlace(c.value, false);
      SiftKeepsAll(old(Contents()), c.value, false);
    }

    /** retainAll: every element not contained in `c` removed; false, with no change, for a null `c`. */
    method RetainAll(c: Option<seq<E>>) returns (r: bool)
      requires Valid()
      modifies this, elements
      ensures Valid() && elements == old(elements)
      ensures c.None? ==> !r && Contents() == old(Contents())
      ensures c.Some? ==> Contents() == Sift(old(Contents()), c.value, true)
      ensures c.Some? ==> (r <==> exists k :: 0 <= k < |old(Contents())| && old(Contents())[k] !in c.value)
    {
      if c.None? {
        return false;
      }
      r := SiftInPlace(c.value, true);
      SiftKeepsAll(old(Contents()), c.value, true);
    }

    /** subList(from, to): a new list holding [from, to); IndexOutOfBoundsException for a bad range. */
    method SubList(from: int, to: int) returns (r: Result<ListB<E>>)
      requires Valid()
      ensures r.Err? <==> from < 0 || to > size || from > to
      ensures r.Err? ==> r.error == IndexOutOfBounds
      ensures r.Ok? ==> fresh(r.value) && fresh(r.value.elements) && r.value.Valid()
      ensures r.Ok? ==> r.value.Contents() == Contents()[from..to]
    {
      if from < 0 || to > size || from > to {
        return Err(IndexOutOfBounds);
      }
      ghost var s := Contents();
      var sub := new ListB<E>();
      var i := from;
      while i < to
        invariant from <= i <= to
        invariant fresh(sub) && fresh(sub.elements) && sub.Valid()
        invariant sub.Contents() == s[from..i]
      {
        var _ := sub.Add(elements[i]);
        assert s[from..i + 1] == s[from..i] + [s[i]];
        i := i + 1;
      }
      r := Ok(sub);
    }

    /** toArray(): a new array holding exactly the elements, in order. */
    method ToArray() returns (a: array<E>)
      requires Valid()
      ensures fresh(a) && a[..] == Contents()
    {
      a := new E[size];
      var i := 0;
      while i < size
        invariant 0 <= i <= size
        invariant a[..i] == elements[..i]
      {
        a[i] := elements[i];
        i := i + 1;
      }
    }
  }
}
