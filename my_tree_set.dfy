/**
 * A sorted set over an array (lesson11/MyTreeSet.java). The elements live in
 * `elements[..size]`, strictly increasing under the comparator; membership is
 * decided by a binary search that answers -(p + 1) for a miss at insertion
 * point p.
 */
module MyTreeSet {
  import opened Common

  /**
   * What the set demands of its ordering: the signs of compare(a, b) and
   * compare(b, a) are opposite, compare answers 0 exactly for equal
   * elements, and "less than" is transitive.
   */
  ghost predicate IsOrder<E(!new)>(cmp: (E, E) -> int) {
    (forall a, b :: cmp(a, b) < 0 <==> cmp(b, a) > 0) &&
    (forall a, b :: cmp(a, b) == 0 <==> a == b) &&
    (forall a, b, c {:trigger Less2(cmp, a, b, c)} :: Less2(cmp, a, b, c) ==> cmp(a, c) < 0)
  }

  /** a is less than b and b less than c. */
  ghost predicate Less2<E>(cmp: (E, E) -> int, a: E, b: E, c: E) {
    cmp(a, b) < 0 && cmp(b, c) < 0
  }

  lemma Trans<E(!new)>(cmp: (E, E) -> int, a: E, b: E, c: E)
    requires IsOrder(cmp) && cmp(a, b) < 0 && cmp(b, c) < 0
    ensures cmp(a, c) < 0
  {
    assert Less2(cmp, a, b, c);
  }

  /** Strictly increasing under cmp. */
  ghost predicate Increasing<E>(cmp: (E, E) -> int, s: seq<E>) {
    forall i, j :: 0 <= i < j < |s| ==> cmp(s[i], s[j]) < 0
  }

  /** Everything before p is below key and everything from p on is above it. */
  ghost predicate Splits<E>(cmp: (E, E) -> int, s: seq<E>, p: nat, key: E) {
    p <= |s| &&
    (forall i :: 0 <= i < p ==> cmp(s[i], key) < 0) &&
    (forall i :: p <= i < |s| ==> cmp(s[i], key) > 0)
  }

  /** The number of elements below key: where key is, or would be inserted. */
  function Rank<E>(cmp: (E, E) -> int, s: seq<E>, key: E): (r: nat)
    ensures r <= |s|
  {
    Count(s, y => cmp(y, key) < 0)
  }

  /** A split point is the rank, and the key is absent. */
  lemma SplitsRank<E(!new)>(cmp: (E, E) -> int, s: seq<E>, p: nat, key: E)
    requires IsOrder(cmp) && Splits(cmp, s, p, key)
    ensures Rank(cmp, s, key) == p && key !in s
  {
    CountPrefix(s, y => cmp(y, key) < 0, p);
  }

  /** In an increasing sequence the position of an element is its rank. */
  lemma FoundRank<E(!new)>(cmp: (E, E) -> int, s: seq<E>, m: nat)
    requires IsOrder(cmp) && Increasing(cmp, s) && m < |s|
    ensures Rank(cmp, s, s[m]) == m
  {
    forall i | m < i < |s|
      ensures cmp(s[i], s[m]) > 0
    {
      assert cmp(s[m], s[i]) < 0;
    }
    CountPrefix(s, y => cmp(y, s[m]) < 0, m);
  }

  /** Below s[m], so is every element before it. */
  lemma BelowUpTo<E(!new)>(cmp: (E, E) -> int, s: seq<E>, m: nat, key: E)
    requires IsOrder(cmp) && Increasing(cmp, s) && m < |s| && cmp(s[m], key) < 0
    ensures forall i :: 0 <= i <= m ==> cmp(s[i], key) < 0
  {
    forall i | 0 <= i < m
      ensures cmp(s[i], key) < 0
    {
      Trans(cmp, s[i], s[m], key);
    }
  }

  /** Above s[m], so is every element after it. */
  lemma AboveFrom<E(!new)>(cmp: (E, E) -> int, s: seq<E>, m: nat, key: E)
    requires IsOrder(cmp) && Increasing(cmp, s) && m < |s| && cmp(s[m], key) > 0
    ensures forall i :: m <= i < |s| ==> cmp(s[i], key) > 0
  {
    forall i | m < i < |s|
      ensures cmp(s[i], key) > 0
    {
      Trans(cmp, key, s[m], s[i]);
    }
  }

  /** Inserting key at its split point keeps the sequence increasing. */
  lemma {:induction false} InsertIncreasing<E(!new)>(cmp: (E, E) -> int, s: seq<E>, p: nat, key: E)
    requires IsOrder(cmp) && Increasing(cmp, s) && Splits(cmp, s, p, key)
    ensures Increasing(cmp, Common.InsertAt(s, p, key))
  {
    var t := Common.InsertAt(s, p, key);
    forall i, j | 0 <= i < j < |t|
      ensures cmp(t[i], t[j]) < 0
    {
      if j == p {
        assert t[i] == s[i];
      } else if i == p {
        assert t[j] == s[j - 1];
      } else if i < p && p < j {
        Trans(cmp, s[i], key, s[j - 1]);
      } else if j < p {
        assert t[i] == s[i] && t[j] == s[j];
      } else {
        assert t[i] == s[i - 1] && t[j] == s[j - 1];
      }
    }
  }

  /** Removing any position keeps the sequence increasing and drops just that element. */
  lemma RemoveIncreasing<E(!new)>(cmp: (E, E) -> int, s: seq<E>, m: nat)
    requires IsOrder(cmp) && Increasing(cmp, s) && m < |s|
    ensures Increasing(cmp, Common.RemoveAt(s, m))
    ensures forall y :: y in Common.RemoveAt(s, m) <==> y in s && y != s[m]
  {
    var t := Common.RemoveAt(s, m);
    forall y | y in s && y != s[m]
      ensures y in t
    {
      var i :| 0 <= i < |s| && s[i] == y;
      if i < m {
        assert t[i] == y;
      } else {
        assert t[i - 1] == y;
      }
    }
    forall y | y in t
      ensures y in s && y != s[m]
    {
      var i :| 0 <= i < |t| && t[i] == y;
      if i < m {
        assert cmp(s[i], s[m]) < 0;
      } else {
        assert cmp(s[m], s[i + 1]) < 0;
      }
    }
  }

  /** DEFAULT_CAPACITY. */
  const DefaultCapacity: nat := 10

  class MyTreeSet<E(0,==,!new)> {
    var elements: array<E>
    var size: nat
    /**
     * compare(a, b): the comparator given to the constructor, or the
     * elements' natural order when there is none.
     */
    const order: (E, E) -> int

    ghost predicate Valid()
      reads this, elements
    {
      IsOrder(order) && size <= elements.Length && Increasing(order, elements[..size])
    }

    /** The set in ascending order. */
    ghost function Contents(): seq<E>
      reads this, elements
      requires size <= elements.Length
    {
      elements[..size]
    }

    /**
     * MyTreeSet() and MyTreeSet(comparator): an empty array of
     * DEFAULT_CAPACITY slots ordered by the comparator, or by compareTo when
     * the comparator is null.
     */
    constructor (comparator: Option<(E, E) -> int>, compareTo: (E, E) -> int)
      requires IsOrder(comparator.GetOr(compareTo))
      ensures Valid() && fresh(elements) && elements.Length == DefaultCapacity
      ensures order == comparator.GetOr(compareTo) && Contents() == []
    {
      elements := new E[DefaultCapacity];
      size := 0;
      order := comparator.GetOr(compareTo);
    }

    /** ensureCapacity: at least doubles the array once it has fewer than minCapacity slots. */
    method EnsureCapacity(minCapacity: nat)
      requires size <= elements.Length
      modifies this
      ensures size == old(size) && size <= elements.Length && minCapacity <= elements.Length
      ensures Contents() == old(Contents())
      ensures old(elements.Length) < minCapacity ==> fresh(elements) && elements.Length >= 2 * old(elements.Length)
      ensures minCapacity <= old(elements.Length) ==> elements == old(elements)
    {
      if minCapacity > elements.Length {
        var newCapacity := elements.Length * 2;
        if newCapacity < minCapacity {
          newCapacity := minCapacity;
        }
        var a := new E[newCapacity];
        forall i | 0 <= i < elements.Length {
          a[i] := elements[i];
        }
        elements := a;
      }
    }

    /**
     * binarySearch: the position of key, or -(p + 1) where p is the number
     * of elements below key; -1 on an empty set.
     */
    method BinarySearch(key: E) returns (r: int)
      requires Valid()
      ensures 0 <= r ==> r < size && elements[r] == key
      ensures r < 0 ==> key !in Contents() && Splits(order, Contents(), -(r + 1), key)
      ensures r == if key in Contents() then Rank(order, Contents(), key) else -(Rank(order, Contents(), key) + 1)
    {
      ghost var s := elements[..size];
      var low := 0;
      var high := size - 1;
      while low <= high
        invariant 0 <= low <= high + 1 <= size
        invariant forall i :: 0 <= i < low ==> order(s[i], key) < 0
        invariant forall i :: high < i < size ==> order(s[i], key) > 0
      {
        var mid := (low + high) / 2;
        var c := order(elements[mid], key);
        if c < 0 {
          BelowUpTo(order, s, mid, key);
          low := mid + 1;
        } else if c > 0 {
          AboveFrom(order, s, mid, key);
          high := mid - 1;
        } else {
          FoundRank(order, s, mid);
          return mid;
        }
      }
      SplitsRank(order, s, low, key);
      r := -(low + 1);
    }

    /**
     * insertAt: x goes in before position p, where index is p or -(p + 1);
     * the elements from p on shift one slot right.
     */
    method InsertAt(index: int, x: E)
      requires size <= elements.Length
      requires 0 <= (if index < 0 then -index - 1 else index) <= size
      modifies this, elements
      ensures size == old(size) + 1 <= elements.Length
      ensures Contents() == Common.InsertAt(old(Contents()), if index < 0 then -index - 1 else index, x)
    {
      EnsureCapacity(size + 1);
      var p := if index < 0 then -index - 1 else index;
      forall k | p < k <= size {
        elements[k] := elements[k - 1];
      }
      elements[p] := x;
      size := size + 1;
    }

    /** removeAt: the element at index leaves; the later ones shift one slot left. */
    method RemoveAt(index: nat) returns (removed: E)
      requires index < size <= elements.Length
      modifies this, elements
      ensures elements == old(elements) && size == old(size) - 1
      ensures removed == old(Contents())[index]
      ensures Contents() == Common.RemoveAt(old(Contents()), index)
    {
      removed := elements[index];
      forall k | index <= k < size - 1 {
        elements[k] := elements[k + 1];
      }
      size := size - 1;
    }

    function Size(): (r: nat)
      reads this, elements
      requires Valid()
      ensures r == |Contents()|
    {
      size
    }

    function IsEmpty(): (r: bool)
      reads this, elements
      requires Valid()
      ensures r <==> Contents() == []
    {
      size == 0
    }

    method Clear()
      requires Valid()
      modifies this
      ensures Valid() && Contents() == [] && elements == old(elements)
    {
      size := 0;
    }

    /**
     * add: null is refused; a present element leaves the set unchanged; a new
     * one is inserted at its insertion point.
     */
    method Add(o: Option<E>) returns (r: Result<bool>)
      requires Valid()
      modifies this, elements
      ensures Valid()
      ensures o.None? ==> r == Err(NullPointer) && Contents() == old(Contents())
      ensures o.Some? ==> r == Ok(o.value !in old(Contents()))
      ensures o.Some? && o.value in old(Contents()) ==> Contents() == old(Contents())
      ensures o.Some? && o.value !in old(Contents()) ==>
        Contents() == Common.InsertAt(old(Contents()), Rank(order, old(Contents()), o.value), o.value)
    {
      if o.None? {
        return Err(NullPointer);
      }
      var x := o.value;
      var index := BinarySearch(x);
      if index >= 0 {
        return Ok(false);
      }
      InsertIncreasing(order, elements[..size], -index - 1, x);
      InsertAt(index, x);
      r := Ok(true);
    }

    /** remove: null is refused; a present element is removed by shifting left. */
    method Remove(o: Option<E>) returns (r: Result<bool>)
      requires Valid()
      modifies this, elements
      ensures Valid()
      ensures o.None? ==> r == Err(NullPointer) && Contents() == old(Contents())
      ensures o.Some? ==> r == Ok(o.value in old(Contents()))
      ensures o.Some? ==> forall y :: y in Contents() <==> y in old(Contents()) && y != o.value
      ensures o.Some? && o.value in old(Contents()) ==>
        Contents() == Common.RemoveAt(old(Contents()), IndexOf(old(Contents()), o.value))
      ensures o.Some? && o.value !in old(Contents()) ==> Contents() == old(Contents())
    {
      if o.None? {
        return Err(NullPointer);
      }
      var x := o.value;
      var index := BinarySearch(x);
      if index < 0 {
        return Ok(false);
      }
      assert IndexOf(elements[..size], x) == index;
      RemoveIncreasing(order, elements[..size], index);
      var _ := RemoveAt(index);
      r := Ok(true);
    }

    /** contains: null is refused; otherwise a binary search. */
    method Contains(o: Option<E>) returns (r: Result<bool>)
      requires Valid()
      ensures o.None? ==> r == Err(NullPointer)
      ensures o.Some? ==> r == Ok(o.value in Contents())
    {
      if o.None? {
        return Err(NullPointer);
      }
      var index := BinarySearch(o.value);
      r := Ok(index >= 0);
    }

    /** first: the least element; NoSuchElementException on an empty set. */
    method First() returns (r: Result<E>)
      requires Valid()
      ensures r.Ok? <==> Contents() != []
      ensures r.Err? ==> r.error == NoSuchElement
      ensures r.Ok? ==> r.value in Contents() && forall y :: y in Contents() ==> order(r.value, y) <= 0
    {
      if size == 0 {
        return Err(NoSuchElement);
      }
      r := Ok(elements[0]);
      assert elements[0] == Contents()[0];
    }

    /** last: the greatest element; NoSuchElementException on an empty set. */
    method Last() returns (r: Result<E>)
      requires Valid()
      ensures r.Ok? <==> Contents() != []
      ensures r.Err? ==> r.error == NoSuchElement
      ensures r.Ok? ==> r.value in Contents() && forall y :: y in Contents() ==> order(y, r.value) <= 0
    {
      if size == 0 {
        return Err(NoSuchElement);
      }
      r := Ok(elements[size - 1]);
      assert elements[size - 1] == Contents()[size - 1];
    }

    /** ceiling: the least element at or above e, or null when there is none. */
    method Ceiling(o: Option<E>) returns (r: Result<Option<E>>)
      requires Valid()
      ensures o.None? ==> r == Err(NullPointer)
      ensures o.Some? && r.Ok? && r.value.Some? ==>
        r.value.value in Contents() && order(r.value.value, o.value) >= 0 &&
        forall y :: y in Contents() && order(y, o.value) >= 0 ==> order(r.value.value, y) <= 0
      ensures o.Some? ==> r.Ok? && (r.value.None? <==> forall y :: y in Contents() ==> order(y, o.value) < 0)
    {
      if o.None? {
        return Err(NullPointer);
      }
      var e := o.value;
      ghost var s := elements[..size];
      var index := BinarySearch(e);
      if index >= 0 {
        r := Ok(Some(elements[index]));
        assert s[index] == e;
      } else {
        var p := -index - 1;
        if p < size {
          r := Ok(Some(elements[p]));
          assert s[p] == elements[p];
          forall y | y in s && order(y, e) >= 0
            ensures order(elements[p], y) <= 0
          {
            var i :| 0 <= i < |s| && s[i] == y;
            if p < i {
              assert order(s[p], s[i]) < 0;
            }
          }
        } else {
          r := Ok(None);
        }
      }
    }

    /** floor: the greatest element at or below e, or null when there is none. */
    method Floor(o: Option<E>) returns (r: Result<Option<E>>)
      requires Valid()
      ensures o.None? ==> r == Err(NullPointer)
      ensures o.Some? && r.Ok? && r.value.Some? ==>
        r.value.value in Contents() && order(r.value.value, o.value) <= 0 &&
        forall y :: y in Contents() && order(y, o.value) <= 0 ==> order(y, r.value.value) <= 0
      ensures o.Some? ==> r.Ok? && (r.value.None? <==> forall y :: y in Contents() ==> order(y, o.value) > 0)
    {
      if o.None? {
        return Err(NullPointer);
      }
      var e := o.value;
      ghost var s := elements[..size];
      var index := BinarySearch(e);
      if index >= 0 {
        r := Ok(Some(elements[index]));
        assert s[index] == e;
      } else {
        var p := -index - 1;
        if p > 0 {
          r := Ok(Some(elements[p - 1]));
          assert s[p - 1] == elements[p - 1];
          forall y | y in s && order(y, e) <= 0
            ensures order(y, elements[p - 1]) <= 0
          {
            var i :| 0 <= i < |s| && s[i] == y;
            if i < p - 1 {
              assert order(s[i], s[p - 1]) < 0;
            }
          }
        } else {
          r := Ok(None);
        }
      }
    }

    /** toArray: a fresh array of the elements in ascending order. */
    method ToArray() returns (a: array<E>)
      requires Valid()
      ensures fresh(a) && a[..] == Contents()
    {
      a := new E[size];
      forall i | 0 <= i < size {
        a[i] := elements[i];
      }
    }

    method Iterator() returns (it: TreeSetIterator<E>)
      requires Valid()
      ensures fresh(it) && it.Valid() && it.owner == this && it.cursor == 0 && it.lastRet == -1
    {
      it := new TreeSetIterator(this);
    }
  }

  /**
   * The ascending iterator: `cursor` is the position of the next element and
   * `lastRet` that of the one last returned, or -1. It stays valid while the
   * set changes only through it.
   */
  class TreeSetIterator<E(0,==,!new)> {
    const owner: MyTreeSet<E>
    var cursor: nat
    var lastRet: int

    ghost predicate Valid()
      reads this, owner, owner.elements
    {
      owner.Valid() && cursor <= owner.size && -1 <= lastRet && (0 <= lastRet ==> lastRet == cursor - 1)
    }

    constructor (owner: MyTreeSet<E>)
      requires owner.Valid()
      ensures Valid() && this.owner == owner && cursor == 0 && lastRet == -1
    {
      this.owner := owner;
      cursor := 0;
      lastRet := -1;
    }

    method HasNext() returns (r: bool)
      requires Valid()
      ensures r <==> cursor < |owner.Contents()|
    {
      r := cursor < owner.size;
    }

    /** next: the following element in ascending order; NoSuchElementException past the end. */
    method Next() returns (r: Result<E>)
      requires Valid()
      modifies this
      ensures Valid()
      ensures r.Ok? <==> old(cursor) < |owner.Contents()|
      ensures r.Ok? ==> r.value == owner.Contents()[old(cursor)] && cursor == old(cursor) + 1 && lastRet == old(cursor)
      ensures r.Err? ==> r.error == NoSuchElement && cursor == old(cursor) && lastRet == old(lastRet)
    {
      if cursor >= owner.size {
        return Err(NoSuchElement);
      }
      lastRet := cursor;
      r := Ok(owner.elements[cursor]);
      cursor := cursor + 1;
    }

    /**
     * remove: the element last returned leaves the set and the walk resumes
     * at its old position; IllegalStateException when there is none.
     */
    method Remove() returns (o: Outcome)
      requires Valid()
      modifies this, owner, owner.elements
      ensures Valid() && owner.elements == old(owner.elements)
      ensures o.Pass? <==> old(lastRet) >= 0
      ensures o.Pass? ==> owner.Contents() == Common.RemoveAt(old(owner.Contents()), old(lastRet))
      ensures o.Pass? ==> cursor == old(lastRet) && lastRet == -1
      ensures o.Fail? ==> o.error == IllegalState && owner.Contents() == old(owner.Contents())
      ensures o.Fail? ==> cursor == old(cursor) && lastRet == old(lastRet)
    {
      if lastRet < 0 {
        return Fail(IllegalState);
      }
      RemoveIncreasing(owner.order, owner.elements[..owner.size], lastRet);
      var _ := owner.RemoveAt(lastRet);
      cursor := lastRet;
      lastRet := -1;
      o := Pass;
    }
  }
}
